/**
  Video-ID extraction of the start handler (app.js line 63): the first match
  of `/(?:v=|\/|youtu\.be\/)([0-9A-Za-z_-]{11})/` in the URL, and its
  capture group. The search is written out as a scan over start positions.
*/
module VideoId {
  import opened Options

  /** Length of a video ID, the `{11}` of the pattern. */
  const IdLength: nat := 11

  /** The class `[0-9A-Za-z_-]`. */
  predicate IsIdChar(c: char)
  {
    '0' <= c <= '9' || 'A' <= c <= 'Z' || 'a' <= c <= 'z' || c == '_' || c == '-'
  }

  /** Eleven characters of the ID class. */
  predicate IsVideoId(id: string)
  {
    |id| == IdLength && forall k :: 0 <= k < |id| ==> IsIdChar(id[k])
  }

  /** The literal `lit` occurs in `s` at position `p`. */
  predicate LiteralAt(s: string, p: nat, lit: string)
  {
    p + |lit| <= |s| && s[p..p + |lit|] == lit
  }

  /** A video ID starts at position `q` of `s`; what follows it is not looked at. */
  predicate IdAt(s: string, q: nat)
  {
    q + IdLength <= |s| && IsVideoId(s[q..q + IdLength])
  }

  /** The alternative `lit` of the group `(?:v=|\/|youtu\.be\/)` matches at `p`, followed by an ID. */
  predicate AltMatches(s: string, p: nat, lit: string)
  {
    LiteralAt(s, p, lit) && IdAt(s, p + |lit|)
  }

  /** The whole pattern matches at position `p`, by one of its three alternatives. */
  predicate MatchesAt(s: string, p: nat)
  {
    AltMatches(s, p, "v=") || AltMatches(s, p, "/") || AltMatches(s, p, "youtu.be/")
  }

  /** The capture group of the match at `p`, taking the alternatives in the order the pattern lists them. */
  function CaptureAt(s: string, p: nat): (id: string)
    requires MatchesAt(s, p)
    ensures IsVideoId(id)
  {
    if AltMatches(s, p, "v=") then s[p + 2..p + 2 + IdLength]
    else if AltMatches(s, p, "/") then s[p + 1..p + 1 + IdLength]
    else s[p + 9..p + 9 + IdLength]
  }

  /**
    The three alternatives begin with different characters, so at most one
    of them occurs at any position: backtracking between them cannot change
    the capture.
  */
  lemma AlternativesExclusive(s: string, p: nat)
    ensures !(LiteralAt(s, p, "v=") && LiteralAt(s, p, "/"))
    ensures !(LiteralAt(s, p, "v=") && LiteralAt(s, p, "youtu.be/"))
    ensures !(LiteralAt(s, p, "/") && LiteralAt(s, p, "youtu.be/"))
  {
    if LiteralAt(s, p, "v=") { assert s[p] == "v="[0]; }
    if LiteralAt(s, p, "/") { assert s[p] == "/"[0]; }
    if LiteralAt(s, p, "youtu.be/") { assert s[p] == "youtu.be/"[0]; }
  }

  /** A match can only start at a `v`, a `/` or a `y`. */
  lemma MatchStartsWithPrefixChar(s: string, p: nat)
    requires MatchesAt(s, p)
    ensures s[p] == 'v' || s[p] == '/' || s[p] == 'y'
  {
    if AltMatches(s, p, "v=") { assert s[p] == "v="[0]; }
    else if AltMatches(s, p, "/") { assert s[p] == "/"[0]; }
    else { assert s[p] == "youtu.be/"[0]; }
  }

  /** The pattern matches at `p` and at no earlier position: the match the regex engine reports. */
  predicate LeftmostMatch(s: string, p: nat)
  {
    p <= |s| && MatchesAt(s, p) && forall q :: 0 <= q < p ==> !MatchesAt(s, q)
  }

  /** The leftmost position at or after `p` where the pattern matches, if any. */
  function SearchFrom(s: string, p: nat): (m: Option<nat>)
    requires p <= |s|
    ensures m.Some? ==> p <= m.value <= |s| && MatchesAt(s, m.value)
    ensures m.Some? ==> forall q :: p <= q < m.value ==> !MatchesAt(s, q)
    ensures m.None? ==> forall q :: p <= q <= |s| ==> !MatchesAt(s, q)
    decreases |s| - p
  {
    if MatchesAt(s, p) then Some(p)
    else if p == |s| then None
    else SearchFrom(s, p + 1)
  }

  /**
    `url.match(pattern)[1]`, or `None` when there is no match: the ID right
    after the leftmost occurrence of `v=`, `/` or `youtu.be/` that is
    followed by eleven ID characters.
  */
  function Extract(url: string): (id: Option<string>)
    ensures id.None? <==> forall p :: 0 <= p <= |url| ==> !MatchesAt(url, p)
    ensures id.Some? ==> IsVideoId(id.value)
    ensures id.Some? ==> exists p :: LeftmostMatch(url, p) && id.value == CaptureAt(url, p)
  {
    match SearchFrom(url, 0)
    case None => None
    case Some(p) => Some(CaptureAt(url, p))
  }

  /** Within a match of alternative `lit` at `q`, position `k` holds the literal's character or an ID character. */
  lemma CharInMatch(s: string, q: nat, lit: string, k: nat)
    requires AltMatches(s, q, lit) && q <= k < q + |lit| + IdLength
    ensures k < q + |lit| ==> s[k] == lit[k - q]
    ensures q + |lit| <= k ==> IsIdChar(s[k])
  {
    if k < q + |lit| {
      assert s[q..q + |lit|][k - q] == s[k];
    } else {
      assert s[q + |lit|..q + |lit| + IdLength][k - q - |lit|] == s[k];
    }
  }

  /** An alternative that matches inside `s` still matches, on the same characters, once anything is appended. */
  lemma AltSurvivesAppend(s: string, t: string, p: nat, lit: string)
    requires AltMatches(s, p, lit)
    ensures AltMatches(s + t, p, lit)
    ensures (s + t)[p + |lit|..p + |lit| + IdLength] == s[p + |lit|..p + |lit| + IdLength]
  {
    var u := s + t;
    assert u[p..p + |lit|] == s[p..p + |lit|];
    assert u[p + |lit|..p + |lit| + IdLength] == s[p + |lit|..p + |lit| + IdLength];
  }

  /** A match inside `s` is still a match, with the same capture, once anything is appended. */
  lemma MatchSurvivesAppend(s: string, t: string, p: nat)
    requires MatchesAt(s, p)
    ensures MatchesAt(s + t, p) && CaptureAt(s + t, p) == CaptureAt(s, p)
  {
    AlternativesExclusive(s + t, p);
    if AltMatches(s, p, "v=") {
      AltSurvivesAppend(s, t, p, "v=");
    } else if AltMatches(s, p, "/") {
      AltSurvivesAppend(s, t, p, "/");
    } else {
      AltSurvivesAppend(s, t, p, "youtu.be/");
    }
  }

  /** A match at `q` that fits inside `s` is a match of `s`. */
  lemma MatchInPrefix(s: string, t: string, q: nat, lit: string)
    requires AltMatches(s + t, q, lit) && q + |lit| + IdLength <= |s|
    ensures AltMatches(s, q, lit)
  {
    var u := s + t;
    assert u[q..q + |lit|] == s[q..q + |lit|];
    assert u[q + |lit|..q + |lit| + IdLength] == s[q + |lit|..q + |lit| + IdLength];
  }

  /**
    An alternative `lit` matching at `q` before the leftmost match `p` of
    `s` cannot reach past the end of `s`: it would have to cover a
    character of the match at `p` that neither an ID nor `lit` allows there.
  */
  lemma NoEarlierMatchAfterAppend(s: string, t: string, p: nat, q: nat, lit: string)
    requires LeftmostMatch(s, p) && q < p
    requires lit == "v=" || lit == "/" || lit == "youtu.be/"
    ensures !AltMatches(s + t, q, lit)
  {
    var u := s + t;
    if AltMatches(u, q, lit) {
      if q + |lit| + IdLength <= |s| {
        assert !MatchesAt(s, q);
        MatchInPrefix(s, t, q, lit);
      } else if AltMatches(s, p, "v=") {
        CharInMatch(s, p, "v=", p + 1);
        CharInMatch(u, q, lit, p + 1);
      } else if AltMatches(s, p, "/") {
        CharInMatch(s, p, "/", p);
        CharInMatch(u, q, lit, p);
      }
    }
  }

  /**
    Nothing after the eleven ID characters is looked at: appending anything
    to a URL with an ID leaves its ID unchanged. In particular a longer
    token yields its first eleven characters.
  */
  lemma ExtractIgnoresTail(url: string, rest: string)
    requires Extract(url).Some?
    ensures Extract(url + rest) == Extract(url)
  {
    var p: nat :| LeftmostMatch(url, p) && Extract(url).value == CaptureAt(url, p);
    MatchSurvivesAppend(url, rest, p);
    forall q | 0 <= q < p
      ensures !MatchesAt(url + rest, q)
    {
      NoEarlierMatchAfterAppend(url, rest, p, q, "v=");
      NoEarlierMatchAfterAppend(url, rest, p, q, "/");
      NoEarlierMatchAfterAppend(url, rest, p, q, "youtu.be/");
    }
    assert LeftmostMatch(url + rest, p);
    LeftmostIsExtracted(url + rest, p);
  }

  /** No match starts at a character other than `v`, `/` or `y`. */
  lemma NoMatchAtOther(s: string, p: nat)
    requires p < |s| && s[p] != 'v' && s[p] != '/' && s[p] != 'y'
    ensures !MatchesAt(s, p)
  {
    if MatchesAt(s, p) {
      MatchStartsWithPrefixChar(s, p);
    }
  }

  /**
    No match starts at a `/` when a character within the eleven after it
    is outside the ID class.
  */
  lemma NoMatchAtSlash(s: string, q: nat, j: nat)
    requires q < j <= q + IdLength && j < |s|
    requires s[q] == '/' && !IsIdChar(s[j])
    ensures !MatchesAt(s, q)
  {
    AlternativesExclusive(s, q);
    if q + 1 + IdLength <= |s| {
      assert s[q + 1..q + 1 + IdLength][j - q - 1] == s[j];
    }
  }

  /** No match starts at a `y` that does not begin `youtu.be/`. */
  lemma NoMatchAtY(s: string, q: nat, j: nat)
    requires j < |"youtu.be/"| && q + j < |s|
    requires s[q] == 'y' && s[q + j] != "youtu.be/"[j]
    ensures !MatchesAt(s, q)
  {
    if q + 9 <= |s| {
      assert s[q..q + 9][j] == s[q + j];
    }
  }

  /** The leftmost match decides the extracted ID. */
  lemma LeftmostIsExtracted(s: string, p: nat)
    requires LeftmostMatch(s, p)
    ensures Extract(s) == Some(CaptureAt(s, p))
  {
  }

  /** No match starts at positions 0 to 4 of a watch-page URL followed by an ID. */
  lemma WatchUrlScan0(id: string)
    requires IsVideoId(id)
    ensures forall q :: 0 <= q < 5 ==> !MatchesAt("https://www.youtube.com/watch?v=" + id, q)
  {
    var s := "https://www.youtube.com/watch?v=" + id;
    forall q | 0 <= q < 5
      ensures !MatchesAt(s, q)
    {
      if q == 0 {
        assert s[0] == 'h';
        NoMatchAtOther(s, 0);
      } else if q == 1 {
        assert s[1] == 't';
        NoMatchAtOther(s, 1);
      } else if q == 2 {
        assert s[2] == 't';
        NoMatchAtOther(s, 2);
      } else if q == 3 {
        assert s[3] == 'p';
        NoMatchAtOther(s, 3);
      } else if q == 4 {
        assert s[4] == 's';
        NoMatchAtOther(s, 4);
      }
    }
  }

  /** No match starts at positions 5 to 9 of a watch-page URL followed by an ID. */
  lemma WatchUrlScan5(id: string)
    requires IsVideoId(id)
    ensures forall q :: 5 <= q < 10 ==> !MatchesAt("https://www.youtube.com/watch?v=" + id, q)
  {
    var s := "https://www.youtube.com/watch?v=" + id;
    forall q | 5 <= q < 10
      ensures !MatchesAt(s, q)
    {
      if q == 5 {
        assert s[5] == ':';
        NoMatchAtOther(s, 5);
      } else if q == 6 {
        assert s[6] == '/' && s[7] == '/';
        NoMatchAtSlash(s, 6, 7);
      } else if q == 7 {
        assert s[7] == '/' && s[11] == '.';
        NoMatchAtSlash(s, 7, 11);
      } else if q == 8 {
        assert s[8] == 'w';
        NoMatchAtOther(s, 8);
      } else if q == 9 {
        assert s[9] == 'w';
        NoMatchAtOther(s, 9);
      }
    }
  }

  /** No match starts at positions 10 to 14 of a watch-page URL followed by an ID. */
  lemma WatchUrlScan10(id: string)
    requires IsVideoId(id)
    ensures forall q :: 10 <= q < 15 ==> !MatchesAt("https://www.youtube.com/watch?v=" + id, q)
  {
    var s := "https://www.youtube.com/watch?v=" + id;
    forall q | 10 <= q < 15
      ensures !MatchesAt(s, q)
    {
      if q == 10 {
        assert s[10] == 'w';
        NoMatchAtOther(s, 10);
      } else if q == 11 {
        assert s[11] == '.';
        NoMatchAtOther(s, 11);
      } else if q == 12 {
        assert s[12] == 'y' && s[17] == 'b';
        NoMatchAtY(s, 12, 5);
      } else if q == 13 {
        assert s[13] == 'o';
        NoMatchAtOther(s, 13);
      } else if q == 14 {
        assert s[14] == 'u';
        NoMatchAtOther(s, 14);
      }
    }
  }

  /** No match starts at positions 15 to 19 of a watch-page URL followed by an ID. */
  lemma WatchUrlScan15(id: string)
    requires IsVideoId(id)
    ensures forall q :: 15 <= q < 20 ==> !MatchesAt("https://www.youtube.com/watch?v=" + id, q)
  {
    var s := "https://www.youtube.com/watch?v=" + id;
    forall q | 15 <= q < 20
      ensures !MatchesAt(s, q)
    {
      if q == 15 {
        assert s[15] == 't';
        NoMatchAtOther(s, 15);
      } else if q == 16 {
        assert s[16] == 'u';
        NoMatchAtOther(s, 16);
      } else if q == 17 {
        assert s[17] == 'b';
        NoMatchAtOther(s, 17);
      } else if q == 18 {
        assert s[18] == 'e';
        NoMatchAtOther(s, 18);
      } else if q == 19 {
        assert s[19] == '.';
        NoMatchAtOther(s, 19);
      }
    }
  }

  /** No match starts at positions 20 to 24 of a watch-page URL followed by an ID. */
  lemma WatchUrlScan20(id: string)
    requires IsVideoId(id)
    ensures forall q :: 20 <= q < 25 ==> !MatchesAt("https://www.youtube.com/watch?v=" + id, q)
  {
    var s := "https://www.youtube.com/watch?v=" + id;
    forall q | 20 <= q < 25
      ensures !MatchesAt(s, q)
    {
      if q == 20 {
        assert s[20] == 'c';
        NoMatchAtOther(s, 20);
      } else if q == 21 {
        assert s[21] == 'o';
        NoMatchAtOther(s, 21);
      } else if q == 22 {
        assert s[22] == 'm';
        NoMatchAtOther(s, 22);
      } else if q == 23 {
        assert s[23] == '/' && s[29] == '?';
        NoMatchAtSlash(s, 23, 29);
      } else if q == 24 {
        assert s[24] == 'w';
        NoMatchAtOther(s, 24);
      }
    }
  }

  /** No match starts at positions 25 to 29 of a watch-page URL followed by an ID. */
  lemma WatchUrlScan25(id: string)
    requires IsVideoId(id)
    ensures forall q :: 25 <= q < 30 ==> !MatchesAt("https://www.youtube.com/watch?v=" + id, q)
  {
    var s := "https://www.youtube.com/watch?v=" + id;
    forall q | 25 <= q < 30
      ensures !MatchesAt(s, q)
    {
      if q == 25 {
        assert s[25] == 'a';
        NoMatchAtOther(s, 25);
      } else if q == 26 {
        assert s[26] == 't';
        NoMatchAtOther(s, 26);
      } else if q == 27 {
        assert s[27] == 'c';
        NoMatchAtOther(s, 27);
      } else if q == 28 {
        assert s[28] == 'h';
        NoMatchAtOther(s, 28);
      } else if q == 29 {
        assert s[29] == '?';
        NoMatchAtOther(s, 29);
      }
    }
  }

  /** A watch-page URL followed by an ID yields that ID, whatever it is. */
  lemma WatchUrl(id: string)
    requires IsVideoId(id)
    ensures Extract("https://www.youtube.com/watch?v=" + id) == Some(id)
  {
    var s := "https://www.youtube.com/watch?v=" + id;
    WatchUrlScan0(id);
    WatchUrlScan5(id);
    WatchUrlScan10(id);
    WatchUrlScan15(id);
    WatchUrlScan20(id);
    WatchUrlScan25(id);
    assert s[30..32] == "v=";
    assert s[32..32 + IdLength] == id;
    AlternativesExclusive(s, 30);
    LeftmostIsExtracted(s, 30);
  }

  /** No match starts at positions 0 to 4 of a short youtu.be URL followed by an ID. */
  lemma ShortUrlScan0(id: string)
    requires IsVideoId(id)
    ensures forall q :: 0 <= q < 5 ==> !MatchesAt("https://youtu.be/" + id, q)
  {
    var s := "https://youtu.be/" + id;
    forall q | 0 <= q < 5
      ensures !MatchesAt(s, q)
    {
      if q == 0 {
        assert s[0] == 'h';
        NoMatchAtOther(s, 0);
      } else if q == 1 {
        assert s[1] == 't';
        NoMatchAtOther(s, 1);
      } else if q == 2 {
        assert s[2] == 't';
        NoMatchAtOther(s, 2);
      } else if q == 3 {
        assert s[3] == 'p';
        NoMatchAtOther(s, 3);
      } else if q == 4 {
        assert s[4] == 's';
        NoMatchAtOther(s, 4);
      }
    }
  }

  /** No match starts at positions 5 to 7 of a short youtu.be URL followed by an ID. */
  lemma ShortUrlScan5(id: string)
    requires IsVideoId(id)
    ensures forall q :: 5 <= q < 8 ==> !MatchesAt("https://youtu.be/" + id, q)
  {
    var s := "https://youtu.be/" + id;
    forall q | 5 <= q < 8
      ensures !MatchesAt(s, q)
    {
      if q == 5 {
        assert s[5] == ':';
        NoMatchAtOther(s, 5);
      } else if q == 6 {
        assert s[6] == '/' && s[7] == '/';
        NoMatchAtSlash(s, 6, 7);
      } else if q == 7 {
        assert s[7] == '/' && s[13] == '.';
        NoMatchAtSlash(s, 7, 13);
      }
    }
  }

  /** A short youtu.be URL followed by an ID yields that ID, whatever it is. */
  lemma ShortUrl(id: string)
    requires IsVideoId(id)
    ensures Extract("https://youtu.be/" + id) == Some(id)
  {
    var s := "https://youtu.be/" + id;
    ShortUrlScan0(id);
    ShortUrlScan5(id);
    assert s[8..17] == "youtu.be/";
    assert s[17..17 + IdLength] == id;
    AlternativesExclusive(s, 8);
    LeftmostIsExtracted(s, 8);
  }

  /** `dQw4w9WgXcQ`, the example ID, is a video ID. */
  lemma ExampleIdIsVideoId()
    ensures IsVideoId("dQw4w9WgXcQ")
  {
    var id := "dQw4w9WgXcQ";
    forall k | 0 <= k < |id|
      ensures IsIdChar(id[k])
    {
      if k == 0 { assert id[k] == 'd'; }
      else if k == 1 { assert id[k] == 'Q'; }
      else if k == 2 { assert id[k] == 'w'; }
      else if k == 3 { assert id[k] == '4'; }
      else if k == 4 { assert id[k] == 'w'; }
      else if k == 5 { assert id[k] == '9'; }
      else if k == 6 { assert id[k] == 'W'; }
      else if k == 7 { assert id[k] == 'g'; }
      else if k == 8 { assert id[k] == 'X'; }
      else if k == 9 { assert id[k] == 'c'; }
      else { assert id[k] == 'Q'; }
    }
  }

  /** The watch-page URL of the example ID yields `dQw4w9WgXcQ`. */
  lemma WatchUrlExample()
    ensures Extract("https://www.youtube.com/watch?v=dQw4w9WgXcQ") == Some("dQw4w9WgXcQ")
  {
    ExampleIdIsVideoId();
    WatchUrl("dQw4w9WgXcQ");
    assert "https://www.youtube.com/watch?v=" + "dQw4w9WgXcQ" == "https://www.youtube.com/watch?v=dQw4w9WgXcQ";
  }

  /** The short URL of the example ID yields `dQw4w9WgXcQ`. */
  lemma ShortUrlExample()
    ensures Extract("https://youtu.be/dQw4w9WgXcQ") == Some("dQw4w9WgXcQ")
  {
    ExampleIdIsVideoId();
    ShortUrl("dQw4w9WgXcQ");
    assert "https://youtu.be/" + "dQw4w9WgXcQ" == "https://youtu.be/dQw4w9WgXcQ";
  }

  /** A URL shorter than twelve characters has no room for `/` and an ID, so it yields nothing. */
  lemma TooShortForId(url: string)
    requires |url| < 1 + IdLength
    ensures Extract(url) == None
  {
  }
}
