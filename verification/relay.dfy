/**
  The part of `POST /api/stream` (app.js lines 111-154) that runs before
  any byte of the file is relayed: the title is made safe for a file name
  (line 131) and the two response headers are set (lines 132-133). The
  download itself is given as the outcome of opening it.
*/
module Relay {
  import opened JsText
  import opened Handlers
  import opened Options

  /** A character that `/[^\w\s]/gi` leaves alone. */
  predicate Kept(c: char)
  {
    IsWordChar(c) || IsSpace(c)
  }

  /** `s.replace(/[^\w\s]/gi, '')`: deletes every character that is neither a word character nor white space. */
  function StripNonWord(s: string): (r: string)
    ensures |r| <= |s|
    ensures forall k :: 0 <= k < |r| ==> Kept(r[k])
  {
    if |s| == 0 then [] else (if Kept(s[0]) then [s[0]] else []) + StripNonWord(s[1..])
  }

  /** Stripping works character by character: it distributes over concatenation. */
  lemma {:induction false} StripNonWordDistributes(a: string, b: string)
    ensures StripNonWord(a + b) == StripNonWord(a) + StripNonWord(b)
  {
    if |a| > 0 {
      StripNonWordDistributes(a[1..], b);
      assert (a + b)[1..] == a[1..] + b;
    } else {
      assert a + b == b;
    }
  }

  /** A string of kept characters is left as it is. */
  lemma {:induction false} StripNonWordKeepsKept(s: string)
    requires forall k :: 0 <= k < |s| ==> Kept(s[k])
    ensures StripNonWord(s) == s
  {
    if |s| > 0 {
      StripNonWordKeepsKept(s[1..]);
      assert s == [s[0]] + s[1..];
    }
  }

  /** A string with no kept character is deleted entirely. */
  lemma {:induction false} StripNonWordDropsAll(s: string)
    requires forall k :: 0 <= k < |s| ==> !Kept(s[k])
    ensures StripNonWord(s) == ""
  {
    if |s| > 0 {
      StripNonWordDropsAll(s[1..]);
    }
  }

  /** `s[i..].replace(/\s+/g, '_')`: each maximal run of white space becomes one `_`. */
  function CollapseFrom(s: string, i: nat): (r: string)
    requires i <= |s|
    ensures |r| <= |s| - i
    ensures forall k :: 0 <= k < |r| ==> !IsSpace(r[k])
    decreases |s| - i
  {
    if i == |s| then []
    else if IsSpace(s[i]) then "_" + CollapseFrom(s, SpaceRunEnd(s, i))
    else [s[i]] + CollapseFrom(s, i + 1)
  }

  /** `s.replace(/\s+/g, '_')`. */
  function CollapseSpaces(s: string): (r: string)
    ensures |r| <= |s|
    ensures forall k :: 0 <= k < |r| ==> !IsSpace(r[k])
  {
    CollapseFrom(s, 0)
  }

  /** One step of the collapse at a white-space character: `_`, then the text after the run. */
  lemma CollapseAtSpace(s: string, i: nat)
    requires i < |s| && IsSpace(s[i])
    ensures SpaceRunEnd(s, i) == SpaceRunEnd(s, i + 1)
    ensures CollapseFrom(s, i) == "_" + CollapseFrom(s, SpaceRunEnd(s, i + 1))
  {
  }

  /** One step of the collapse at any other character: the character itself. */
  lemma CollapseAtOther(s: string, i: nat)
    requires i < |s| && !IsSpace(s[i])
    ensures SpaceRunEnd(s, i) == i
    ensures CollapseFrom(s, i) == [s[i]] + CollapseFrom(s, i + 1)
  {
  }

  /**
    The replacement as a regular-expression engine performs it: one scan
    from left to right that writes `_` at the first white-space character
    of each run, skips the rest of the run, and copies everything else.
  */
  method ReplaceSpaceRuns(s: string) returns (r: string)
    ensures r == CollapseSpaces(s)
  {
    r := "";
    var inRun := false;
    for i := 0 to |s|
      invariant !inRun ==> CollapseSpaces(s) == r + CollapseFrom(s, i)
      invariant inRun ==> CollapseSpaces(s) == r + CollapseFrom(s, SpaceRunEnd(s, i))
    {
      if IsSpace(s[i]) {
        CollapseAtSpace(s, i);
        if !inRun {
          var rest := CollapseFrom(s, SpaceRunEnd(s, i + 1));
          assert r + ("_" + rest) == (r + "_") + rest;
          r := r + "_";
          inRun := true;
        }
      } else {
        CollapseAtOther(s, i);
        var rest := CollapseFrom(s, i + 1);
        assert r + ([s[i]] + rest) == (r + [s[i]]) + rest;
        r := r + [s[i]];
        inRun := false;
      }
    }
  }

  /** Text without white space passes through the collapse unchanged. */
  lemma {:induction false} CollapseKeepsSpaceFree(s: string, i: nat)
    requires i <= |s|
    requires forall k :: i <= k < |s| ==> !IsSpace(s[k])
    ensures CollapseFrom(s, i) == s[i..]
    decreases |s| - i
  {
    if i < |s| {
      CollapseKeepsSpaceFree(s, i + 1);
      assert s[i..] == [s[i]] + s[i + 1..];
    }
  }

  /** What is left of `s` once white space and underscores are erased: the text a collapse must not change. */
  function Letters(s: string): string
  {
    if |s| == 0 then []
    else if IsSpace(s[0]) || s[0] == '_' then Letters(s[1..])
    else [s[0]] + Letters(s[1..])
  }

  /** A run of white space at `i` erases to nothing. */
  lemma {:induction false} LettersSkipsSpaceRun(s: string, i: nat)
    requires i <= |s|
    ensures Letters(s[i..]) == Letters(s[SpaceRunEnd(s, i)..])
    decreases |s| - i
  {
    if i < |s| && IsSpace(s[i]) {
      LettersSkipsSpaceRun(s, i + 1);
      assert s[i..][1..] == s[i + 1..];
    }
  }

  /** The collapse changes only white space and underscores: everything else is kept, in order. */
  lemma {:induction false} CollapseKeepsLetters(s: string, i: nat)
    requires i <= |s|
    ensures Letters(CollapseFrom(s, i)) == Letters(s[i..])
    decreases |s| - i
  {
    if i < |s| {
      var tail := if IsSpace(s[i]) then SpaceRunEnd(s, i) else i + 1;
      CollapseKeepsLetters(s, tail);
      var head: string := if IsSpace(s[i]) then "_" else [s[i]];
      assert CollapseFrom(s, i) == head + CollapseFrom(s, tail);
      assert Letters(CollapseFrom(s, i)) == Letters(head) + Letters(CollapseFrom(s, tail)) by {
        assert (head + CollapseFrom(s, tail))[1..] == CollapseFrom(s, tail);
      }
      if IsSpace(s[i]) {
        LettersSkipsSpaceRun(s, i);
      } else {
        assert s[i..][1..] == s[i + 1..];
      }
    }
  }

  /** Collapsing a string of word characters and white space leaves word characters only. */
  lemma {:induction false} CollapseLeavesWordChars(s: string, i: nat)
    requires i <= |s|
    requires forall k :: i <= k < |s| ==> Kept(s[k])
    ensures forall k :: 0 <= k < |CollapseFrom(s, i)| ==> IsWordChar(CollapseFrom(s, i)[k])
    decreases |s| - i
  {
    if i < |s| {
      if IsSpace(s[i]) {
        CollapseLeavesWordChars(s, SpaceRunEnd(s, i));
      } else {
        CollapseLeavesWordChars(s, i + 1);
      }
    }
  }

  /** Strip, then collapse: the rewriting part of line 131. */
  function Scrub(s: string): (r: string)
    ensures |r| <= |s|
    ensures forall k :: 0 <= k < |r| ==> IsWordChar(r[k])
  {
    CollapseLeavesWordChars(StripNonWord(s), 0);
    CollapseSpaces(StripNonWord(s))
  }

  /** Scrubbing a scrubbed string changes nothing. */
  lemma ScrubIdempotent(s: string)
    ensures Scrub(Scrub(s)) == Scrub(s)
  {
    var once := Scrub(s);
    StripNonWordKeepsKept(once);
    CollapseKeepsSpaceFree(once, 0);
  }

  /**
    `safeTitle` for a title field: `(title || 'audio')` scrubbed. It holds
    only `[A-Za-z0-9_]`, is no longer than the defaulted title, and a
    falsy title gives `audio`.
  */
  function SafeTitle(title: string): (safe: string)
    ensures forall k :: 0 <= k < |safe| ==> IsWordChar(safe[k])
    ensures |safe| <= (if title == "" then |"audio"| else |title|)
    ensures title == "" ==> safe == "audio"
  {
    if title == "" then
      DefaultTitleIsSafe();
      Scrub("audio")
    else
      Scrub(title)
  }

  /** The default title `audio` is already safe. */
  lemma DefaultTitleIsSafe()
    ensures Scrub("audio") == "audio"
  {
    var base := "audio";
    forall k | 0 <= k < |base|
      ensures IsWordChar(base[k])
    {
      if k == 0 { assert base[k] == 'a'; }
      else if k == 1 { assert base[k] == 'u'; }
      else if k == 2 { assert base[k] == 'd'; }
      else if k == 3 { assert base[k] == 'i'; }
      else { assert base[k] == 'o'; }
    }
    StripNonWordKeepsKept(base);
    CollapseKeepsSpaceFree(base, 0);
  }

  /** Sanitising a non-empty safe title again gives it back. */
  lemma SafeTitleStable(title: string)
    requires SafeTitle(title) != ""
    ensures SafeTitle(SafeTitle(title)) == SafeTitle(title)
  {
    var base := if title == "" then "audio" else title;
    ScrubIdempotent(base);
  }

  /**
    A non-empty title of punctuation only sanitises to the empty string,
    and sanitising that again gives `audio`: the default applies to the
    title before scrubbing, never after.
  */
  lemma PunctuationOnlyTitle(title: string)
    requires title != ""
    requires forall k :: 0 <= k < |title| ==> !Kept(title[k])
    ensures SafeTitle(title) == ""
    ensures SafeTitle(SafeTitle(title)) == "audio"
  {
    StripNonWordDropsAll(title);
  }

  /** The pieces of the example title around its `-` and `!` consist of kept characters only. */
  lemma ExampleTitlePiecesKept(a: string, b: string)
    requires a == "Rick Astley " && b == " Never Gonna Give You Up"
    ensures StripNonWord(a) == a && StripNonWord(b) == b
  {
    forall k | 0 <= k < |a|
      ensures Kept(a[k])
    {
      if k == 0 { assert a[k] == 'R'; }
      else if k == 1 { assert a[k] == 'i'; }
      else if k == 2 { assert a[k] == 'c'; }
      else if k == 3 { assert a[k] == 'k'; }
      else if k == 4 { assert a[k] == ' '; }
      else if k == 5 { assert a[k] == 'A'; }
      else if k == 6 { assert a[k] == 's'; }
      else if k == 7 { assert a[k] == 't'; }
      else if k == 8 { assert a[k] == 'l'; }
      else if k == 9 { assert a[k] == 'e'; }
      else if k == 10 { assert a[k] == 'y'; }
      else { assert a[k] == ' '; }
    }
    forall k | 0 <= k < |b|
      ensures Kept(b[k])
    {
      if k == 0 { assert b[k] == ' '; }
      else if k == 1 { assert b[k] == 'N'; }
      else if k == 2 { assert b[k] == 'e'; }
      else if k == 3 { assert b[k] == 'v'; }
      else if k == 4 { assert b[k] == 'e'; }
      else if k == 5 { assert b[k] == 'r'; }
      else if k == 6 { assert b[k] == ' '; }
      else if k == 7 { assert b[k] == 'G'; }
      else if k == 8 { assert b[k] == 'o'; }
      else if k == 9 { assert b[k] == 'n'; }
      else if k == 10 { assert b[k] == 'n'; }
      else if k == 11 { assert b[k] == 'a'; }
      else if k == 12 { assert b[k] == ' '; }
      else if k == 13 { assert b[k] == 'G'; }
      else if k == 14 { assert b[k] == 'i'; }
      else if k == 15 { assert b[k] == 'v'; }
      else if k == 16 { assert b[k] == 'e'; }
      else if k == 17 { assert b[k] == ' '; }
      else if k == 18 { assert b[k] == 'Y'; }
      else if k == 19 { assert b[k] == 'o'; }
      else if k == 20 { assert b[k] == 'u'; }
      else if k == 21 { assert b[k] == ' '; }
      else if k == 22 { assert b[k] == 'U'; }
      else { assert b[k] == 'p'; }
    }
    StripNonWordKeepsKept(a);
    StripNonWordKeepsKept(b);
  }

  /** The example title as its kept pieces with `-` and `!` between and after them. */
  lemma ExampleTitleSpelling()
    ensures "Rick Astley " + "-" + " Never Gonna Give You Up" + "!" == "Rick Astley - Never Gonna Give You Up!"
  {
  }

  /** The kept pieces of the example title side by side. */
  lemma StrippedExampleSpelling()
    ensures "Rick Astley " + " Never Gonna Give You Up" == StrippedExample
  {
  }

  /** The `-` and the `!` of the example title are stripped. */
  lemma PunctuationDropped(x: string)
    requires x == "-" || x == "!"
    ensures StripNonWord(x) == ""
  {
    assert !Kept(x[0]);
    assert x[1..] == "";
  }

  /** Stripping drops pieces with no kept character and keeps pieces of kept characters. */
  lemma StripDropsBetween(a: string, x: string, b: string, y: string)
    requires StripNonWord(a) == a && StripNonWord(b) == b
    requires StripNonWord(x) == "" && StripNonWord(y) == ""
    ensures StripNonWord(a + x + b + y) == a + b
  {
    StripNonWordDistributes(a, x);
    assert StripNonWord(a + x) == a;
    StripNonWordDistributes(a + x, b);
    assert StripNonWord(a + x + b) == a + b;
    StripNonWordDistributes(a + x + b, y);
  }

  /** The example title keeps its letters and spaces and loses `-` and `!`. */
  lemma ExampleTitleStrip()
    ensures StripNonWord("Rick Astley - Never Gonna Give You Up!") == "Rick Astley  Never Gonna Give You Up"
  {
    ExampleTitlePiecesKept("Rick Astley ", " Never Gonna Give You Up");
    PunctuationDropped("-");
    PunctuationDropped("!");
    StripDropsBetween("Rick Astley ", "-", " Never Gonna Give You Up", "!");
    ExampleTitleSpelling();
    StrippedExampleSpelling();
  }

  /** `s` holds the characters of `w` from position `i` on. */
  predicate SpellsAt(s: string, i: nat, w: string)
  {
    i + |w| <= |s| && forall k :: 0 <= k < |w| ==> s[i + k] == w[k]
  }

  /** Without white space in `s[i..j]` the collapse copies that stretch unchanged. */
  lemma {:induction false} CollapseCopiesStretch(s: string, i: nat, j: nat)
    requires i <= j <= |s|
    requires forall k :: i <= k < j ==> !IsSpace(s[k])
    ensures CollapseFrom(s, i) == s[i..j] + CollapseFrom(s, j)
    decreases j - i
  {
    if i < j {
      CollapseCopiesStretch(s, i + 1, j);
      assert s[i..j] == [s[i]] + s[i + 1..j];
    }
  }

  /** Where `s` spells the space-free word `w` from `i` on, the collapse copies `w`. */
  lemma CollapseCopiesWord(s: string, i: nat, w: string)
    requires SpellsAt(s, i, w)
    requires forall k :: 0 <= k < |w| ==> !IsSpace(w[k])
    ensures CollapseFrom(s, i) == w + CollapseFrom(s, i + |w|)
  {
    forall k | i <= k < i + |w|
      ensures !IsSpace(s[k])
    {
      assert s[i + (k - i)] == w[k - i];
    }
    CollapseCopiesStretch(s, i, i + |w|);
    assert s[i..i + |w|] == w;
  }

  /** A space-free word followed by a run of white space ending at `e` collapses to the word and one `_`. */
  lemma CollapseWordAndGap(s: string, i: nat, w: string, e: nat)
    requires SpellsAt(s, i, w)
    requires forall k :: 0 <= k < |w| ==> !IsSpace(w[k])
    requires i + |w| < e <= |s|
    requires forall k :: i + |w| <= k < e ==> IsSpace(s[k])
    requires e == |s| || !IsSpace(s[e])
    ensures CollapseFrom(s, i) == w + ("_" + CollapseFrom(s, e))
  {
    CollapseCopiesWord(s, i, w);
    var g := i + |w|;
    assert SpaceRunEnd(s, g) == e by {
      SpaceRunEndOfRun(s, g, e);
    }
  }

  /** A space-free word that ends `s` collapses to itself. */
  lemma CollapseLastWord(s: string, i: nat, w: string)
    requires SpellsAt(s, i, w)
    requires forall k :: 0 <= k < |w| ==> !IsSpace(w[k])
    requires i + |w| == |s|
    ensures CollapseFrom(s, i) == w
  {
    CollapseCopiesWord(s, i, w);
    assert w + [] == w;
  }

  /** The run of white space from `i` on ends at the first non-space at or after it. */
  lemma {:induction false} SpaceRunEndOfRun(s: string, i: nat, e: nat)
    requires i <= e <= |s|
    requires forall k :: i <= k < e ==> IsSpace(s[k])
    requires e == |s| || !IsSpace(s[e])
    ensures SpaceRunEnd(s, i) == e
    decreases e - i
  {
    if i < e {
      SpaceRunEndOfRun(s, i + 1, e);
    }
  }

  /** The example title once stripped: words and the runs of spaces between them. */
  const StrippedExample := "Rick Astley  Never Gonna Give You Up"

  /** The stripped example spells `Rick` from position 0 on. */
  lemma ExampleWord0(s: string)
    requires s == StrippedExample
    ensures SpellsAt(s, 0, "Rick")
    ensures forall k :: 0 <= k < |"Rick"| ==> !IsSpace("Rick"[k])
  {
    var w := "Rick";
    forall k | 0 <= k < |w|
      ensures s[0 + k] == w[k] && !IsSpace(w[k])
    {
      if k == 0 { assert s[0] == 'R' && w[0] == 'R'; }
      else if k == 1 { assert s[1] == 'i' && w[1] == 'i'; }
      else if k == 2 { assert s[2] == 'c' && w[2] == 'c'; }
      else { assert s[3] == 'k' && w[3] == 'k'; }
    }
  }

  /** The white space after `Rick` in the stripped example. */
  lemma ExampleGap0(s: string)
    requires s == StrippedExample
    ensures forall k :: 4 <= k < 5 ==> IsSpace(s[k])
    ensures !IsSpace(s[5])
  {
    assert s[4] == ' ';
    assert s[5] == 'A';
  }

  /** The stripped example spells `Astley` from position 5 on. */
  lemma ExampleWord1(s: string)
    requires s == StrippedExample
    ensures SpellsAt(s, 5, "Astley")
    ensures forall k :: 0 <= k < |"Astley"| ==> !IsSpace("Astley"[k])
  {
    var w := "Astley";
    forall k | 0 <= k < |w|
      ensures s[5 + k] == w[k] && !IsSpace(w[k])
    {
      if k == 0 { assert s[5] == 'A' && w[0] == 'A'; }
      else if k == 1 { assert s[6] == 's' && w[1] == 's'; }
      else if k == 2 { assert s[7] == 't' && w[2] == 't'; }
      else if k == 3 { assert s[8] == 'l' && w[3] == 'l'; }
      else if k == 4 { assert s[9] == 'e' && w[4] == 'e'; }
      else { assert s[10] == 'y' && w[5] == 'y'; }
    }
  }

  /** The white space after `Astley` in the stripped example. */
  lemma ExampleGap1(s: string)
    requires s == StrippedExample
    ensures forall k :: 11 <= k < 13 ==> IsSpace(s[k])
    ensures !IsSpace(s[13])
  {
    forall k | 11 <= k < 13
      ensures IsSpace(s[k])
    {
      if k == 11 { assert s[11] == ' '; }
      else { assert s[12] == ' '; }
    }
    assert s[13] == 'N';
  }

  /** The stripped example spells `Never` from position 13 on. */
  lemma ExampleWord2(s: string)
    requires s == StrippedExample
    ensures SpellsAt(s, 13, "Never")
    ensures forall k :: 0 <= k < |"Never"| ==> !IsSpace("Never"[k])
  {
    var w := "Never";
    forall k | 0 <= k < |w|
      ensures s[13 + k] == w[k] && !IsSpace(w[k])
    {
      if k == 0 { assert s[13] == 'N' && w[0] == 'N'; }
      else if k == 1 { assert s[14] == 'e' && w[1] == 'e'; }
      else if k == 2 { assert s[15] == 'v' && w[2] == 'v'; }
      else if k == 3 { assert s[16] == 'e' && w[3] == 'e'; }
      else { assert s[17] == 'r' && w[4] == 'r'; }
    }
  }

  /** The white space after `Never` in the stripped example. */
  lemma ExampleGap2(s: string)
    requires s == StrippedExample
    ensures forall k :: 18 <= k < 19 ==> IsSpace(s[k])
    ensures !IsSpace(s[19])
  {
    assert s[18] == ' ';
    assert s[19] == 'G';
  }

  /** The stripped example spells `Gonna` from position 19 on. */
  lemma ExampleWord3(s: string)
    requires s == StrippedExample
    ensures SpellsAt(s, 19, "Gonna")
    ensures forall k :: 0 <= k < |"Gonna"| ==> !IsSpace("Gonna"[k])
  {
    var w := "Gonna";
    forall k | 0 <= k < |w|
      ensures s[19 + k] == w[k] && !IsSpace(w[k])
    {
      if k == 0 { assert s[19] == 'G' && w[0] == 'G'; }
      else if k == 1 { assert s[20] == 'o' && w[1] == 'o'; }
      else if k == 2 { assert s[21] == 'n' && w[2] == 'n'; }
      else if k == 3 { assert s[22] == 'n' && w[3] == 'n'; }
      else { assert s[23] == 'a' && w[4] == 'a'; }
    }
  }

  /** The white space after `Gonna` in the stripped example. */
  lemma ExampleGap3(s: string)
    requires s == StrippedExample
    ensures forall k :: 24 <= k < 25 ==> IsSpace(s[k])
    ensures !IsSpace(s[25])
  {
    assert s[24] == ' ';
    assert s[25] == 'G';
  }

  /** The stripped example spells `Give` from position 25 on. */
  lemma ExampleWord4(s: string)
    requires s == StrippedExample
    ensures SpellsAt(s, 25, "Give")
    ensures forall k :: 0 <= k < |"Give"| ==> !IsSpace("Give"[k])
  {
    var w := "Give";
    forall k | 0 <= k < |w|
      ensures s[25 + k] == w[k] && !IsSpace(w[k])
    {
      if k == 0 { assert s[25] == 'G' && w[0] == 'G'; }
      else if k == 1 { assert s[26] == 'i' && w[1] == 'i'; }
      else if k == 2 { assert s[27] == 'v' && w[2] == 'v'; }
      else { assert s[28] == 'e' && w[3] == 'e'; }
    }
  }

  /** The white space after `Give` in the stripped example. */
  lemma ExampleGap4(s: string)
    requires s == StrippedExample
    ensures forall k :: 29 <= k < 30 ==> IsSpace(s[k])
    ensures !IsSpace(s[30])
  {
    assert s[29] == ' ';
    assert s[30] == 'Y';
  }

  /** The stripped example spells `You` from position 30 on. */
  lemma ExampleWord5(s: string)
    requires s == StrippedExample
    ensures SpellsAt(s, 30, "You")
    ensures forall k :: 0 <= k < |"You"| ==> !IsSpace("You"[k])
  {
    var w := "You";
    forall k | 0 <= k < |w|
      ensures s[30 + k] == w[k] && !IsSpace(w[k])
    {
      if k == 0 { assert s[30] == 'Y' && w[0] == 'Y'; }
      else if k == 1 { assert s[31] == 'o' && w[1] == 'o'; }
      else { assert s[32] == 'u' && w[2] == 'u'; }
    }
  }

  /** The white space after `You` in the stripped example. */
  lemma ExampleGap5(s: string)
    requires s == StrippedExample
    ensures forall k :: 33 <= k < 34 ==> IsSpace(s[k])
    ensures !IsSpace(s[34])
  {
    assert s[33] == ' ';
    assert s[34] == 'U';
  }

  /** The stripped example spells `Up` from position 34 on. */
  lemma ExampleWord6(s: string)
    requires s == StrippedExample
    ensures SpellsAt(s, 34, "Up")
    ensures forall k :: 0 <= k < |"Up"| ==> !IsSpace("Up"[k])
  {
    var w := "Up";
    forall k | 0 <= k < |w|
      ensures s[34 + k] == w[k] && !IsSpace(w[k])
    {
      if k == 0 { assert s[34] == 'U' && w[0] == 'U'; }
      else { assert s[35] == 'p' && w[1] == 'p'; }
    }
  }

  /** The stripped example collapses word by word. */
  lemma CollapseExample(s: string)
    requires s == StrippedExample
    ensures CollapseFrom(s, 0)
      == "Rick" + ("_" + ("Astley" + ("_" + ("Never" + ("_" + ("Gonna" + ("_" + ("Give" + ("_" + ("You" + ("_" + "Up")))))))))))
  {
    ExampleWord0(s);
    ExampleGap0(s);
    CollapseWordAndGap(s, 0, "Rick", 5);
    ExampleWord1(s);
    ExampleGap1(s);
    CollapseWordAndGap(s, 5, "Astley", 13);
    ExampleWord2(s);
    ExampleGap2(s);
    CollapseWordAndGap(s, 13, "Never", 19);
    ExampleWord3(s);
    ExampleGap3(s);
    CollapseWordAndGap(s, 19, "Gonna", 25);
    ExampleWord4(s);
    ExampleGap4(s);
    CollapseWordAndGap(s, 25, "Give", 30);
    ExampleWord5(s);
    ExampleGap5(s);
    CollapseWordAndGap(s, 30, "You", 34);
    ExampleWord6(s);
    CollapseLastWord(s, 34, "Up");
  }

  /** The collapsed words spell the safe example title. */
  lemma CollapsedExampleSpelling()
    ensures "Rick" + ("_" + ("Astley" + ("_" + ("Never" + ("_" + ("Gonna" + ("_" + ("Give" + ("_" + ("You" + ("_" + "Up")))))))))))
      == "Rick_Astley_Never_Gonna_Give_You_Up"
  {
  }

  /** Each run of spaces of the stripped example title becomes one `_`. */
  lemma ExampleTitleCollapse()
    ensures CollapseSpaces("Rick Astley  Never Gonna Give You Up") == "Rick_Astley_Never_Gonna_Give_You_Up"
  {
    CollapseExample(StrippedExample);
    CollapsedExampleSpelling();
  }

  /** The example title: `Rick Astley - Never Gonna Give You Up!` becomes `Rick_Astley_Never_Gonna_Give_You_Up`. */
  lemma ExampleTitle()
    ensures SafeTitle("Rick Astley - Never Gonna Give You Up!") == "Rick_Astley_Never_Gonna_Give_You_Up"
  {
    ExampleTitleStrip();
    ExampleTitleCollapse();
  }

  /** `attachment; filename="<safe>.mp3"`. */
  function ContentDisposition(safe: string): string
  {
    "attachment; filename=\"" + safe + ".mp3\""
  }

  /**
    For a safe title the only double quotes of the header are the two
    that delimit the file name, so the name cannot break out of them.
  */
  lemma HeaderQuotesOnlyDelimit(title: string)
    ensures var h := ContentDisposition(SafeTitle(title));
      forall k :: 0 <= k < |h| ==> (h[k] == '"' <==> k == 21 || k == |h| - 1)
  {
    var safe := SafeTitle(title);
    var h := ContentDisposition(safe);
    var lead, tail := "attachment; filename=\"", ".mp3\"";
    LeadEndsWithQuote(lead);
    TailEndsWithQuote(tail);
    assert h == lead + safe + tail;
    forall k | 0 <= k < |h|
      ensures h[k] == '"' <==> k == 21 || k == |h| - 1
    {
      if k < 22 {
        assert h[k] == lead[k];
      } else if k < 22 + |safe| {
        assert h[k] == safe[k - 22];
      } else {
        assert h[k] == tail[k - 22 - |safe|];
      }
    }
  }

  /** The only double quote of the header's lead is its last character. */
  lemma LeadEndsWithQuote(lead: string)
    requires lead == "attachment; filename=\""
    ensures |lead| == 22
    ensures forall k :: 0 <= k < |lead| ==> (lead[k] == '"' <==> k == 21)
  {
  }

  /** The only double quote of the header's tail is its last character. */
  lemma TailEndsWithQuote(tail: string)
    requires tail == ".mp3\""
    ensures |tail| == 5
    ensures forall k :: 0 <= k < |tail| ==> (tail[k] == '"' <==> k == 4)
  {
  }

  /**
    The file name a client reads from an attachment header: the text
    between the quote after `filename=` and the closing quote.
  */
  function FileName(h: string): Option<string>
  {
    var lead := "attachment; filename=\"";
    if |h| >= |lead| + 1 && h[..|lead|] == lead && h[|h| - 1] == '"'
    then Some(h[|lead|..|h| - 1])
    else None
  }

  /** A client reading the header gets back the safe title with the `.mp3` extension. */
  lemma HeaderNamesFile(safe: string)
    ensures FileName(ContentDisposition(safe)) == Some(safe + ".mp3")
  {
    var h := ContentDisposition(safe);
    assert h[..22] == "attachment; filename=\"";
    assert h[22..|h| - 1] == safe + ".mp3";
  }

  /** How opening the download URL went. */
  datatype FileFetch = Opened | FetchError(message: string)

  /** The reply of `POST /api/stream` up to the point where body bytes start to flow. */
  datatype StreamReply =
    | Failed(cause: ErrorCause)                 // 500, `Error fetching file: <message>`
    | Relaying(headers: seq<(string, string)>)  // headers set, upstream body piped

  /**
    `POST /api/stream` before the first body byte: a failed download or a
    non-string truthy title fails with 500; otherwise the response carries
    the attachment header for the safe title and the MP3 content type.
  */
  function StreamHead(fetch: FileFetch, title: Field): (r: StreamReply)
    ensures r.Relaying? <==> fetch == Opened && !title.OtherTruthy?
    ensures fetch.FetchError? ==> r == Failed(Message(fetch.message))
    ensures r.Relaying? ==>
      var safe := SafeTitle(if title.Text? then title.text else "");
      && r.headers == [("Content-Disposition", ContentDisposition(safe)), ("Content-Type", "audio/mpeg")]
      && (!Truthy(title) ==> safe == "audio")
  {
    match fetch
    case FetchError(message) => Failed(Message(message))
    case Opened =>
      match title
      case OtherTruthy => Failed(NotAFunction("replace"))
      case Absent => Relaying([("Content-Disposition", ContentDisposition(SafeTitle(""))), ("Content-Type", "audio/mpeg")])
      case Text(t) => Relaying([("Content-Disposition", ContentDisposition(SafeTitle(t))), ("Content-Type", "audio/mpeg")])
  }
}
