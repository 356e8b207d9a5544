/**
  The credential pool as it is loaded at start-up (app.js line 15): the
  `API_KEYS` setting split on commas, each piece trimmed.
*/
module Keys {
  import opened JsText

  /** How many times `c` occurs in `s`. */
  function Occurrences(s: string, c: char): nat
  {
    if |s| == 0 then 0 else (if s[0] == c then 1 else 0) + Occurrences(s[1..], c)
  }

  /**
    `s.split(sep)` for a one-character separator: the pieces between
    separators, in order. There is always one more piece than separator, so
    splitting the empty string gives one empty piece.
  */
  function Split(s: string, sep: char): (parts: seq<string>)
    ensures |parts| == Occurrences(s, sep) + 1
    ensures forall i :: 0 <= i < |parts| ==> sep !in parts[i]
  {
    if |s| == 0 then [""]
    else
      var rest := Split(s[1..], sep);
      if s[0] == sep then [""] + rest
      else [[s[0]] + rest[0]] + rest[1..]
  }

  /** `parts.join(sep)`. */
  function Join(parts: seq<string>, sep: char): string
    requires |parts| >= 1
  {
    if |parts| == 1 then parts[0] else parts[0] + [sep] + Join(parts[1..], sep)
  }

  /** Joining the pieces again gives back the split string. */
  lemma {:induction false} JoinSplit(s: string, sep: char)
    ensures Join(Split(s, sep), sep) == s
  {
    if |s| > 0 {
      JoinSplit(s[1..], sep);
      var rest := Split(s[1..], sep);
      if s[0] != sep {
        var parts := Split(s, sep);
        if |rest| > 1 {
          assert parts[1..] == rest[1..];
        }
      }
      assert s == [s[0]] + s[1..];
    }
  }

  /** A character other than the separator in front of `s` joins the first piece. */
  lemma SplitCons(c: char, s: string, sep: char)
    requires c != sep
    ensures Split([c] + s, sep) == [[c] + Split(s, sep)[0]] + Split(s, sep)[1..]
  {
    assert ([c] + s)[1..] == s;
  }

  /** Splitting `a + b` where `a` holds no separator glues `a` onto the first piece of `b`. */
  lemma {:induction false} SplitPrefix(a: string, b: string, sep: char)
    requires sep !in a
    ensures Split(a + b, sep) == [a + Split(b, sep)[0]] + Split(b, sep)[1..]
  {
    var bs := Split(b, sep);
    if |a| == 0 {
      assert a + b == b;
      assert a + bs[0] == bs[0];
      assert bs == [bs[0]] + bs[1..];
    } else {
      SplitPrefix(a[1..], b, sep);
      assert a + b == [a[0]] + (a[1..] + b);
      SplitCons(a[0], a[1..] + b, sep);
      assert [a[0]] + (a[1..] + bs[0]) == a + bs[0];
    }
  }

  /** Pieces free of the separator survive a join followed by a split. */
  lemma {:induction false} SplitJoin(parts: seq<string>, sep: char)
    requires |parts| >= 1
    requires forall i :: 0 <= i < |parts| ==> sep !in parts[i]
    ensures Split(Join(parts, sep), sep) == parts
  {
    if |parts| == 1 {
      SplitPrefix(parts[0], "", sep);
      assert parts[0] + "" == parts[0];
    } else {
      var tail := Join(parts[1..], sep);
      SplitJoin(parts[1..], sep);
      SplitPrefix(parts[0], [sep] + tail, sep);
      assert parts[0] + [sep] + tail == parts[0] + ([sep] + tail);
      assert ([sep] + tail)[1..] == tail;
      var split := Split([sep] + tail, sep);
      assert split == [""] + parts[1..];
      assert parts[0] + split[0] == parts[0];
      assert split[1..] == parts[1..];
      assert parts == [parts[0]] + parts[1..];
    }
  }

  /**
    The pool loaded from the `API_KEYS` setting: one key per comma-separated
    piece, trimmed. It is never empty, even for an empty setting.
  */
  function ParseKeys(setting: string): (keys: seq<string>)
    ensures |keys| == Occurrences(setting, ',') + 1
    ensures forall i :: 0 <= i < |keys| ==> Trim(keys[i]) == keys[i] && ',' !in keys[i]
  {
    var parts := Split(setting, ',');
    seq(|parts|, i requires 0 <= i < |parts| => Trim(parts[i]))
  }

  /** A pool of trimmed, comma-free keys written into the setting joined by commas loads back as that very pool. */
  lemma ParseKeysJoin(keys: seq<string>)
    requires |keys| >= 1
    requires forall i :: 0 <= i < |keys| ==> Trim(keys[i]) == keys[i] && ',' !in keys[i]
    ensures ParseKeys(Join(keys, ',')) == keys
  {
    SplitJoin(keys, ',');
  }
}
