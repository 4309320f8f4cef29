/** The few Python `str` operations the scripts rely on: `split`, `strip`, `isspace`,
    `startswith`, `isdigit` and `replace(c, '')`, over Dafny strings (sequences of
    Unicode scalar values). */
module PyText {

  /** Python's `str.isspace` for one character: the characters CPython classifies as
      whitespace (bidirectional class WS, B or S, or general category Zs). */
  predicate IsSpace(c: char)
  {
    ('\U{0009}' <= c <= '\U{000D}') || ('\U{001C}' <= c <= '\U{001F}') || c == ' ' ||
    c == '\U{0085}' || c == '\U{00A0}' || c == '\U{1680}' || ('\U{2000}' <= c <= '\U{200A}') ||
    c == '\U{2028}' || c == '\U{2029}' || c == '\U{202F}' || c == '\U{205F}' || c == '\U{3000}'
  }

  /** `s.startswith(prefix)`. */
  predicate StartsWith(s: string, prefix: string)
  {
    |prefix| <= |s| && s[..|prefix|] == prefix
  }

  /** `t` occurs in `s` starting at position `i`. */
  predicate OccursAt(s: string, t: string, i: nat)
  {
    i + |t| <= |s| && s[i..i + |t|] == t
  }

  /** `t in s` for strings: `t` occurs in `s` as a contiguous piece. */
  predicate Contains(s: string, t: string)
  {
    exists i | 0 <= i <= |s| - |t| :: OccursAt(s, t, i)
  }

  /** An ASCII decimal digit. */
  predicate IsDigit(c: char)
  {
    '0' <= c <= '9'
  }

  /** `s.isdigit()` for ASCII text: non-empty and every character a digit. */
  predicate IsDigits(s: string)
  {
    |s| > 0 && forall k | 0 <= k < |s| :: IsDigit(s[k])
  }

  /** Position of the first `c` in `s`. */
  function IndexOf(s: string, c: char): (i: nat)
    requires c in s
    ensures i < |s| && s[i] == c && c !in s[..i]
  {
    if s[0] == c then 0 else 1 + IndexOf(s[1..], c)
  }

  /** `sep.join(parts)` for a one-character separator. */
  function Join(parts: seq<string>, sep: char): (s: string)
    requires |parts| >= 1
    decreases |parts|
  {
    if |parts| == 1 then parts[0] else parts[0] + [sep] + Join(parts[1..], sep)
  }

  /** `s.split(sep)` for a one-character separator: the maximal pieces between
      occurrences of `sep`, empty pieces included. */
  function Split(s: string, sep: char): (parts: seq<string>)
    ensures |parts| >= 1
    ensures Join(parts, sep) == s
    ensures forall k | 0 <= k < |parts| :: sep !in parts[k]
    ensures sep in s <==> |parts| >= 2
    decreases |s|
  {
    if sep !in s then [s]
    else
      var i := IndexOf(s, sep);
      var rest := Split(s[i + 1..], sep);
      assert s == s[..i] + [sep] + s[i + 1..];
      [s[..i]] + rest
  }

  /** Splitting is undone by joining, and joining pieces free of the separator is undone
      by splitting. */
  lemma {:induction false} SplitJoin(parts: seq<string>, sep: char)
    requires |parts| >= 1
    requires forall k | 0 <= k < |parts| :: sep !in parts[k]
    ensures Split(Join(parts, sep), sep) == parts
    decreases |parts|
  {
    if |parts| > 1 {
      var s := Join(parts, sep);
      assert s == parts[0] + [sep] + Join(parts[1..], sep);
      assert s[|parts[0]|] == sep;
      assert s[..|parts[0]|] == parts[0];
      assert sep in s;
      var i := IndexOf(s, sep);
      assert forall k | 0 <= k < |parts[0]| :: s[k] == parts[0][k];
      assert forall k | 0 <= k < i :: s[k] == s[..i][k];
      assert i == |parts[0]|;
      assert s[i + 1..] == Join(parts[1..], sep);
      SplitJoin(parts[1..], sep);
      assert Split(s, sep) == [parts[0]] + parts[1..];
    }
  }

  /** The first piece of a split is the text before the first separator. */
  lemma SplitFirst(a: string, b: string, sep: char)
    requires sep !in a
    ensures Split(a + [sep] + b, sep) == [a] + Split(b, sep)
  {
    var s := a + [sep] + b;
    assert s[|a|] == sep;
    var i := IndexOf(s, sep);
    assert s[..|a|] == a;
    assert s[..i] == a;
    assert s[i + 1..] == b;
  }

  /** `s.split(sep)[-1]`: the text after the last `sep`, or all of `s` if there is none. */
  function LastField(s: string, sep: char): (r: string)
    ensures sep !in r
    ensures |r| <= |s| && s[|s| - |r|..] == r
    ensures |r| < |s| ==> s[|s| - |r| - 1] == sep
  {
    var parts := Split(s, sep);
    LastOfJoin(parts, sep);
    parts[|parts| - 1]
  }

  /** The last field is what follows the last separator. */
  lemma LastFieldAfter(a: string, b: string, sep: char)
    requires sep !in b
    ensures LastField(a + [sep] + b, sep) == b
  {
    var s := a + [sep] + b;
    var r := LastField(s, sep);
    assert s[|a|] == sep;
    assert s[|s| - |b|..] == b;
  }

  lemma {:induction false} LastOfJoin(parts: seq<string>, sep: char)
    requires |parts| >= 1
    ensures var s := Join(parts, sep); var r := parts[|parts| - 1];
      |r| <= |s| && s[|s| - |r|..] == r && (|r| < |s| ==> s[|s| - |r| - 1] == sep)
    decreases |parts|
  {
    if |parts| > 1 {
      LastOfJoin(parts[1..], sep);
      var tail := Join(parts[1..], sep);
      var s := Join(parts, sep);
      assert s == parts[0] + [sep] + tail;
      var r := parts[|parts| - 1];
      assert s[|s| - |tail|..] == tail;
      assert s[|s| - |r|..] == tail[|tail| - |r|..];
      if |r| == |tail| {
        assert s[|s| - |r| - 1] == sep;
      } else {
        assert s[|s| - |r| - 1] == tail[|tail| - |r| - 1];
      }
    }
  }

  /** `s.lstrip()`: drop leading whitespace. */
  function StripStart(s: string): (r: string)
    ensures |r| <= |s| && r == s[|s| - |r|..]
    ensures r == [] || !IsSpace(r[0])
    ensures forall k | 0 <= k < |s| - |r| :: IsSpace(s[k])
  {
    if s != [] && IsSpace(s[0]) then StripStart(s[1..]) else s
  }

  /** `s.rstrip()`: drop trailing whitespace. */
  function StripEnd(s: string): (r: string)
    ensures |r| <= |s| && r == s[..|r|]
    ensures r == [] || !IsSpace(r[|r| - 1])
    ensures forall k | |r| <= k < |s| :: IsSpace(s[k])
  {
    if s != [] && IsSpace(s[|s| - 1]) then StripEnd(s[..|s| - 1]) else s
  }

  /** `s.strip()`: drop whitespace at both ends. */
  function Strip(s: string): (r: string)
    ensures r == [] || (!IsSpace(r[0]) && !IsSpace(r[|r| - 1]))
  {
    StripEnd(StripStart(s))
  }

  /** Strip removes exactly the surrounding whitespace: text with no whitespace at its
      ends comes back unchanged from any whitespace padding. */
  lemma StripPadded(pre: string, t: string, post: string)
    requires forall k | 0 <= k < |pre| :: IsSpace(pre[k])
    requires forall k | 0 <= k < |post| :: IsSpace(post[k])
    requires t == [] || (!IsSpace(t[0]) && !IsSpace(t[|t| - 1]))
    ensures Strip(pre + t + post) == t
  {
    var s := pre + t + post;
    var a := StripStart(s);
    if t == [] {
      assert forall k | 0 <= k < |s| :: IsSpace(s[k]);
      assert a == [];
    } else {
      assert s == pre + (t + post);
      assert (t + post)[0] == t[0];
      StripStartPadded(pre, t + post);
      assert (t + post)[..|t|] == t;
      StripEndPadded(t, post);
    }
  }

  /** `StripPadded` for every padding at once. */
  lemma StripPaddedAll()
    ensures forall pre, t, post |
      (forall k | 0 <= k < |pre| :: IsSpace(pre[k])) &&
      (forall k | 0 <= k < |post| :: IsSpace(post[k])) &&
      (t == [] || (!IsSpace(t[0]) && !IsSpace(t[|t| - 1]))) :: Strip(pre + t + post) == t
  {
    forall pre, t, post |
      (forall k | 0 <= k < |pre| :: IsSpace(pre[k])) &&
      (forall k | 0 <= k < |post| :: IsSpace(post[k])) &&
      (t == [] || (!IsSpace(t[0]) && !IsSpace(t[|t| - 1])))
      ensures Strip(pre + t + post) == t
    {
      StripPadded(pre, t, post);
    }
  }

  /** The whitespace `lstrip` drops from `pre + t` is exactly `pre`: it may not go past
      `t`'s first character and must reach it. */
  lemma StripStartPadded(pre: string, t: string)
    requires forall k | 0 <= k < |pre| :: IsSpace(pre[k])
    requires t != [] && !IsSpace(t[0])
    ensures StripStart(pre + t) == t
  {
    var s := pre + t;
    var r := StripStart(s);
    var m := |s| - |r|;
    assert !IsSpace(s[|pre|]);
    assert m <= |pre|;
    assert r[0] == s[m];
    assert s[|pre|..] == t;
  }

  /** Symmetrically, `rstrip` drops exactly `post` from `t + post`. */
  lemma StripEndPadded(t: string, post: string)
    requires forall k | 0 <= k < |post| :: IsSpace(post[k])
    requires t != [] && !IsSpace(t[|t| - 1])
    ensures StripEnd(t + post) == t
  {
    var s := t + post;
    var r := StripEnd(s);
    assert !IsSpace(s[|t| - 1]);
    assert |r| >= |t|;
    assert r[|r| - 1] == s[|r| - 1];
    assert s[..|t|] == t;
  }

  /** `s.lstrip(c)` for one character: drop the leading copies of `c`. */
  function StripLeading(s: string, c: char): (r: string)
    ensures |r| <= |s| && r == s[|s| - |r|..]
    ensures r == [] || r[0] != c
    ensures forall k | 0 <= k < |s| - |r| :: s[k] == c
  {
    if s != [] && s[0] == c then StripLeading(s[1..], c) else s
  }

  lemma StripLeadingCons(s: string, c: char)
    ensures StripLeading([c] + s, c) == StripLeading(s, c)
  {
    assert ([c] + s)[1..] == s;
  }

  /** `s.replace(c, '')`: every `c` removed, everything else kept in order. */
  function RemoveAll(s: string, c: char): (r: string)
    ensures c !in r
    ensures |r| <= |s|
    ensures c !in s ==> r == s
  {
    if s == [] then []
    else if s[0] == c then RemoveAll(s[1..], c)
    else [s[0]] + RemoveAll(s[1..], c)
  }
}
