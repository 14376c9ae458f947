/** Optional values: a JavaScript `undefined` or a missing environment entry. */
module Wrappers {
  datatype Option<+T> = None | Some(value: T)
}

/**
 * The part of JavaScript's `String.prototype` that the front-end helpers and the
 * deployment scripts rely on: `split` and `join` on a one-character separator,
 * `trim`, `slice` (with negative indices), `startsWith`, `padStart` and `padEnd`
 * with a one-character pad string.
 */
module JsString {

  /** `count` copies of `c`. */
  function Repeat(c: char, count: nat): (r: string)
    ensures |r| == count
    ensures forall i :: 0 <= i < count ==> r[i] == c
  {
    seq(count, _ => c)
  }

  // ---------------------------------------------------------------------------
  // split and join
  // ---------------------------------------------------------------------------

  /** `s.split(sep)`: the maximal pieces of `s` between occurrences of `sep`. */
  function Split(s: string, sep: char): (parts: seq<string>)
    ensures |parts| >= 1
    ensures forall i :: 0 <= i < |parts| ==> sep !in parts[i]
    ensures sep !in s ==> parts == [s]
    decreases |s|
  {
    if s == [] then [""]
    else
      var rest := Split(s[1..], sep);
      if s[0] == sep then [""] + rest
      else
        assert s == [s[0]] + s[1..];
        [[s[0]] + rest[0]] + rest[1..]
  }

  /** `parts.join(sep)`. */
  function Join(parts: seq<string>, sep: char): (r: string)
    ensures |parts| == 0 ==> r == ""
    ensures |parts| >= 1 ==> |parts[0]| <= |r| && r[..|parts[0]|] == parts[0]
    ensures |parts| >= 2 ==> |parts[0]| < |r| && r[|parts[0]|] == sep
  {
    if |parts| == 0 then ""
    else if |parts| == 1 then parts[0]
    else parts[0] + [sep] + Join(parts[1..], sep)
  }

  /** Splitting and joining again gives back the original text. */
  lemma {:induction false} JoinSplit(s: string, sep: char)
    ensures Join(Split(s, sep), sep) == s
    decreases |s|
  {
    if s != [] {
      var rest := Split(s[1..], sep);
      JoinSplit(s[1..], sep);
      if s[0] == sep {
        assert ([""] + rest)[1..] == rest;
      } else {
        JoinPrepend([s[0]], rest, sep);
      }
      assert s == [s[0]] + s[1..];
    }
  }

  /** Gluing text onto the first piece glues it onto the front of the joined text. */
  lemma JoinPrepend(x: string, parts: seq<string>, sep: char)
    requires |parts| >= 1
    ensures Join([x + parts[0]] + parts[1..], sep) == x + Join(parts, sep)
  {
    var glued := [x + parts[0]] + parts[1..];
    assert glued[1..] == parts[1..];
    if |parts| > 1 {
      assert x + parts[0] + [sep] + Join(parts[1..], sep) == x + (parts[0] + [sep] + Join(parts[1..], sep));
    }
  }

  /** A separator-free prefix is glued onto the first piece of what follows it. */
  lemma {:induction false} SplitPrefix(a: string, b: string, sep: char)
    requires sep !in a
    ensures Split(a + b, sep) == [a + Split(b, sep)[0]] + Split(b, sep)[1..]
    decreases |a|
  {
    var parts := Split(b, sep);
    if a != [] {
      SplitPrefix(a[1..], b, sep);
      assert (a + b)[1..] == a[1..] + b;
      var rest := Split(a[1..] + b, sep);
      assert rest == [a[1..] + parts[0]] + parts[1..];
      assert rest[1..] == parts[1..];
      assert [a[0]] + rest[0] == a + parts[0];
    } else {
      assert a + b == b;
      assert a + parts[0] == parts[0];
      assert parts == [parts[0]] + parts[1..];
    }
  }

  /** A separator right after a separator-free piece ends that piece. */
  lemma SplitAt(a: string, b: string, sep: char)
    requires sep !in a
    ensures Split(a + [sep] + b, sep) == [a] + Split(b, sep)
  {
    var tail := [sep] + b;
    assert tail[1..] == b;
    assert Split(tail, sep) == [""] + Split(b, sep);
    SplitPrefix(a, tail, sep);
    assert a + [sep] + b == a + tail;
    assert Split(tail, sep)[1..] == Split(b, sep);
    assert a + Split(tail, sep)[0] == a;
  }

  /** Joining separator-free pieces and splitting again gives back the pieces. */
  lemma {:induction false} SplitJoin(parts: seq<string>, sep: char)
    requires |parts| >= 1
    requires forall i :: 0 <= i < |parts| ==> sep !in parts[i]
    ensures Split(Join(parts, sep), sep) == parts
    decreases |parts|
  {
    if |parts| > 1 {
      SplitJoin(parts[1..], sep);
      SplitAt(parts[0], Join(parts[1..], sep), sep);
      assert parts == [parts[0]] + parts[1..];
    }
  }

  // ---------------------------------------------------------------------------
  // trim
  // ---------------------------------------------------------------------------

  /** The characters `trim` removes: ECMAScript WhiteSpace and LineTerminator. */
  predicate IsJsSpace(c: char)
  {
    || c == '\t' || c == '\n' || c == '\U{000B}' || c == '\U{000C}' || c == '\r'
    || c == ' ' || c == '\U{00A0}' || c == '\U{1680}' || ('\U{2000}' <= c <= '\U{200A}')
    || c == '\U{2028}' || c == '\U{2029}' || c == '\U{202F}' || c == '\U{205F}'
    || c == '\U{3000}' || c == '\U{FEFF}'
  }

  /** Neither the first nor the last character is white space. */
  predicate IsTrimmed(s: string)
  {
    s == [] || (!IsJsSpace(s[0]) && !IsJsSpace(s[|s| - 1]))
  }

  /** `s.trimStart()`: drops exactly the leading white space. */
  function TrimStart(s: string): (r: string)
    ensures |r| <= |s| && r == s[|s| - |r|..]
    ensures forall i :: 0 <= i < |s| - |r| ==> IsJsSpace(s[i])
    ensures r == [] || !IsJsSpace(r[0])
  {
    if s != [] && IsJsSpace(s[0]) then TrimStart(s[1..]) else s
  }

  /** `s.trimEnd()`: drops exactly the trailing white space. */
  function TrimEnd(s: string): (r: string)
    ensures |r| <= |s| && r == s[..|r|]
    ensures forall i :: |r| <= i < |s| ==> IsJsSpace(s[i])
    ensures r == [] || !IsJsSpace(r[|r| - 1])
  {
    if s != [] && IsJsSpace(s[|s| - 1]) then TrimEnd(s[..|s| - 1]) else s
  }

  /** `s.trim()`. */
  function Trim(s: string): (r: string)
    ensures IsTrimmed(r)
    ensures IsTrimmed(s) ==> r == s
    ensures forall c :: c in r ==> c in s
    ensures exists i :: SurroundedBySpace(s, r, i)
  {
    var t := TrimStart(s);
    var r := TrimEnd(t);
    assert r == [] || r[0] == t[0];
    assert forall i :: 0 <= i < |r| ==> r[i] == s[|s| - |t| + i];
    MiddleOfSuffix(s, t, r);
    r
  }

  /** A prefix `r` of a suffix `t` of `s` is surrounded by space when the parts cut off are. */
  lemma MiddleOfSuffix(s: string, t: string, r: string)
    requires |t| <= |s| && t == s[|s| - |t|..] && |r| <= |t| && r == t[..|r|]
    requires forall k :: 0 <= k < |s| - |t| ==> IsJsSpace(s[k])
    requires forall k :: |r| <= k < |t| ==> IsJsSpace(t[k])
    ensures SurroundedBySpace(s, r, |s| - |t|)
  {
    var i := |s| - |t|;
    assert r == s[i..i + |r|];
    forall k | i + |r| <= k < |s|
      ensures IsJsSpace(s[k])
    {
      assert s[k] == t[k - i];
    }
  }

  /** `r` sits at index `i` of `s`, and every character of `s` around it is white space. */
  predicate SurroundedBySpace(s: string, r: string, i: int)
  {
    && 0 <= i && i + |r| <= |s| && r == s[i..i + |r|]
    && (forall k :: 0 <= k < i ==> IsJsSpace(s[k]))
    && (forall k :: i + |r| <= k < |s| ==> IsJsSpace(s[k]))
  }

  /** Concatenation is associative. */
  lemma AppendAssoc(a: string, b: string, c: string)
    ensures a + (b + c) == (a + b) + c
  {
  }

  /** Trimming the front twice is trimming it once. */
  lemma TrimStartIdempotent(s: string)
    ensures TrimStart(TrimStart(s)) == TrimStart(s)
  {
  }

  /** Leading white space of `a + b` is that of `a` when `b` starts with a non-space. */
  lemma {:induction false} TrimStartPrefix(a: string, b: string)
    requires b != [] && !IsJsSpace(b[0])
    ensures TrimStart(a + b) == TrimStart(a) + b
    decreases |a|
  {
    if a == [] {
      assert a + b == b;
    } else if IsJsSpace(a[0]) {
      assert (a + b)[1..] == a[1..] + b;
      TrimStartPrefix(a[1..], b);
    } else {
      assert (a + b)[0] == a[0];
    }
  }

  /** Trailing white space of `a + b` is that of `b` when `a` ends in a non-space. */
  lemma {:induction false} TrimEndSuffix(a: string, b: string)
    requires a != [] && !IsJsSpace(a[|a| - 1])
    ensures TrimEnd(a + b) == a + TrimEnd(b)
    decreases |b|
  {
    if b == [] {
      assert a + b == a;
    } else if IsJsSpace(b[|b| - 1]) {
      assert (a + b)[..|a + b| - 1] == a + b[..|b| - 1];
      TrimEndSuffix(a, b[..|b| - 1]);
    } else {
      assert (a + b)[|a + b| - 1] == b[|b| - 1];
    }
  }

  // ---------------------------------------------------------------------------
  // slice, startsWith, padStart, padEnd
  // ---------------------------------------------------------------------------

  /** How `slice` reads an index: negative counts from the end, clamped to [0, len]. */
  function RelativeIndex(i: int, len: nat): (k: nat)
    ensures k <= len
    ensures 0 <= i <= len ==> k == i
    ensures i < 0 && len + i >= 0 ==> k == len + i
  {
    if i < 0 then (if len + i < 0 then 0 else len + i)
    else if i < len then i else len
  }

  /** `s.slice(start, end)`. */
  function Slice(s: string, start: int, end: int): (r: string)
    ensures |r| <= |s|
    ensures var from, to := RelativeIndex(start, |s|), RelativeIndex(end, |s|);
      && |r| == (if from < to then to - from else 0)
      && r == s[from..from + |r|]
    ensures 0 <= start <= end <= |s| ==> r == s[start..end]
  {
    var from, to := RelativeIndex(start, |s|), RelativeIndex(end, |s|);
    if from < to then s[from..to] else ""
  }

  /** `s.slice(start)`. */
  function SliceFrom(s: string, start: int): (r: string)
    ensures 0 <= start <= |s| ==> r == s[start..]
    ensures start < 0 ==> r == s[|s| - (if -start < |s| then -start else |s|)..]
  {
    Slice(s, start, |s|)
  }

  /** `s.startsWith(prefix)`. */
  predicate StartsWith(s: string, prefix: string)
    ensures StartsWith(s, prefix) <==>
      |prefix| <= |s| && forall i :: 0 <= i < |prefix| ==> s[i] == prefix[i]
    ensures StartsWith(s, prefix) ==> s == prefix + s[|prefix|..]
  {
    |prefix| <= |s| && s[..|prefix|] == prefix
  }

  /** `s.padStart(length, [c])`. */
  function PadStart(s: string, length: nat, c: char): (r: string)
    ensures |r| == if |s| < length then length else |s|
    ensures r[|r| - |s|..] == s && r[..|r| - |s|] == Repeat(c, |r| - |s|)
  {
    if |s| < length then Repeat(c, length - |s|) + s else s
  }

  /** Padding a text with one more character at its end pads the text before it to one less. */
  lemma PadStartAppend(s: string, last: char, length: nat, c: char)
    requires |s| < length
    ensures PadStart(s + [last], length, c) == PadStart(s, length - 1, c) + [last]
  {
    if |s| + 1 < length {
      AppendAssoc(Repeat(c, length - 1 - |s|), s, [last]);
    }
  }

  /** `s.padEnd(length, [c])`. */
  function PadEnd(s: string, length: nat, c: char): (r: string)
    ensures |r| == if |s| < length then length else |s|
    ensures r[..|s|] == s && r[|s|..] == Repeat(c, |r| - |s|)
  {
    if |s| < length then s + Repeat(c, length - |s|) else s
  }
}
