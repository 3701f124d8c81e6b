/** The string operations the node performs with JavaScript built-ins
    (`startsWith`, `split`, `join`, `trim`, `toLowerCase`, `indexOf`),
    written out over `seq<char>` together with the facts the rest of the
    model relies on. */
module Strings {
  import opened Wrappers

  /** Position of the first `d` in `s`, if any (`s.indexOf(d)`). */
  function IndexOf(s: string, d: char): (r: Option<nat>)
    ensures r.None? <==> d !in s
    ensures r.Some? ==> r.value < |s| && s[r.value] == d && d !in s[..r.value]
  {
    if |s| == 0 then None
    else if s[0] == d then Some(0)
    else
      match IndexOf(s[1..], d)
      case None => None
      case Some(i) =>
        assert s[..i + 1] == [s[0]] + s[1..][..i];
        Some(i + 1)
  }

  /** Position of the first occurrence of `p` in `s`, if any: the search a
      JavaScript regular expression without metacharacters performs. That
      it is the first is `FindFirst`. */
  function Find(s: string, p: string): (r: Option<nat>)
    ensures r.Some? ==> r.value + |p| <= |s| && p <= s[r.value..]
    decreases |s|
  {
    if p <= s then Some(0)
    else if |s| == 0 then None
    else
      match Find(s[1..], p)
      case None => None
      case Some(k) =>
        assert s[k + 1..] == s[1..][k..];
        Some(k + 1)
  }

  /** `Find` reports the first occurrence, and reports none only when
      there is none. */
  lemma {:induction false} FindFirst(s: string, p: string)
    ensures Find(s, p).Some? ==> forall j :: 0 <= j < Find(s, p).value ==> !(p <= s[j..])
    ensures Find(s, p).None? ==> forall j :: 0 <= j <= |s| ==> !(p <= s[j..])
    decreases |s|
  {
    if !(p <= s) && |s| > 0 {
      FindFirst(s[1..], p);
      assert s[0..] == s;
      assert forall j :: 1 <= j <= |s| ==> s[j..] == s[1..][j - 1..];
    }
  }

  /** `s.split(d)` for a one-character separator: the maximal runs of text
      between occurrences of `d`, always at least one (possibly empty) part. */
  function Split(s: string, d: char): (parts: seq<string>)
    ensures |parts| >= 1
    ensures forall i :: 0 <= i < |parts| ==> d !in parts[i]
    ensures |parts| == 1 <==> d !in s
    decreases |s|
  {
    match IndexOf(s, d)
    case None => [s]
    case Some(i) => [s[..i]] + Split(s[i + 1..], d)
  }

  /** `parts.join(sep)`. */
  function Join(parts: seq<string>, sep: string): string
  {
    if |parts| == 0 then ""
    else if |parts| == 1 then parts[0]
    else parts[0] + sep + Join(parts[1..], sep)
  }

  /** `s.split(d)[0]`: the text before the first `d`, or all of `s`. */
  function BeforeFirst(s: string, d: char): (r: string)
    ensures r <= s && d !in r
    ensures r == s <==> d !in s
    ensures r != s ==> s[|r|] == d
  {
    Split(s, d)[0]
  }

  /** `s.split(d)[1]`: the text between the first and second `d`, or
      `undefined` when `s` holds no `d`. */
  function SecondSegment(s: string, d: char): (r: Option<string>)
    ensures r.None? <==> d !in s
    ensures r.Some? ==> d !in r.value
  {
    var parts := Split(s, d);
    if |parts| > 1 then Some(parts[1]) else None
  }

  /** Joining the parts of a split with the separator gives back the text. */
  lemma {:induction false} SplitJoin(s: string, d: char)
    ensures Join(Split(s, d), [d]) == s
    decreases |s|
  {
    var idx := IndexOf(s, d);
    if idx.Some? {
      var i := idx.value;
      var head, tail := s[..i], s[i + 1..];
      var rest := Split(tail, d);
      SplitJoin(tail, d);
      assert Split(s, d) == [head] + rest;
      JoinCons(head, rest, [d]);
      Recompose(s, i);
    }
  }

  /** A sequence is its prefix, the element at `i` and its suffix. */
  lemma Recompose<T>(s: seq<T>, i: nat)
    requires i < |s|
    ensures s == s[..i] + [s[i]] + s[i + 1..]
  {
  }

  /** Joining a part in front of a non-empty list puts the separator between. */
  lemma JoinCons(p: string, rest: seq<string>, sep: string)
    requires |rest| >= 1
    ensures Join([p] + rest, sep) == p + sep + Join(rest, sep)
  {
    assert ([p] + rest)[1..] == rest;
  }

  /** The first `d` in `a + [d] + b` is the one after `a` when `a` has none. */
  lemma {:induction false} IndexOfAfter(a: string, d: char, b: string)
    requires d !in a
    ensures IndexOf(a + [d] + b, d) == Some(|a|)
    decreases |a|
  {
    var s := a + [d] + b;
    if |a| > 0 {
      assert s[1..] == a[1..] + [d] + b;
      IndexOfAfter(a[1..], d, b);
    }
  }

  /** Splitting a join of separator-free parts gives back the parts. */
  lemma {:induction false} JoinSplit(parts: seq<string>, d: char)
    requires |parts| >= 1
    requires forall i :: 0 <= i < |parts| ==> d !in parts[i]
    ensures Split(Join(parts, [d]), d) == parts
    decreases |parts|
  {
    if |parts| > 1 {
      var tail := Join(parts[1..], [d]);
      var s := parts[0] + [d] + tail;
      assert Join(parts, [d]) == s;
      var k := |parts[0]|;
      IndexOfAfter(parts[0], d, tail);
      assert s[..k] == parts[0];
      assert s[k + 1..] == tail;
      JoinSplit(parts[1..], d);
      assert Split(s, d) == [parts[0]] + parts[1..];
    }
  }

  /** The characters JavaScript's `String.prototype.trim` removes: the
      ECMAScript WhiteSpace and LineTerminator code points. */
  predicate IsJsWhitespace(c: char)
  {
    var n := c as int;
    n == 0x09 || n == 0x0A || n == 0x0B || n == 0x0C || n == 0x0D || n == 0x20
    || n == 0xA0 || n == 0x1680 || (0x2000 <= n <= 0x200A)
    || n == 0x2028 || n == 0x2029 || n == 0x202F || n == 0x205F
    || n == 0x3000 || n == 0xFEFF
  }

  /** `s` with its leading whitespace removed. */
  function TrimStart(s: string): (r: string)
    ensures |r| <= |s| && r == s[|s| - |r|..]
    ensures forall k :: 0 <= k < |s| - |r| ==> IsJsWhitespace(s[k])
    ensures |r| > 0 ==> !IsJsWhitespace(r[0])
    decreases |s|
  {
    if |s| > 0 && IsJsWhitespace(s[0]) then TrimStart(s[1..]) else s
  }

  /** `s` with its trailing whitespace removed. */
  function TrimEnd(s: string): (r: string)
    ensures r <= s
    ensures forall k :: |r| <= k < |s| ==> IsJsWhitespace(s[k])
    ensures |r| > 0 ==> !IsJsWhitespace(r[|r| - 1])
    decreases |s|
  {
    if |s| > 0 && IsJsWhitespace(s[|s| - 1]) then TrimEnd(s[..|s| - 1]) else s
  }

  /** The length of the leading whitespace run of `s`. */
  function TrimOffset(s: string): (o: nat)
    ensures o <= |s|
    ensures forall k :: 0 <= k < o ==> IsJsWhitespace(s[k])
    ensures o < |s| ==> !IsJsWhitespace(s[o])
  {
    |s| - |TrimStart(s)|
  }

  /** `s.trim()`: neither starts nor ends with whitespace. */
  function Trim(s: string): (r: string)
    ensures |r| <= |s|
    ensures |r| > 0 ==> !IsJsWhitespace(r[0]) && !IsJsWhitespace(r[|r| - 1])
  {
    TrimEnd(TrimStart(s))
  }

  /** `s.trim()` is the slice of `s` after its leading whitespace run, and
      only whitespace follows it. */
  lemma TrimShape(s: string)
    ensures TrimOffset(s) + |Trim(s)| <= |s|
    ensures Trim(s) == s[TrimOffset(s)..TrimOffset(s) + |Trim(s)|]
    ensures forall k :: TrimOffset(s) + |Trim(s)| <= k < |s| ==> IsJsWhitespace(s[k])
  {
    var t := TrimStart(s);
    TrimEndSuffix(t);
    SliceOfSuffix(s, t, Trim(s), TrimOffset(s));
  }

  lemma TrimEndSuffix(t: string)
    ensures forall k :: |TrimEnd(t)| <= k < |t| ==> IsJsWhitespace(t[k])
    ensures TrimEnd(t) == t[..|TrimEnd(t)|]
  {
  }

  /** A prefix `r` of the suffix `t` of `s` from `o` on is a slice of `s`,
      and what follows `r` in `t` follows it in `s`. */
  lemma SliceOfSuffix(s: string, t: string, r: string, o: nat)
    requires o <= |s| && t == s[o..] && |r| <= |t| && r == t[..|r|]
    requires forall k :: |r| <= k < |t| ==> IsJsWhitespace(t[k])
    ensures o + |r| <= |s| && r == s[o..o + |r|]
    ensures forall k :: o + |r| <= k < |s| ==> IsJsWhitespace(s[k])
  {
    forall k | o + |r| <= k < |s| ensures IsJsWhitespace(s[k]) {
      assert s[k] == t[k - o];
    }
  }

  /** Text that neither starts nor ends with whitespace is its own trim. */
  lemma TrimUnchanged(s: string)
    requires |s| > 0 ==> !IsJsWhitespace(s[0]) && !IsJsWhitespace(s[|s| - 1])
    ensures Trim(s) == s
  {
    assert TrimStart(s) == s;
  }

  /** Trimming twice is trimming once. */
  lemma TrimIdempotent(s: string)
    ensures Trim(Trim(s)) == Trim(s)
  {
    var r := Trim(s);
    assert TrimStart(r) == r;
    assert TrimEnd(r) == r;
  }

  /** ASCII upper-case letters to lower case; every other character is kept. */
  function LowerChar(c: char): (r: char)
  {
    if 'A' <= c <= 'Z' then (c as int - 'A' as int + 'a' as int) as char else c
  }

  /** `s.toLowerCase()` restricted to ASCII letters. */
  function LowerAscii(s: string): (r: string)
    ensures |r| == |s|
    ensures forall i :: 0 <= i < |s| ==> r[i] == LowerChar(s[i])
  {
    seq(|s|, i requires 0 <= i < |s| => LowerChar(s[i]))
  }
}
