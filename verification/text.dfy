/** The Kotlin standard-library string functions the reader uses to derive
    result fields: `replace`, `substringAfterLast`, `substringBeforeLast`,
    `joinToString`, and Swift's `String(repeating:count:)`. */
module Text {
  import opened Runtime

  /** `pat` occurs in `s` starting at index `i`. */
  predicate OccursAt(s: string, pat: string, i: int) {
    0 <= i && i + |pat| <= |s| && s[i..i + |pat|] == pat
  }

  /** The last start index below `n` at which `pat` occurs in `s`. */
  function LastOccurrenceBelow(s: string, pat: string, n: nat): (r: Option<nat>)
    ensures r.Some? ==> r.value < n && OccursAt(s, pat, r.value)
    ensures r.Some? ==> forall j :: r.value < j < n ==> !OccursAt(s, pat, j)
    ensures r.None? ==> forall j :: 0 <= j < n ==> !OccursAt(s, pat, j)
    decreases n
  {
    if n == 0 then None
    else if OccursAt(s, pat, n - 1) then Some(n - 1)
    else LastOccurrenceBelow(s, pat, n - 1)
  }

  /** Kotlin `s.lastIndexOf(pat)` for a non-empty pattern, with -1 as `None`. */
  function LastIndexOf(s: string, pat: string): (r: Option<nat>)
    ensures r.Some? ==> OccursAt(s, pat, r.value)
    ensures r.Some? ==> forall j :: r.value < j ==> !OccursAt(s, pat, j)
    ensures r.None? ==> forall j :: !OccursAt(s, pat, j)
  {
    LastOccurrenceBelow(s, pat, |s| + 1)
  }

  /** Kotlin `s.substringAfterLast(delim)`: the text after the last
      occurrence, or the whole string when there is none. */
  function SubstringAfterLast(s: string, delim: string): string {
    match LastIndexOf(s, delim)
    case Some(i) => s[i + |delim|..]
    case None => s
  }

  /** Kotlin `s.substringBeforeLast(delim)`: the text before the last
      occurrence, or the whole string when there is none. */
  function SubstringBeforeLast(s: string, delim: string): string {
    match LastIndexOf(s, delim)
    case Some(i) => s[..i]
    case None => s
  }

  /** The two halves around the last `delim` put `s` back together, and the
      text after it holds no further `delim`; without `delim` both halves are
      the whole string. */
  lemma SplitAtLastDelimiter(s: string, delim: string)
    requires |delim| > 0
    ensures (exists j :: OccursAt(s, delim, j)) ==>
              && SubstringBeforeLast(s, delim) + delim + SubstringAfterLast(s, delim) == s
              && forall j :: !OccursAt(SubstringAfterLast(s, delim), delim, j)
    ensures (forall j :: !OccursAt(s, delim, j)) ==>
              SubstringBeforeLast(s, delim) == s && SubstringAfterLast(s, delim) == s
  {
    match LastIndexOf(s, delim)
    case None =>
    case Some(i) =>
      var after := s[i + |delim|..];
      assert s[..i] + delim + after == s by {
        assert s[i..i + |delim|] == delim;
        assert s == s[..i] + s[i..i + |delim|] + s[i + |delim|..];
      }
      forall j | OccursAt(after, delim, j)
        ensures false
      {
        assert after[j..j + |delim|] == s[i + |delim| + j..i + |delim| + j + |delim|];
        assert OccursAt(s, delim, i + |delim| + j);
      }
  }

  /** Kotlin `s.replace(from, to)` for single characters. */
  function ReplaceChar(s: string, from: char, to: char): (r: string)
    ensures |r| == |s|
    ensures forall i :: 0 <= i < |s| && s[i] == from ==> r[i] == to
    ensures forall i :: 0 <= i < |s| && s[i] != from ==> r[i] == s[i]
  {
    if |s| == 0 then ""
    else [if s[0] == from then to else s[0]] + ReplaceChar(s[1..], from, to)
  }

  /** Kotlin `parts.joinToString(separator = sep)`. */
  function Join(parts: seq<string>, sep: string): string {
    if |parts| == 0 then ""
    else if |parts| == 1 then parts[0]
    else parts[0] + sep + Join(parts[1..], sep)
  }

  /** Splitting at every occurrence of `c`, the reading a consumer of a
      joined field would apply; the reference definition `Join` is checked
      against. */
  function Split(s: string, c: char): (r: seq<string>)
    ensures |r| >= 1
  {
    if |s| == 0 then [""]
    else if s[0] == c then [""] + Split(s[1..], c)
    else
      var rest := Split(s[1..], c);
      [[s[0]] + rest[0]] + rest[1..]
  }

  lemma {:induction false} SplitPrefix(p: string, c: char, rest: string)
    requires c !in p
    ensures Split(p + [c] + rest, c) == [p] + Split(rest, c)
    decreases |p|
  {
    if |p| == 0 {
      assert p + [c] + rest == [c] + rest;
      assert ([c] + rest)[1..] == rest;
    } else {
      var s := p + [c] + rest;
      assert s[0] == p[0];
      assert s[1..] == p[1..] + [c] + rest;
      SplitPrefix(p[1..], c, rest);
      assert [p[0]] + p[1..] == p;
    }
  }

  lemma {:induction false} SplitNoSeparator(p: string, c: char)
    requires c !in p
    ensures Split(p, c) == [p]
    decreases |p|
  {
    if |p| > 0 {
      SplitNoSeparator(p[1..], c);
      assert [p[0]] + p[1..] == p;
    }
  }

  /** Joining non-empty-list parts that do not contain the separator loses
      nothing: splitting the joined text gives the parts back. */
  lemma {:induction false} SplitJoin(parts: seq<string>, c: char)
    requires |parts| >= 1
    requires forall i :: 0 <= i < |parts| ==> c !in parts[i]
    ensures Split(Join(parts, [c]), c) == parts
    decreases |parts|
  {
    if |parts| == 1 {
      SplitNoSeparator(parts[0], c);
    } else {
      SplitJoin(parts[1..], c);
      SplitPrefix(parts[0], c, Join(parts[1..], [c]));
      assert [parts[0]] + parts[1..] == parts;
    }
  }

  /** The joined text is every part plus one separator between neighbours. */
  lemma {:induction false} JoinLength(parts: seq<string>, sep: string)
    requires |parts| >= 1
    ensures |Join(parts, sep)| == TotalLength(parts) + (|parts| - 1) * |sep|
    decreases |parts|
  {
    if |parts| > 1 {
      JoinLength(parts[1..], sep);
    }
  }

  function TotalLength(parts: seq<string>): nat {
    if |parts| == 0 then 0 else |parts[0]| + TotalLength(parts[1..])
  }

  /** Swift `String(repeating: s, count: n)`. */
  function Repeat(s: string, n: nat): (r: string)
    ensures |r| == n * |s|
  {
    if n == 0 then "" else s + Repeat(s, n - 1)
  }

  /** Repeating `a + b` times is repeating `a` times and then `b` times. */
  lemma {:induction false} RepeatAdd(s: string, a: nat, b: nat)
    ensures Repeat(s, a + b) == Repeat(s, a) + Repeat(s, b)
    decreases a
  {
    if a > 0 {
      calc {
        Repeat(s, a + b);
        s + Repeat(s, (a - 1) + b);
        { RepeatAdd(s, a - 1, b); }
        s + (Repeat(s, a - 1) + Repeat(s, b));
        Repeat(s, a) + Repeat(s, b);
      }
    }
  }
}
