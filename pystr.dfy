/**
 * The few Python `str` operations the core relies on, with their Python
 * meaning: `startswith`, `split` (left to right, non-overlapping, on a
 * non-empty separator), `sep.join`, `isspace`, `strip`, and a letter-case
 * model for `capitalize`.  `Terminated` is the shape of a text built by
 * appending `line + "\n"` once per line.
 */
module PyStr {
  import Seqs

  /** `s.startswith(p)` */
  predicate StartsWith(s: string, p: string) {
    |p| <= |s| && s[..|p|] == p
  }

  /** `sep` occurs in `s` starting at index `i`. */
  predicate OccursAt(s: string, sep: string, i: int) {
    0 <= i && i + |sep| <= |s| && forall k :: 0 <= k < |sep| ==> s[i + k] == sep[k]
  }

  /** `sep` occurs nowhere in `s` (`sep not in s`). */
  predicate Free(s: string, sep: string) {
    forall j :: 0 <= j <= |s| ==> !OccursAt(s, sep, j)
  }

  /** `s.find(sep, from)`: the first occurrence at or after `from`, or -1. */
  function FindFrom(s: string, sep: string, from: nat): (r: int)
    requires from <= |s|
    ensures r == -1 || from <= r
    ensures r >= 0 ==> OccursAt(s, sep, r)
    decreases |s| - from
  {
    if from + |sep| > |s| then -1
    else if OccursAt(s, sep, from) then from
    else FindFrom(s, sep, from + 1)
  }

  /** `find` returns the first occurrence: there is none between `from` and its result. */
  lemma {:induction false} FindFromFirst(s: string, sep: string, from: nat, j: int)
    requires from <= |s| && from <= j
    requires FindFrom(s, sep, from) < 0 || j < FindFrom(s, sep, from)
    ensures !OccursAt(s, sep, j)
    decreases |s| - from
  {
    if from + |sep| <= |s| && !OccursAt(s, sep, from) && j != from {
      FindFromFirst(s, sep, from + 1, j);
    }
  }

  /** The parts of `s[from..].split(sep)`, found by searching `s` itself from `from` on. */
  function SplitFrom(s: string, sep: string, from: nat): (parts: seq<string>)
    requires |sep| > 0 && from <= |s|
    ensures |parts| >= 1
    decreases |s| - from
  {
    var i := FindFrom(s, sep, from);
    if i < 0 then [s[from..]] else [s[from..i]] + SplitFrom(s, sep, i + |sep|)
  }

  lemma SplitFromStep(s: string, sep: string, from: nat, i: int, next: int)
    requires |sep| > 0 && from <= |s| && i == FindFrom(s, sep, from) && i >= 0 && next == i + |sep|
    ensures SplitFrom(s, sep, from) == [s[from..i]] + SplitFrom(s, sep, next)
  {
  }

  lemma SplitFromNone(s: string, sep: string, from: nat)
    requires |sep| > 0 && from <= |s| && FindFrom(s, sep, from) < 0
    ensures SplitFrom(s, sep, from) == [s[from..]]
  {
  }

  /** `s.split(sep)` for a non-empty separator. */
  function Split(s: string, sep: string): (parts: seq<string>)
    requires |sep| > 0
    ensures |parts| >= 1
  {
    SplitFrom(s, sep, 0)
  }

  /** `sep.join(parts)` for a non-empty list of parts. */
  function Join(parts: seq<string>, sep: string): string
    requires |parts| >= 1
  {
    if |parts| == 1 then parts[0] else parts[0] + sep + Join(parts[1..], sep)
  }

  lemma {:induction false} JoinSplitFrom(s: string, sep: string, from: nat)
    requires |sep| > 0 && from <= |s|
    ensures Join(SplitFrom(s, sep, from), sep) == s[from..]
    decreases |s| - from
  {
    var i := FindFrom(s, sep, from);
    if i >= 0 {
      var next := i + |sep|;
      JoinSplitFrom(s, sep, next);
      var p := SplitFrom(s, sep, from);
      assert p[1..] == SplitFrom(s, sep, next);
      assert s[from..] == s[from..i] + sep + s[next..] by {
        assert s[i..next] == sep;
        assert s[from..] == s[from..i] + s[i..next] + s[next..];
      }
    }
  }

  /** Joining the parts of a split with the same separator gives the input back. */
  lemma JoinSplit(s: string, sep: string)
    requires |sep| > 0
    ensures Join(Split(s, sep), sep) == s
  {
    JoinSplitFrom(s, sep, 0);
    assert s[0..] == s;
  }

  /** The text before the first occurrence found from `from` (or the whole rest) has no separator. */
  lemma FirstPartFree(s: string, sep: string, from: nat, end: int)
    requires |sep| > 0 && from <= |s|
    requires end == if FindFrom(s, sep, from) < 0 then |s| else FindFrom(s, sep, from)
    ensures from <= end <= |s| && Free(s[from..end], sep)
  {
    forall j | 0 <= j <= end - from ensures !OccursAt(s[from..end], sep, j) {
      if j + |sep| <= end - from {
        FindFromFirst(s, sep, from, from + j);
        OccursInSlice(s, from, end, sep, j);
      }
    }
  }

  /** An occurrence inside the slice `s[a..b]` is an occurrence in `s`, shifted by `a`. */
  lemma OccursInSlice(s: string, a: nat, b: nat, sep: string, j: nat)
    requires a <= b <= |s| && j + |sep| <= b - a
    ensures OccursAt(s[a..b], sep, j) <==> OccursAt(s, sep, a + j)
  {
    SliceOfSlice(s, a, b, j, j + |sep|);
  }

  lemma SliceOfSlice(s: string, a: nat, b: nat, c: nat, d: nat)
    requires a <= b <= |s| && c <= d <= b - a
    ensures s[a..b][c..d] == s[a + c..a + d]
  {
    assert forall k :: 0 <= k < d - c ==> s[a..b][c..d][k] == s[a + c + k];
  }

  /** No part of a split contains the separator. */
  lemma {:induction false} SplitPartsFree(s: string, sep: string, from: nat)
    requires |sep| > 0 && from <= |s|
    ensures forall k :: 0 <= k < |SplitFrom(s, sep, from)| ==> Free(SplitFrom(s, sep, from)[k], sep)
    decreases |s| - from
  {
    var i := FindFrom(s, sep, from);
    var end := if i < 0 then |s| else i;
    FirstPartFree(s, sep, from, end);
    var p := SplitFrom(s, sep, from);
    if i >= 0 {
      var next := i + |sep|;
      SplitPartsFree(s, sep, next);
      var rest := SplitFrom(s, sep, next);
      SplitFromStep(s, sep, from, i, next);
      forall k | 0 <= k < |p| ensures Free(p[k], sep) {
        if k > 0 {
          assert p[k] == rest[k - 1];
        }
      }
    } else {
      SplitFromNone(s, sep, from);
      assert s[from..end] == s[from..];
    }
  }

  /** A text without the separator splits into itself alone. */
  lemma SplitFree(s: string, sep: string)
    requires |sep| > 0 && Free(s, sep)
    ensures Split(s, sep) == [s]
  {
    assert s[0..] == s;
  }

  /** `t` is the text of `s` from index `off` on, character by character. */
  predicate SuffixAt(s: string, off: nat, t: string) {
    off + |t| == |s| && forall k :: 0 <= k < |t| ==> t[k] == s[off + k]
  }

  lemma SliceShift(s: string, off: nat, t: string, a: nat, b: nat)
    requires SuffixAt(s, off, t) && a <= b <= |t|
    ensures t[a..b] == s[off + a..off + b]
  {
    assert forall k :: 0 <= k < b - a ==> t[a..b][k] == t[a + k];
  }

  lemma OccursShift(s: string, off: nat, t: string, sep: string, j: nat)
    requires SuffixAt(s, off, t) && j + |sep| <= |t|
    ensures OccursAt(t, sep, j) <==> OccursAt(s, sep, off + j)
  {
    SliceShift(s, off, t, j, j + |sep|);
  }

  /** Searching a suffix of `s` is searching `s` past the suffix's start. */
  lemma {:induction false} FindFromShift(s: string, off: nat, t: string, sep: string, from: nat, at: nat)
    requires SuffixAt(s, off, t) && from <= |t| && at == off + from
    ensures FindFrom(s, sep, at) == if FindFrom(t, sep, from) < 0 then -1 else off + FindFrom(t, sep, from)
    decreases |t| - from
  {
    if from + |sep| <= |t| {
      OccursShift(s, off, t, sep, from);
      if !OccursAt(t, sep, from) {
        FindFromShift(s, off, t, sep, from + 1, at + 1);
      }
    }
  }

  lemma LastPartShift(s: string, off: nat, t: string, sep: string, from: nat, at: nat)
    requires |sep| > 0 && SuffixAt(s, off, t) && from <= |t| && at == off + from
    requires FindFrom(t, sep, from) < 0 && FindFrom(s, sep, at) < 0
    ensures SplitFrom(s, sep, at) == SplitFrom(t, sep, from)
  {
    SliceShift(s, off, t, from, |t|);
    assert t[from..] == t[from..|t|] && s[at..] == s[at..|s|];
    SplitFromNone(t, sep, from);
    SplitFromNone(s, sep, at);
  }

  lemma ConsEqual(x: string, y: string, xs: seq<string>, ys: seq<string>)
    requires x == y && xs == ys
    ensures [x] + xs == [y] + ys
  {
  }

  /** Splitting a suffix of `s` from `from` is splitting `s` from `off + from`. */
  lemma {:induction false} SplitFromShift(s: string, off: nat, t: string, sep: string, from: nat, at: nat)
    requires |sep| > 0 && SuffixAt(s, off, t) && from <= |t| && at == off + from
    ensures SplitFrom(s, sep, at) == SplitFrom(t, sep, from)
    decreases |t| - from
  {
    var i := FindFrom(t, sep, from);
    FindFromShift(s, off, t, sep, from, at);
    if i < 0 {
      LastPartShift(s, off, t, sep, from, at);
    } else {
      var next := i + |sep|;
      SliceShift(s, off, t, from, i);
      SplitFromShift(s, off, t, sep, next, off + next);
      SplitFromStep(t, sep, from, i, next);
      SplitFromStep(s, sep, at, off + i, off + next);
      ConsEqual(t[from..i], s[at..off + i], SplitFrom(t, sep, next), SplitFrom(s, sep, off + next));
    }
  }

  /** In `a + sep + b`, with no occurrence inside `a`, the first occurrence is the one after `a`. */
  lemma FindAfterPrefix(a: string, sep: string, b: string)
    requires |sep| > 0
    requires forall j :: 0 <= j < |a| ==> !OccursAt(a + sep + b, sep, j)
    ensures FindFrom(a + sep + b, sep, 0) == |a|
  {
    var s := a + sep + b;
    assert OccursAt(s, sep, |a|) by {
      forall k | 0 <= k < |sep| ensures s[|a| + k] == sep[k] {
      }
    }
    var i := FindFrom(s, sep, 0);
    if i < 0 || |a| < i {
      FindFromFirst(s, sep, 0, |a|);
    }
  }

  /** Splitting `a + sep + b` when the first occurrence of `sep` is the one after `a`. */
  lemma SplitCons(a: string, sep: string, b: string)
    requires |sep| > 0
    requires forall j :: 0 <= j < |a| ==> !OccursAt(a + sep + b, sep, j)
    ensures Split(a + sep + b, sep) == [a] + Split(b, sep)
  {
    var s := a + sep + b;
    var off := |a| + |sep|;
    FindAfterPrefix(a, sep, b);
    SplitFromStep(s, sep, 0, |a|, off);
    assert s[0..|a|] == a;
    assert SuffixAt(s, off, b);
    SplitFromShift(s, off, b, sep, 0, off);
  }

  /** `s.split(sep)[-1]` */
  function LastPart(s: string, sep: string): string
    requires |sep| > 0
  {
    var p := Split(s, sep); p[|p| - 1]
  }

  /** `sep` ends right before index `k` of `s`. */
  predicate PrecededBy(s: string, k: int, sep: string) {
    |sep| <= k && OccursAt(s, sep, k - |sep|)
  }

  /**
   * The last part of a split is the text from some index `k` on: all of it
   * when there is no separator, and otherwise right after an occurrence.
   */
  lemma {:induction false} SplitLastStart(s: string, sep: string, from: nat) returns (k: nat)
    requires |sep| > 0 && from <= |s|
    ensures from <= k <= |s|
    ensures SplitFrom(s, sep, from)[|SplitFrom(s, sep, from)| - 1] == s[k..]
    ensures |SplitFrom(s, sep, from)| == 1 ==> k == from
    ensures |SplitFrom(s, sep, from)| > 1 ==> PrecededBy(s, k, sep)
    decreases |s| - from
  {
    var i := FindFrom(s, sep, from);
    if i >= 0 {
      var next := i + |sep|;
      k := SplitLastStart(s, sep, next);
      SplitFromStep(s, sep, from, i, next);
      Seqs.LastOfCons(s[from..i], SplitFrom(s, sep, next));
    } else {
      SplitFromNone(s, sep, from);
      k := from;
    }
  }

  lemma CharOccurs(s: string, c: char, j: int)
    requires 0 <= j < |s| && s[j] == c
    ensures OccursAt(s, [c], j)
  {
  }

  /** A one-character separator occurs exactly where that character does. */
  lemma FreeOfChar(s: string, c: char)
    ensures Free(s, [c]) <==> c !in s
  {
    if c in s {
      var j :| 0 <= j < |s| && s[j] == c;
      CharOccurs(s, c, j);
    } else {
      forall j | 0 <= j < |s| ensures !OccursAt(s, [c], j) {
        FirstCharDiffers(s, [c], j);
      }
    }
  }

  /** The text `lines[0] + "\n" + lines[1] + "\n" + ...`, every line terminated. */
  function Terminated(lines: seq<string>): string {
    if lines == [] then "" else lines[0] + "\n" + Terminated(lines[1..])
  }

  lemma {:induction false} TerminatedConcat(xs: seq<string>, ys: seq<string>)
    ensures Terminated(xs + ys) == Terminated(xs) + Terminated(ys)
  {
    if xs != [] {
      assert (xs + ys)[1..] == xs[1..] + ys;
      TerminatedConcat(xs[1..], ys);
    } else {
      assert xs + ys == ys;
    }
  }

  /** One more line: the text grows by that line and its newline. */
  lemma TerminatedSnoc(xs: seq<string>, x: string)
    ensures Terminated(xs + [x]) == Terminated(xs) + x + "\n"
  {
    TerminatedConcat(xs, [x]);
    assert Terminated([x]) == x + "\n" + Terminated([]);
  }

  /** A terminated text splits on newlines back into its lines, plus the empty tail. */
  lemma {:induction false} SplitTerminated(lines: seq<string>)
    requires forall k :: 0 <= k < |lines| ==> '\n' !in lines[k]
    ensures Split(Terminated(lines), "\n") == lines + [""]
  {
    if lines == [] {
      assert FindFrom("", "\n", 0) == -1;
      SplitFromNone("", "\n", 0);
    } else {
      var a, tail := lines[0], lines[1..];
      var b := Terminated(tail);
      assert Terminated(lines) == a + "\n" + b;
      assert '\n' !in a;
      NoSeparatorBefore(a, "\n", b);
      SplitCons(a, "\n", b);
      assert forall k :: 0 <= k < |tail| ==> tail[k] == lines[k + 1];
      SplitTerminated(tail);
      Seqs.ConsSnoc(lines, "");
    }
  }

  /** A one-character separator missing from `a` does not occur inside `a` in `a + sep + b`. */
  lemma NoSeparatorBefore(a: string, sep: string, b: string)
    requires |sep| == 1 && sep[0] !in a
    ensures forall j :: 0 <= j < |a| ==> !OccursAt(a + sep + b, sep, j)
  {
    var s := a + sep + b;
    forall j | 0 <= j < |a| ensures !OccursAt(s, sep, j) {
      assert s[j] == a[j] && a[j] in a;
      FirstCharDiffers(s, sep, j);
    }
  }

  /** The separator does not occur where the text's character differs from its first one. */
  lemma FirstCharDiffers(s: string, sep: string, j: int)
    requires |sep| > 0 && 0 <= j < |s| && s[j] != sep[0]
    ensures !OccursAt(s, sep, j)
  {
    assert s[j + 0] != sep[0];
  }

  /** `c.isspace()`: general category Zs, or bidirectional class WS, B or S. */
  predicate IsSpace(c: char) {
    ('\t' <= c <= '\r') || ('\U{1C}' <= c <= '\U{1F}') || c == ' ' || c == '\U{85}' ||
    c == '\U{A0}' || c == '\U{1680}' || ('\U{2000}' <= c <= '\U{200A}') ||
    c == '\U{2028}' || c == '\U{2029}' || c == '\U{202F}' || c == '\U{205F}' || c == '\U{3000}'
  }

  /** `s.lstrip()` */
  function StripLeading(s: string): (r: string)
    ensures |r| <= |s| && r == s[|s| - |r|..]
    ensures forall k :: 0 <= k < |s| - |r| ==> IsSpace(s[k])
    ensures r == [] || !IsSpace(r[0])
  {
    if |s| > 0 && IsSpace(s[0]) then StripLeading(s[1..]) else s
  }

  /** `s.rstrip()` */
  function StripTrailing(s: string): (r: string)
    ensures |r| <= |s| && r == s[..|r|]
    ensures forall k :: |r| <= k < |s| ==> IsSpace(s[k])
    ensures r == [] || !IsSpace(r[|r| - 1])
  {
    if |s| > 0 && IsSpace(s[|s| - 1]) then StripTrailing(s[..|s| - 1]) else s
  }

  /** `s.strip()`: the text between leading and trailing whitespace. */
  function Strip(s: string): (r: string)
    ensures r == [] || (!IsSpace(r[0]) && !IsSpace(r[|r| - 1]))
  {
    StripTrailing(StripLeading(s))
  }

  /** A text with no whitespace at either end is its own strip. */
  lemma StripUnpadded(s: string)
    requires s == [] || (!IsSpace(s[0]) && !IsSpace(s[|s| - 1]))
    ensures Strip(s) == s
  {
  }

  /** Lower case of a Latin or Cyrillic capital letter; every other character maps to itself. */
  function Lower(c: char): (l: char) {
    if 'A' <= c <= 'Z' then (c as int + 32) as char
    else if '\U{410}' <= c <= '\U{42F}' then (c as int + 32) as char
    else if '\U{400}' <= c <= '\U{40F}' then (c as int + 80) as char
    else c
  }

  /** Upper (and title) case of a Latin or Cyrillic small letter; every other character maps to itself. */
  function Upper(c: char): (u: char) {
    if 'a' <= c <= 'z' then (c as int - 32) as char
    else if '\U{430}' <= c <= '\U{44F}' then (c as int - 32) as char
    else if '\U{450}' <= c <= '\U{45F}' then (c as int - 80) as char
    else c
  }

  function LowerAll(s: string): (r: string)
    ensures |r| == |s|
  {
    seq(|s|, i requires 0 <= i < |s| => Lower(s[i]))
  }

  /** `s.capitalize()` for Latin and Cyrillic letters: first character title-cased, the rest lower-cased. */
  function Capitalize(s: string): string {
    if s == [] then [] else [Upper(s[0])] + LowerAll(s[1..])
  }

  lemma UpperOfLower(c: char)
    ensures Upper(Lower(c)) == Upper(c)
  {
  }

  /** Two names that agree up to letter case capitalize to the same text. */
  lemma CapitalizeIgnoresCase(a: string, b: string)
    requires LowerAll(a) == LowerAll(b)
    ensures Capitalize(a) == Capitalize(b)
  {
    if a != [] {
      assert Lower(a[0]) == LowerAll(a)[0] == LowerAll(b)[0] == Lower(b[0]);
      UpperOfLower(a[0]);
      UpperOfLower(b[0]);
      assert LowerAll(a[1..]) == LowerAll(a)[1..];
      assert LowerAll(b[1..]) == LowerAll(b)[1..];
    }
  }
}
