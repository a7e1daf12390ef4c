/** Bytes, byte strings and the whole-buffer searches the fast scanners must agree with. */
module Bytes {

  type byte = b: int | 0 <= b < 256

  type Word = seq<byte>

  datatype Option<+T> = None | Some(value: T)

  const NEWLINE: byte := 10

  /** `raw` stands at offset `i` of `data`. */
  predicate OccursAt(data: Word, raw: Word, i: int) {
    0 <= i <= |data| - |raw| && data[i..i + |raw|] == raw
  }

  /** `raw` stands somewhere in `data`. */
  ghost predicate Occurs(data: Word, raw: Word) {
    exists i :: OccursAt(data, raw, i)
  }

  /** `i` is what `bytes.Index(data, raw)` returns: the first offset of `raw`, or -1. */
  ghost predicate IsIndex(data: Word, raw: Word, i: int) {
    if i < 0 then i == -1 && !Occurs(data, raw)
    else OccursAt(data, raw, i) && forall j :: 0 <= j < i ==> !OccursAt(data, raw, j)
  }

  /** The number of occurrences of one byte in a string, `bytes.Count` for a single byte. */
  function CountByte(s: Word, b: byte): (n: nat)
    ensures n <= |s|
  {
    if s == [] then 0
    else CountByte(s[..|s| - 1], b) + (if s[|s| - 1] == b then 1 else 0)
  }

  function Newlines(s: Word): nat {
    CountByte(s, NEWLINE)
  }

  lemma {:induction false} CountByteConcat(s: Word, t: Word, b: byte)
    ensures CountByte(s + t, b) == CountByte(s, b) + CountByte(t, b)
    decreases |t|
  {
    if t == [] {
      assert s + t == s;
    } else {
      assert (s + t)[..|s + t| - 1] == s + t[..|t| - 1];
      CountByteConcat(s, t[..|t| - 1], b);
    }
  }

  /** Newlines are additive over a split of one buffer. */
  lemma NewlinesSplit(data: Word, i: nat, j: nat)
    requires i <= j <= |data|
    ensures Newlines(data[..j]) == Newlines(data[..i]) + Newlines(data[i..j])
  {
    assert data[..j] == data[..i] + data[i..j];
    CountByteConcat(data[..i], data[i..j], NEWLINE);
  }

  lemma NewlinesNext(data: Word, p: nat)
    requires p < |data|
    ensures Newlines(data[..p + 1]) == Newlines(data[..p]) + (if data[p] == NEWLINE then 1 else 0)
  {
    assert data[..p + 1][..p] == data[..p];
  }

  /** The newlines before offset `p`, by position rather than by slice. */
  ghost function LinesBefore(s: Word, p: nat): nat {
    if p == 0 then 0
    else LinesBefore(s, p - 1) + (if p <= |s| && s[p - 1] == NEWLINE then 1 else 0)
  }

  lemma {:induction false} LinesBeforeExact(s: Word, p: nat)
    requires p <= |s|
    ensures LinesBefore(s, p) == Newlines(s[..p])
  {
    if p > 0 {
      LinesBeforeExact(s, p - 1);
      NewlinesNext(s, p - 1);
    }
  }

  lemma SliceOfSlice<T>(s: seq<T>, lo: nat, hi: nat, i: nat, j: nat)
    requires lo <= hi <= |s| && i <= j <= hi - lo
    ensures s[lo..hi][i..j] == s[lo + i..lo + j]
  {
    var a, b := s[lo..hi][i..j], s[lo + i..lo + j];
    assert |a| == |b|;
    assert forall k :: 0 <= k < |a| ==> a[k] == b[k];
  }

  lemma SliceJoin<T>(s: seq<T>, i: nat, j: nat, k: nat)
    requires i <= j <= k <= |s|
    ensures s[i..j] + s[j..k] == s[i..k]
  {
  }

  lemma SuffixOfSlice<T>(s: seq<T>, lo: nat, hi: nat, keep: nat)
    requires lo <= hi <= |s| && keep <= hi - lo
    ensures s[lo..hi][hi - lo - keep..] == s[hi - keep..hi]
  {
    SliceOfSlice(s, lo, hi, hi - lo - keep, hi - lo);
    assert s[lo..hi][hi - lo - keep..] == s[lo..hi][hi - lo - keep..hi - lo];
  }

  lemma ConcatAssoc<T>(a: seq<T>, b: seq<T>, c: seq<T>)
    ensures a + (b + c) == (a + b) + c
  {
  }

  lemma HasMember<T>(s: seq<T>)
    ensures s == [] || exists x :: x in s
  {
    if s != [] { assert s[0] in s; }
  }

  /** An occurrence inside a window is the same occurrence at the shifted offset. */
  lemma OccursInWindow(data: Word, lo: nat, hi: nat, raw: Word, i: int)
    requires lo <= hi <= |data|
    ensures OccursAt(data[lo..hi], raw, i) <==> 0 <= i && lo + i + |raw| <= hi && OccursAt(data, raw, lo + i)
  {
    if 0 <= i && lo + i + |raw| <= hi {
      SliceOfSlice(data, lo, hi, i, i + |raw|);
    }
  }

  /** Two first offsets of the same string agree. */
  lemma IndexUnique(data: Word, raw: Word, i: int, j: int)
    requires IsIndex(data, raw, i) && IsIndex(data, raw, j)
    ensures i == j
  {
    assert OccursAt(data, raw, i) || i == -1;
    assert OccursAt(data, raw, j) || j == -1;
  }

  ghost predicate Distinct<T>(s: seq<T>) {
    forall i, j :: 0 <= i < j < |s| ==> s[i] != s[j]
  }

  lemma {:induction false} DistinctCardinality<T>(s: seq<T>)
    requires Distinct(s)
    ensures |set x | x in s| == |s|
  {
    if s != [] {
      var front, last := s[..|s| - 1], s[|s| - 1];
      DistinctCardinality(front);
      assert s == front + [last];
      assert (set x | x in s) == (set x | x in front) + {last};
    }
  }

  function Below(n: nat): set<nat> {
    if n == 0 then {} else Below(n - 1) + {n - 1}
  }

  lemma {:induction false} BelowExact(n: nat)
    ensures |Below(n)| == n && forall x :: x in Below(n) <==> 0 <= x < n
  {
    if n > 0 { BelowExact(n - 1); }
  }

  /** Distinct numbers below `n` are at most `n` many. */
  lemma DistinctBound(s: seq<nat>, n: nat)
    requires Distinct(s) && forall i :: 0 <= i < |s| ==> s[i] < n
    ensures |s| <= n
  {
    BelowExact(n);
    DistinctCardinality(s);
    var members := set x | x in s;
    SubsetCardinality(members, Below(n));
  }

  lemma {:induction false} SubsetCardinality<T>(a: set<T>, b: set<T>)
    requires a <= b
    ensures |a| <= |b|
  {
    if a != {} {
      var x :| x in a;
      SubsetCardinality(a - {x}, b - {x});
    }
  }

  /** A read, a cancellation check or another operation that may go wrong, but only where faults are allowed. */
  method Fails(faults: bool) returns (failed: bool)
    ensures failed ==> faults
  {
    failed := *;
    failed := failed && faults;
  }
}
