/** Literal searches and line gates over a replayable input that is read in bounded pieces. */
module ReaderScan {
  import opened Bytes
  import opened StreamSearch

  const READ_SIZE: nat := 32 * 1024

  // ---------------------------------------------------------------------------------------
  // The next occurrence of a marker

  /** The first offset of `needle` at or after `from`, or -1. */
  ghost predicate IsNext(data: Word, needle: Word, from: nat, i: int) {
    if i < 0 then i == -1 && forall j :: from <= j ==> !OccursAt(data, needle, j)
    else from <= i && OccursAt(data, needle, i) && forall j :: from <= j < i ==> !OccursAt(data, needle, j)
  }

  ghost predicate NoneFrom(data: Word, needle: Word, from: nat, end: int) {
    forall j :: from <= j && j + |needle| <= end ==> !OccursAt(data, needle, j)
  }

  /** Searching what was carried over together with the next piece. */
  lemma PieceSearched(data: Word, needle: Word, from: nat, lo: nat, pos: nat, hi: nat, index: int)
    requires from <= lo <= pos <= hi <= |data| && NoneFrom(data, needle, from, pos)
    requires lo == from || lo + |needle| - 1 <= pos
    requires IsIndex(data[lo..hi], needle, index)
    ensures index >= 0 ==> IsNext(data, needle, from, lo + index)
    ensures index < 0 ==> NoneFrom(data, needle, from, hi)
  {
    var window := data[lo..hi];
    forall j | from <= j && j + |needle| <= hi && (index < 0 || j < lo + index) ensures !OccursAt(data, needle, j) {
      if j >= lo {
        OccursInWindow(data, lo, hi, needle, j - lo);
        assert OccursAt(window, needle, j - lo) ==> Occurs(window, needle);
      }
    }
    OccursInWindow(data, lo, hi, needle, index);
  }

  /** The bytes kept from what was read between `offset` and `pos`. */
  ghost predicate Kept(data: Word, carry: Word, offset: nat, pos: nat, overlap: nat) {
    offset <= pos <= |data| && |carry| == (if pos - offset < overlap then pos - offset else overlap)
      && carry == data[pos - |carry|..pos]
  }

  lemma KeptNext(data: Word, carry: Word, offset: nat, pos: nat, lo: nat, hi: nat, overlap: nat, keep: nat)
    requires Kept(data, carry, offset, pos, overlap) && lo == pos - |carry| && pos <= hi <= |data|
    requires keep == (if hi - lo > overlap then overlap else hi - lo)
    ensures carry + data[pos..hi] == data[lo..hi]
    ensures Kept(data, data[lo..hi][hi - lo - keep..], offset, hi, overlap)
  {
    SliceJoin(data, lo, pos, hi);
    SuffixOfSlice(data, lo, hi, keep);
  }

  /** One piece: searched together with the kept bytes. */
  method SearchPiece(data: Word, needle: Word, offset: nat, carry: Word, pos: nat, faults: bool)
    returns (found: int, carry': Word, pos': nat, failed: bool)
    requires needle != [] && pos < |data| && Kept(data, carry, offset, pos, |needle| - 1)
    requires NoneFrom(data, needle, offset, pos)
    ensures !failed && found >= 0 ==> IsNext(data, needle, offset, found)
    ensures !failed && found < 0 ==>
              pos < pos' && Kept(data, carry', offset, pos', |needle| - 1) && NoneFrom(data, needle, offset, pos')
    ensures !faults ==> !failed
  {
    var lo := pos - |carry|;
    found, carry', failed := -1, carry, false;
    pos' := pos + (if |data| - pos > READ_SIZE then READ_SIZE else |data| - pos);
    var read := ReadAt(data, pos, pos' - pos, faults);
    if read.None? { failed := true; return; }
    var overlap := |needle| - 1;
    var keep := if pos' - lo > overlap then overlap else pos' - lo;
    KeptNext(data, carry, offset, pos, lo, pos', overlap, keep);
    var window := carry + read.value;
    assert window == data[lo..pos'];
    found := SearchWindow(data, needle, offset, lo, pos, pos', window);
    carry' := window[pos' - lo - keep..];
  }

  method SearchWindow(ghost data: Word, needle: Word, ghost from: nat, lo: nat, ghost pos: nat, ghost hi: nat,
                      window: Word)
    returns (found: int)
    requires from <= lo <= pos <= hi <= |data| && NoneFrom(data, needle, from, pos) && window == data[lo..hi]
    requires lo == from || lo + |needle| - 1 <= pos
    ensures found >= 0 ==> IsNext(data, needle, from, found)
    ensures found < 0 ==> NoneFrom(data, needle, from, hi)
  {
    var index := Index(window, needle);
    PieceSearched(data, needle, from, lo, pos, hi, index);
    found := if index >= 0 then lo + index else -1;
  }

  /** The first occurrence at or after the offset, reading pieces and carrying one byte less than the needle. */
  method FindReaderBytes(data: Word, needle: Word, offset: nat, faults: bool) returns (r: Option<int>)
    ensures needle == [] ==> r == Some(offset)
    ensures needle != [] && r.Some? ==> IsNext(data, needle, offset, r.value)
    ensures !faults ==> r.Some?
  {
    if needle == [] { return Some(offset); }
    if offset >= |data| { return Some(-1); }
    var carry: Word, pos: nat := [], offset;
    while pos < |data|
      invariant Kept(data, carry, offset, pos, |needle| - 1) && NoneFrom(data, needle, offset, pos)
      decreases |data| - pos
    {
      var stopped := Fails(faults);
      if stopped { return None; }
      var found, failed;
      found, carry, pos, failed := SearchPiece(data, needle, offset, carry, pos, faults);
      if failed { return None; }
      if found >= 0 { return Some(found); }
    }
    return Some(-1);
  }

  // ---------------------------------------------------------------------------------------
  // Counting occurrences in fragments

  /** Non-overlapping occurrences of `w` in `s` from `i` on, leftmost first. */
  function CountFrom(s: Word, w: Word, i: nat): nat
    requires w != []
    decreases |s| - i
  {
    if i + |w| > |s| then 0
    else if OccursAt(s, w, i) then 1 + CountFrom(s, w, i + |w|)
    else CountFrom(s, w, i + 1)
  }

  /** A proper prefix that is also a suffix. */
  ghost predicate BorderedBy(w: Word, b: nat) {
    0 < b < |w| && w[..b] == w[|w| - b..]
  }

  ghost predicate Borderless(w: Word) {
    forall b: nat :: !BorderedBy(w, b)
  }

  /** All occurrences among the first `n` offsets, overlapping or not. */
  ghost function Hits(s: Word, w: Word, n: nat): nat {
    if n == 0 then 0 else Hits(s, w, n - 1) + (if OccursAt(s, w, n - 1) then 1 else 0)
  }

  lemma {:induction false} HitsNone(s: Word, w: Word, m: nat, n: nat)
    requires m <= n && forall j :: m <= j < n ==> !OccursAt(s, w, j)
    ensures Hits(s, w, n) == Hits(s, w, m)
  {
    if m < n { HitsNone(s, w, m, n - 1); }
  }

  /** Occurrences of a borderless string do not overlap. */
  lemma NoOverlap(s: Word, w: Word, i: nat, j: nat)
    requires Borderless(w) && OccursAt(s, w, i) && i < j < i + |w|
    ensures !OccursAt(s, w, j)
  {
    if OccursAt(s, w, j) {
      var b := i + |w| - j;
      SliceOfSlice(s, i, i + |w|, j - i, |w|);
      SliceOfSlice(s, j, j + |w|, 0, b);
      assert BorderedBy(w, b);
    }
  }

  /** For a borderless string the leftmost count is the number of occurrences. */
  lemma {:induction false} CountIsHits(s: Word, w: Word, i: nat)
    requires w != [] && Borderless(w)
    ensures CountFrom(s, w, i) + Hits(s, w, i) == Hits(s, w, if i > |s| + 1 then i else |s| + 1)
    decreases |s| - i
  {
    if i + |w| > |s| {
      HitsNone(s, w, i, if i > |s| + 1 then i else |s| + 1);
    } else if OccursAt(s, w, i) {
      CountIsHits(s, w, i + |w|);
      forall j | i + 1 <= j < i + |w| ensures !OccursAt(s, w, j) { NoOverlap(s, w, i, j); }
      HitsNone(s, w, i + 1, i + |w|);
    } else {
      CountIsHits(s, w, i + 1);
    }
  }

  ghost function AllHits(s: Word, w: Word): nat {
    Hits(s, w, |s| + 1)
  }

  /** Hits of a suffix window are the hits that start in it. */
  lemma {:induction false} HitsShift(s: Word, w: Word, lo: nat, n: nat)
    requires lo <= |s|
    ensures Hits(s[lo..], w, n) + Hits(s, w, lo) == Hits(s, w, lo + n)
  {
    if n > 0 {
      HitsShift(s, w, lo, n - 1);
      OccursInWindow(s, lo, |s|, w, n - 1);
      assert s[lo..|s|] == s[lo..];
    }
  }

  /** Hits of a prefix are the hits that fit into it. */
  lemma {:induction false} HitsPrefix(s: Word, w: Word, hi: nat, n: nat)
    requires hi <= |s| && n + |w| <= hi + 1
    ensures Hits(s[..hi], w, n) == Hits(s, w, n)
  {
    if n > 0 {
      HitsPrefix(s, w, hi, n - 1);
      OccursInWindow(s, 0, hi, w, n - 1);
      assert s[0..hi] == s[..hi];
    }
  }

  /** Cutting a line at `cut` and carrying one byte less than the needle over loses and doubles nothing. */
  lemma HitsSplit(s: Word, w: Word, cut: nat, carry: nat)
    requires w != [] && cut <= |s| && carry == (if cut < |w| - 1 then cut else |w| - 1)
    ensures AllHits(s, w) == AllHits(s[..cut], w) + AllHits(s[cut - carry..], w)
  {
    var lo := cut - carry;
    HitsShift(s, w, lo, |s| - lo + 1);
    assert lo + (|s| - lo + 1) == |s| + 1;
    if |w| <= cut {
      assert lo == cut - |w| + 1;
      HitsPrefix(s, w, cut, lo);
    } else {
      assert lo == 0;
    }
    HitsNone(s[..cut], w, lo, cut + 1);
  }

  /** The bytes carried from one fragment to the next. */
  function Carry(s: Word, w: Word): Word
    requires w != []
  {
    if |s| >= |w| - 1 then s[|s| - (|w| - 1)..] else s
  }

  /** What the scanner adds up over the fragments of a line. */
  function FragmentSum(fragments: seq<Word>, w: Word, carry: Word): nat
    requires w != []
  {
    if fragments == [] then 0
    else
      var workspace := carry + fragments[0];
      CountFrom(workspace, w, 0) + FragmentSum(fragments[1..], w, Carry(workspace, w))
  }

  function Joined(fragments: seq<Word>): Word {
    if fragments == [] then [] else fragments[0] + Joined(fragments[1..])
  }

  lemma CarryOfAll(s: Word, t: Word, w: Word)
    requires w != []
    ensures Carry(Carry(s, w) + t, w) == Carry(s + t, w)
  {
    var m := |w| - 1;
    var c := Carry(s, w);
    if |c| + |t| >= m {
      assert (c + t)[|c| + |t| - m..] == (s + t)[|s| + |t| - m..];
    } else {
      assert c == s;
    }
  }

  /** One more fragment adds the hits that end in it. */
  lemma FragmentAdds(before: Word, f: Word, w: Word)
    requires w != [] && Borderless(w)
    ensures AllHits(before + f, w) == AllHits(before, w) + CountFrom(Carry(before, w) + f, w, 0)
  {
    var s, c := before + f, Carry(before, w);
    CountIsHits(c + f, w, 0);
    HitsSplit(s, w, |before|, |c|);
    assert s[..|before|] == before && s[|before| - |c|..] == c + f;
  }

  /** For a borderless needle the sum over the fragments is the count of the whole line. */
  lemma {:induction false} SumExact(before: Word, fragments: seq<Word>, w: Word)
    requires w != [] && Borderless(w)
    ensures AllHits(before, w) + FragmentSum(fragments, w, Carry(before, w)) == AllHits(before + Joined(fragments), w)
    decreases |fragments|
  {
    if fragments == [] {
      assert before + Joined(fragments) == before;
    } else {
      var f := fragments[0];
      FragmentAdds(before, f, w);
      CarryOfAll(before, f, w);
      SumExact(before + f, fragments[1..], w);
      ConcatAssoc(before, f, Joined(fragments[1..]));
    }
  }

  lemma BorderlessSums(w: Word, fragments: seq<Word>)
    requires w != [] && Borderless(w)
    ensures FragmentSum(fragments, w, []) == CountFrom(Joined(fragments), w, 0)
  {
    SumExact([], fragments, w);
    assert Carry([], w) == [] && [] + Joined(fragments) == Joined(fragments);
    CountIsHits(Joined(fragments), w, 0);
    HitsNone([], w, 0, 1);
  }

  // ---------------------------------------------------------------------------------------
  // The fragments the reader makes

  /** A line is cut only where the read buffer is full. */
  function Pieces(line: Word): seq<Word>
    decreases |line|
  {
    if |line| < READ_SIZE then [line] else [line[..READ_SIZE]] + Pieces(line[READ_SIZE..])
  }

  /** What the scanner counts for a line. */
  function LineCount(line: Word, w: Word): nat
    requires w != []
  {
    FragmentSum(Pieces(line), w, [])
  }

  lemma {:induction false} PiecesJoin(line: Word)
    ensures Joined(Pieces(line)) == line
    decreases |line|
  {
    if |line| < READ_SIZE {
      assert [line][1..] == [];
      assert Joined([line]) == line + Joined([]);
    } else {
      var pieces := Pieces(line);
      assert pieces[1..] == Pieces(line[READ_SIZE..]);
      PiecesJoin(line[READ_SIZE..]);
      assert line[..READ_SIZE] + line[READ_SIZE..] == line;
    }
  }

  /** The scanner's count is the count of the whole line, for every line. */
  ghost predicate SumsRight(w: Word)
    requires w != []
  {
    forall line :: NEWLINE !in line ==> LineCount(line, w) == CountFrom(line, w, 0)
  }

  lemma {:induction false} SumSplit(p: seq<Word>, q: seq<Word>, w: Word, carry: Word)
    requires w != []
    ensures FragmentSum(p + q, w, carry) == FragmentSum(p, w, carry) + FragmentSum(q, w, CarryAfter(p, w, carry))
    decreases |p|
  {
    if p == [] {
      assert p + q == q;
    } else {
      assert (p + q)[0] == p[0] && (p + q)[1..] == p[1..] + q;
      SumSplit(p[1..], q, w, Carry(carry + p[0], w));
    }
  }

  /** What is carried over after a list of fragments. */
  ghost function CarryAfter(fragments: seq<Word>, w: Word, carry: Word): Word
    requires w != []
  {
    if fragments == [] then carry else CarryAfter(fragments[1..], w, Carry(carry + fragments[0], w))
  }

  lemma {:induction false} CarryAfterIs(before: Word, fragments: seq<Word>, w: Word)
    requires w != []
    ensures CarryAfter(fragments, w, Carry(before, w)) == Carry(before + Joined(fragments), w)
    decreases |fragments|
  {
    if fragments == [] {
      assert before + Joined(fragments) == before;
    } else {
      CarryOfAll(before, fragments[0], w);
      CarryAfterIs(before + fragments[0], fragments[1..], w);
      ConcatAssoc(before, fragments[0], Joined(fragments[1..]));
    }
  }

  ghost predicate EndsWith(s: Word, w: Word) {
    |w| <= |s| && s[|s| - |w|..] == w
  }

  lemma {:induction false} CountAtLeast(s: Word, w: Word, i: nat, at: nat)
    requires w != [] && i <= at && OccursAt(s, w, at)
    ensures CountFrom(s, w, i) >= 1
    decreases at - i
  {
    if !OccursAt(s, w, i) { CountAtLeast(s, w, i + 1, at); }
  }

  lemma EndCounts(s: Word, w: Word)
    requires w != [] && EndsWith(s, w)
    ensures CountFrom(s, w, 0) >= 1
  {
    assert s[|s| - |w|..] == s[|s| - |w|..|s| - |w| + |w|];
    CountAtLeast(s, w, 0, |s| - |w|);
  }

  /** Carrying one byte less than the needle keeps an end that reaches into the next fragment. */
  lemma EndCarried(s: Word, t: Word, w: Word)
    requires w != [] && t != [] && EndsWith(s + t, w)
    ensures EndsWith(Carry(s, w) + t, w)
  {
    var c := Carry(s, w);
    assert |w| <= |c + t|;
    assert (c + t)[|c + t| - |w|..] == (s + t)[|s + t| - |w|..];
  }

  /** A needle that ends where the fragments end is counted in them. */
  lemma {:induction false} EndOfFragmentsCounts(fragments: seq<Word>, w: Word, carry: Word)
    requires w != [] && Joined(fragments) != [] && EndsWith(carry + Joined(fragments), w)
    ensures FragmentSum(fragments, w, carry) >= 1
    decreases |fragments|
  {
    var f, rest := fragments[0], Joined(fragments[1..]);
    ConcatAssoc(carry, f, rest);
    if rest == [] {
      assert (carry + f) + rest == carry + f;
      EndCounts(carry + f, w);
    } else {
      EndCarried(carry + f, rest, w);
      EndOfFragmentsCounts(fragments[1..], w, Carry(carry + f, w));
    }
  }

  lemma {:induction false} PiecesSplit(a: Word, b: Word) returns (p: seq<Word>)
    requires |a| % READ_SIZE == 0
    ensures Pieces(a + b) == p + Pieces(b) && Joined(p) == a
    decreases |a|
  {
    if a == [] {
      p := [];
      assert a + b == b;
    } else {
      var head, tail := a[..READ_SIZE], a[READ_SIZE..];
      var q := PiecesSplit(tail, b);
      p := [head] + q;
      assert (a + b)[..READ_SIZE] == head && (a + b)[READ_SIZE..] == tail + b;
      assert p[1..] == q;
      assert head + tail == a;
      ConcatAssoc([head], q, Pieces(b));
    }
  }

  // ---------------------------------------------------------------------------------------
  // A line on which a bordered needle is miscounted

  /** A byte that neither starts the needle nor ends the line. */
  function FillByte(w: Word): (f: byte)
    requires w != []
    ensures f != w[0] && f != NEWLINE
  {
    if w[0] == 32 then 33 else 32
  }

  function Filler(f: byte, n: nat): (s: Word)
    ensures |s| == n && forall k :: 0 <= k < n ==> s[k] == f
  {
    seq(n, _ => f)
  }

  /** Filler, so that the needle ends where the buffer is full, then the needle, then what overlaps it by its border. */
  function DoubledLine(w: Word, b: nat): Word
    requires w != [] && b <= |w|
  {
    Filler(FillByte(w), (READ_SIZE - |w| % READ_SIZE) % READ_SIZE) + w + w[b..]
  }

  lemma {:induction false} CountSkips(s: Word, w: Word, i: nat, n: nat)
    requires w != [] && i <= n && n + |w| <= |s| && forall k :: i <= k < n ==> s[k] != w[0]
    ensures CountFrom(s, w, i) == CountFrom(s, w, n)
    decreases n - i
  {
    if i < n {
      assert s[i..i + |w|][0] == s[i];
      CountSkips(s, w, i + 1, n);
    }
  }

  /** As a whole the line holds the needle once. */
  lemma DoubledOnce(w: Word, b: nat, filler: Word)
    requires BorderedBy(w, b) && forall k :: 0 <= k < |filler| ==> filler[k] != w[0]
    ensures CountFrom(filler + w + w[b..], w, 0) == 1
  {
    var s, n := filler + w + w[b..], |filler|;
    CountSkips(s, w, 0, n);
    assert s[n..n + |w|] == w;
    assert CountFrom(s, w, n + |w|) == 0;
  }

  /** The border and the rest of the needle make it up once more at the end of the line. */
  lemma DoubledEnds(w: Word, b: nat, a: Word)
    requires BorderedBy(w, b) && EndsWith(a, w)
    ensures EndsWith(a + w[b..], w)
  {
    var s := a + w[b..];
    assert s[|s| - |w|..] == a[|a| - b..] + w[b..];
    assert a[|a| - b..] == a[|a| - |w|..][|w| - b..];
    assert w[..b] + w[b..] == w;
  }

  /** Cut where the buffer is full, the needle is counted on both sides of the cut. */
  lemma DoubledTwice(w: Word, b: nat, filler: Word)
    requires BorderedBy(w, b) && |filler + w| % READ_SIZE == 0
    ensures LineCount(filler + w + w[b..], w) >= 2
  {
    var a, tail := filler + w, w[b..];
    var p := PiecesSplit(a, tail);
    SumSplit(p, Pieces(tail), w, []);
    assert [] + Joined(p) == a && Carry([], w) == [];
    CarryAfterIs([], p, w);
    EndOfFragmentsCounts(p, w, []);
    PiecesJoin(tail);
    DoubledEnds(w, b, a);
    EndCarried(a, tail, w);
    EndOfFragmentsCounts(Pieces(tail), w, Carry(a, w));
  }

  /** A bordered needle is counted at least twice on a line that holds it once. */
  lemma BorderedDoubles(w: Word, b: nat)
    requires BorderedBy(w, b) && NEWLINE !in w
    ensures NEWLINE !in DoubledLine(w, b)
    ensures CountFrom(DoubledLine(w, b), w, 0) == 1 && LineCount(DoubledLine(w, b), w) >= 2
  {
    var filler := Filler(FillByte(w), (READ_SIZE - |w| % READ_SIZE) % READ_SIZE);
    FillerFits(|w|);
    DoubledOnce(w, b, filler);
    DoubledTwice(w, b, filler);
  }

  lemma FillerFits(n: nat)
    ensures ((READ_SIZE - n % READ_SIZE) % READ_SIZE + n) % READ_SIZE == 0
  {
    var q, m := n / READ_SIZE, n % READ_SIZE;
    assert n == q * READ_SIZE + m;
  }

  /** The scanner counts every line right exactly for needles without a border. */
  lemma SumsRightExactly(w: Word)
    requires w != [] && NEWLINE !in w
    ensures SumsRight(w) <==> Borderless(w)
  {
    if Borderless(w) {
      forall line | NEWLINE !in line ensures LineCount(line, w) == CountFrom(line, w, 0) {
        BorderlessSums(w, Pieces(line));
        PiecesJoin(line);
      }
    }
    if b: nat :| BorderedBy(w, b) {
      BorderedDoubles(w, b);
      assert NEWLINE !in DoubledLine(w, b) && LineCount(DoubledLine(w, b), w) != CountFrom(DoubledLine(w, b), w, 0);
    }
  }

  // ---------------------------------------------------------------------------------------
  // The line scanner

  datatype Line = Line(start: nat, length: nat)

  /** Where the line through `i` ends: at its newline or at the end of the data. */
  ghost function LineEnd(data: Word, i: nat): (e: nat)
    requires i <= |data|
    ensures i <= e <= |data| && (e < |data| ==> data[e] == NEWLINE)
    decreases |data| - i
  {
    if i == |data| || data[i] == NEWLINE then i else LineEnd(data, i + 1)
  }

  ghost predicate NoNewline(data: Word, i: nat, j: nat) {
    j <= |data| && forall k :: i <= k < j ==> data[k] != NEWLINE
  }

  lemma {:induction false} LineEndIs(data: Word, i: nat, e: nat)
    requires i <= e && NoNewline(data, i, e) && (e == |data| || data[e] == NEWLINE)
    ensures LineEnd(data, i) == e
    decreases e - i
  {
    if i < e { LineEndIs(data, i + 1, e); }
  }

  /** A line goes on at least to where no newline was seen. */
  lemma {:induction false} LineReaches(data: Word, i: nat, j: nat)
    requires i <= j && NoNewline(data, i, j)
    ensures LineEnd(data, i) == LineEnd(data, j)
    decreases j - i
  {
    if i < j { LineReaches(data, i + 1, j); }
  }

  predicate InBounds(count: int, min: nat, max: nat) {
    count >= min && (max == 0 || count <= max)
  }

  /** The needles of a line: as a whole, or as the scanner counts them. */
  ghost function Tally(line: Word, needle: Word, whole: bool): nat
    requires needle != []
  {
    if whole then CountFrom(line, needle, 0) else LineCount(line, needle)
  }

  /** The line, if it holds the needle often enough and not too often. */
  ghost function Chosen(data: Word, start: nat, end: nat, needle: Word, min: nat, max: nat, whole: bool): seq<Line>
    requires needle != [] && start <= end <= |data|
  {
    if InBounds(Tally(data[start..end], needle, whole), min, max) then [Line(start, end - start)] else []
  }

  /** The chosen lines from `start` on; there is no line after a final newline. */
  ghost function ChosenFrom(data: Word, start: nat, needle: Word, min: nat, max: nat, whole: bool): seq<Line>
    requires needle != [] && start <= |data|
    decreases |data| - start
  {
    if start == |data| then []
    else
      var end := LineEnd(data, start);
      Chosen(data, start, end, needle, min, max, whole) + ChosenAfter(data, end, needle, min, max, whole)
  }

  /** The chosen lines behind the newline at `end`. */
  ghost function ChosenAfter(data: Word, end: nat, needle: Word, min: nat, max: nat, whole: bool): seq<Line>
    requires needle != [] && end <= |data|
    decreases |data| - end, 0
  {
    if end == |data| then [] else ChosenFrom(data, end + 1, needle, min, max, whole)
  }

  /** The next piece of a line: up to and including a newline, or as much as the buffer holds. */
  method NextFragment(data: Word, pos: nat, faults: bool) returns (r: Option<nat>)
    requires pos < |data|
    ensures r.Some? ==> pos < r.value <= |data| && r.value <= pos + READ_SIZE && NoNewline(data, pos, r.value - 1)
    ensures r.Some? ==> r.value == |data| || data[r.value - 1] == NEWLINE || r.value == pos + READ_SIZE
    ensures r.Some? && data[r.value - 1] != NEWLINE ==> NoNewline(data, pos, r.value)
    ensures !faults ==> r.Some?
  {
    var stopped := Fails(faults);
    if stopped { return None; }
    var end := pos;
    while end < |data| && end - pos < READ_SIZE
      invariant pos <= end <= |data| && end <= pos + READ_SIZE && NoNewline(data, pos, end)
      decreases |data| - end
    {
      if data[end] == NEWLINE { return Some(end + 1); }
      end := end + 1;
    }
    return Some(end);
  }

  /** Where the scanner stands in a line: what it has counted, and what the rest of the line will add, is what it
      counts for the line. */
  ghost predicate CountOk(data: Word, needle: Word, start: nat, pos: nat, carry: Word, count: int)
    requires needle != []
  {
    && start <= pos && NoNewline(data, start, pos) && |carry| < |needle|
    && var end := LineEnd(data, start);
       pos <= end && count + FragmentSum(Pieces(data[pos..end]), needle, carry) == LineCount(data[start..end], needle)
  }

  lemma StartOfLine(data: Word, needle: Word, start: nat)
    requires needle != [] && start <= |data|
    ensures CountOk(data, needle, start, start, [], 0)
  {
  }

  /** A full buffer is one piece of the line. */
  lemma FullPiece(data: Word, pos: nat, end: nat, needle: Word, carry: Word)
    requires needle != [] && pos + READ_SIZE <= end <= |data|
    ensures var f := data[pos..pos + READ_SIZE];
            FragmentSum(Pieces(data[pos..end]), needle, carry) ==
            CountFrom(carry + f, needle, 0)
              + FragmentSum(Pieces(data[pos + READ_SIZE..end]), needle, Carry(carry + f, needle))
  {
    var line, f := data[pos..end], data[pos..pos + READ_SIZE];
    SliceOfSlice(data, pos, end, 0, READ_SIZE);
    SliceOfSlice(data, pos, end, READ_SIZE, |line|);
    assert line[..READ_SIZE] == f && line[READ_SIZE..] == data[pos + READ_SIZE..end];
    assert Pieces(line) == [f] + Pieces(data[pos + READ_SIZE..end]);
    assert Pieces(line)[1..] == Pieces(data[pos + READ_SIZE..end]);
  }

  /** The last piece of a line. */
  lemma LastPiece(line: Word, needle: Word, carry: Word)
    requires needle != [] && |line| < READ_SIZE
    ensures FragmentSum(Pieces(line), needle, carry) == CountFrom(carry + line, needle, 0)
  {
    assert Pieces(line) == [line] && [line][1..] == [];
  }

  /** The needles of one fragment, and what is carried on. */
  method CountFragment(fragment: Word, needle: Word, carry: Word, count: int) returns (carry': Word, count': int)
    requires needle != [] && |carry| < |needle|
    ensures count' == count + CountFrom(carry + fragment, needle, 0)
    ensures carry' == Carry(carry + fragment, needle) && |carry'| < |needle|
  {
    var workspace := carry + fragment;
    count' := count + CountFrom(workspace, needle, 0) - CountFrom(carry, needle, 0);
    carry' := Carry(workspace, needle);
  }

  /** A full buffer inside a line. */
  method CountFull(data: Word, needle: Word, ghost start: nat, pos: nat, next: nat, carry: Word, count: int)
    returns (carry': Word, count': int)
    requires needle != [] && CountOk(data, needle, start, pos, carry, count) && next == pos + READ_SIZE
    requires NoNewline(data, pos, next)
    ensures CountOk(data, needle, start, next, carry', count')
  {
    LineReaches(data, start, next);
    FullPiece(data, pos, LineEnd(data, start), needle, carry);
    carry', count' := CountFragment(data[pos..next], needle, carry, count);
  }

  /** The end of a line. */
  method CountLast(data: Word, needle: Word, start: nat, pos: nat, end: nat, carry: Word, count: int)
    returns (count': int)
    requires needle != [] && CountOk(data, needle, start, pos, carry, count)
    requires pos <= end < pos + READ_SIZE && NoNewline(data, pos, end) && (end == |data| || data[end] == NEWLINE)
    ensures end == LineEnd(data, start) && count' == LineCount(data[start..end], needle)
  {
    LineEndIs(data, start, end);
    LastPiece(data[pos..end], needle, carry);
    var carry';
    carry', count' := CountFragment(data[pos..end], needle, carry, count);
  }

  /** A finished line is chosen when the scanner's count is within bounds. */
  lemma LineFinished(data: Word, needle: Word, start: nat, end: nat, count: int, min: nat, max: nat)
    requires needle != [] && start < |data| && end == LineEnd(data, start)
    requires count == LineCount(data[start..end], needle)
    ensures ChosenFrom(data, start, needle, min, max, false) ==
            (if InBounds(count, min, max) then [Line(start, end - start)] else [])
              + ChosenAfter(data, end, needle, min, max, false)
  {
    ChosenStep(data, start, needle, min, max, false);
  }

  /** Closes a line: it is visited when its count is within bounds. */
  method CloseLine(start: nat, end: nat, count: int, min: nat, max: nat, visited: seq<Line>, ghost rest: seq<Line>,
                   ghost after: seq<Line>)
    returns (visited': seq<Line>)
    requires start <= end && rest == (if InBounds(count, min, max) then [Line(start, end - start)] else []) + after
    ensures visited' + after == visited + rest
  {
    visited' := if InBounds(count, min, max) then visited + [Line(start, end - start)] else visited;
  }

  /** Where the scanner stands: everything before the line is settled, and the line is counted up to `pos`. */
  ghost predicate ScanOk(data: Word, needle: Word, min: nat, max: nat, start: nat, pos: nat, carry: Word, count: int,
                         visited: seq<Line>)
    requires needle != []
  {
    && start <= pos <= |data| && CountOk(data, needle, start, pos, carry, count)
    && visited + ChosenFrom(data, start, needle, min, max, false) == ChosenFrom(data, 0, needle, min, max, false)
  }

  /** One fragment, and the end of its line if it has one. */
  method ScanFragment(data: Word, needle: Word, min: nat, max: nat, start: nat, pos: nat, carry: Word, count: int,
                      visited: seq<Line>, faults: bool)
    returns (start': nat, pos': nat, carry': Word, count': int, visited': seq<Line>, failed: bool)
    requires needle != [] && pos < |data| && ScanOk(data, needle, min, max, start, pos, carry, count, visited)
    ensures !failed ==> pos < pos' <= |data| && ScanOk(data, needle, min, max, start', pos', carry', count', visited')
    ensures !faults ==> !failed
  {
    start', pos', carry', count', visited', failed := start, pos, carry, count, visited, false;
    var fragment := NextFragment(data, pos, faults);
    if fragment.None? { failed := true; return; }
    pos' := fragment.value;
    if data[pos' - 1] == NEWLINE {
      visited' := EndLine(data, needle, min, max, start, pos, pos', carry, count, visited);
      start', carry', count' := pos', [], 0;
    } else {
      carry', count' := GoOn(data, needle, start, pos, pos', carry, count);
    }
  }

  /** A fragment without a newline: a full buffer, or the end of the data. */
  method GoOn(data: Word, needle: Word, ghost start: nat, pos: nat, next: nat, carry: Word, count: int)
    returns (carry': Word, count': int)
    requires needle != [] && CountOk(data, needle, start, pos, carry, count)
    requires pos < next <= |data| && next <= pos + READ_SIZE && (next == |data| || next == pos + READ_SIZE)
    requires NoNewline(data, pos, next)
    ensures CountOk(data, needle, start, next, carry', count')
  {
    if next == pos + READ_SIZE {
      carry', count' := CountFull(data, needle, start, pos, next, carry, count);
    } else {
      carry', count' := CountTail(data, needle, start, pos, next, carry, count);
    }
  }

  /** The newline before `next` settles the line it ends. */
  method EndLine(data: Word, needle: Word, min: nat, max: nat, start: nat, pos: nat, next: nat, carry: Word, count: int,
                 visited: seq<Line>)
    returns (visited': seq<Line>)
    requires needle != [] && ScanOk(data, needle, min, max, start, pos, carry, count, visited)
    requires pos < next <= |data| && next <= pos + READ_SIZE && NoNewline(data, pos, next - 1)
    requires data[next - 1] == NEWLINE
    ensures ScanOk(data, needle, min, max, next, next, [], 0, visited')
  {
    var end := next - 1;
    var total := CountLast(data, needle, start, pos, end, carry, count);
    LineFinished(data, needle, start, end, total, min, max);
    visited' := CloseLine(start, end, total, min, max, visited,
                          ChosenFrom(data, start, needle, min, max, false),
                          ChosenAfter(data, end, needle, min, max, false));
    StartOfLine(data, needle, next);
  }

  /** A last line without a newline. */
  method CountTail(data: Word, needle: Word, ghost start: nat, pos: nat, ghost next: nat, carry: Word, count: int)
    returns (carry': Word, count': int)
    requires needle != [] && pos <= next == |data| < pos + READ_SIZE
    requires CountOk(data, needle, start, pos, carry, count) && NoNewline(data, pos, next)
    ensures CountOk(data, needle, start, next, carry', count')
  {
    LineEndIs(data, start, |data|);
    LastPiece(data[pos..|data|], needle, carry);
    carry', count' := CountFragment(data[pos..|data|], needle, carry, count);
    assert data[|data|..|data|] == [];
    LastPiece([], needle, carry');
  }

  // ---------------------------------------------------------------------------------------
  // Which lines are visited

  /** A line of `n` bytes starts at `a`: behind a newline or at the start, up to a newline or the end. */
  ghost predicate LineAt(data: Word, a: nat, n: nat) {
    && a < |data| && (a == 0 || data[a - 1] == NEWLINE)
    && a + n <= |data| && (a + n == |data| || data[a + n] == NEWLINE) && NoNewline(data, a, a + n)
  }

  lemma {:induction false} LineEndFree(data: Word, i: nat)
    requires i <= |data|
    ensures NoNewline(data, i, LineEnd(data, i))
    decreases |data| - i
  {
    if i < |data| && data[i] != NEWLINE { LineEndFree(data, i + 1); }
  }

  /** A line starts at `start`, or behind the newline that ends that line. */
  lemma NextLine(data: Word, start: nat, a: nat, n: nat)
    requires start < |data| && (start == 0 || data[start - 1] == NEWLINE) && start <= a
    ensures LineAt(data, a, n) <==>
              (a == start && n == LineEnd(data, start) - start) || (a > LineEnd(data, start) && LineAt(data, a, n))
  {
    LineEndFree(data, start);
    if LineAt(data, a, n) && a == start { LineEndIs(data, start, start + n); }
  }

  /** At least `min` needles, and at most `max` unless that is zero. */
  ghost predicate Wanted(data: Word, needle: Word, min: nat, max: nat, whole: bool, a: nat, n: nat)
    requires needle != [] && a + n <= |data|
  {
    var count := Tally(data[a..a + n], needle, whole);
    count >= min && (max > 0 ==> count <= max)
  }

  lemma ChosenHereExact(data: Word, start: nat, end: nat, needle: Word, min: nat, max: nat, whole: bool, a: nat, n: nat)
    requires needle != [] && start <= end <= |data|
    ensures Line(a, n) in Chosen(data, start, end, needle, min, max, whole) <==>
              a == start && n == end - start && Wanted(data, needle, min, max, whole, a, n)
  {
  }

  lemma {:induction false} ChosenExact(data: Word, start: nat, needle: Word, min: nat, max: nat, whole: bool, a: nat,
                                       n: nat)
    requires needle != [] && start <= |data| && (start == |data| || start == 0 || data[start - 1] == NEWLINE)
    ensures Line(a, n) in ChosenFrom(data, start, needle, min, max, whole) <==>
              start <= a && LineAt(data, a, n) && Wanted(data, needle, min, max, whole, a, n)
    decreases |data| - start
  {
    if start < |data| {
      var end := LineEnd(data, start);
      ghost var here, after := Chosen(data, start, end, needle, min, max, whole),
        ChosenAfter(data, end, needle, min, max, whole);
      ChosenStep(data, start, needle, min, max, whole);
      ChosenHereExact(data, start, end, needle, min, max, whole, a, n);
      AfterExact(data, end, needle, min, max, whole, a, n);
      if start <= a { NextLine(data, start, a, n); }
      assert Line(a, n) in here + after <==> Line(a, n) in here || Line(a, n) in after;
    }
  }

  lemma {:induction false} AfterExact(data: Word, end: nat, needle: Word, min: nat, max: nat, whole: bool, a: nat,
                                      n: nat)
    requires needle != [] && end <= |data| && (end < |data| ==> data[end] == NEWLINE)
    ensures Line(a, n) in ChosenAfter(data, end, needle, min, max, whole) <==>
              end < a && LineAt(data, a, n) && Wanted(data, needle, min, max, whole, a, n)
    decreases |data| - end, 0
  {
    if end < |data| { ChosenExact(data, end + 1, needle, min, max, whole, a, n); }
  }

  /** Lines behind `from`, in order. */
  ghost predicate Ascending(lines: seq<Line>, from: nat) {
    && (forall i :: 0 <= i < |lines| ==> from <= lines[i].start)
    && forall i, j :: 0 <= i < j < |lines| ==> lines[i].start < lines[j].start
  }

  lemma LinesJoin(here: seq<Line>, rest: seq<Line>, start: nat, next: nat)
    requires |here| <= 1 && (|here| == 1 ==> here[0].start == start) && start < next && Ascending(rest, next)
    ensures Ascending(here + rest, start)
  {
  }

  lemma {:induction false} ChosenAscend(data: Word, start: nat, needle: Word, min: nat, max: nat, whole: bool)
    requires needle != [] && start <= |data|
    ensures Ascending(ChosenFrom(data, start, needle, min, max, whole), start)
    decreases |data| - start
  {
    if start < |data| {
      var end := LineEnd(data, start);
      AfterAscend(data, end, needle, min, max, whole);
      ChosenStep(data, start, needle, min, max, whole);
      LinesJoin(Chosen(data, start, end, needle, min, max, whole), ChosenAfter(data, end, needle, min, max, whole),
                start, end + 1);
    }
  }

  lemma {:induction false} AfterAscend(data: Word, end: nat, needle: Word, min: nat, max: nat, whole: bool)
    requires needle != [] && end <= |data|
    ensures Ascending(ChosenAfter(data, end, needle, min, max, whole), end + 1)
    decreases |data| - end, 0
  {
    if end < |data| { ChosenAscend(data, end + 1, needle, min, max, whole); }
  }

  /** Exactly the lines that hold the needle often enough and not too often: all of them, once, in order. */
  ghost predicate Visited(data: Word, needle: Word, min: nat, max: nat, whole: bool, lines: seq<Line>)
    requires needle != []
  {
    && (forall a: nat, n: nat :: Line(a, n) in lines <==>
          LineAt(data, a, n) && Wanted(data, needle, min, max, whole, a, n))
    && Ascending(lines, 0)
  }

  lemma ChosenVisited(data: Word, needle: Word, min: nat, max: nat, whole: bool)
    requires needle != []
    ensures Visited(data, needle, min, max, whole, ChosenFrom(data, 0, needle, min, max, whole))
  {
    forall a: nat, n: nat
      ensures Line(a, n) in ChosenFrom(data, 0, needle, min, max, whole) <==>
                LineAt(data, a, n) && Wanted(data, needle, min, max, whole, a, n)
    {
      ChosenExact(data, 0, needle, min, max, whole, a, n);
    }
    ChosenAscend(data, 0, needle, min, max, whole);
  }

  /** Without an upper bound every line with enough needles is visited. */
  lemma NoUpperBound(data: Word, needle: Word, min: nat, lines: seq<Line>, a: nat, n: nat)
    requires needle != [] && Visited(data, needle, min, 0, false, lines)
    ensures Line(a, n) in lines <==> LineAt(data, a, n) && LineCount(data[a..a + n], needle) >= min
  {
    assert Line(a, n) in lines <==> LineAt(data, a, n) && Wanted(data, needle, min, 0, false, a, n);
  }

  /** Visits the lines that hold the needle within bounds, by the scanner's own count, which for a needle without a
      border is the count of the whole line. Only invalid requirements and failing reads keep it from succeeding. */
  method ForEachReaderLine(data: Word, needle: Word, min: int, max: int, faults: bool) returns (r: Option<seq<Line>>)
    ensures needle == [] || min < 1 || max < 0 || (max > 0 && max < min) || NEWLINE in needle ==> r == None
    ensures r.Some? ==> r.value == ChosenFrom(data, 0, needle, min, max, false)
    ensures r.Some? && Borderless(needle) ==> r.value == ChosenFrom(data, 0, needle, min, max, true)
    ensures r.Some? ==> Visited(data, needle, min, max, false, r.value)
    ensures r.Some? && Borderless(needle) ==> Visited(data, needle, min, max, true, r.value)
    ensures !faults && needle != [] && min >= 1 && (max == 0 || max >= min) && NEWLINE !in needle ==> r.Some?
  {
    if needle == [] || min < 1 || max < 0 || (max > 0 && max < min) || NEWLINE in needle { return None; }
    var visited: seq<Line> := [];
    var start: nat, pos: nat, carry: Word, count := 0, 0, [], 0;
    StartOfLine(data, needle, 0);
    while pos < |data|
      invariant ScanOk(data, needle, min, max, start, pos, carry, count, visited)
      decreases |data| - pos
    {
      var failed;
      start, pos, carry, count, visited, failed := ScanFragment(data, needle, min, max, start, pos, carry, count,
                                                                visited, faults);
      if failed { return None; }
    }
    if start < |data| {
      count := CountLast(data, needle, start, |data|, |data|, carry, count);
      LineFinished(data, needle, start, |data|, count, min, max);
      visited := CloseLine(start, |data|, count, min, max, visited, ChosenFrom(data, start, needle, min, max, false),
                           []);
    }
    ChosenVisited(data, needle, min, max, false);
    ChosenVisited(data, needle, min, max, true);
    if Borderless(needle) { ChosenAlike(data, 0, needle, min, max); }
    return Some(visited);
  }

  lemma {:induction false} ChosenAlike(data: Word, start: nat, needle: Word, min: nat, max: nat)
    requires needle != [] && start <= |data| && Borderless(needle)
    ensures ChosenFrom(data, start, needle, min, max, false) == ChosenFrom(data, start, needle, min, max, true)
    decreases |data| - start
  {
    if start < |data| {
      var end := LineEnd(data, start);
      ChosenHere(data, start, end, needle, min, max);
      AfterAlike(data, end, needle, min, max);
      ChosenStep(data, start, needle, min, max, false);
      ChosenStep(data, start, needle, min, max, true);
    }
  }

  lemma {:induction false} AfterAlike(data: Word, end: nat, needle: Word, min: nat, max: nat)
    requires needle != [] && end <= |data| && Borderless(needle)
    ensures ChosenAfter(data, end, needle, min, max, false) == ChosenAfter(data, end, needle, min, max, true)
    decreases |data| - end, 0
  {
    if end < |data| { ChosenAlike(data, end + 1, needle, min, max); }
  }

  lemma ChosenHere(data: Word, start: nat, end: nat, needle: Word, min: nat, max: nat)
    requires needle != [] && Borderless(needle) && start <= end <= |data|
    ensures Chosen(data, start, end, needle, min, max, false) == Chosen(data, start, end, needle, min, max, true)
  {
    TallyAlike(data[start..end], needle);
  }

  lemma TallyAlike(line: Word, needle: Word)
    requires needle != [] && Borderless(needle)
    ensures Tally(line, needle, false) == Tally(line, needle, true)
  {
    BorderlessSums(needle, Pieces(line));
    PiecesJoin(line);
  }

  lemma ChosenStep(data: Word, start: nat, needle: Word, min: nat, max: nat, whole: bool)
    requires needle != [] && start < |data|
    ensures var end := LineEnd(data, start);
            ChosenFrom(data, start, needle, min, max, whole) ==
            Chosen(data, start, end, needle, min, max, whole) + ChosenAfter(data, end, needle, min, max, whole)
  {
  }

  /** The lines given to the matcher are those whose whole count is within bounds, for all data and all bounds. */
  ghost predicate GateExact(w: Word)
    requires w != []
  {
    forall data, min: nat, max: nat :: ChosenFrom(data, 0, w, min, max, false) == ChosenFrom(data, 0, w, min, max, true)
  }

  /** The gate is exact exactly for needles without a border: a bordered one makes it pass over a line that holds the
      needle once when exactly one is asked for. */
  lemma GateExactly(w: Word)
    requires w != [] && NEWLINE !in w
    ensures GateExact(w) <==> Borderless(w)
  {
    if Borderless(w) {
      forall data, min: nat, max: nat
        ensures ChosenFrom(data, 0, w, min, max, false) == ChosenFrom(data, 0, w, min, max, true)
      {
        ChosenAlike(data, 0, w, min, max);
      }
    }
    if b: nat :| BorderedBy(w, b) {
      var line := DoubledLine(w, b);
      BorderedDoubles(w, b);
      OneLine(line, w, 1, 1, false);
      OneLine(line, w, 1, 1, true);
      assert ChosenFrom(line, 0, w, 1, 1, false) == [] && ChosenFrom(line, 0, w, 1, 1, true) == [Line(0, |line|)];
    }
  }

  lemma OneLine(line: Word, w: Word, min: nat, max: nat, whole: bool)
    requires w != [] && line != [] && NEWLINE !in line
    ensures ChosenFrom(line, 0, w, min, max, whole) ==
              if InBounds(Tally(line, w, whole), min, max) then [Line(0, |line|)] else []
  {
    assert NoNewline(line, 0, |line|);
    LineEndIs(line, 0, |line|);
    assert line[0..|line|] == line;
  }
}
