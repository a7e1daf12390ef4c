/** Two-byte positions recorded while windows of the input pass by, used to prove that a hinted
    occurrence is the first one. */
module StreamPairs {
  import opened Bytes

  /** How many later positions are kept for one pair. */
  const CANDIDATE_CAP: nat := 64

  /** Per byte pair: one past its first position, one past up to CANDIDATE_CAP later ones, and whether the list
      is full. */
  datatype Pairs = Pairs(first: map<Word, nat>, rest: map<Word, seq<nat>>, full: set<Word>)

  const NO_PAIRS := Pairs(map[], map[], {})

  function Rest(pairs: Pairs, k: Word): seq<nat> {
    if k in pairs.rest then pairs.rest[k] else []
  }

  function Recorded(pairs: Pairs, k: Word): seq<nat> {
    (if k in pairs.first then [pairs.first[k]] else []) + Rest(pairs, k)
  }

  ghost predicate IsPair(k: Word) {
    |k| == 2
  }

  /** One past each of the leading occurrences of `k` below `n`, up to one more than the cap. */
  ghost function Marks(data: Word, k: Word, n: nat): seq<nat> {
    if n == 0 then []
    else
      var before := Marks(data, k, n - 1);
      before + (if OccursAt(data, k, n - 1) && |before| <= CANDIDATE_CAP then [n] else [])
  }

  /** A list within the cap marks every occurrence below `n`. */
  lemma {:induction false} MarksComplete(data: Word, k: Word, n: nat, q: nat)
    requires |Marks(data, k, n)| <= CANDIDATE_CAP && q < n && OccursAt(data, k, q)
    ensures q + 1 in Marks(data, k, n)
  {
    if q < n - 1 { MarksComplete(data, k, n - 1, q); }
  }

  lemma {:induction false} MarksAscend(data: Word, k: Word, n: nat)
    ensures forall i :: 0 <= i < |Marks(data, k, n)| ==> Marks(data, k, n)[i] <= n
    ensures forall i, j :: 0 <= i < j < |Marks(data, k, n)| ==> Marks(data, k, n)[i] < Marks(data, k, n)[j]
  {
    if n > 0 { MarksAscend(data, k, n - 1); }
  }

  /** The record of `k` is its marks below `n`. */
  ghost predicate PairTo(data: Word, pairs: Pairs, k: Word, n: nat) {
    && Recorded(pairs, k) == Marks(data, k, n)
    && |Rest(pairs, k)| <= CANDIDATE_CAP && (k !in pairs.first ==> Rest(pairs, k) == [])
    && (k in pairs.full <==> |Rest(pairs, k)| == CANDIDATE_CAP)
  }

  ghost predicate PairsTo(data: Word, pairs: Pairs, n: nat) {
    forall k :: IsPair(k) ==> PairTo(data, pairs, k, n)
  }

  /** The pair positions that windows reaching `through` have shown. */
  ghost function PairsBelow(through: nat): nat {
    if through == 0 then 0 else through - 1
  }

  lemma NoPairs(data: Word)
    ensures PairsTo(data, NO_PAIRS, 0)
  {
    forall k | IsPair(k) ensures PairTo(data, NO_PAIRS, k, 0) { }
  }

  function AddPair(pairs: Pairs, k: Word, pos: nat): Pairs {
    if k in pairs.full then pairs
    else if k !in pairs.first then pairs.(first := pairs.first[k := pos])
    else
      var rest := Rest(pairs, k) + [pos];
      pairs.(rest := pairs.rest[k := rest], full := if |rest| >= CANDIDATE_CAP then pairs.full + {k} else pairs.full)
  }

  lemma AddPairHere(data: Word, pairs: Pairs, k: Word, p: nat)
    requires PairTo(data, pairs, k, p) && OccursAt(data, k, p)
    ensures PairTo(data, AddPair(pairs, k, p + 1), k, p + 1)
  {
    var pairs' := AddPair(pairs, k, p + 1);
    if k !in pairs.full { assert Recorded(pairs', k) == Recorded(pairs, k) + [p + 1]; }
  }

  lemma AddPairElsewhere(data: Word, pairs: Pairs, k: Word, other: Word, p: nat)
    requires PairTo(data, pairs, other, p) && !OccursAt(data, other, p) && other != k
    ensures PairTo(data, AddPair(pairs, k, p + 1), other, p + 1)
  {
    assert Recorded(AddPair(pairs, k, p + 1), other) == Recorded(pairs, other);
  }

  /** One more position of the input. */
  lemma AddPairOk(data: Word, pairs: Pairs, k: Word, p: nat)
    requires PairsTo(data, pairs, p) && IsPair(k) && OccursAt(data, k, p)
    ensures PairsTo(data, AddPair(pairs, k, p + 1), p + 1)
  {
    forall other | IsPair(other) ensures PairTo(data, AddPair(pairs, k, p + 1), other, p + 1) {
      assert PairTo(data, pairs, other, p);
      if other == k {
        AddPairHere(data, pairs, k, p);
      } else {
        AddPairElsewhere(data, pairs, k, other, p);
      }
    }
  }

  /** Records the pairs of one window, from the position after the last one recorded. */
  method RecordWindow(ghost data: Word, pairs: Pairs, through: nat, window: Word, start: nat)
    returns (pairs': Pairs, through': nat)
    requires PairsTo(data, pairs, PairsBelow(through)) && through <= |data|
    requires OccursAt(data, window, start) && (start < through || start == 0)
    ensures PairsTo(data, pairs', PairsBelow(through'))
    ensures through' == if start + |window| > through then start + |window| else through
  {
    pairs', through' := pairs, through;
    if window == [] { return; }
    var from := 0;
    if start < through {
      from := through - start;
      if from >= |window| { return; }
      from := from - 1;
    }
    ghost var first, stop := PairsBelow(through), start + |window| - 1;
    assert start + from == first;
    pairs' := RecordPairs(data, pairs, window, start, from, first, stop);
    if start + |window| > through { through' := start + |window|; }
    assert PairsBelow(through') == stop;
  }

  method RecordPairs(ghost data: Word, pairs: Pairs, window: Word, start: nat, from: nat, ghost first: nat,
                     ghost stop: nat)
    returns (pairs': Pairs)
    requires OccursAt(data, window, start) && from < |window| && first == start + from && stop == start + |window| - 1
    requires PairsTo(data, pairs, first)
    ensures PairsTo(data, pairs', stop)
  {
    pairs' := pairs;
    var p := start + from;
    assert p == first;
    for i := from to |window| - 1
      invariant p == start + i && PairsTo(data, pairs', p)
    {
      var pair := [window[i], window[i + 1]];
      PairHere(data, window, start, i);
      AddPairOk(data, pairs', pair, p);
      pairs' := AddPair(pairs', pair, p + 1);
      p := p + 1;
    }
    assert p == stop;
  }

  lemma PairHere(data: Word, window: Word, start: nat, i: nat)
    requires OccursAt(data, window, start) && i + 1 < |window|
    ensures OccursAt(data, [window[i], window[i + 1]], start + i)
  {
    SliceOfSlice(data, start, start + |window|, i, i + 2);
    assert window[i..i + 2] == [window[i], window[i + 1]];
  }

  // ---------------------------------------------------------------------------------------
  // What a record proves

  /** A string's occurrences are occurrences of its prefix. */
  lemma PrefixOccursToo(data: Word, k: Word, raw: Word, p: int)
    requires k <= raw && OccursAt(data, raw, p)
    ensures OccursAt(data, k, p)
  {
    SliceOfSlice(data, p, p + |raw|, 0, |k|);
  }

  /** When the record is not full it names every earlier candidate: if none of them is the raw, the
      hinted occurrence is the first. */
  lemma HintIsFirst(data: Word, pairs: Pairs, n: nat, raw: Word, offset: nat)
    requires |raw| >= 2 && PairTo(data, pairs, raw[..2], n) && |Rest(pairs, raw[..2])| < CANDIDATE_CAP
    requires offset <= n && OccursAt(data, raw, offset)
    requires forall i :: 0 <= i < |Recorded(pairs, raw[..2])| ==>
               NotEarlier(data, raw, offset, Recorded(pairs, raw[..2])[i])
    ensures IsIndex(data, raw, offset)
  {
    var k := raw[..2];
    forall q | 0 <= q < offset ensures !OccursAt(data, raw, q) {
      if OccursAt(data, k, q) {
        MarksComplete(data, k, n, q);
        var i :| 0 <= i < |Recorded(pairs, k)| && Recorded(pairs, k)[i] == q + 1;
        assert NotEarlier(data, raw, offset, Recorded(pairs, k)[i]);
      }
      assert OccursAt(data, raw, q) ==> OccursAt(data, k, q) by {
        if OccursAt(data, raw, q) { PrefixOccursToo(data, k, raw, q); }
      }
    }
  }

  /** The recorded position `pos` is no occurrence of `raw` before `offset`. */
  ghost predicate NotEarlier(data: Word, raw: Word, offset: nat, pos: nat) {
    pos == 0 || pos - 1 >= offset || !OccursAt(data, raw, pos - 1)
  }
}
