/** Complete prefix-position indexes, built in one bounded forward pass. */
module StreamIndex {
  import opened Bytes
  import opened StreamSearch

  const TOTAL_CAP: nat := 0x10_0000
  const SAMPLE_LEN: nat := 64
  const SAMPLE_BYTES: nat := 0x80_0000

  // ---------------------------------------------------------------------------------------
  // Occurrence lists

  /** The positions below `n` where `w` stands, ascending. */
  ghost function Occurrences(data: Word, w: Word, n: nat): seq<nat> {
    if n == 0 then []
    else Occurrences(data, w, n - 1) + (if OccursAt(data, w, n - 1) then [n - 1] else [])
  }

  /** The list holds every occurrence below `n` and nothing else. */
  lemma {:induction false} OccurrencesMembers(data: Word, w: Word, n: nat)
    ensures forall p :: p in Occurrences(data, w, n) <==> 0 <= p < n && OccursAt(data, w, p)
  {
    if n > 0 { OccurrencesMembers(data, w, n - 1); }
  }

  /** The list is strictly ascending, so no occurrence is listed twice. */
  lemma {:induction false} OccurrencesAscend(data: Word, w: Word, n: nat)
    ensures forall i, j :: 0 <= i < j < |Occurrences(data, w, n)| ==>
              Occurrences(data, w, n)[i] < Occurrences(data, w, n)[j]
  {
    if n > 0 {
      OccurrencesAscend(data, w, n - 1);
      OccurrencesBelow(data, w, n - 1);
    }
  }

  lemma OccurrencesBelow(data: Word, w: Word, n: nat)
    ensures forall i :: 0 <= i < |Occurrences(data, w, n)| ==> Occurrences(data, w, n)[i] < n
  {
    OccurrencesMembers(data, w, n);
    var all := Occurrences(data, w, n);
    assert forall i :: 0 <= i < |all| ==> all[i] in all;
  }

  lemma {:induction false} OccurrencesSkip(data: Word, w: Word, n: nat, n': nat)
    requires n <= n' && forall p :: n <= p < n' ==> !OccursAt(data, w, p)
    ensures Occurrences(data, w, n') == Occurrences(data, w, n)
  {
    if n < n' { OccurrencesSkip(data, w, n, n' - 1); }
  }

  // ---------------------------------------------------------------------------------------
  // Indexes

  /** Positions of one prefix, the newlines before each, and content samples of the leading ones. */
  datatype PrefixIndex = PrefixIndex(positions: seq<nat>, newlines: seq<nat>, samples: seq<Word>)

  /** The index lists the occurrences of `key` below `n`. */
  ghost predicate IndexTo(data: Word, key: Word, idx: PrefixIndex, n: nat) {
    && idx.positions == Occurrences(data, key, n)
    && |idx.newlines| == |idx.positions|
    && (forall i :: 0 <= i < |idx.positions| ==> AttributedTo(data, idx.positions[i], idx.newlines[i]))
    && |idx.samples| <= |idx.positions|
    && (forall i :: 0 <= i < |idx.samples| ==> SampleOf(data, idx.positions[i], idx.samples[i]))
  }

  ghost predicate AttributedTo(data: Word, p: nat, newlines: nat) {
    p < |data| && newlines == LinesBefore(data, p)
  }

  ghost predicate SampleOf(data: Word, p: nat, sample: Word) {
    p <= |data| && |sample| <= SAMPLE_LEN && sample <= data[p..]
  }

  /** What a build carries: the indexes, the positions recorded, and the sample bytes in use. */
  datatype Build = Build(indexes: map<Word, PrefixIndex>, positions: nat, sampleBytes: nat)

  ghost predicate SamplesOpen(sampleBytes: nat) {
    sampleBytes + SAMPLE_LEN <= SAMPLE_BYTES
  }

  /** Samples stay a contiguous prefix of every index: while the budget is open none is missing. */
  ghost predicate SamplesContiguous(b: Build) {
    SamplesOpen(b.sampleBytes) ==> forall k :: k in b.indexes ==> |b.indexes[k].samples| == |b.indexes[k].positions|
  }

  /** Appends one position, with a sample while the sample budget lasts. */
  function AddPosition(b: Build, key: Word, p: nat, newlines: nat, sample: Word): Build
    requires key in b.indexes
  {
    var idx := b.indexes[key];
    var open := b.sampleBytes + SAMPLE_LEN <= SAMPLE_BYTES;
    var idx' := PrefixIndex(idx.positions + [p], idx.newlines + [newlines],
                            if open then idx.samples + [sample] else idx.samples);
    Build(b.indexes[key := idx'], b.positions + 1, if open then b.sampleBytes + |sample| else b.sampleBytes)
  }

  lemma AddPositionOk(data: Word, b: Build, key: Word, p: nat, newlines: nat, sample: Word)
    requires key in b.indexes && IndexTo(data, key, b.indexes[key], p) && SamplesContiguous(b)
    requires OccursAt(data, key, p) && p < |data| && newlines == LinesBefore(data, p) && SampleOf(data, p, sample)
    ensures var b' := AddPosition(b, key, p, newlines, sample);
            IndexTo(data, key, b'.indexes[key], p + 1) && SamplesContiguous(b')
  {
  }

  // ---------------------------------------------------------------------------------------
  // Sums over indexes, for the budgets

  /** What the cache already retains when a build starts. */
  datatype Retained = Retained(positions: nat, sampleBytes: nat)

  datatype Measure = Positions | SampleBytes

  ghost function SampleSum(samples: seq<Word>): nat {
    if samples == [] then 0 else SampleSum(samples[..|samples| - 1]) + |samples[|samples| - 1]|
  }

  ghost function Weight(idx: PrefixIndex, m: Measure): nat {
    match m
    case Positions => |idx.positions|
    case SampleBytes => SampleSum(idx.samples)
  }

  ghost function Total(indexes: map<Word, PrefixIndex>, m: Measure): nat
    decreases |indexes|
  {
    if indexes == map[] then 0
    else
      var k :| k in indexes;
      Weight(indexes[k], m) + Total(indexes - {k}, m)
  }

  /** The sum does not depend on the order the entries are taken in. */
  lemma {:induction false} TotalRemove(indexes: map<Word, PrefixIndex>, m: Measure, k: Word)
    requires k in indexes
    ensures Total(indexes, m) == Weight(indexes[k], m) + Total(indexes - {k}, m)
    decreases |indexes|
  {
    var j :| j in indexes && Total(indexes, m) == Weight(indexes[j], m) + Total(indexes - {j}, m);
    if j != k {
      TotalRemove(indexes - {j}, m, k);
      TotalRemove(indexes - {k}, m, j);
      assert indexes - {j} - {k} == indexes - {k} - {j};
    }
  }

  lemma TotalUpdate(indexes: map<Word, PrefixIndex>, m: Measure, k: Word, idx: PrefixIndex)
    ensures Total(indexes[k := idx], m) ==
            Total(indexes, m) + Weight(idx, m) - (if k in indexes then Weight(indexes[k], m) else 0)
  {
    TotalRemove(indexes[k := idx], m, k);
    if k in indexes {
      TotalRemove(indexes, m, k);
      assert indexes[k := idx] - {k} == indexes - {k};
    } else {
      assert indexes[k := idx] - {k} == indexes;
    }
  }

  /** Sums over disjoint groups of indexes add up. */
  lemma {:induction false} TotalUnion(a: map<Word, PrefixIndex>, b: map<Word, PrefixIndex>, m: Measure)
    requires a.Keys !! b.Keys
    ensures Total(a + b, m) == Total(a, m) + Total(b, m)
    decreases |b|
  {
    if k :| k in b {
      TotalUnion(a, b - {k}, m);
      TotalRemove(b, m, k);
      UnionRemove(a, b, m, k);
    } else {
      assert a + b == a;
    }
  }

  lemma UnionRemove(a: map<Word, PrefixIndex>, b: map<Word, PrefixIndex>, m: Measure, k: Word)
    requires a.Keys !! b.Keys && k in b
    ensures Total(a + b, m) == Weight(b[k], m) + Total(a + (b - {k}), m)
  {
    TotalRemove(a + b, m, k);
    assert (a + b) - {k} == a + (b - {k});
  }

  /** The counters move with the indexes. */
  lemma AddPositionCounts(b: Build, key: Word, p: nat, newlines: nat, sample: Word)
    requires key in b.indexes
    ensures var b' := AddPosition(b, key, p, newlines, sample);
            && b'.positions - b.positions == Total(b'.indexes, Positions) - Total(b.indexes, Positions)
            && b'.sampleBytes - b.sampleBytes == Total(b'.indexes, SampleBytes) - Total(b.indexes, SampleBytes)
  {
    var idx, idx' := b.indexes[key], AddPosition(b, key, p, newlines, sample).indexes[key];
    TotalUpdate(b.indexes, Positions, key, idx');
    TotalUpdate(b.indexes, SampleBytes, key, idx');
    assert (idx.samples + [sample])[..|idx.samples|] == idx.samples;
  }

  // ---------------------------------------------------------------------------------------
  // The build pass

  ghost predicate IsPrefixKey(k: Word) {
    1 <= |k| <= 2
  }

  /** Keys are the one- and two-byte prefixes. */
  ghost predicate KeysOk(keys: set<Word>) {
    forall k :: k in keys ==> IsPrefixKey(k)
  }

  function Sample(buf: Word, j: nat): Word
    requires j <= |buf|
  {
    buf[j..if j + SAMPLE_LEN > |buf| then |buf| else j + SAMPLE_LEN]
  }

  lemma SampleIsOf(data: Word, start: nat, buf: Word, j: nat)
    requires start + |buf| <= |data| && buf == data[start..start + |buf|] && j <= |buf|
    ensures SampleOf(data, start + j, Sample(buf, j))
  {
    var sample := Sample(buf, j);
    SliceOfSlice(data, start, start + |buf|, j, j + |sample|);
    assert data[start + j..][..|sample|] == data[start + j..start + j + |sample|];
  }

  /** The counters of a build agree with its indexes and stay within both budgets. */
  ghost predicate CountersOk(b: Build, cached: Retained) {
    && SamplesContiguous(b)
    && b.positions == Total(b.indexes, Positions) && cached.positions + b.positions <= TOTAL_CAP
    && b.sampleBytes == cached.sampleBytes + Total(b.indexes, SampleBytes) && b.sampleBytes <= SAMPLE_BYTES
  }

  /** Records one key at one position, unless the shared position budget is used up. */
  method RecordKey(ghost data: Word, b: Build, key: Word, p: nat, newlines: nat, sample: Word, cached: Retained)
    returns (b': Build, exceeded: bool)
    requires key in b.indexes && IndexTo(data, key, b.indexes[key], p) && CountersOk(b, cached)
    requires OccursAt(data, key, p) && p < |data| && newlines == LinesBefore(data, p) && SampleOf(data, p, sample)
    ensures exceeded <==> cached.positions + b.positions >= TOTAL_CAP
    ensures !exceeded ==>
              && CountersOk(b', cached) && b'.indexes.Keys == b.indexes.Keys
              && IndexTo(data, key, b'.indexes[key], p + 1)
              && forall k :: k in b.indexes && k != key ==> b'.indexes[k] == b.indexes[k]
  {
    b', exceeded := b, cached.positions + b.positions >= TOTAL_CAP;
    if !exceeded {
      b' := AddPosition(b, key, p, newlines, sample);
      AddPositionOk(data, b, key, p, newlines, sample);
      AddPositionCounts(b, key, p, newlines, sample);
    }
  }

  /** Which keys stand at a position of the block. */
  lemma KeyHere(data: Word, start: nat, buf: Word, j: nat, key: Word)
    requires start + |buf| <= |data| && buf == data[start..start + |buf|] && j < |buf| && 1 <= |key| <= 2
    requires j + 1 < |buf| || start + |buf| == |data|
    ensures OccursAt(data, key, start + j) <==>
            key == [buf[j]] || (j + 1 < |buf| && key == [buf[j], buf[j + 1]])
  {
    OccursInWindow(data, start, start + |buf|, key, j);
    if j + |key| <= |buf| {
      assert buf[j..j + 1] == [buf[j]];
      if |key| == 2 { assert buf[j..j + 2] == [buf[j], buf[j + 1]]; }
    }
  }

  /** Every key's index is exact below `n`. */
  ghost predicate KeysTo(data: Word, indexes: map<Word, PrefixIndex>, n: nat) {
    forall k :: k in indexes ==> IndexTo(data, k, indexes[k], n)
  }

  /** The keys of `done` have already been recorded at `p`. */
  ghost predicate PartlyTo(data: Word, indexes: map<Word, PrefixIndex>, p: nat, done: set<Word>) {
    forall k :: k in indexes ==> IndexTo(data, k, indexes[k], if k in done then p + 1 else p)
  }

  /** A build of `keys` that has reached `n`. */
  ghost predicate BuildOk(data: Word, keys: set<Word>, b: Build, cached: Retained, n: nat) {
    b.indexes.Keys == keys && KeysTo(data, b.indexes, n) && CountersOk(b, cached)
  }

  /** One more occurrence than the shared budget has room for: beside what is retained, so many precede it. */
  ghost predicate OverrunAt(data: Word, keys: set<Word>, cached: Retained, indexes: map<Word, PrefixIndex>, p: nat,
                            done: set<Word>, key: Word)
  {
    && indexes.Keys == keys && PartlyTo(data, indexes, p, done) && key in keys && key !in done && OccursAt(data, key, p)
    && cached.positions + Total(indexes, Positions) >= TOTAL_CAP
  }

  ghost predicate Overrun(data: Word, keys: set<Word>, cached: Retained) {
    exists indexes, p: nat, done, key :: OverrunAt(data, keys, cached, indexes, p, done, key)
  }

  /** Records `key` at `p` if it is wanted. */
  method RecordWanted(ghost data: Word, b: Build, key: Word, p: nat, newlines: nat, sample: Word, cached: Retained,
                      ghost done: set<Word>)
    returns (b': Build, exceeded: bool)
    requires PartlyTo(data, b.indexes, p, done) && CountersOk(b, cached) && key !in done
    requires OccursAt(data, key, p) && p < |data| && newlines == LinesBefore(data, p) && SampleOf(data, p, sample)
    ensures !exceeded ==>
              && CountersOk(b', cached) && b'.indexes.Keys == b.indexes.Keys
              && PartlyTo(data, b'.indexes, p, done + {key})
    ensures exceeded ==> Overrun(data, b.indexes.Keys, cached)
  {
    b', exceeded := b, false;
    if key in b.indexes {
      assert OverrunAt(data, b.indexes.Keys, cached, b.indexes, p, done, key) <==>
        cached.positions + b.positions >= TOTAL_CAP;
      b', exceeded := RecordKey(data, b, key, p, newlines, sample, cached);
    }
  }

  /** Keys that do not stand at `p` need no entry there. */
  lemma OthersNext(data: Word, indexes: map<Word, PrefixIndex>, p: nat, done: set<Word>)
    requires PartlyTo(data, indexes, p, done)
    requires forall k :: k in indexes && k !in done ==> !OccursAt(data, k, p)
    ensures KeysTo(data, indexes, p + 1)
  {
  }

  /** The two-byte key at a position, unless the position is the last. */
  ghost function PairKey(buf: Word, j: nat): set<Word>
    requires j < |buf|
  {
    if j + 1 < |buf| then {[buf[j], buf[j + 1]]} else {}
  }

  method RecordPair(ghost data: Word, start: nat, buf: Word, j: nat, p: nat, lineCount: nat, b: Build, cached: Retained)
    returns (b': Build, exceeded: bool)
    requires start + |buf| <= |data| && buf == data[start..start + |buf|] && j < |buf|
    requires j + 1 < |buf| ==> OccursAt(data, [buf[j], buf[j + 1]], p)
    requires p == start + j && lineCount == LinesBefore(data, p) && SampleOf(data, p, Sample(buf, j))
    requires PartlyTo(data, b.indexes, p, {}) && CountersOk(b, cached)
    ensures !exceeded ==>
              && CountersOk(b', cached) && b'.indexes.Keys == b.indexes.Keys
              && PartlyTo(data, b'.indexes, p, PairKey(buf, j))
    ensures exceeded ==> Overrun(data, b.indexes.Keys, cached)
  {
    b', exceeded := b, false;
    if j + 1 < |buf| {
      b', exceeded := RecordWanted(data, b, [buf[j], buf[j + 1]], p, lineCount, Sample(buf, j), cached, {});
      assert {} + {[buf[j], buf[j + 1]]} == PairKey(buf, j);
    }
  }

  /** One position of the general loop: first the two-byte key, then the one-byte key. */
  method IndexPosition(ghost data: Word, start: nat, buf: Word, j: nat, p: nat, lineCount: nat, b: Build,
                       cached: Retained)
    returns (b': Build, exceeded: bool)
    requires start + |buf| <= |data| && buf == data[start..start + |buf|] && j < |buf|
    requires j + 1 < |buf| || start + |buf| == |data|
    requires p == start + j && lineCount == LinesBefore(data, p)
    requires KeysOk(b.indexes.Keys) && KeysTo(data, b.indexes, p) && CountersOk(b, cached)
    ensures !exceeded ==> b'.indexes.Keys == b.indexes.Keys && KeysTo(data, b'.indexes, p + 1) && CountersOk(b', cached)
    ensures exceeded ==> Overrun(data, b.indexes.Keys, cached)
  {
    SampleIsOf(data, start, buf, j);
    KeysHere(data, start, buf, j, p);
    b', exceeded := RecordPair(data, start, buf, j, p, lineCount, b, cached);
    if exceeded { return; }
    SingleIsNoPair(buf, j);
    b', exceeded := RecordWanted(data, b', [buf[j]], p, lineCount, Sample(buf, j), cached, PairKey(buf, j));
    if !exceeded { PositionDone(data, start, buf, j, p, b'.indexes); }
  }

  lemma SingleIsNoPair(buf: Word, j: nat)
    requires j < |buf|
    ensures [buf[j]] !in PairKey(buf, j)
  {
  }

  /** Once both keys that stand at a position are recorded, every index is exact beyond it. */
  lemma PositionDone(data: Word, start: nat, buf: Word, j: nat, p: nat, indexes: map<Word, PrefixIndex>)
    requires start + |buf| <= |data| && buf == data[start..start + |buf|] && j < |buf| && p == start + j
    requires j + 1 < |buf| || start + |buf| == |data|
    requires KeysOk(indexes.Keys) && PartlyTo(data, indexes, p, PairKey(buf, j) + {[buf[j]]})
    ensures KeysTo(data, indexes, p + 1)
  {
    KeysHere(data, start, buf, j, p);
    OthersNext(data, indexes, p, PairKey(buf, j) + {[buf[j]]});
  }

  lemma KeysHere(data: Word, start: nat, buf: Word, j: nat, p: nat)
    requires start + |buf| <= |data| && buf == data[start..start + |buf|] && j < |buf| && p == start + j
    requires j + 1 < |buf| || start + |buf| == |data|
    ensures OccursAt(data, [buf[j]], p) && (j + 1 < |buf| ==> OccursAt(data, [buf[j], buf[j + 1]], p))
    ensures forall k :: IsPrefixKey(k) && OccursAt(data, k, p) ==>
              k == [buf[j]] || (j + 1 < |buf| && k == [buf[j], buf[j + 1]])
  {
    KeyHere(data, start, buf, j, [buf[j]]);
    if j + 1 < |buf| { KeyHere(data, start, buf, j, [buf[j], buf[j + 1]]); }
    forall k | IsPrefixKey(k) && OccursAt(data, k, p)
      ensures k == [buf[j]] || (j + 1 < |buf| && k == [buf[j], buf[j + 1]])
    {
      KeyHere(data, start, buf, j, k);
    }
  }

  /** Moves the newline count past one byte of the block. */
  method CountLine(ghost data: Word, ghost start: nat, buf: Word, j: nat, ghost p: nat, lineCount: nat)
    returns (lineCount': nat)
    requires start + |buf| <= |data| && buf == data[start..start + |buf|] && j < |buf| && p == start + j
    requires lineCount == LinesBefore(data, p)
    ensures lineCount' == LinesBefore(data, p + 1)
  {
    lineCount' := if buf[j] == NEWLINE then lineCount + 1 else lineCount;
  }

  /** The general loop over one block: any number of keys. */
  method IndexBlock(ghost data: Word, start: nat, buf: Word, end: nat, ghost stop: nat, lineCount: nat, b: Build,
                    cached: Retained, ghost keys: set<Word>)
    returns (b': Build, lineCount': nat, exceeded: bool)
    requires start + |buf| <= |data| && buf == data[start..start + |buf|] && end <= |buf| && stop == start + end
    requires end < |buf| || start + |buf| == |data|
    requires lineCount == LinesBefore(data, start)
    requires KeysOk(keys) && BuildOk(data, keys, b, cached, start)
    ensures !exceeded ==> BuildOk(data, keys, b', cached, stop) && lineCount' == LinesBefore(data, stop)
    ensures exceeded ==> Overrun(data, keys, cached)
  {
    b', lineCount', exceeded := b, lineCount, false;
    var j, p := 0, start;
    while j < end
      invariant j <= end && p == start + j
      invariant BuildOk(data, keys, b', cached, p) && lineCount' == LinesBefore(data, p)
    {
      b', lineCount', exceeded := IndexNext(data, start, buf, j, p, lineCount', b', cached, keys);
      if exceeded { return; }
      j, p := j + 1, p + 1;
    }
  }

  /** One position and its newline. */
  method IndexNext(ghost data: Word, start: nat, buf: Word, j: nat, p: nat, lineCount: nat, b: Build, cached: Retained,
                   ghost keys: set<Word>)
    returns (b': Build, lineCount': nat, exceeded: bool)
    requires start + |buf| <= |data| && buf == data[start..start + |buf|] && j < |buf| && p == start + j
    requires j + 1 < |buf| || start + |buf| == |data|
    requires lineCount == LinesBefore(data, p) && KeysOk(keys) && BuildOk(data, keys, b, cached, p)
    ensures !exceeded ==> BuildOk(data, keys, b', cached, p + 1) && lineCount' == LinesBefore(data, p + 1)
    ensures exceeded ==> Overrun(data, keys, cached)
  {
    b', exceeded := IndexPosition(data, start, buf, j, p, lineCount, b, cached);
    lineCount' := CountLine(data, start, buf, j, p, lineCount);
  }

  /** Moves the newline count over a stretch of the block. */
  method CountLines(ghost data: Word, ghost start: nat, buf: Word, lo: nat, hi: nat, lineCount: nat)
    returns (lineCount': nat)
    requires start + |buf| <= |data| && buf == data[start..start + |buf|] && lo <= hi <= |buf|
    requires lineCount == LinesBefore(data, start + lo)
    ensures lineCount' == LinesBefore(data, start + hi)
  {
    lineCount' := lineCount;
    var j := lo;
    ghost var p := start + lo;
    while j < hi
      invariant j <= hi && p == start + j && lineCount' == LinesBefore(data, p)
    {
      lineCount' := CountLine(data, start, buf, j, p, lineCount');
      j, p := j + 1, p + 1;
    }
  }

  /** A search of the block from `from` finds the next position of the key below `end`, if there is one. */
  lemma NextPosition(data: Word, start: nat, buf: Word, key: Word, from: nat, end: nat, searchEnd: nat, rel: int)
    requires start + |buf| <= |data| && buf == data[start..start + |buf|] && 1 <= |key| <= 2
    requires from <= end <= searchEnd <= |buf|
    requires searchEnd == end + (if |key| == 2 && end < |buf| then 1 else 0)
    requires end < |buf| || start + |buf| == |data|
    requires IsIndex(buf[from..searchEnd], key, rel)
    ensures rel >= 0 ==> from + rel < end && OccursAt(data, key, start + from + rel)
    ensures forall p :: start + from <= p < start + (if rel < 0 then end else from + rel) ==> !OccursAt(data, key, p)
  {
    SliceOfSlice(data, start, start + |buf|, from, searchEnd);
    var lo, hi := start + from, start + searchEnd;
    OccursInWindow(data, lo, hi, key, rel);
    NoneEarlier(data, lo, hi, key, rel, if rel < 0 then end - from else rel);
  }

  /** Before the first position in a window the key does not stand, nor anywhere it would fit if there is none. */
  lemma NoneEarlier(data: Word, lo: nat, hi: nat, key: Word, rel: int, n: nat)
    requires lo <= hi <= |data| && IsIndex(data[lo..hi], key, rel)
    requires if rel < 0 then lo + n - 1 + |key| <= hi || hi == |data| else n == rel
    ensures forall p :: lo <= p < lo + n ==> !OccursAt(data, key, p)
  {
    forall p | lo <= p < lo + n ensures !OccursAt(data, key, p) {
      OccursInWindow(data, lo, hi, key, p - lo);
      assert !OccursAt(data[lo..hi], key, p - lo);
    }
  }

  lemma IndexSkip(data: Word, key: Word, idx: PrefixIndex, n: nat, n': nat)
    requires IndexTo(data, key, idx, n) && n <= n' && forall p :: n <= p < n' ==> !OccursAt(data, key, p)
    ensures IndexTo(data, key, idx, n')
  {
    OccurrencesSkip(data, key, n, n');
  }

  /** Counts the newlines up to a hit and records it. */
  method RecordHit(ghost data: Word, start: nat, buf: Word, key: Word, lineScan: nat, j: nat, ghost p: nat,
                   lineCount: nat, b: Build, cached: Retained)
    returns (b': Build, lineCount': nat, exceeded: bool)
    requires start + |buf| <= |data| && buf == data[start..start + |buf|] && lineScan <= j < |buf| && p == start + j
    requires lineCount == LinesBefore(data, start + lineScan)
    requires b.indexes.Keys == {key} && IndexTo(data, key, b.indexes[key], p) && CountersOk(b, cached)
    requires OccursAt(data, key, p)
    ensures !exceeded ==>
              && b'.indexes.Keys == {key} && IndexTo(data, key, b'.indexes[key], p + 1) && CountersOk(b', cached)
              && lineCount' == LinesBefore(data, start + j)
    ensures exceeded ==> Overrun(data, {key}, cached)
  {
    lineCount' := CountLines(data, start, buf, lineScan, j, lineCount);
    SampleIsOf(data, start, buf, j);
    assert OverrunAt(data, {key}, cached, b.indexes, p, {}, key) <==> cached.positions + b.positions >= TOTAL_CAP;
    b', exceeded := RecordKey(data, b, key, start + j, lineCount', Sample(buf, j), cached);
  }

  /** The fast loop over one block, for a build with one key: library searches instead of a byte loop. */
  method IndexBlockFast(ghost data: Word, start: nat, buf: Word, end: nat, ghost stop: nat, lineCount: nat, b: Build,
                        cached: Retained, key: Word)
    returns (b': Build, lineCount': nat, exceeded: bool)
    requires start + |buf| <= |data| && buf == data[start..start + |buf|] && end <= |buf| && stop == start + end
    requires end < |buf| || start + |buf| == |data|
    requires lineCount == LinesBefore(data, start)
    requires 1 <= |key| <= 2 && FastTo(data, key, b, cached, start)
    ensures !exceeded ==> FastTo(data, key, b', cached, stop) && lineCount' == LinesBefore(data, stop)
    ensures exceeded ==> Overrun(data, {key}, cached)
  {
    b', lineCount', exceeded := b, lineCount, false;
    var from: nat, lineScan: nat := 0, 0;
    ghost var n, lines := start, start;
    var more := true;
    while more
      invariant lineScan <= from <= end
      invariant if more then n == start + from && lines == start + lineScan else n == stop && lines == stop
      invariant FastTo(data, key, b', cached, n) && lineCount' == LinesBefore(data, lines)
      decreases more, end - from
    {
      b', lineCount', lineScan, more, exceeded, n, lines :=
        FastStep(data, start, buf, key, from, end, stop, n, lines, lineScan, lineCount', b', cached);
      if exceeded { return; }
      if more { from := lineScan + 1; }
    }
  }

  /** The one index of a fast build is exact below `n`. */
  ghost predicate FastTo(data: Word, key: Word, b: Build, cached: Retained, n: nat) {
    b.indexes.Keys == {key} && IndexTo(data, key, b.indexes[key], n) && CountersOk(b, cached)
  }

  /** With one key, the fast loop's invariant is the general loop's. */
  lemma FastIsGeneral(data: Word, key: Word, b: Build, cached: Retained, n: nat)
    ensures FastTo(data, key, b, cached, n) <==> BuildOk(data, {key}, b, cached, n)
  {
  }

  /** One round of the fast loop: the next hit is recorded, or the rest of the block is done. */
  method FastStep(ghost data: Word, start: nat, buf: Word, key: Word, from: nat, end: nat, ghost stop: nat,
                  ghost n: nat, ghost lines: nat, lineScan: nat, lineCount: nat, b: Build, cached: Retained)
    returns (b': Build, lineCount': nat, j: nat, more: bool, exceeded: bool, ghost n': nat, ghost lines': nat)
    requires start + |buf| <= |data| && buf == data[start..start + |buf|] && lineScan <= from <= end <= |buf|
    requires 1 <= |key| <= 2 && n == start + from && lines == start + lineScan && stop == start + end
    requires end < |buf| || start + |buf| == |data|
    requires FastTo(data, key, b, cached, n) && lineCount == LinesBefore(data, lines)
    ensures if more then from <= j < end && n' == start + j + 1 && lines' == start + j
            else j == lineScan && n' == stop && lines' == stop
    ensures !exceeded ==> FastTo(data, key, b', cached, n') && lineCount' == LinesBefore(data, lines')
    ensures exceeded ==> Overrun(data, {key}, cached)
  {
    var searchEnd := if |key| == 2 && end < |buf| then end + 1 else end;
    var relative := SearchBlock(data, start, buf, key, from, end, searchEnd, b.indexes[key], n);
    if relative < 0 {
      b', j, more, exceeded := b, lineScan, false, false;
      n', lines' := stop, stop;
      lineCount' := CountLines(data, start, buf, lineScan, end, lineCount);
    } else {
      j, more := from + relative, true;
      lines' := start + j;
      n' := lines' + 1;
      b', lineCount', exceeded := RecordHit(data, start, buf, key, lineScan, j, lines', lineCount, b, cached);
    }
  }

  /** The next position of the key in the block, or -1; everything skipped needs no entry. */
  method SearchBlock(ghost data: Word, ghost start: nat, buf: Word, key: Word, from: nat, end: nat, searchEnd: nat,
                     ghost idx: PrefixIndex, ghost n: nat)
    returns (relative: int)
    requires start + |buf| <= |data| && buf == data[start..start + |buf|] && 1 <= |key| <= 2
    requires from <= end <= searchEnd <= |buf| && n == start + from
    requires searchEnd == end + (if |key| == 2 && end < |buf| then 1 else 0)
    requires end < |buf| || start + |buf| == |data|
    requires IndexTo(data, key, idx, n)
    ensures relative >= 0 ==>
              from + relative < end && OccursAt(data, key, start + (from + relative))
                && IndexTo(data, key, idx, start + (from + relative))
    ensures relative < 0 ==> IndexTo(data, key, idx, start + end)
  {
    relative := Index(buf[from..searchEnd], key);
    NextPosition(data, start, buf, key, from, end, searchEnd, relative);
    IndexSkip(data, key, idx, n, start + (if relative < 0 then end else from + relative));
  }

  // ---------------------------------------------------------------------------------------
  // The whole pass

  /** The result of a build: failed (nothing may change), over budget (every key is dropped), or complete. */
  datatype Built = Failed | Dropped | Complete(indexes: map<Word, PrefixIndex>, positions: nat, sampleBytes: nat)

  /** A complete build: exact indexes of the whole input for exactly the requested keys, within both budgets. */
  ghost predicate BuiltOk(data: Word, keys: set<Word>, cached: Retained, r: Built) {
    && (r.Dropped? ==> Overrun(data, keys, cached))
    && (r.Complete? ==>
      && r.indexes.Keys == keys && KeysTo(data, r.indexes, |data|)
      && r.positions == Total(r.indexes, Positions) && cached.positions + r.positions <= TOTAL_CAP
      && r.sampleBytes == cached.sampleBytes + Total(r.indexes, SampleBytes) && r.sampleBytes <= SAMPLE_BYTES)
  }

  ghost predicate RetainedOk(cached: Retained) {
    cached.positions <= TOTAL_CAP && cached.sampleBytes <= SAMPLE_BYTES
  }

  lemma NothingBuilt(data: Word, keys: set<Word>, cached: Retained)
    requires RetainedOk(cached)
    ensures var b := Build(map k | k in keys :: PrefixIndex([], [], []), 0, cached.sampleBytes);
            KeysTo(data, b.indexes, 0) && CountersOk(b, cached)
  {
    var indexes := map k | k in keys :: PrefixIndex([], [], []);
    TotalNothing(indexes, Positions);
    TotalNothing(indexes, SampleBytes);
  }

  lemma {:induction false} TotalNothing(indexes: map<Word, PrefixIndex>, m: Measure)
    requires forall k :: k in indexes ==> Weight(indexes[k], m) == 0
    ensures Total(indexes, m) == 0
    decreases |indexes|
  {
    if k :| k in indexes {
      TotalRemove(indexes, m, k);
      TotalNothing(indexes - {k}, m);
    }
  }

  /** One block, by the loop that suits the number of keys. */
  method IndexBlockEither(ghost data: Word, start: nat, buf: Word, end: nat, ghost stop: nat, lineCount: nat, b: Build,
                          cached: Retained, keys: set<Word>)
    returns (b': Build, lineCount': nat, exceeded: bool)
    requires start + |buf| <= |data| && buf == data[start..start + |buf|] && end <= |buf|
    requires end < |buf| || start + |buf| == |data|
    requires lineCount == LinesBefore(data, start)
    requires KeysOk(keys) && BuildOk(data, keys, b, cached, start) && stop == start + end
    ensures !exceeded ==> BuildOk(data, keys, b', cached, stop) && lineCount' == LinesBefore(data, stop)
    ensures exceeded ==> Overrun(data, keys, cached)
  {
    if |keys| == 1 {
      var key :| key in keys;
      OnlyMember(keys, key);
      FastIsGeneral(data, key, b, cached, start);
      b', lineCount', exceeded := IndexBlockFast(data, start, buf, end, stop, lineCount, b, cached, key);
      FastIsGeneral(data, key, b', cached, stop);
    } else {
      b', lineCount', exceeded := IndexBlock(data, start, buf, end, stop, lineCount, b, cached, keys);
    }
  }

  /** Enumerates every occurrence of every requested prefix in one forward pass over blocks that
      overlap by one byte. */
  method ScanPrefixIndexes(data: Word, keys: set<Word>, cached: Retained, faults: bool) returns (r: Built)
    requires KeysOk(keys) && RetainedOk(cached)
    ensures BuiltOk(data, keys, cached, r)
    ensures !faults ==> !r.Failed?
  {
    var b := Build(map k | k in keys :: PrefixIndex([], [], []), 0, cached.sampleBytes);
    NothingBuilt(data, keys, cached);
    var lineCount, start := 0, 0;
    while start < |data|
      invariant start <= |data| && lineCount == LinesBefore(data, start)
      invariant BuildOk(data, keys, b, cached, start)
    {
      var stopped := Fails(faults);
      if stopped { return Failed; }
      var buf, end, failed := NextBlock(data, start, faults);
      if failed { return Failed; }
      var stop, exceeded := start + end, false;
      b, lineCount, exceeded := IndexBlockEither(data, start, buf, end, stop, lineCount, b, cached, keys);
      if exceeded { return Dropped; }
      start := stop;
    }
    return Complete(b.indexes, b.positions, b.sampleBytes);
  }

  /** The next block and how many of its positions are its own: the last byte is only looked at, unless the data
      ends. */
  method NextBlock(data: Word, start: nat, faults: bool) returns (buf: Word, end: nat, failed: bool)
    requires start < |data|
    ensures !failed ==> start + |buf| <= |data| && buf == data[start..start + |buf|] && 0 < end <= |buf|
    ensures !failed ==> end < |buf| || start + |buf| == |data|
    ensures !faults ==> !failed
  {
    var want := if |data| - start < BLOCK_SIZE + 1 then |data| - start else BLOCK_SIZE + 1;
    var read := ReadAt(data, start, want, faults);
    if read.None? { return [], 0, true; }
    return read.value, if start + want < |data| then want - 1 else want, false;
  }

  lemma OnlyMember(keys: set<Word>, key: Word)
    requires |keys| == 1 && key in keys
    ensures keys == {key}
  {
    EqualSets({key}, keys);
  }
}
