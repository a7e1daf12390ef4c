/** The stream match cache: where each reported secret first stands in a replayable input, answered
    from window hints, complete prefix indexes, one shared pass or a single-pattern pass. */
module StreamCache {
  import opened Bytes
  import opened StreamSearch
  import opened StreamIndex
  import opened StreamPairs
  import AcTrie
  import AcSpec

  const MIN_CANDIDATES: nat := 8
  const BATCH_MAX_RAW: nat := 0x8000
  const GROUP_MIN_RAWS: nat := 64

  /** Where a detector window saw the raw, when it did. */
  datatype Hint = NoHint | HintAt(offset: nat, newlines: nat)

  /** The search prefix of a raw: two bytes, or one for a one-byte raw. */
  function Prefix(raw: Word): (k: Word)
    ensures k <= raw
  {
    if |raw| >= 2 then raw[..2] else raw
  }

  /** The number that stands for a prefix: bit 16 sets one-byte prefixes apart from two-byte ones. */
  function PrefixNumber(k: Word): nat {
    if |k| >= 2 then (k[0] as int) * 256 + (k[1] as int) else if |k| == 1 then 0x1_0000 + (k[0] as int) else 0
  }

  lemma PrefixNumberInjective(a: Word, b: Word)
    requires IsPrefixKey(a) && IsPrefixKey(b)
    ensures PrefixNumber(a) == PrefixNumber(b) <==> a == b
  {
    if PrefixNumber(a) == PrefixNumber(b) {
      assert |a| == |b|;
      if |a| == 2 { assert a == [a[0], a[1]] && b == [b[0], b[1]]; } else { assert a == [a[0]] && b == [b[0]]; }
    }
  }

  // ---------------------------------------------------------------------------------------
  // Complete indexes are authoritative

  /** A complete index of `k` over the whole input. */
  ghost predicate WholeIndex(data: Word, k: Word, idx: PrefixIndex) {
    IndexTo(data, k, idx, |data|)
  }

  /** None of the first `i` indexed positions is an occurrence of `raw`. */
  ghost predicate Cleared(data: Word, idx: PrefixIndex, raw: Word, i: nat) {
    forall t :: 0 <= t < i && t < |idx.positions| ==> !OccursAt(data, raw, idx.positions[t])
  }

  /** An occurrence of the raw stands at an indexed position. */
  lemma OccurrenceIndexed(data: Word, k: Word, idx: PrefixIndex, raw: Word, q: nat) returns (t: nat)
    requires WholeIndex(data, k, idx) && k <= raw && k != [] && OccursAt(data, raw, q)
    ensures t < |idx.positions| && idx.positions[t] == q
  {
    PrefixOccursToo(data, k, raw, q);
    OccurrencesMembers(data, k, |data|);
    t :| 0 <= t < |idx.positions| && idx.positions[t] == q;
  }

  /** The first indexed position where the raw stands is its first offset. */
  lemma FirstIndexed(data: Word, k: Word, idx: PrefixIndex, raw: Word, i: nat)
    requires WholeIndex(data, k, idx) && k <= raw && k != [] && i < |idx.positions|
    requires Cleared(data, idx, raw, i) && OccursAt(data, raw, idx.positions[i])
    ensures IsMatch(data, raw, StreamMatch(idx.positions[i], idx.newlines[i], true))
  {
    var p := idx.positions[i];
    assert AttributedTo(data, p, idx.newlines[i]);
    LinesBeforeExact(data, p);
    OccurrencesAscend(data, k, |data|);
    forall q | 0 <= q < p ensures !OccursAt(data, raw, q) {
      if OccursAt(data, k, q) {
        OccurrencesMembers(data, k, |data|);
        var t :| 0 <= t < |idx.positions| && idx.positions[t] == q;
        assert t < i;
      }
      assert OccursAt(data, raw, q) ==> OccursAt(data, k, q) by {
        if OccursAt(data, raw, q) { PrefixOccursToo(data, k, raw, q); }
      }
    }
  }

  /** A raw that stands at no indexed position is absent. */
  lemma AbsentFromIndex(data: Word, k: Word, idx: PrefixIndex, raw: Word)
    requires WholeIndex(data, k, idx) && k <= raw && k != [] && Cleared(data, idx, raw, |idx.positions|)
    ensures IsMatch(data, raw, ABSENT)
  {
    if q: nat :| OccursAt(data, raw, q) {
      var t := OccurrenceIndexed(data, k, idx, raw, q);
    }
  }

  lemma SampleDecides(data: Word, p: nat, sample: Word, raw: Word)
    requires SampleOf(data, p, sample)
    ensures |sample| >= |raw| ==> (OccursAt(data, raw, p) <==> sample[..|raw|] == raw)
    ensures |sample| < |raw| && OccursAt(data, raw, p) ==> sample == raw[..|sample|]
  {
    var n := |sample|;
    assert sample == data[p..][..n];
    assert data[p..][..n] == data[p..p + n];
    if n >= |raw| {
      SliceOfSlice(data, p, p + n, 0, |raw|);
    } else if OccursAt(data, raw, p) {
      SliceOfSlice(data, p, p + |raw|, 0, n);
    }
  }

  lemma PrefixDiffers(sample: Word, raw: Word, prefix: Word, common: nat)
    requires prefix <= raw && |sample| < |raw| && common <= |sample| && common <= |prefix|
    requires sample[..common] != prefix[..common]
    ensures sample != raw[..|sample|]
  {
    assert raw[..|sample|][..common] == raw[..common] == prefix[..common];
  }

  /** Whether the raw stands at an indexed position: the sample decides when it is long enough or differs,
      a targeted read otherwise. */
  method IndexMatchAt(data: Word, idx: PrefixIndex, i: nat, raw: Word, ghost k: Word, faults: bool)
    returns (r: Option<bool>)
    requires WholeIndex(data, k, idx) && i < |idx.positions|
    ensures r.Some? ==> (r.value <==> OccursAt(data, raw, idx.positions[i]))
    ensures !faults ==> r.Some?
  {
    var pos := idx.positions[i];
    if i < |idx.samples| {
      var sample := idx.samples[i];
      SampleDecides(data, pos, sample, raw);
      if |sample| >= |raw| { return Some(sample[..|raw|] == raw); }
      if sample != raw[..|sample|] { return Some(false); }
    }
    if pos + |raw| > |data| { return Some(false); }
    var read := ReadAt(data, pos, |raw|, faults);
    if read.None? { return None; }
    return Some(read.value == raw);
  }

  /** The input's bytes at an indexed position, unless no raw of that length with that prefix can stand there. */
  method IndexCandidateAt(data: Word, idx: PrefixIndex, i: nat, length: nat, prefix: Word, ghost k: Word, faults: bool)
    returns (candidate: Option<Word>, failed: bool)
    requires WholeIndex(data, k, idx) && i < |idx.positions| && 0 < length
    ensures !failed && candidate.Some? ==>
              |candidate.value| == length && OccursAt(data, candidate.value, idx.positions[i])
    ensures !failed && candidate.None? ==>
              forall raw :: |raw| == length && prefix <= raw ==> !OccursAt(data, raw, idx.positions[i])
    ensures !faults ==> !failed
  {
    var pos := idx.positions[i];
    if i < |idx.samples| {
      var sample := idx.samples[i];
      assert SampleOf(data, pos, sample);
      if |sample| >= length {
        SampleDecides(data, pos, sample, sample[..length]);
        return Some(sample[..length]), false;
      }
      var common := if |sample| > |prefix| then |prefix| else |sample|;
      if sample[..common] != prefix[..common] {
        forall raw | |raw| == length && prefix <= raw ensures !OccursAt(data, raw, pos) {
          SampleDecides(data, pos, sample, raw);
          PrefixDiffers(sample, raw, prefix, common);
        }
        return None, false;
      }
    }
    if pos + length > |data| { return None, false; }
    var read := ReadAt(data, pos, length, faults);
    if read.None? { return None, true; }
    return Some(read.value), false;
  }

  ghost predicate AllRight(data: Word, values: Values) {
    forall raw :: raw in values ==> raw != [] && IsMatch(data, raw, values[raw])
  }

  /** Answers are kept once given. */
  ghost predicate Extends(values: Values, values': Values) {
    forall raw :: raw in values ==> raw in values' && values'[raw] == values[raw]
  }

  /** Walks a complete index for one raw. */
  method WalkIndex(data: Word, k: Word, idx: PrefixIndex, raw: Word, faults: bool) returns (r: Option<StreamMatch>)
    requires WholeIndex(data, k, idx) && k <= raw && k != []
    ensures r.Some? ==> IsMatch(data, raw, r.value)
    ensures !faults ==> r.Some?
  {
    for i := 0 to |idx.positions|
      invariant Cleared(data, idx, raw, i)
    {
      var stopped := Fails(faults);
      if stopped { return None; }
      var matched := IndexMatchAt(data, idx, i, raw, k, faults);
      if matched.None? { return None; }
      if matched.value {
        FirstIndexed(data, k, idx, raw, i);
        return Some(StreamMatch(idx.positions[i], idx.newlines[i], true));
      }
    }
    AbsentFromIndex(data, k, idx, raw);
    return Some(ABSENT);
  }

  /** Whether the recorded position is an occurrence of the raw before the hinted one. */
  method MatchEarlier(data: Word, raw: Word, offset: nat, pos: nat, faults: bool) returns (r: Option<bool>)
    ensures r.Some? ==> (r.value <==> !NotEarlier(data, raw, offset, pos))
    ensures !faults ==> r.Some?
  {
    if pos == 0 || pos - 1 >= offset || pos - 1 + |raw| > |data| { return Some(false); }
    var read := ReadAt(data, pos - 1, |raw|, faults);
    if read.None? { return None; }
    return Some(read.value == raw);
  }

  /** Whether any recorded position is an earlier occurrence; the walk stops at the hinted offset. */
  method AnyEarlier(data: Word, raw: Word, offset: nat, first: nat, rest: seq<nat>, faults: bool)
    returns (r: Option<bool>)
    requires forall i, j :: 0 <= i < j < |rest| ==> rest[i] < rest[j]
    ensures r == Some(false) ==>
              forall i :: 0 <= i < |[first] + rest| ==> NotEarlier(data, raw, offset, ([first] + rest)[i])
    ensures !faults ==> r.Some?
  {
    var earlier := MatchEarlier(data, raw, offset, first, faults);
    if earlier.None? { return None; }
    var i := 0;
    while i < |rest|
      invariant 0 <= i <= |rest|
      invariant earlier.Some?
      invariant !earlier.value ==>
                  NotEarlier(data, raw, offset, first)
                    && forall j :: 0 <= j < i ==> NotEarlier(data, raw, offset, rest[j])
    {
      if earlier.value || rest[i] - 1 >= offset { break; }
      var stopped := Fails(faults);
      if stopped { return None; }
      earlier := MatchEarlier(data, raw, offset, rest[i], faults);
      if earlier.None? { return None; }
      i := i + 1;
    }
    return earlier;
  }

  // ---------------------------------------------------------------------------------------
  // One group of raws against one complete index

  /** The members still unanswered do not stand at the first `i` indexed positions. */
  ghost predicate GroupTo(data: Word, idx: PrefixIndex, open: set<Word>, i: nat) {
    forall raw :: raw in open ==> Cleared(data, idx, raw, i)
  }

  /** `open` holds the group members that have no answer yet. */
  ghost predicate Unanswered(keys: set<Word>, values: Values, open: set<Word>) {
    forall raw :: raw in keys ==> (raw in open <==> raw !in values)
  }

  /** Answers are kept, and only members of `keys` gain one. */
  ghost predicate Adds(values: Values, keys: set<Word>, values': Values) {
    Extends(values, values') && forall raw :: raw in values' ==> raw in values || raw in keys
  }

  ghost predicate Shared(prefix: Word, keys: set<Word>) {
    forall raw :: raw in keys ==> prefix <= raw
  }

  ghost predicate GroupKeys(k: Word, keys: set<Word>) {
    k != [] && Shared(k, keys)
  }

  /** The longest common prefix of a group is a prefix of each member. */
  method GroupPrefix(keys: set<Word>) returns (prefix: Word)
    ensures Shared(prefix, keys)
  {
    prefix := [];
    var left := keys;
    while left != {}
      invariant left <= keys && forall raw :: raw in keys && raw !in left ==> prefix <= raw
      decreases |left|
    {
      var raw :| raw in left;
      if left == keys {
        prefix := raw;
      } else {
        var n := AcTrie.CommonPrefix(prefix, raw);
        AcSpec.CommonExact(prefix, raw, n);
        prefix := prefix[..n];
      }
      left := left - {raw};
    }
  }

  /** Only one string of each length stands at a position. */
  lemma SameBytes(data: Word, p: nat, raw: Word)
    requires OccursAt(data, raw, p)
    ensures forall other :: |other| == |raw| && OccursAt(data, other, p) ==> other == raw
  {
  }

  /** The raw does not stand at `p`, if its length has been tried. */
  ghost predicate Missing(data: Word, raw: Word, p: nat, tried: seq<nat>) {
    |raw| in tried ==> !OccursAt(data, raw, p)
  }

  /** Unanswered members were not missed at earlier positions, nor at this one with the lengths tried. */
  ghost predicate Trying(data: Word, idx: PrefixIndex, i: nat, open: set<Word>, tried: seq<nat>) {
    && GroupTo(data, idx, open, i) && i < |idx.positions|
    && forall raw :: raw in open ==> Missing(data, raw, idx.positions[i], tried)
  }

  lemma TriedMore(data: Word, idx: PrefixIndex, i: nat, open: set<Word>, open': set<Word>, tried: seq<nat>, length: nat)
    requires Trying(data, idx, i, open, tried) && open' <= open
    requires forall raw :: raw in open' && |raw| == length ==> !OccursAt(data, raw, idx.positions[i])
    ensures Trying(data, idx, i, open', tried + [length])
  {
    forall raw | raw in open' ensures Missing(data, raw, idx.positions[i], tried + [length]) {
      assert Missing(data, raw, idx.positions[i], tried);
    }
  }

  /** What a group walk carries: the answers, and how many members are open. */
  ghost predicate WalkOk(data: Word, keys: set<Word>, values: Values, remaining: nat, open: set<Word>) {
    AllRight(data, values) && open <= keys && Unanswered(keys, values, open) && remaining == |open|
  }

  lemma AnswerAdded(data: Word, keys: set<Word>, values: Values, remaining: nat, open: set<Word>, raw: Word,
                    m: StreamMatch)
    requires WalkOk(data, keys, values, remaining, open) && raw in keys && raw !in values && raw != []
    requires IsMatch(data, raw, m)
    ensures raw in open && remaining > 0
    ensures WalkOk(data, keys, values[raw := m], remaining - 1, open - {raw}) && Adds(values, keys, values[raw := m])
  {
  }

  /** One position and one length: the candidate bytes are looked up in the group. */
  method TryLength(data: Word, k: Word, idx: PrefixIndex, i: nat, keys: set<Word>, prefix: Word, length: nat,
                   values: Values, remaining: nat, ghost open: set<Word>, ghost tried: seq<nat>, faults: bool)
    returns (values': Values, remaining': nat, failed: bool, ghost open': set<Word>)
    requires WholeIndex(data, k, idx) && GroupKeys(k, keys) && Shared(prefix, keys) && 0 < length
    requires WalkOk(data, keys, values, remaining, open) && Trying(data, idx, i, open, tried)
    ensures WalkOk(data, keys, values', remaining', open') && Adds(values, keys, values')
    ensures !failed ==> Trying(data, idx, i, open', tried + [length])
    ensures !faults ==> !failed
  {
    values', remaining', open' := values, remaining, open;
    var candidate;
    candidate, failed := IndexCandidateAt(data, idx, i, length, prefix, k, faults);
    if failed { return; }
    if candidate.Some? {
      var raw := candidate.value;
      SameBytes(data, idx.positions[i], raw);
      if raw in keys && raw !in values {
        FirstIndexed(data, k, idx, raw, i);
        var m := StreamMatch(idx.positions[i], idx.newlines[i], true);
        AnswerAdded(data, keys, values, remaining, open, raw, m);
        values', remaining', open' := values[raw := m], remaining - 1, open - {raw};
      }
    }
    TriedMore(data, idx, i, open, open', tried, length);
  }

  /** One position, every length of the group. */
  method ResolveAt(data: Word, k: Word, idx: PrefixIndex, i: nat, keys: set<Word>, prefix: Word, lengths: seq<nat>,
                   values: Values, remaining: nat, ghost open: set<Word>, faults: bool)
    returns (values': Values, remaining': nat, failed: bool, ghost open': set<Word>)
    requires WholeIndex(data, k, idx) && GroupKeys(k, keys) && Shared(prefix, keys)
    requires forall u :: 0 <= u < |lengths| ==> lengths[u] > 0
    requires WalkOk(data, keys, values, remaining, open) && Trying(data, idx, i, open, [])
    ensures WalkOk(data, keys, values', remaining', open') && Adds(values, keys, values')
    ensures !failed ==> Trying(data, idx, i, open', lengths)
    ensures !faults ==> !failed
  {
    values', remaining', failed, open' := values, remaining, false, open;
    ghost var tried := [];
    for t := 0 to |lengths|
      invariant tried == lengths[..t]
      invariant WalkOk(data, keys, values', remaining', open') && Adds(values, keys, values')
      invariant Trying(data, idx, i, open', tried)
    {
      values', remaining', failed, open' := TryLength(data, k, idx, i, keys, prefix, lengths[t], values', remaining',
                                                      open', tried, faults);
      if failed { return; }
      tried := tried + [lengths[t]];
    }
    assert tried == lengths;
  }

  /** The lengths that occur in a group. */
  method Lengths(keys: set<Word>) returns (lengths: seq<nat>)
    requires [] !in keys
    ensures forall raw :: raw in keys ==> |raw| in lengths
    ensures forall u :: 0 <= u < |lengths| ==> lengths[u] > 0
  {
    lengths := [];
    var left := keys;
    while left != {}
      invariant left <= keys && forall raw :: raw in keys && raw !in left ==> |raw| in lengths
      invariant forall u :: 0 <= u < |lengths| ==> lengths[u] > 0
      decreases |left|
    {
      var raw :| raw in left;
      left := left - {raw};
      if |raw| !in lengths { lengths := lengths + [|raw|]; }
    }
  }

  lemma ClearedNext(data: Word, idx: PrefixIndex, i: nat, open: set<Word>, lengths: seq<nat>)
    requires Trying(data, idx, i, open, lengths) && forall raw :: raw in open ==> |raw| in lengths
    ensures GroupTo(data, idx, open, i + 1)
  {
    forall raw | raw in open ensures Cleared(data, idx, raw, i + 1) {
      assert Cleared(data, idx, raw, i) && Missing(data, raw, idx.positions[i], lengths);
    }
  }

  /** Answers every raw of one group by one walk over the group's complete index. */
  method ResolveGroup(data: Word, k: Word, idx: PrefixIndex, keys: set<Word>, values: Values, faults: bool)
    returns (values': Values, failed: bool)
    requires WholeIndex(data, k, idx) && GroupKeys(k, keys) && keys !! values.Keys && AllRight(data, values)
    ensures AllRight(data, values') && Adds(values, keys, values')
    ensures !failed ==> forall raw :: raw in keys ==> raw in values'
    ensures !faults ==> !failed
  {
    var prefix := GroupPrefix(keys);
    var lengths := Lengths(keys);
    var remaining: nat := |keys|;
    ghost var open := keys;
    values', failed := values, false;
    for i := 0 to |idx.positions|
      invariant WalkOk(data, keys, values', remaining, open) && Adds(values, keys, values')
      invariant GroupTo(data, idx, open, i)
    {
      if remaining == 0 { return; }
      var stopped := Fails(faults);
      if stopped { return values', true; }
      values', remaining, failed, open := ResolveAt(data, k, idx, i, keys, prefix, lengths, values', remaining, open,
                                                    faults);
      if failed { return; }
      ClearedNext(data, idx, i, open, lengths);
    }
    GroupAbsent(data, k, idx, keys, values', open);
    values' := values' + (map raw | raw in keys && raw !in values' :: ABSENT);
  }

  lemma GroupAbsent(data: Word, k: Word, idx: PrefixIndex, keys: set<Word>, values: Values, open: set<Word>)
    requires WholeIndex(data, k, idx) && GroupKeys(k, keys) && AllRight(data, values) && Unanswered(keys, values, open)
    requires GroupTo(data, idx, open, |idx.positions|)
    ensures AllRight(data, values + (map raw | raw in keys && raw !in values :: ABSENT))
  {
    forall raw | raw in keys && raw !in values ensures raw != [] && IsMatch(data, raw, ABSENT) {
      AbsentFromIndex(data, k, idx, raw);
    }
  }

  lemma ExtendsChain(a: Values, b: Values, c: Values)
    requires Extends(a, b) && Extends(b, c)
    ensures Extends(a, c)
  {
  }

  // ---------------------------------------------------------------------------------------
  // A batch of raws

  /** The raws of one group: one prefix, none answered yet. */
  ghost predicate RawGroupOk(k: Word, keys: set<Word>, values: Values) {
    IsPrefixKey(k) && forall raw :: raw in keys ==> raw != [] && Prefix(raw) == k && raw !in values
  }

  type RawGroups = map<Word, set<Word>>

  ghost predicate RawGroupsOk(groups: RawGroups, left: set<Word>, values: Values) {
    forall k :: k in left ==> k in groups && RawGroupOk(k, groups[k], values)
  }

  /** Every member has an answer or waits for the shared pass. */
  ghost predicate Placed(keys: set<Word>, values: Values, short: set<Word>) {
    forall raw :: raw in keys ==> raw in values || raw in short
  }

  ghost predicate AllPlaced(groups: RawGroups, done: set<Word>, values: Values, short: set<Word>) {
    forall k :: k in done ==> k in groups && Placed(groups[k], values, short)
  }

  /** Answers for one group leave the others untouched. */
  lemma OtherGroups(groups: RawGroups, left: set<Word>, values: Values, values': Values, k: Word)
    requires RawGroupsOk(groups, left, values) && k in left && Adds(values, groups[k], values')
    ensures RawGroupsOk(groups, left - {k}, values')
  {
    forall other | other in left - {k} ensures RawGroupOk(other, groups[other], values') {
      assert RawGroupOk(other, groups[other], values) && RawGroupOk(k, groups[k], values);
    }
  }

  lemma StillPlaced(groups: RawGroups, done: set<Word>, values: Values, short: set<Word>, values': Values,
                    short': set<Word>, k: Word)
    requires AllPlaced(groups, done, values, short) && Extends(values, values') && short <= short'
    requires k in groups && Placed(groups[k], values', short')
    ensures AllPlaced(groups, done + {k}, values', short')
  {
    forall other | other in done + {k} ensures other in groups && Placed(groups[other], values', short') {
      assert other != k ==> Placed(groups[other], values, short);
    }
  }

  lemma GroupStarts(k: Word, keys: set<Word>, values: Values)
    requires RawGroupOk(k, keys, values)
    ensures GroupKeys(k, keys) && keys !! values.Keys && [] !in keys
  {
  }

  /** Walks the index of each group, in any order; groups without an index join the shared pass. */
  method WalkGroups(data: Word, groups: RawGroups, found: map<Word, PrefixIndex>, values: Values, short: set<Word>,
                    faults: bool)
    returns (values': Values, short': set<Word>, failed: bool)
    requires AllRight(data, values) && RawGroupsOk(groups, groups.Keys, values)
    requires forall k :: k in found ==> WholeIndex(data, k, found[k])
    requires [] !in short
    ensures AllRight(data, values') && Extends(values, values') && short <= short' && [] !in short'
    ensures !failed ==> AllPlaced(groups, groups.Keys, values', short')
    ensures !faults ==> !failed
  {
    values', short', failed := values, short, false;
    var left := groups.Keys;
    ghost var done := {};
    while left != {}
      invariant AllRight(data, values') && Extends(values, values') && short <= short' && [] !in short'
      invariant RawGroupsOk(groups, left, values') && AllPlaced(groups, done, values', short')
      invariant forall k :: k in groups ==> k in left || k in done
      decreases |left|
    {
      var stopped := Fails(faults);
      if stopped { return values', short', true; }
      var k :| k in left;
      ghost var before, shortBefore := values', short';
      GroupStarts(k, groups[k], values');
      if k in found {
        values', failed := ResolveGroup(data, k, found[k], groups[k], values', faults);
      } else {
        short' := short' + groups[k];
      }
      ExtendsChain(values, before, values');
      if failed { return; }
      OtherGroups(groups, left, before, values', k);
      StillPlaced(groups, done, before, shortBefore, values', short', k);
      left, done := left - {k}, done + {k};
    }
  }

  ghost predicate IsHint(data: Word, through: nat, raw: Word, hint: Hint) {
    hint.HintAt? ==>
      && OccursAt(data, raw, hint.offset) && hint.newlines == Newlines(data[..hint.offset])
      && hint.offset + |raw| <= through
  }

  /** The unanswered raws of a batch: the short ones by prefix, the long ones, and the best hint of each. */
  datatype Batch = Batch(groups: RawGroups, long: seq<Word>, hints: map<Word, Hint>)

  /** A raw waits in its group or in the long list. */
  ghost predicate Pending(batch: Batch, raw: Word) {
    if |raw| <= BATCH_MAX_RAW then Prefix(raw) in batch.groups && raw in batch.groups[Prefix(raw)]
    else raw in batch.long
  }

  ghost predicate BatchOk(data: Word, through: nat, values: Values, batch: Batch) {
    && RawGroupsOk(batch.groups, batch.groups.Keys, values)
    && (forall k, raw :: k in batch.groups && raw in batch.groups[k] ==> raw in batch.hints)
    && (forall raw :: raw in batch.long ==> raw in batch.hints)
    && (forall raw :: raw in batch.hints ==>
        raw != [] && IsHint(data, through, raw, batch.hints[raw]) && Pending(batch, raw))
  }

  /** Files one unanswered raw; a first usable hint replaces a missing one. */
  function FileRawIn(batch: Batch, raw: Word, hint: Hint): Batch {
    var seen := raw in batch.hints;
    var hints := if !seen || (batch.hints[raw].NoHint? && hint.HintAt?) then batch.hints[raw := hint] else batch.hints;
    if |raw| <= BATCH_MAX_RAW then
      var k := Prefix(raw);
      var group := if k in batch.groups then batch.groups[k] else {};
      Batch(if seen then batch.groups else batch.groups[k := group + {raw}], batch.long, hints)
    else Batch(batch.groups, batch.long + [raw], hints)
  }

  lemma FileRawInOk(data: Word, through: nat, values: Values, batch: Batch, raw: Word, hint: Hint)
    requires BatchOk(data, through, values, batch) && raw != [] && raw !in values && IsHint(data, through, raw, hint)
    ensures BatchOk(data, through, values, FileRawIn(batch, raw, hint))
    ensures Pending(FileRawIn(batch, raw, hint), raw)
    ensures forall other :: Pending(batch, other) ==> Pending(FileRawIn(batch, raw, hint), other)
  {
    var batch' := FileRawIn(batch, raw, hint);
    forall other | Pending(batch, other) ensures Pending(batch', other) { }
    FileRawInGroups(values, batch, raw, hint);
  }

  lemma FileRawInGroups(values: Values, batch: Batch, raw: Word, hint: Hint)
    requires RawGroupsOk(batch.groups, batch.groups.Keys, values) && raw != [] && raw !in values
    ensures RawGroupsOk(FileRawIn(batch, raw, hint).groups, FileRawIn(batch, raw, hint).groups.Keys, values)
  {
    var groups' := FileRawIn(batch, raw, hint).groups;
    forall k | k in groups' ensures RawGroupOk(k, groups'[k], values) {
      assert k in batch.groups ==> RawGroupOk(k, batch.groups[k], values);
    }
  }

  function HintFor(hints: seq<Hint>, i: nat): Hint {
    if i < |hints| then hints[i] else NoHint
  }

  /** Sorts the unanswered raws of a batch into prefix groups and long ones. */
  method Classify(ghost data: Word, ghost through: nat, values: Values, raws: seq<Word>, hints: seq<Hint>)
    returns (batch: Batch)
    requires forall i :: 0 <= i < |raws| ==> IsHint(data, through, raws[i], HintFor(hints, i))
    ensures BatchOk(data, through, values, batch)
    ensures forall i :: 0 <= i < |raws| && raws[i] != [] ==> raws[i] in values || Pending(batch, raws[i])
  {
    batch := Batch(map[], [], map[]);
    for i := 0 to |raws|
      invariant BatchOk(data, through, values, batch)
      invariant forall j :: 0 <= j < i && raws[j] != [] ==> raws[j] in values || Pending(batch, raws[j])
    {
      if raws[i] != [] && raws[i] !in values {
        FileRawInOk(data, through, values, batch, raws[i], HintFor(hints, i));
        batch := FileRawIn(batch, raws[i], HintFor(hints, i));
      }
    }
  }

  // ---------------------------------------------------------------------------------------
  // The cache

  /** Retained indexes are whole, and the persistent counters are their totals, within both budgets. */
  ghost predicate IndexesOk(data: Word, indexes: map<Word, PrefixIndex>, positions: nat, sampleBytes: nat) {
    && KeysOk(indexes.Keys) && KeysTo(data, indexes, |data|)
    && positions == Total(indexes, Positions) && positions <= TOTAL_CAP
    && sampleBytes == Total(indexes, SampleBytes) && sampleBytes <= SAMPLE_BYTES
  }

  lemma MoreIndexes(data: Word, indexes: map<Word, PrefixIndex>, positions: nat, sampleBytes: nat, missing: set<Word>,
                    built: Built)
    requires IndexesOk(data, indexes, positions, sampleBytes) && missing !! indexes.Keys && KeysOk(missing)
    requires built.Complete? && BuiltOk(data, missing, Retained(positions, sampleBytes), built)
    ensures IndexesOk(data, indexes + built.indexes, positions + built.positions, built.sampleBytes)
  {
    TotalUnion(indexes, built.indexes, Positions);
    TotalUnion(indexes, built.indexes, SampleBytes);
  }

  class StreamMatchCache {
    const data: Word
    /** Whether reads may fail and calls may be cancelled. */
    const faults: bool
    var values: Values
    var pairs: Pairs
    var through: nat
    var candidates: set<Word>
    var active: bool
    var disabled: bool
    var indexes: map<Word, PrefixIndex>
    var overBudget: set<Word>
    var groupCounts: map<Word, nat>
    var positions: nat
    var sampleBytes: nat

    ghost predicate ObservedOk()
      reads this`pairs, this`through
    {
      through <= |data| && PairsTo(data, pairs, PairsBelow(through))
    }

    ghost predicate RetainedIndexesOk()
      reads this`indexes, this`positions, this`sampleBytes
    {
      IndexesOk(data, indexes, positions, sampleBytes)
    }

    /** Every answer is the one a whole-buffer search gives; records and indexes are exact. */
    ghost predicate Valid()
      reads this
    {
      AllRight(data, values) && ObservedOk() && RetainedIndexesOk()
    }

    constructor (data: Word, faults: bool)
      ensures Valid() && this.data == data && this.faults == faults && values == map[] && !active && !disabled
      ensures through == 0
    {
      this.data, this.faults := data, faults;
      values := map[];
      pairs := NO_PAIRS;
      through := 0;
      candidates := {};
      active, disabled := false, false;
      indexes, overBudget, groupCounts := map[], {}, map[];
      positions, sampleBytes := 0, 0;
      NoPairs(data);
    }

    // Observation ---------------------------------------------------------------------------

    /** Records the pairs of one window. A window must overlap what was seen before, or start the input. */
    method ObserveRawWindow(window: Word, start: nat)
      requires ObservedOk() && OccursAt(data, window, start) && (start < through || start == 0)
      modifies this`pairs, this`through
      ensures ObservedOk()
      ensures through == if start + |window| > old(through) then start + |window| else old(through)
    {
      pairs, through := RecordWindow(data, pairs, through, window, start);
    }

    /** Records the input before `end`, block by block with one byte of overlap. */
    method BootstrapRawObservation(end: nat) returns (failed: bool)
      requires ObservedOk() && end <= |data|
      modifies this`pairs, this`through
      ensures ObservedOk() && old(through) <= through
      ensures !failed ==> end <= through
      ensures !faults ==> !failed
    {
      failed := false;
      var start := 0;
      while start < end
        invariant 0 <= start <= end && old(through) <= through
        invariant start == 0 || start < through || start == end <= through
        invariant ObservedOk()
      {
        var stopped := Fails(faults);
        if stopped { return true; }
        var want := if end - start < BLOCK_SIZE + 1 then end - start else BLOCK_SIZE + 1;
        var read := ReadAt(data, start, want, faults);
        if read.None? { return true; }
        ObserveRawWindow(read.value, start);
        start := if start + want < end then start + want - 1 else start + want;
      }
    }

    /** Notes a raw seen in a window; from the eighth distinct raw on, windows are recorded. */
    method ObserveRawCandidate(window: Word, start: nat, raw: Word) returns (failed: bool)
      requires ObservedOk() && OccursAt(data, window, start) && window != []
      requires active ==> start < through || start == 0
      requires !(active && disabled)
      modifies this`pairs, this`through, this`candidates, this`active, this`disabled
      ensures ObservedOk() && !(active && disabled)
      ensures old(active) ==> active && old(through) <= through
      ensures active && !failed && raw != [] ==> start + |window| <= through
      ensures raw == [] || old(disabled) || old(active) ==>
                !failed && candidates == old(candidates) && active == old(active) && disabled == old(disabled)
      ensures raw != [] && !old(disabled) && !old(active) ==>
                if |old(candidates) + {raw}| < MIN_CANDIDATES then
                  !failed && candidates == old(candidates) + {raw} && !active && !disabled && through == old(through)
                else candidates == {} && active == !failed && disabled == failed
      ensures failed ==> through == 0 && pairs == NO_PAIRS
      ensures !faults ==> !failed
    {
      if raw == [] || disabled { return false; }
      if active {
        ObserveRawWindow(window, start);
        return false;
      }
      candidates := candidates + {raw};
      if |candidates| < MIN_CANDIDATES { return false; }
      failed := BootstrapRawObservation(start + 1);
      candidates := {};
      if failed {
        pairs, through, disabled := NO_PAIRS, 0, true;
        NoPairs(data);
        return;
      }
      active := true;
      ObserveRawWindow(window, start);
    }

    // Prefix indexes -------------------------------------------------------------------------

    /** The complete indexes of the given prefixes, building all missing ones in one pass. Prefixes that
        overrun the shared budget get none, now and later. */
    method PrefixIndexes(keys: set<Word>) returns (found: map<Word, PrefixIndex>, failed: bool)
      requires RetainedIndexesOk() && KeysOk(keys)
      modifies this`indexes, this`overBudget, this`positions, this`sampleBytes
      ensures RetainedIndexesOk()
      ensures forall k :: k in old(indexes) ==> k in indexes && indexes[k] == old(indexes)[k]
      ensures failed ==>
                indexes == old(indexes) && overBudget == old(overBudget) && positions == old(positions)
                  && sampleBytes == old(sampleBytes)
      ensures overBudget == old(overBudget) || overBudget == old(overBudget + (keys - indexes.Keys))
      ensures overBudget != old(overBudget) ==>
                indexes == old(indexes) && positions == old(positions) && sampleBytes == old(sampleBytes)
      ensures overBudget != old(overBudget) ==>
                Overrun(data, old(keys - indexes.Keys - overBudget), Retained(old(positions), old(sampleBytes)))
      ensures !failed ==> forall k :: k in found <==> k in keys && k in indexes
      ensures !failed ==> forall k :: k in found ==> found[k] == indexes[k]
      ensures !failed ==> forall k :: k in keys ==> k in found || k in overBudget
      ensures !faults ==> !failed
    {
      failed := false;
      var missing := keys - indexes.Keys - overBudget;
      if missing != {} {
        failed := BuildMissing(missing);
        if failed { return map[], true; }
      }
      assert forall k :: k in keys && k !in missing ==> k in indexes || k in overBudget;
      found := map k | k in keys && k in indexes :: indexes[k];
    }

    /** Builds the indexes of prefixes that have none, or marks them when they overrun the budget. */
    method BuildMissing(missing: set<Word>) returns (failed: bool)
      requires RetainedIndexesOk() && KeysOk(missing) && missing !! indexes.Keys && missing !! overBudget
      requires missing != {}
      modifies this`indexes, this`overBudget, this`positions, this`sampleBytes
      ensures RetainedIndexesOk()
      ensures forall k :: k in old(indexes) ==> k in indexes && indexes[k] == old(indexes)[k]
      ensures overBudget == old(overBudget) || overBudget == old(overBudget) + missing
      ensures failed || overBudget != old(overBudget) ==>
                indexes == old(indexes) && positions == old(positions) && sampleBytes == old(sampleBytes)
      ensures failed ==> overBudget == old(overBudget)
      ensures overBudget != old(overBudget) ==> Overrun(data, missing, Retained(old(positions), old(sampleBytes)))
      ensures !failed ==> forall k :: k in missing ==> k in indexes || k in overBudget
      ensures !faults ==> !failed
    {
      failed := false;
      var built := ScanPrefixIndexes(data, missing, Retained(positions, sampleBytes), faults);
      match built
      case Failed => failed := true;
      case Dropped => overBudget := overBudget + missing;
      case Complete(more, count, bytes) =>
        MoreIndexes(data, indexes, positions, sampleBytes, missing, built);
        indexes, positions, sampleBytes := indexes + more, positions + count, bytes;
        assert forall k :: k in missing ==> k in more;
    }

    // One raw --------------------------------------------------------------------------------

    /** The answer for a hinted raw, when the recorded pairs or a complete index can give it. */
    method PrefixLookup(raw: Word, hint: Hint) returns (r: Option<StreamMatch>, failed: bool)
      requires ObservedOk() && RetainedIndexesOk() && IsHint(data, through, raw, hint)
      modifies this`indexes, this`overBudget, this`positions, this`sampleBytes
      ensures RetainedIndexesOk() && old(indexes).Keys <= indexes.Keys
      ensures !failed && r.Some? ==> IsMatch(data, raw, r.value)
      ensures !faults ==> !failed
    {
      r, failed := None, false;
      if hint.NoHint? || |raw| < 2 { return; }
      var k := raw[..2];
      if k !in pairs.first { return; }
      if |Rest(pairs, k)| < CANDIDATE_CAP {
        r, failed := LookupRecorded(data, pairs, through, raw, hint, faults);
        return;
      }
      var found;
      found, failed := PrefixIndexes({k});
      if failed || k !in found { return; }
      r := WalkIndex(data, k, found[k], raw, faults);
      failed := r.None?;
    }

    /** The answer for one raw, by whichever route gives it. */
    method Match(raw: Word, hint: Hint) returns (m: StreamMatch, failed: bool)
      requires Valid() && IsHint(data, through, raw, hint)
      modifies this`values, this`indexes, this`overBudget, this`positions, this`sampleBytes
      ensures Valid() && Extends(old(values), values)
      ensures raw == [] ==> m == ABSENT && !failed && values == old(values)
      ensures raw != [] && !failed ==> IsMatch(data, raw, m) && values == old(values)[raw := m]
      ensures failed ==> values == old(values)
      ensures !faults ==> !failed
    {
      m, failed := ABSENT, false;
      if raw == [] { return; }
      if raw in values {
        m := values[raw];
        assert values == values[raw := m];
        return;
      }
      var r;
      r, failed := PrefixLookup(raw, hint);
      if failed { return; }
      if r.None? { r := FindReaderMatch(data, raw, faults); }
      if r.None? { failed := true; return; }
      m := r.value;
      values := values[raw := m];
    }

    // A batch --------------------------------------------------------------------------------

    /** Whether the raw's recorded pair positions are saturated. */
    predicate PrefixListFull(raw: Word)
      reads this`pairs
    {
      |raw| >= 2 && |Rest(pairs, raw[..2])| >= CANDIDATE_CAP
    }

    /** Tries the hint of each member of a small group; the others join the shared pass. */
    method LookUpGroup(keys: set<Word>, hints: map<Word, Hint>, short: set<Word>)
      returns (short': set<Word>, failed: bool)
      requires Valid() && [] !in keys && [] !in short
      requires forall raw :: raw in keys ==> raw !in values && raw in hints && IsHint(data, through, raw, hints[raw])
      modifies this`values, this`indexes, this`overBudget, this`positions, this`sampleBytes
      ensures Valid() && Adds(old(values), keys, values) && short <= short' && [] !in short'
      ensures old(indexes).Keys <= indexes.Keys
      ensures !failed ==> Placed(keys, values, short')
      ensures !faults ==> !failed
    {
      short', failed := short, false;
      var left := keys;
      while left != {}
        invariant left <= keys && Valid() && Adds(old(values), keys, values) && short <= short' && [] !in short'
        invariant old(indexes).Keys <= indexes.Keys
        invariant forall raw :: raw in keys ==> raw in left || raw in values || raw in short'
        invariant forall raw :: raw in left ==> raw !in values
        decreases |left|
      {
        var raw :| raw in left;
        left := left - {raw};
        var r := None;
        if !PrefixListFull(raw) {
          r, failed := PrefixLookup(raw, hints[raw]);
          if failed { return; }
        }
        if r.Some? {
          values := values[raw := r.value];
        } else {
          short' := short' + {raw};
        }
      }
    }

    /** Looks up one small group, which leaves the open ones untouched. */
    method LookUpOne(batch: Batch, k: Word, short: set<Word>, ghost open: set<Word>, ghost done: set<Word>)
      returns (short': set<Word>, failed: bool)
      requires Valid() && [] !in short && k in open && open <= batch.groups.Keys
      requires forall raw :: raw in batch.groups[k] ==>
                 raw in batch.hints && IsHint(data, through, raw, batch.hints[raw])
      requires RawGroupsOk(batch.groups, open, values) && AllPlaced(batch.groups, done, values, short)
      modifies this`values, this`indexes, this`overBudget, this`positions, this`sampleBytes
      ensures Valid() && Extends(old(values), values) && [] !in short' && old(indexes).Keys <= indexes.Keys
      ensures !failed ==>
                RawGroupsOk(batch.groups, open - {k}, values) && AllPlaced(batch.groups, done + {k}, values, short')
      ensures !faults ==> !failed
    {
      GroupStarts(k, batch.groups[k], values);
      short', failed := LookUpGroup(batch.groups[k], batch.hints, short);
      if failed { return; }
      OtherGroups(batch.groups, open, old(values), values, k);
      StillPlaced(batch.groups, done, old(values), short, values, short', k);
    }

    /** Visits every group in any order: the dense ones are kept, the others looked up. */
    method VisitGroups(batch: Batch) returns (keep: set<Word>, short: set<Word>, failed: bool, ghost done: set<Word>)
      requires Valid() && BatchOk(data, through, values, batch)
      modifies this`values, this`indexes, this`overBudget, this`positions, this`sampleBytes
      ensures Valid() && Extends(old(values), values) && [] !in short
      ensures !failed ==>
                keep <= batch.groups.Keys && RawGroupsOk(batch.groups, keep, values)
                  && AllPlaced(batch.groups, done, values, short)
      ensures !failed ==> forall k :: k in batch.groups ==> (k in keep <==> k !in done)
      ensures !failed ==>
                KeptDense(groupCounts, batch.groups, keep, indexes.Keys) && DoneSparse(groupCounts, batch.groups, done)
      ensures !faults ==> !failed
    {
      keep, short, failed, done := {}, {}, false, {};
      var left := batch.groups.Keys;
      ghost var open := left;
      while left != {}
        invariant left <= open && keep <= open && open <= batch.groups.Keys && left !! keep
        invariant Valid() && Extends(old(values), values) && [] !in short
        invariant RawGroupsOk(batch.groups, open, values) && AllPlaced(batch.groups, done, values, short)
        invariant forall k :: k in batch.groups ==>
                    (k in open <==> k !in done) && (k in open ==> k in left || k in keep)
        invariant KeptDense(groupCounts, batch.groups, keep, indexes.Keys)
        invariant DoneSparse(groupCounts, batch.groups, done)
        decreases |left|
      {
        var k :| k in left;
        left := left - {k};
        if Dense(groupCounts, batch.groups, k) || k in indexes {
          keep := keep + {k};
        } else {
          ghost var before := values;
          short, failed := LookUpOne(batch, k, short, open, done);
          ExtendsChain(old(values), before, values);
          if failed { return; }
          open, done := open - {k}, done + {k};
        }
      }
    }

    /** Looks up the groups that are too small for an index; the dense ones are kept. */
    method LookUpSmallGroups(batch: Batch) returns (kept: RawGroups, short: set<Word>, failed: bool)
      requires Valid() && BatchOk(data, through, values, batch)
      modifies this`values, this`indexes, this`overBudget, this`positions, this`sampleBytes
      ensures Valid() && Extends(old(values), values) && [] !in short
      ensures !failed ==> RawGroupsOk(kept, kept.Keys, values)
      ensures !failed ==> forall k :: k in batch.groups ==>
                if k in kept then kept[k] == batch.groups[k] else Placed(batch.groups[k], values, short)
      ensures !failed ==> forall k :: k in batch.groups ==>
                if k in kept then Dense(groupCounts, batch.groups, k) || k in indexes
                else !Dense(groupCounts, batch.groups, k)
      ensures !faults ==> !failed
    {
      var keep;
      ghost var done;
      keep, short, failed, done := VisitGroups(batch);
      if failed { return map[], short, true; }
      kept := map k | k in keep :: batch.groups[k];
    }

    /** Resolves dense groups by their complete indexes; groups without one join the shared pass. */
    method ResolveIndexGroups(groups: RawGroups, short: set<Word>) returns (short': set<Word>, failed: bool)
      requires Valid() && RawGroupsOk(groups, groups.Keys, values) && [] !in short
      modifies this`values, this`indexes, this`overBudget, this`positions, this`sampleBytes
      ensures Valid() && Extends(old(values), values) && short <= short' && [] !in short'
      ensures !failed ==> AllPlaced(groups, groups.Keys, values, short')
      ensures !faults ==> !failed
    {
      short' := short;
      var found;
      found, failed := PrefixIndexes(groups.Keys);
      if failed { return; }
      values, short', failed := WalkGroups(data, groups, found, values, short, faults);
    }

    /** Answers a batch. On success every nonempty raw of the batch has its answer; answers are never
        changed or lost, and whatever was added before a failure is right. */
    method Resolve(raws: seq<Word>, hints: seq<Hint>) returns (failed: bool)
      requires Valid()
      requires forall i :: 0 <= i < |raws| ==> IsHint(data, through, raws[i], HintFor(hints, i))
      modifies this`values, this`indexes, this`overBudget, this`positions, this`sampleBytes, this`groupCounts
      ensures Valid() && Extends(old(values), values)
      ensures !failed ==> forall i :: 0 <= i < |raws| && raws[i] != [] ==> raws[i] in values
      ensures !faults ==> !failed
    {
      var batch := Classify(data, through, values, raws, hints);
      failed := ResolveShort(batch);
      if failed { return; }
      groupCounts := CountGroups(groupCounts, batch.hints.Keys);
      ghost var mid := values;
      failed := MatchLong(batch.long, batch.hints);
      ExtendsChain(old(values), mid, values);
    }

    /** Long raws take the single-pattern route one by one. */
    method MatchLong(long: seq<Word>, hints: map<Word, Hint>) returns (failed: bool)
      requires Valid()
      requires forall i :: 0 <= i < |long| ==>
                 long[i] != [] && long[i] in hints && IsHint(data, through, long[i], hints[long[i]])
      modifies this`values, this`indexes, this`overBudget, this`positions, this`sampleBytes
      ensures Valid() && Extends(old(values), values)
      ensures !failed ==> forall i :: 0 <= i < |long| ==> long[i] in values
      ensures !faults ==> !failed
    {
      failed := false;
      for i := 0 to |long|
        invariant Valid() && Extends(old(values), values)
        invariant forall j :: 0 <= j < i ==> long[j] in values
      {
        var m;
        m, failed := Match(long[i], hints[long[i]]);
        if failed { return; }
      }
    }

    /** The short raws of a batch: hints, complete indexes, then one shared pass. */
    method ResolveShort(batch: Batch) returns (failed: bool)
      requires Valid() && BatchOk(data, through, values, batch)
      modifies this`values, this`indexes, this`overBudget, this`positions, this`sampleBytes
      ensures Valid() && Extends(old(values), values)
      ensures !failed ==> forall raw :: |raw| <= BATCH_MAX_RAW && Pending(batch, raw) ==> raw in values
      ensures !faults ==> !failed
    {
      var kept, short;
      kept, short, failed := LookUpSmallGroups(batch);
      if failed { return; }
      ghost var first, shortFirst := values, short;
      short, failed := ResolveIndexGroups(kept, short);
      ExtendsChain(old(values), first, values);
      if failed { return; }
      ghost var second := values;
      values, failed := FindReaderMatches(data, short, values, faults);
      SharedPassRight(data, short, second, values);
      ExtendsChain(old(values), second, values);
      if failed { return; }
      forall raw | |raw| <= BATCH_MAX_RAW && Pending(batch, raw) ensures raw in values {
        var k := Prefix(raw);
        assert k in batch.groups;
        assert k in kept ==> Placed(kept[k], second, short);
        assert k !in kept ==> Placed(batch.groups[k], first, shortFirst);
      }
    }
  }

  /** Enough distinct raws share the prefix, over all batches, to pay for an index. */
  predicate Dense(counts: map<Word, nat>, groups: RawGroups, k: Word)
    requires k in groups
  {
    (if k in counts then counts[k] else 0) + |groups[k]| >= GROUP_MIN_RAWS
  }

  ghost predicate KeptDense(counts: map<Word, nat>, groups: RawGroups, keep: set<Word>, built: set<Word>) {
    forall k :: k in keep ==> k in groups && (Dense(counts, groups, k) || k in built)
  }

  ghost predicate DoneSparse(counts: map<Word, nat>, groups: RawGroups, done: set<Word>) {
    forall k :: k in done ==> k in groups && !Dense(counts, groups, k)
  }

  lemma SharedPassRight(data: Word, short: set<Word>, values: Values, values': Values)
    requires AllRight(data, values) && ValuesOk(data, short, values, values') && [] !in short
    ensures AllRight(data, values') && Extends(values, values')
  {
  }

  ghost function CountOf(counts: map<Word, nat>, k: Word): nat {
    if k in counts then counts[k] else 0
  }

  ghost function ShortWith(raws: set<Word>, k: Word): set<Word> {
    set raw | raw in raws && |raw| <= BATCH_MAX_RAW && Prefix(raw) == k
  }

  /** Adds the distinct short raws of a batch to the running count of their prefix. */
  method CountGroups(counts: map<Word, nat>, raws: set<Word>) returns (counts': map<Word, nat>)
    ensures forall k :: CountOf(counts', k) == CountOf(counts, k) + |ShortWith(raws, k)|
  {
    counts' := counts;
    var left := raws;
    ghost var done := {};
    forall k ensures |ShortWith(done, k)| == 0 { assert ShortWith(done, k) == {}; }
    while left != {}
      invariant done + left == raws && done !! left
      invariant forall k :: CountOf(counts', k) == CountOf(counts, k) + |ShortWith(done, k)|
      decreases |left|
    {
      var raw :| raw in left;
      left := left - {raw};
      forall k { ShortWithMore(done, raw, k); }
      done := done + {raw};
      if |raw| <= BATCH_MAX_RAW {
        var k := Prefix(raw);
        counts' := counts'[k := (if k in counts' then counts'[k] else 0) + 1];
      }
    }
    assert done == raws;
  }

  lemma ShortWithMore(done: set<Word>, raw: Word, k: Word)
    requires raw !in done
    ensures |ShortWith(done + {raw}, k)| == |ShortWith(done, k)|
              + (if |raw| <= BATCH_MAX_RAW && Prefix(raw) == k then 1 else 0)
  {
    if |raw| <= BATCH_MAX_RAW && Prefix(raw) == k {
      assert ShortWith(done + {raw}, k) == ShortWith(done, k) + {raw};
    } else {
      assert ShortWith(done + {raw}, k) == ShortWith(done, k);
    }
  }

  /** The hint route: the recorded candidates before the hinted offset are read back and compared. */
  method LookupRecorded(data: Word, pairs: Pairs, ghost through: nat, raw: Word, hint: Hint, faults: bool)
    returns (r: Option<StreamMatch>, failed: bool)
    requires through <= |data| && PairsTo(data, pairs, PairsBelow(through)) && IsHint(data, through, raw, hint)
    requires hint.HintAt?
    requires |raw| >= 2 && raw[..2] in pairs.first && |Rest(pairs, raw[..2])| < CANDIDATE_CAP
    ensures !failed && r.Some? ==> IsMatch(data, raw, r.value)
    ensures !faults ==> !failed
  {
    var k := raw[..2];
    assert IsPair(k);
    MarksAscend(data, k, PairsBelow(through));
    RestAscends(pairs, k);
    var earlier := AnyEarlier(data, raw, hint.offset, pairs.first[k], Rest(pairs, k), faults);
    if earlier.None? { return None, true; }
    if earlier.value { return None, false; }
    HintIsFirst(data, pairs, PairsBelow(through), raw, hint.offset);
    return Some(StreamMatch(hint.offset, hint.newlines, true)), false;
  }

  lemma RestAscends(pairs: Pairs, k: Word)
    requires k in pairs.first
    requires forall i, j :: 0 <= i < j < |Recorded(pairs, k)| ==> Recorded(pairs, k)[i] < Recorded(pairs, k)[j]
    ensures forall i, j :: 0 <= i < j < |Rest(pairs, k)| ==> Rest(pairs, k)[i] < Rest(pairs, k)[j]
  {
    forall i, j | 0 <= i < j < |Rest(pairs, k)| ensures Rest(pairs, k)[i] < Rest(pairs, k)[j] {
      assert Recorded(pairs, k)[i + 1] < Recorded(pairs, k)[j + 1];
    }
  }
}
