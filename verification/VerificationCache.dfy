/** The verification cache: a bounded first-in first-out ring of verdicts, the entries one verified pass may
    leave in it, and the cache-aware detector call. */
module VerificationCache {
  import opened Bytes

  /** A finding: its secret bytes, its other output, and what verification said. */
  datatype Result = Result(raw: Word, rawV2: Word, rest: string, verified: bool, error: bool)

  /** The hash input of one candidate, kept apart instead of hashed: equal hashes stand for equal inputs. */
  datatype Key = Key(detector: nat, raw: Word, rawV2: Word, input: Option<Word>)

  datatype Entry = Entry(key: Key, verified: bool)

  function KeyOf(detector: nat, input: Option<Word>, r: Result): Option<Key> {
    if r.raw == [] && r.rawV2 == [] then None else Some(Key(detector, r.raw, r.rawV2, input))
  }

  /** A result without its verdict. */
  function Base(r: Result): Result {
    r.(verified := false, error := false)
  }

  /** Keys tell apart detectors, inputs and secrets; only a result without any secret bytes has none. */
  lemma KeysAgree(d: nat, input: Option<Word>, r: Result, d': nat, input': Option<Word>, r': Result)
    ensures KeyOf(d, input, r) == None <==> r.raw == [] && r.rawV2 == []
    ensures KeyOf(d, input, r).Some? ==>
              (KeyOf(d, input, r) == KeyOf(d', input', r') <==>
               d == d' && input == input' && r.raw == r'.raw && r.rawV2 == r'.rawV2)
  {
  }

  /** Results are the same up to verification when secrets and other output agree. */
  lemma BasesAgree(r: Result, r': Result)
    ensures Base(r) == Base(r') <==> r.raw == r'.raw && r.rawV2 == r'.rawV2 && r.rest == r'.rest
  {
    assert Base(r) == Result(r.raw, r.rawV2, r.rest, false, false);
    assert Base(r') == Result(r'.raw, r'.rawV2, r'.rest, false, false);
  }

  // ---------------------------------------------------------------------------------------
  // The ring

  /** First in, first out: a known key keeps its place, a new one may push out the oldest. */
  function Push(queue: seq<Key>, k: Key, capacity: nat): seq<Key> {
    if k in queue then queue
    else if |queue| < capacity then queue + [k]
    else if queue == [] then []
    else queue[1..] + [k]
  }

  ghost function PushAll(queue: seq<Key>, entries: seq<Entry>, capacity: nat): seq<Key> {
    if entries == [] then queue
    else Push(PushAll(queue, entries[..|entries| - 1], capacity), entries[|entries| - 1].key, capacity)
  }

  /** How many of the entries push an older key out. */
  ghost function Evictions(queue: seq<Key>, entries: seq<Entry>, capacity: nat): nat {
    if entries == [] then 0
    else
      var front := entries[..|entries| - 1];
      var before := PushAll(queue, front, capacity);
      Evictions(queue, front, capacity)
        + (if entries[|entries| - 1].key !in before && |before| == capacity then 1 else 0)
  }

  /** The verdict last recorded for each key. */
  ghost function RecordAll(recorded: map<Key, bool>, entries: seq<Entry>): map<Key, bool> {
    if entries == [] then recorded
    else RecordAll(recorded, entries[..|entries| - 1])[entries[|entries| - 1].key := entries[|entries| - 1].verified]
  }

  /** Retained keys are distinct, within capacity, and exactly those with a verdict. */
  ghost predicate RingOk(capacity: nat, order: seq<Key>, next: nat, values: map<Key, bool>) {
    && |order| <= capacity && Distinct(order)
    && next <= |order| && (capacity > 0 ==> next < capacity) && (|order| < capacity ==> next == 0)
    && forall k :: k in values <==> k in order
  }

  ghost predicate Recorded(values: map<Key, bool>, recorded: map<Key, bool>) {
    forall k :: k in values ==> k in recorded && values[k] == recorded[k]
  }

  /** The ring read from its oldest slot. */
  ghost function Turned(order: seq<Key>, next: nat): seq<Key>
    requires next <= |order|
  {
    order[next..] + order[..next]
  }

  lemma TurnedMembers(order: seq<Key>, next: nat)
    requires next <= |order|
    ensures |Turned(order, next)| == |order| && forall k :: k in Turned(order, next) <==> k in order
  {
    assert order == order[..next] + order[next..];
  }

  lemma Appended(capacity: nat, order: seq<Key>, next: nat, values: map<Key, bool>, k: Key, v: bool)
    requires RingOk(capacity, order, next, values) && k !in order && |order| < capacity
    ensures RingOk(capacity, order + [k], next, values[k := v])
    ensures Turned(order + [k], next) == Turned(order, next) + [k]
  {
  }

  lemma Overwritten(capacity: nat, order: seq<Key>, next: nat, values: map<Key, bool>, k: Key, v: bool)
    requires RingOk(capacity, order, next, values) && k !in order && |order| == capacity > 0
    ensures var next' := if next + 1 == capacity then 0 else next + 1;
            && RingOk(capacity, order[next := k], next', (values - {order[next]})[k := v])
            && Turned(order[next := k], next') == Turned(order, next)[1..] + [k]
  {
    RingStep(order, next, k);
  }

  class Ring {
    const capacity: nat
    var values: map<Key, bool>
    var order: seq<Key>
    var next: nat
    /** The verdict last recorded for each key since the last clear. */
    ghost var recorded: map<Key, bool>

    ghost predicate Valid()
      reads this
    {
      RingOk(capacity, order, next, values) && Recorded(values, recorded)
    }

    /** The retained keys, oldest first. */
    ghost function Queue(): seq<Key>
      reads this
      requires Valid()
    {
      Turned(order, next)
    }

    constructor (capacity: int)
      ensures Valid() && this.capacity == (if capacity < 0 then 0 else capacity) && values == map[] && recorded == map[]
    {
      this.capacity := if capacity < 0 then 0 else capacity;
      values, order, next, recorded := map[], [], 0, map[];
    }

    /** A served verdict is the one last recorded for its key since the last clear. */
    method Get(k: Key) returns (r: Option<bool>)
      requires Valid()
      ensures r.Some? <==> k in values
      ensures r.Some? ==> k in recorded && r.value == recorded[k] && k in Queue()
    {
      if k in values { return Some(values[k]); }
      return None;
    }

    method Insert(entry: Entry) returns (evicted: bool)
      requires Valid() && capacity > 0 && entry.key !in values
      modifies this
      ensures Valid() && Queue() == Push(old(Queue()), entry.key, capacity)
      ensures recorded == old(recorded)[entry.key := entry.verified]
      ensures evicted <==> |old(Queue())| == capacity
    {
      TurnedMembers(order, next);
      evicted := |order| == capacity;
      if evicted {
        Overwritten(capacity, order, next, values, entry.key, entry.verified);
        values := (values - {order[next]})[entry.key := entry.verified];
        order := order[next := entry.key];
        next := if next + 1 == capacity then 0 else next + 1;
      } else {
        Appended(capacity, order, next, values, entry.key, entry.verified);
        order := order + [entry.key];
        values := values[entry.key := entry.verified];
      }
      recorded := recorded[entry.key := entry.verified];
    }

    method Put(entry: Entry) returns (evicted: bool)
      requires Valid() && capacity > 0
      modifies this
      ensures Valid() && Queue() == Push(old(Queue()), entry.key, capacity)
      ensures recorded == old(recorded)[entry.key := entry.verified]
      ensures evicted <==> entry.key !in old(Queue()) && |old(Queue())| == capacity
    {
      TurnedMembers(order, next);
      evicted := false;
      if entry.key in values {
        values := values[entry.key := entry.verified];
        recorded := recorded[entry.key := entry.verified];
      } else {
        evicted := Insert(entry);
      }
    }

    /** Stores verdicts in order and counts the evictions. */
    method SetAll(entries: seq<Entry>) returns (evictions: nat)
      requires Valid()
      modifies this
      ensures Valid() && Queue() == (if capacity == 0 then old(Queue()) else PushAll(old(Queue()), entries, capacity))
      ensures recorded == (if capacity == 0 then old(recorded) else RecordAll(old(recorded), entries))
      ensures evictions == if capacity == 0 then 0 else Evictions(old(Queue()), entries, capacity)
    {
      evictions := 0;
      if capacity == 0 { return; }
      for i := 0 to |entries|
        invariant Valid() && Queue() == PushAll(old(Queue()), entries[..i], capacity)
        invariant recorded == RecordAll(old(recorded), entries[..i])
        invariant evictions == Evictions(old(Queue()), entries[..i], capacity)
      {
        assert entries[..i + 1][..i] == entries[..i];
        var evicted := Put(entries[i]);
        if evicted { evictions := evictions + 1; }
      }
      assert entries[..|entries|] == entries;
    }

    method Clear()
      requires Valid()
      modifies this
      ensures Valid() && Queue() == [] && values == map[] && recorded == map[]
    {
      values, order, next, recorded := map[], [], 0, map[];
    }
  }

  /** Overwriting the oldest slot drops the head of the queue and appends at its tail. */
  lemma RingStep(order: seq<Key>, next: nat, k: Key)
    requires next < |order| && k !in order && Distinct(order)
    ensures var order' := order[next := k];
            var next' := if next + 1 == |order| then 0 else next + 1;
            order'[next'..] + order'[..next'] == (order[next..] + order[..next])[1..] + [k]
    ensures Distinct(order[next := k])
    ensures forall x :: x in order[next := k] <==> x == k || (x in order && x != order[next])
  {
    var order' := order[next := k];
    assert order'[..next + 1] == order[..next] + [k] && order'[next + 1..] == order[next + 1..];
    if next + 1 == |order| {
      assert order'[0..] + order'[..0] == order' == order'[..next + 1];
    }
    forall x ensures x in order' <==> x == k || (x in order && x != order[next]) {
      if x in order && x != order[next] {
        var i :| 0 <= i < |order| && order[i] == x;
        assert order'[i] == x;
      }
      if x in order' {
        var i :| 0 <= i < |order'| && order'[i] == x;
        assert i != next ==> order[i] == x;
      }
      assert order'[next] == k;
    }
  }

  // ---------------------------------------------------------------------------------------
  // What one verified pass may leave in the cache

  ghost function Bases(results: seq<Result>): multiset<Result> {
    if results == [] then multiset{} else Bases(results[..|results| - 1]) + multiset{Base(results[|results| - 1])}
  }

  ghost predicate HasKey(r: Result) {
    r.raw != [] || r.rawV2 != []
  }

  /** Equal keys have equal verdicts. */
  ghost predicate OneVerdictPerKey(detector: nat, input: Option<Word>, verified: seq<Result>) {
    forall i, j :: 0 <= i < |verified| && 0 <= j < |verified|
      && KeyOf(detector, input, verified[i]) == KeyOf(detector, input, verified[j])
      ==> verified[i].verified == verified[j].verified
  }

  ghost predicate Plain(r: Result) {
    HasKey(r) && !r.verified && !r.error
  }

  /** The two passes show the same candidates, verification raised no error, and the verdict is a function of
      the key. */
  ghost predicate Cacheable(detector: nat, input: Option<Word>, unverified: seq<Result>, verified: seq<Result>) {
    && unverified != [] && Bases(unverified) == Bases(verified)
    && (forall i :: 0 <= i < |unverified| ==> Plain(unverified[i]))
    && (forall i :: 0 <= i < |verified| ==> !verified[i].error)
    && OneVerdictPerKey(detector, input, verified)
  }

  /** The verified results matched so far. */
  ghost function UsedBases(verified: seq<Result>, used: seq<bool>): multiset<Result>
    requires |used| == |verified|
  {
    if verified == [] then multiset{}
    else
      UsedBases(verified[..|verified| - 1], used[..|verified| - 1]) +
      (if used[|verified| - 1] then multiset{Base(verified[|verified| - 1])} else multiset{})
  }

  lemma {:induction false} BasesSize(results: seq<Result>)
    ensures |Bases(results)| == |results|
  {
    if results != [] { BasesSize(results[..|results| - 1]); }
  }

  lemma {:induction false} UseOne(verified: seq<Result>, used: seq<bool>, m: nat)
    requires |used| == |verified| && m < |verified| && !used[m]
    ensures UsedBases(verified, used[m := true]) == UsedBases(verified, used) + multiset{Base(verified[m])}
  {
    var n := |verified| - 1;
    if m < n {
      UseOne(verified[..n], used[..n], m);
      assert used[m := true][..n] == used[..n][m := true];
    } else {
      assert used[m := true][..n] == used[..n];
    }
  }

  lemma {:induction false} NoneUsed(verified: seq<Result>, used: seq<bool>)
    requires |used| == |verified| && forall i :: 0 <= i < |used| ==> !used[i]
    ensures UsedBases(verified, used) == multiset{}
  {
    if verified != [] { NoneUsed(verified[..|verified| - 1], used[..|verified| - 1]); }
  }

  /** As many used as there are means all of them. */
  lemma {:induction false} AllUsed(verified: seq<Result>, used: seq<bool>)
    requires |used| == |verified| && |UsedBases(verified, used)| == |verified|
    ensures forall i :: 0 <= i < |used| ==> used[i]
    ensures UsedBases(verified, used) == Bases(verified)
  {
    if verified != [] {
      var n := |verified| - 1;
      UsedSize(verified[..n], used[..n]);
      AllUsed(verified[..n], used[..n]);
      assert forall i :: 0 <= i < n ==> used[..n][i] == used[i];
    }
  }

  lemma {:induction false} UsedSize(verified: seq<Result>, used: seq<bool>)
    requires |used| == |verified|
    ensures |UsedBases(verified, used)| <= |verified|
  {
    if verified != [] { UsedSize(verified[..|verified| - 1], used[..|verified| - 1]); }
  }

  /** When every unused result differs from `b`, all results equal to `b` are used. */
  lemma {:induction false} AllOfThemUsed(verified: seq<Result>, used: seq<bool>, b: Result)
    requires |used| == |verified| && forall i :: 0 <= i < |verified| && !used[i] ==> Base(verified[i]) != b
    ensures UsedBases(verified, used)[b] == Bases(verified)[b]
  {
    if verified != [] {
      var n := |verified| - 1;
      AllOfThemUsed(verified[..n], used[..n], b);
    }
  }

  lemma {:induction false} BasesSplit(results: seq<Result>, k: nat)
    requires k < |results|
    ensures Bases(results[..k + 1]) == Bases(results[..k]) + multiset{Base(results[k])}
    ensures Bases(results[..k + 1]) <= Bases(results)
    decreases |results| - k
  {
    assert results[..k + 1][..k] == results[..k];
    if k + 1 < |results| {
      BasesSplit(results, k + 1);
    } else {
      assert results[..k + 1] == results;
    }
  }

  /** The first unused, error-free verified result that shows the candidate. */
  method FindMatch(verified: seq<Result>, used: seq<bool>, before: Result) returns (m: int)
    requires |used| == |verified|
    ensures m < |verified|
    ensures m >= 0 ==> !used[m] && !verified[m].error && Base(verified[m]) == Base(before)
    ensures m < 0 ==>
              forall i :: 0 <= i < |verified| && !used[i] && !verified[i].error ==> Base(verified[i]) != Base(before)
  {
    for i := 0 to |verified|
      invariant forall j :: 0 <= j < i && !used[j] && !verified[j].error ==> Base(verified[j]) != Base(before)
    {
      if !used[i] && !verified[i].error && Base(verified[i]) == Base(before) { return i; }
    }
    return -1;
  }

  /** Greedy matching misses nothing: without a match the two passes differ or some verification failed. */
  lemma NoMatch(detector: nat, input: Option<Word>, unverified: seq<Result>, verified: seq<Result>, used: seq<bool>,
                k: nat)
    requires |used| == |verified| && k < |unverified| && UsedBases(verified, used) == Bases(unverified[..k])
    requires forall i :: 0 <= i < |verified| && !used[i] && !verified[i].error ==>
               Base(verified[i]) != Base(unverified[k])
    ensures !Cacheable(detector, input, unverified, verified)
  {
    var b := Base(unverified[k]);
    BasesSplit(unverified, k);
    assert Bases(unverified[..k])[b] < Bases(unverified[..k + 1])[b] <= Bases(unverified)[b];
    if forall i :: 0 <= i < |verified| ==> !verified[i].error {
      AllOfThemUsed(verified, used, b);
      assert Bases(unverified)[b] != Bases(verified)[b];
    }
  }

  /** The recorded verdicts are those of the matched results. */
  ghost predicate VerdictsOk(detector: nat, input: Option<Word>, verified: seq<Result>, used: seq<bool>,
                             verdicts: map<Key, bool>)
    requires |used| == |verified|
  {
    && (forall i :: 0 <= i < |verified| && used[i] ==> MatchedOk(detector, input, verified[i], verdicts))
    && (forall key :: key in verdicts ==>
        exists i :: 0 <= i < |verified| && used[i] && KeyOf(detector, input, verified[i]) == Some(key)
          && verified[i].verified == verdicts[key])
  }

  ghost predicate MatchedOk(detector: nat, input: Option<Word>, r: Result, verdicts: map<Key, bool>) {
    var key := KeyOf(detector, input, r);
    !r.error && key.Some? && key.value in verdicts && r.verified == verdicts[key.value]
  }

  /** One entry per key, with its verdict. */
  ghost predicate EntriesOk(entries: seq<Entry>, verdicts: map<Key, bool>) {
    && (forall i :: 0 <= i < |entries| ==>
        entries[i].key in verdicts && verdicts[entries[i].key] == entries[i].verified)
    && (forall i, j :: 0 <= i < j < |entries| ==> entries[i].key != entries[j].key)
    && (forall key :: key in verdicts ==> Entry(key, verdicts[key]) in entries)
  }

  lemma MatchAdded(detector: nat, input: Option<Word>, verified: seq<Result>, used: seq<bool>, verdicts: map<Key, bool>,
                   m: nat, key: Key)
    requires |used| == |verified| && m < |verified| && !used[m] && VerdictsOk(detector, input, verified, used, verdicts)
    requires !verified[m].error && KeyOf(detector, input, verified[m]) == Some(key)
    requires key in verdicts ==> verdicts[key] == verified[m].verified
    ensures VerdictsOk(detector, input, verified, used[m := true], verdicts[key := verified[m].verified])
  {
    var used', verdicts' := used[m := true], verdicts[key := verified[m].verified];
    forall other | other in verdicts'
      ensures exists i :: 0 <= i < |verified| && used'[i] && KeyOf(detector, input, verified[i]) == Some(other)
                && verified[i].verified == verdicts'[other]
    {
      if other == key {
        assert used'[m];
      } else {
        var i :| 0 <= i < |verified| && used[i] && KeyOf(detector, input, verified[i]) == Some(other)
          && verified[i].verified == verdicts[other];
        assert used'[i];
      }
    }
  }

  lemma VerdictsClash(detector: nat, input: Option<Word>, unverified: seq<Result>, verified: seq<Result>,
                      used: seq<bool>, verdicts: map<Key, bool>, m: nat, key: Key)
    requires |used| == |verified| && m < |verified| && VerdictsOk(detector, input, verified, used, verdicts)
    requires KeyOf(detector, input, verified[m]) == Some(key) && key in verdicts
    requires verdicts[key] != verified[m].verified
    ensures !Cacheable(detector, input, unverified, verified)
  {
    var i :| 0 <= i < |verified| && used[i] && KeyOf(detector, input, verified[i]) == Some(key)
      && verified[i].verified == verdicts[key];
  }

  /** What the matching loop carries. */
  datatype Matching = Matching(used: seq<bool>, verdicts: map<Key, bool>, entries: seq<Entry>)

  /** The first `k` candidates are matched. */
  ghost predicate MatchingTo(detector: nat, input: Option<Word>, unverified: seq<Result>, verified: seq<Result>,
                             s: Matching, k: nat) {
    && |s.used| == |verified| && k <= |unverified| && UsedBases(verified, s.used) == Bases(unverified[..k])
    && VerdictsOk(detector, input, verified, s.used, s.verdicts) && EntriesOk(s.entries, s.verdicts)
    && |s.entries| <= k && forall i :: 0 <= i < k ==> Plain(unverified[i])
  }

  lemma MatchingNext(detector: nat, input: Option<Word>, unverified: seq<Result>, verified: seq<Result>, s: Matching,
                     s': Matching, k: nat, m: nat, key: Key)
    requires k < |unverified| && MatchingTo(detector, input, unverified, verified, s, k) && Plain(unverified[k])
    requires m < |verified| && !s.used[m] && !verified[m].error && Base(verified[m]) == Base(unverified[k])
    requires KeyOf(detector, input, unverified[k]) == Some(key)
    requires key in s.verdicts ==> s.verdicts[key] == verified[m].verified
    requires s' == Matching(s.used[m := true], s.verdicts[key := verified[m].verified],
                            if key in s.verdicts then s.entries else s.entries + [Entry(key, verified[m].verified)])
    ensures MatchingTo(detector, input, unverified, verified, s', k + 1)
  {
    assert verified[m].raw == unverified[k].raw && verified[m].rawV2 == unverified[k].rawV2 by {
      assert Base(verified[m]).raw == verified[m].raw && Base(verified[m]).rawV2 == verified[m].rawV2;
    }
    UseOne(verified, s.used, m);
    BasesSplit(unverified, k);
    MatchAdded(detector, input, verified, s.used, s.verdicts, m, key);
    EntryAdded(s.entries, s.verdicts, key, verified[m].verified);
  }

  /** Matches one candidate; without a match the pass may not be cached. */
  method MatchOne(detector: nat, input: Option<Word>, unverified: seq<Result>, verified: seq<Result>, s: Matching,
                  k: nat)
    returns (s': Matching, ok: bool)
    requires k < |unverified| && MatchingTo(detector, input, unverified, verified, s, k)
    ensures if ok then MatchingTo(detector, input, unverified, verified, s', k + 1)
            else !Cacheable(detector, input, unverified, verified)
  {
    s', ok := s, false;
    var before := unverified[k];
    var key := KeyOf(detector, input, before);
    if key.None? || before.verified || before.error {
      assert !Plain(unverified[k]);
      return;
    }
    var m := FindMatch(verified, s.used, before);
    if m < 0 {
      NoMatch(detector, input, unverified, verified, s.used, k);
      return;
    }
    var verdict := verified[m].verified;
    assert KeyOf(detector, input, verified[m]) == key by {
      assert Base(verified[m]).raw == verified[m].raw && Base(verified[m]).rawV2 == verified[m].rawV2;
    }
    if key.value in s.verdicts && s.verdicts[key.value] != verdict {
      VerdictsClash(detector, input, unverified, verified, s.used, s.verdicts, m, key.value);
      return;
    }
    ok := true;
    s' := Matching(s.used[m := true], s.verdicts[key.value := verdict],
                   if key.value in s.verdicts then s.entries else s.entries + [Entry(key.value, verdict)]);
    MatchingNext(detector, input, unverified, verified, s, s', k, m, key.value);
  }

  /** Entries hold one verdict per key, each from an error-free result of the pass. */
  ghost predicate FromPass(detector: nat, input: Option<Word>, verified: seq<Result>, e: Entry) {
    exists i :: 0 <= i < |verified| && !verified[i].error && KeyOf(detector, input, verified[i]) == Some(e.key)
      && verified[i].verified == e.verified
  }

  /** The entries of one pass, given exactly when the pass may be cached: one per key, each a verdict of that pass. */
  method CacheableEntries(detector: nat, input: Option<Word>, unverified: seq<Result>, verified: seq<Result>)
    returns (r: Option<seq<Entry>>)
    ensures r.Some? <==> Cacheable(detector, input, unverified, verified)
    ensures r.Some? ==> exists verdicts :: EntriesOk(r.value, verdicts)
                          && forall i :: 0 <= i < |verified| ==> MatchedOk(detector, input, verified[i], verdicts)
    ensures r.Some? ==> forall e :: e in r.value ==> FromPass(detector, input, verified, e)
    ensures r.Some? ==> |r.value| <= |unverified| && Covers(detector, input, unverified, r.value)
  {
    BasesSize(unverified);
    BasesSize(verified);
    if unverified == [] || |unverified| != |verified| { return None; }
    var s := Matching(seq(|verified|, i => false), map[], []);
    NoneUsed(verified, s.used);
    for k := 0 to |unverified|
      invariant MatchingTo(detector, input, unverified, verified, s, k)
    {
      var ok;
      s, ok := MatchOne(detector, input, unverified, verified, s, k);
      if !ok { return None; }
    }
    Matched(detector, input, unverified, verified, s);
    return Some(s.entries);
  }

  /** Every candidate has an entry under its key. */
  ghost predicate Covers(detector: nat, input: Option<Word>, unverified: seq<Result>, entries: seq<Entry>) {
    forall i :: 0 <= i < |unverified| ==> CoveredBy(KeyOf(detector, input, unverified[i]), entries)
  }

  ghost predicate CoveredBy(key: Option<Key>, entries: seq<Entry>) {
    key.Some? && exists j :: 0 <= j < |entries| && entries[j].key == key.value
  }

  lemma {:induction false} InBases(results: seq<Result>, b: Result)
    ensures Bases(results)[b] > 0 <==> exists i :: 0 <= i < |results| && Base(results[i]) == b
  {
    if results != [] {
      var front, last := results[..|results| - 1], results[|results| - 1];
      InBases(front, b);
      if i :| 0 <= i < |front| && Base(front[i]) == b { assert Base(results[i]) == b; }
      if i :| 0 <= i < |results| && Base(results[i]) == b { assert i < |front| ==> Base(front[i]) == b; }
    }
  }

  lemma AllCovered(detector: nat, input: Option<Word>, unverified: seq<Result>, verified: seq<Result>,
                   entries: seq<Entry>, verdicts: map<Key, bool>)
    requires Bases(unverified) == Bases(verified) && EntriesOk(entries, verdicts)
    requires forall i :: 0 <= i < |verified| ==> MatchedOk(detector, input, verified[i], verdicts)
    ensures Covers(detector, input, unverified, entries)
  {
    forall i | 0 <= i < |unverified| ensures CoveredBy(KeyOf(detector, input, unverified[i]), entries) {
      InBases(unverified, Base(unverified[i]));
      InBases(verified, Base(unverified[i]));
      var j :| 0 <= j < |verified| && Base(verified[j]) == Base(unverified[i]);
      BasesAgree(verified[j], unverified[i]);
      assert MatchedOk(detector, input, verified[j], verdicts);
      var key := KeyOf(detector, input, verified[j]).value;
      assert Entry(key, verdicts[key]) in entries;
    }
  }

  lemma Matched(detector: nat, input: Option<Word>, unverified: seq<Result>, verified: seq<Result>, s: Matching)
    requires unverified != [] && |unverified| == |verified|
    requires MatchingTo(detector, input, unverified, verified, s, |unverified|)
    ensures Cacheable(detector, input, unverified, verified)
    ensures EntriesOk(s.entries, s.verdicts)
    ensures forall i :: 0 <= i < |verified| ==> MatchedOk(detector, input, verified[i], s.verdicts)
    ensures forall e :: e in s.entries ==> FromPass(detector, input, verified, e)
    ensures |s.entries| <= |unverified| && Covers(detector, input, unverified, s.entries)
  {
    BasesSize(unverified);
    assert unverified[..|unverified|] == unverified;
    AllUsed(verified, s.used);
    AllMatched(detector, input, verified, s.used, s.verdicts);
    EntriesFrom(detector, input, verified, s.used, s.verdicts, s.entries);
    AllCovered(detector, input, unverified, verified, s.entries, s.verdicts);
  }

  lemma EntryAdded(entries: seq<Entry>, verdicts: map<Key, bool>, key: Key, v: bool)
    requires EntriesOk(entries, verdicts) && (key in verdicts ==> verdicts[key] == v)
    ensures EntriesOk(if key in verdicts then entries else entries + [Entry(key, v)], verdicts[key := v])
  {
    if key in verdicts { assert verdicts[key := v] == verdicts; }
  }

  lemma AllMatched(detector: nat, input: Option<Word>, verified: seq<Result>, used: seq<bool>, verdicts: map<Key, bool>)
    requires |used| == |verified| && VerdictsOk(detector, input, verified, used, verdicts)
    requires forall i :: 0 <= i < |used| ==> used[i]
    ensures forall i :: 0 <= i < |verified| ==> MatchedOk(detector, input, verified[i], verdicts)
    ensures OneVerdictPerKey(detector, input, verified)
  {
    forall i | 0 <= i < |verified| ensures MatchedOk(detector, input, verified[i], verdicts) { assert used[i]; }
  }

  lemma EntriesFrom(detector: nat, input: Option<Word>, verified: seq<Result>, used: seq<bool>,
                    verdicts: map<Key, bool>, entries: seq<Entry>)
    requires |used| == |verified| && VerdictsOk(detector, input, verified, used, verdicts)
    requires EntriesOk(entries, verdicts)
    ensures forall e :: e in entries ==> FromPass(detector, input, verified, e)
  {
    forall e | e in entries ensures FromPass(detector, input, verified, e) {
      assert e.key in verdicts && verdicts[e.key] == e.verified;
      var i :| 0 <= i < |verified| && used[i] && KeyOf(detector, input, verified[i]) == Some(e.key)
        && verified[i].verified == verdicts[e.key];
      assert MatchedOk(detector, input, verified[i], verdicts);
    }
  }

  // ---------------------------------------------------------------------------------------
  // The cache-aware detector call

  /** A detector whose candidates do not depend on verification. */
  datatype Detector = Detector(index: nat, verifier: bool, cacheable: bool, usesData: bool,
                               candidates: Word -> seq<Result>)

  function InputOf(d: Detector, data: Word): Option<Word> {
    if d.usesData then Some(data) else None
  }

  /** What a verified call returns: the candidates, each with the provider's verdict unless its verification failed. */
  ghost predicate VerifiedForm(d: Detector, data: Word, verdict: Key -> bool, results: seq<Result>) {
    && Bases(results) == Bases(d.candidates(data))
    && forall i :: 0 <= i < |results| ==> VerdictRight(d, data, verdict, results[i])
  }

  ghost predicate VerdictRight(d: Detector, data: Word, verdict: Key -> bool, r: Result) {
    var key := KeyOf(d.index, InputOf(d, data), r);
    key.Some? && !r.error ==> r.verified == verdict(key.value)
  }

  ghost predicate NoErrors(results: seq<Result>) {
    forall i :: 0 <= i < |results| ==> !results[i].error
  }

  /** What goes into a key for the data: all of it where verification depends on it, nothing otherwise. */
  lemma InputsAgree(d: Detector, data: Word, data': Word)
    ensures InputOf(d, data) == InputOf(d, data') <==> !d.usesData || data == data'
    ensures InputOf(d, data).Some? <==> d.usesData
  {
  }

  /** A call without verification, or of a detector that has none. */
  method CallPlain(d: Detector, data: Word, faults: bool) returns (r: Option<seq<Result>>)
    ensures r.Some? ==> r.value == d.candidates(data)
    ensures !faults ==> r.Some?
  {
    var failed := Fails(faults);
    return if failed then None else Some(d.candidates(data));
  }

  /** A verified call: any verification may fail, and so may the call. */
  method CallVerified(d: Detector, data: Word, verdict: Key -> bool, faults: bool) returns (r: Option<seq<Result>>)
    ensures r.Some? ==> VerifiedForm(d, data, verdict, r.value)
    ensures !faults ==> r.Some? && NoErrors(r.value)
  {
    var failed := Fails(faults);
    if failed { return None; }
    var candidates := d.candidates(data);
    var results: seq<Result> := [];
    for i := 0 to |candidates|
      invariant |results| == i && (!faults ==> NoErrors(results))
      invariant forall j :: 0 <= j < i ==>
                  Base(results[j]) == Base(candidates[j]) && VerdictRight(d, data, verdict, results[j])
    {
      var result := VerifyOne(d, data, verdict, candidates[i], faults);
      results := results + [result];
    }
    SameBases(results, candidates);
    return Some(results);
  }

  method VerifyOne(d: Detector, data: Word, verdict: Key -> bool, candidate: Result, faults: bool)
    returns (result: Result)
    ensures Base(result) == Base(candidate) && VerdictRight(d, data, verdict, result)
    ensures !faults ==> !result.error
  {
    var key := KeyOf(d.index, InputOf(d, data), candidate);
    var error := Fails(faults);
    var verified: bool := *;
    if key.Some? && !error { verified := verdict(key.value); }
    result := candidate.(verified := verified, error := error);
  }

  /** Whatever was recorded since the last clear is the provider's verdict. */
  ghost predicate Sound(cache: Ring, verdict: Key -> bool)
    reads cache
  {
    cache.Valid() && forall k :: k in cache.recorded ==> cache.recorded[k] == verdict(k)
  }

  lemma {:induction false} RecordAllSound(recorded: map<Key, bool>, entries: seq<Entry>, verdict: Key -> bool)
    requires forall k :: k in recorded ==> recorded[k] == verdict(k)
    requires forall i :: 0 <= i < |entries| ==> entries[i].verified == verdict(entries[i].key)
    ensures forall k :: k in RecordAll(recorded, entries) ==> RecordAll(recorded, entries)[k] == verdict(k)
  {
    if entries != [] { RecordAllSound(recorded, entries[..|entries| - 1], verdict); }
  }

  method Store(cache: Ring, entries: seq<Entry>, ghost verdict: Key -> bool)
    requires Sound(cache, verdict) && forall i :: 0 <= i < |entries| ==> entries[i].verified == verdict(entries[i].key)
    modifies cache
    ensures Sound(cache, verdict)
    ensures cache.Queue() ==
              if cache.capacity == 0 then old(cache.Queue()) else PushAll(old(cache.Queue()), entries, cache.capacity)
  {
    RecordAllSound(cache.recorded, entries, verdict);
    var evictions := cache.SetAll(entries);
  }

  /** Other calls may clear the cache or store verdicts of their own at any time. */
  method Interfere(cache: Ring, verdict: Key -> bool, others: bool)
    requires Sound(cache, verdict)
    modifies cache
    ensures Sound(cache, verdict)
    ensures !others ==> cache.values == old(cache.values) && cache.Queue() == old(cache.Queue())
  {
    if !others { return; }
    if * { cache.Clear(); }
    var keys: seq<Key> := *;
    Store(cache, seq(|keys|, i requires 0 <= i < |keys| => Entry(keys[i], verdict(keys[i]))), verdict);
    if * { cache.Clear(); }
  }

  /** The key of each candidate, unless one has none or already carries a verdict. */
  method CandidateKeys(d: Detector, data: Word, results: seq<Result>) returns (r: Option<seq<Key>>)
    ensures r.Some? ==> KeysOf(d, data, results, r.value)
    ensures r.Some? <==> forall i :: 0 <= i < |results| ==> Plain(results[i])
  {
    var keys: seq<Key> := [];
    for i := 0 to |results|
      invariant KeysOf(d, data, results[..i], keys) && forall j :: 0 <= j < i ==> Plain(results[j])
    {
      var key := KeyOf(d.index, InputOf(d, data), results[i]);
      if key.None? || results[i].verified || results[i].error {
        assert !Plain(results[i]);
        return None;
      }
      keys := keys + [key.value];
    }
    assert results[..|results|] == results;
    return Some(keys);
  }

  ghost predicate KeysOf(d: Detector, data: Word, results: seq<Result>, keys: seq<Key>) {
    |keys| == |results| && forall i :: 0 <= i < |keys| ==> KeyOf(d.index, InputOf(d, data), results[i]) == Some(keys[i])
  }

  ghost predicate AllIn(keys: seq<Key>, values: map<Key, bool>) {
    forall i :: 0 <= i < |keys| ==> keys[i] in values
  }

  /** Applies cached verdicts to all candidates, or to none when one is missing. */
  method ApplyCached(cache: Ring, keys: seq<Key>, results: seq<Result>, verdict: Key -> bool, others: bool)
    returns (results': seq<Result>, ok: bool)
    requires Sound(cache, verdict) && |keys| == |results|
    modifies cache
    ensures Sound(cache, verdict)
    ensures !ok ==> results' == results
    ensures ok ==>
              |results'| == |results|
                && forall i :: 0 <= i < |results| ==> results'[i] == results[i].(verified := verdict(keys[i]))
    ensures !others ==> cache.values == old(cache.values) && cache.Queue() == old(cache.Queue())
    ensures !others ==> (ok <==> AllIn(keys, old(cache.values)))
  {
    results', ok := results, false;
    var verdicts: seq<bool> := [];
    for i := 0 to |keys|
      invariant Sound(cache, verdict) && |verdicts| == i && forall j :: 0 <= j < i ==> verdicts[j] == verdict(keys[j])
      invariant !others ==> cache.values == old(cache.values) && cache.Queue() == old(cache.Queue())
      invariant !others ==> forall j :: 0 <= j < i ==> keys[j] in old(cache.values)
    {
      Interfere(cache, verdict, others);
      var v := cache.Get(keys[i]);
      if v.None? { return; }
      verdicts := verdicts + [v.value];
    }
    ok := true;
    results' := seq(|results|, i requires 0 <= i < |results| => results[i].(verified := verdicts[i]));
  }

  lemma {:induction false} SameBases(a: seq<Result>, b: seq<Result>)
    requires |a| == |b| && forall i :: 0 <= i < |a| ==> Base(a[i]) == Base(b[i])
    ensures Bases(a) == Bases(b)
  {
    if a != [] { SameBases(a[..|a| - 1], b[..|b| - 1]); }
  }

  /** Candidates with cached verdicts are what an error-free verified call returns. */
  lemma CachedForm(d: Detector, data: Word, verdict: Key -> bool, keys: seq<Key>, results: seq<Result>)
    requires KeysOf(d, data, d.candidates(data), keys) && |results| == |keys|
    requires forall i :: 0 <= i < |results| ==> results[i] == d.candidates(data)[i].(verified := verdict(keys[i]))
    ensures VerifiedForm(d, data, verdict, results)
  {
    SameBases(results, d.candidates(data));
    forall i | 0 <= i < |results| ensures VerdictRight(d, data, verdict, results[i]) {
      assert KeyOf(d.index, InputOf(d, data), results[i]) == Some(keys[i]);
    }
  }

  /** The keys fit into the ring beside what it holds. */
  ghost predicate Fit(queue: seq<Key>, n: nat, capacity: nat) {
    |queue| + n <= capacity
  }

  /** Stored keys stay as long as nothing has to be pushed out. */
  lemma {:induction false} PushAllFits(queue: seq<Key>, entries: seq<Entry>, capacity: nat)
    requires Fit(queue, |entries|, capacity)
    ensures |PushAll(queue, entries, capacity)| <= |queue| + |entries|
    ensures forall i :: 0 <= i < |entries| ==> entries[i].key in PushAll(queue, entries, capacity)
  {
    if entries != [] {
      var front, last := entries[..|entries| - 1], entries[|entries| - 1];
      PushAllFits(queue, front, capacity);
      forall i | 0 <= i < |entries| ensures entries[i].key in PushAll(queue, entries, capacity) {
        if i < |front| { assert front[i].key in PushAll(queue, front, capacity); }
      }
    }
  }

  /** The flight owner: the cache once more, then a verified call whose verdicts are stored if the pass may be
      cached. */
  method Fly(cache: Ring, d: Detector, data: Word, keys: seq<Key>, unverified: seq<Result>, verdict: Key -> bool,
             faults: bool, others: bool)
    returns (usedCache: bool, r: Option<seq<Result>>)
    requires Sound(cache, verdict) && KeysOf(d, data, unverified, keys)
    modifies cache
    ensures Sound(cache, verdict)
    ensures !usedCache && r.Some? ==> VerifiedForm(d, data, verdict, r.value)
    ensures !usedCache && !faults ==> r.Some?
    ensures !others ==> (usedCache <==> AllIn(keys, old(cache.values)))
    ensures !others && !usedCache && r.Some? && Cacheable(d.index, InputOf(d, data), unverified, r.value) ==>
              Fit(old(cache.Queue()), |keys|, cache.capacity) ==> AllIn(keys, cache.values)
    ensures !faults && r.Some? ==> NoErrors(r.value)
  {
    var applied;
    applied, usedCache := ApplyCached(cache, keys, unverified, verdict, others);
    if usedCache { return true, None; }
    Interfere(cache, verdict, others);
    r := CallVerified(d, data, verdict, faults);
    if r.Some? { KeepVerdicts(cache, d, data, keys, unverified, r.value, verdict); }
  }

  /** Stores the verdicts of a pass that may be cached. */
  method KeepVerdicts(cache: Ring, d: Detector, data: Word, ghost keys: seq<Key>, unverified: seq<Result>,
                      verified: seq<Result>, ghost verdict: Key -> bool)
    requires Sound(cache, verdict) && KeysOf(d, data, unverified, keys) && VerifiedForm(d, data, verdict, verified)
    modifies cache
    ensures Sound(cache, verdict)
    ensures Cacheable(d.index, InputOf(d, data), unverified, verified) ==>
              Fit(old(cache.Queue()), |keys|, cache.capacity) ==> AllIn(keys, cache.values)
  {
    var entries := CacheableEntries(d.index, InputOf(d, data), unverified, verified);
    if entries.Some? {
      EntriesSound(d, data, verdict, verified, entries.value);
      ghost var queue := cache.Queue();
      Store(cache, entries.value, verdict);
      if Fit(queue, |keys|, cache.capacity) {
        PushAllFits(queue, entries.value, cache.capacity);
        AllStored(cache, d, data, keys, unverified, entries.value);
      }
    }
  }

  lemma AllStored(cache: Ring, d: Detector, data: Word, keys: seq<Key>, unverified: seq<Result>, entries: seq<Entry>)
    requires cache.Valid() && KeysOf(d, data, unverified, keys)
    requires Covers(d.index, InputOf(d, data), unverified, entries)
    requires forall i :: 0 <= i < |entries| ==> entries[i].key in cache.Queue()
    ensures AllIn(keys, cache.values)
  {
    TurnedMembers(cache.order, cache.next);
    forall i | 0 <= i < |keys| ensures keys[i] in cache.values {
      assert CoveredBy(KeyOf(d.index, InputOf(d, data), unverified[i]), entries);
    }
  }

  lemma EntriesSound(d: Detector, data: Word, verdict: Key -> bool, verified: seq<Result>, entries: seq<Entry>)
    requires VerifiedForm(d, data, verdict, verified)
    requires forall e :: e in entries ==> FromPass(d.index, InputOf(d, data), verified, e)
    ensures forall i :: 0 <= i < |entries| ==> entries[i].verified == verdict(entries[i].key)
  {
    forall i | 0 <= i < |entries| ensures entries[i].verified == verdict(entries[i].key) {
      assert FromPass(d.index, InputOf(d, data), verified, entries[i]);
      var j :| 0 <= j < |verified| && !verified[j].error
        && KeyOf(d.index, InputOf(d, data), verified[j]) == Some(entries[i].key)
        && verified[j].verified == entries[i].verified;
      assert VerdictRight(d, data, verdict, verified[j]);
    }
  }

  /** Every candidate has a key, carries no verdict yet, and its verdict is cached. */
  ghost predicate AllCached(values: map<Key, bool>, d: Detector, data: Word) {
    forall i :: 0 <= i < |d.candidates(data)| ==>
      && Plain(d.candidates(data)[i])
      && var key := KeyOf(d.index, InputOf(d, data), d.candidates(data)[i]); key.Some? && key.value in values
  }

  lemma CachedKeys(values: map<Key, bool>, d: Detector, data: Word, keys: seq<Key>)
    requires KeysOf(d, data, d.candidates(data), keys)
    requires forall i :: 0 <= i < |keys| ==> Plain(d.candidates(data)[i])
    ensures AllIn(keys, values) <==> AllCached(values, d, data)
  {
    if AllCached(values, d, data) {
      forall i | 0 <= i < |keys| ensures keys[i] in values {
        assert Plain(d.candidates(data)[i]);
      }
    }
  }

  /** The detector call. Without verification, or for a detector that has none, its candidates come back as they are.
      Otherwise, on every path (bypass, hit, flight owner, waiter), the results are such as the direct verified call
      returns, whatever other calls do to the cache meanwhile, and the cache stays sound. At most one verified call is
      made. When no other calls interfere, none is made if all verdicts are cached, and all are cached after a pass that
      may be cached if they fit into the ring beside what it holds. */
  method FromData(cache: Ring, d: Detector, data: Word, verify: bool, verdict: Key -> bool, faults: bool, others: bool)
    returns (r: Option<seq<Result>>, calls: nat)
    requires Sound(cache, verdict)
    modifies cache
    ensures Sound(cache, verdict)
    ensures !faults ==> r.Some?
    ensures r.Some? && !(verify && d.verifier) ==> r.value == d.candidates(data) && calls == 0
    ensures r.Some? && verify && d.verifier ==> VerifiedForm(d, data, verdict, r.value)
    ensures calls <= 1 && (!d.cacheable && verify && d.verifier ==> calls == 1)
    ensures !others && d.cacheable && AllCached(old(cache.values), d, data) ==> calls == 0
    ensures !others && calls == 1 && d.cacheable && r.Some? ==>
              Cacheable(d.index, InputOf(d, data), d.candidates(data), r.value) ==>
                Fit(old(cache.Queue()), |d.candidates(data)|, cache.capacity) ==> AllCached(cache.values, d, data)
    ensures !faults && verify && d.verifier ==> NoErrors(r.value)
  {
    calls := 0;
    if !verify || !d.verifier {
      r := CallPlain(d, data, faults);
      return;
    }
    if !d.cacheable {
      r := CallVerified(d, data, verdict, faults);
      return r, 1;
    }
    r := CallPlain(d, data, faults);
    if r.None? { return; }
    var unverified := r.value;
    var keys := CandidateKeys(d, data, unverified);
    if keys.None? {
      r := CallVerified(d, data, verdict, faults);
      return r, 1;
    }
    CachedKeys(cache.values, d, data, keys.value);
    r, calls := CachedCall(cache, d, data, keys.value, unverified, verdict, faults, others);
  }

  /** The call for candidates that all have keys. */
  method CachedCall(cache: Ring, d: Detector, data: Word, keys: seq<Key>, unverified: seq<Result>, verdict: Key -> bool,
                    faults: bool, others: bool)
    returns (r: Option<seq<Result>>, calls: nat)
    requires Sound(cache, verdict) && unverified == d.candidates(data) && KeysOf(d, data, unverified, keys)
    requires forall i :: 0 <= i < |keys| ==> Plain(unverified[i])
    modifies cache
    ensures Sound(cache, verdict) && calls <= 1 && (!faults ==> r.Some?)
    ensures r.Some? ==> VerifiedForm(d, data, verdict, r.value)
    ensures !others && AllIn(keys, old(cache.values)) ==> calls == 0
    ensures !others && calls == 1 && r.Some? && Cacheable(d.index, InputOf(d, data), unverified, r.value) ==>
              Fit(old(cache.Queue()), |unverified|, cache.capacity) ==> AllCached(cache.values, d, data)
    ensures !faults ==> NoErrors(r.value)
  {
    calls := 0;
    var applied, hit := ApplyCached(cache, keys, unverified, verdict, others);
    if hit {
      CachedForm(d, data, verdict, keys, applied);
      return Some(applied), 0;
    }
    Interfere(cache, verdict, others);
    var owner: bool := *;
    if owner || !others {
      var usedCache, flown := Fly(cache, d, data, keys, unverified, verdict, faults, others);
      if !usedCache {
        CachedKeys(cache.values, d, data, keys);
        return flown, 1;
      }
    }
    Interfere(cache, verdict, others);
    applied, hit := ApplyCached(cache, keys, unverified, verdict, others);
    if hit {
      CachedForm(d, data, verdict, keys, applied);
      return Some(applied), 0;
    }
    r := CallVerified(d, data, verdict, faults);
    calls := 1;
  }
}
