/** Retention of incremental state: entries of repositories that are no longer observed age out, renamed ones move. */
module StateRetention {
  import opened Bytes

  const SECOND: int := 1_000_000_000

  /** Times are recorded in whole seconds. */
  function Recorded(now: int): (t: int)
    ensures t <= now < t + SECOND && t % SECOND == 0
  {
    now - now % SECOND
  }

  /** The rename-proof name of a repository. */
  datatype StableId = ById(id: nat) | ByName(key: string)

  /** What is kept for one repository: its checkpoint, and when it was last seen or first missed. */
  datatype Entry = Entry(checkpoint: string, stableId: Option<StableId>, lastSeen: int, unobservedRuns: nat,
                         unobservedSince: Option<int>)

  datatype Repo = Repo(key: string, id: nat)

  type Surface = map<string, Entry>

  datatype Policy = Policy(age: int, minRuns: nat)

  function StableOf(r: Repo): StableId {
    if r.id > 0 then ById(r.id) else ByName(r.key)
  }

  /** Two repositories share a stable name when they have the same id or, both without one, the same key. */
  lemma NamesAgree(r: Repo, q: Repo)
    ensures StableOf(r) == StableOf(q) <==> r.id == q.id && (r.id == 0 ==> r.key == q.key)
  {
  }

  /** The repositories of a run by key; a later one with the same key wins. */
  function ObservedOf(repos: seq<Repo>): map<string, Repo> {
    if repos == [] then map[] else ObservedOf(repos[..|repos| - 1])[repos[|repos| - 1].key := repos[|repos| - 1]]
  }

  lemma {:induction false} ObservedMembers(repos: seq<Repo>, key: string)
    ensures key in ObservedOf(repos) <==> exists i :: 0 <= i < |repos| && repos[i].key == key
  {
    if repos != [] {
      var front := repos[..|repos| - 1];
      ObservedMembers(front, key);
      if i :| 0 <= i < |front| && front[i].key == key { assert repos[i].key == key; }
      if i :| 0 <= i < |repos| && repos[i].key == key { assert i < |front| ==> front[i].key == key; }
    }
  }

  /** The last repository with the key is the observed one. */
  lemma {:induction false} ObservedLast(repos: seq<Repo>, i: nat)
    requires i < |repos| && forall j :: i < j < |repos| ==> repos[j].key != repos[i].key
    ensures repos[i].key in ObservedOf(repos) && ObservedOf(repos)[repos[i].key] == repos[i]
  {
    if i < |repos| - 1 { ObservedLast(repos[..|repos| - 1], i); }
  }

  // ---------------------------------------------------------------------------------------
  // What one run does to one entry

  /** The entry of a repository observed now: the checkpoint stays, the misses are forgotten. */
  function Fresh(e: Entry, r: Repo, now: int): Entry {
    Entry(e.checkpoint, Some(StableOf(r)), Recorded(now), 0, None)
  }

  /** An observed entry starts afresh; an unobserved one counts the run if the scope is the same, and is dropped once it
      has been missed often and long enough. */
  function Swept(e: Entry, observed: Option<Repo>, same: bool, now: int, policy: Policy): Option<Entry> {
    if observed.Some? then Some(Fresh(e, observed.value, now))
    else if !same then Some(e)
    else
      var since := if e.unobservedSince.Some? then e.unobservedSince.value else Recorded(now);
      if e.unobservedRuns + 1 >= policy.minRuns && now - since >= policy.age then None
      else Some(e.(unobservedRuns := e.unobservedRuns + 1, unobservedSince := Some(since)))
  }

  function Observed(observed: map<string, Repo>, key: string): Option<Repo> {
    if key in observed then Some(observed[key]) else None
  }

  ghost function SweptAll(m: Surface, observed: map<string, Repo>, same: bool, now: int, policy: Policy): Surface {
    map k | k in m && Swept(m[k], Observed(observed, k), same, now, policy).Some? ::
      Swept(m[k], Observed(observed, k), same, now, policy).value
  }

  // ---------------------------------------------------------------------------------------
  // Histories

  /** What happened to the state: a run with the repositories it observed, or the commit of one of them. */
  datatype Event =
    | Prepared(repos: seq<Repo>, scope: string, now: int, policy: Policy)
    | Committed(wiki: bool, repo: Repo, checkpoint: string, now: int)

  /** The scope of the last run. */
  ghost function ScopeOf(log: seq<Event>): string {
    if log == [] then "" else if log[|log| - 1].Prepared? then log[|log| - 1].scope else ScopeOf(log[..|log| - 1])
  }

  /** The repositories of the last run. */
  ghost function LastObserved(log: seq<Event>): map<string, Repo> {
    if log == [] then map[]
    else if log[|log| - 1].Prepared? then ObservedOf(log[|log| - 1].repos)
    else LastObserved(log[..|log| - 1])
  }

  /** The runs, by their times, that kept the scope of the run before and did not observe the key, since it was last
      observed. */
  ghost function Missed(log: seq<Event>, k: string): seq<int> {
    if log == [] then []
    else
      var front, last := log[..|log| - 1], log[|log| - 1];
      match last
      case Committed(_, r, _, _) => if r.key == k then [] else Missed(front, k)
      case Prepared(repos, scope, now, _) =>
        if k in ObservedOf(repos) then []
        else if scope == ScopeOf(front) then Missed(front, k) + [now]
        else Missed(front, k)
  }

  /** Missed often enough, and long enough since the recorded time of the first miss. */
  ghost predicate AgedOut(missed: seq<int>, now: int, policy: Policy) {
    missed != [] && |missed| >= policy.minRuns && now - Recorded(missed[0]) >= policy.age
  }

  /** A commit is only ever made for a repository of the last run. */
  ghost predicate Legal(log: seq<Event>) {
    forall i :: 0 <= i < |log| && log[i].Committed? ==> log[i].repo.key in LastObserved(log[..i])
  }

  lemma {:induction false} ObservedNotMissed(log: seq<Event>, k: string)
    requires k in LastObserved(log)
    ensures Missed(log, k) == []
  {
    if log[|log| - 1].Committed? { ObservedNotMissed(log[..|log| - 1], k); }
  }

  /** An entry's counter and time tell the runs that missed it. */
  ghost predicate EntryOk(e: Entry, missed: seq<int>) {
    e.unobservedRuns == |missed| && e.unobservedSince == if missed == [] then None else Some(Recorded(missed[0]))
  }

  ghost predicate HistoryOk(m: Surface, log: seq<Event>) {
    forall k :: k in m ==> EntryOk(m[k], Missed(log, k))
  }

  // ---------------------------------------------------------------------------------------
  // Renames

  /** At most one entry moves to the key of `r`, from a key whose entry carries its stable name. */
  ghost predicate MovedFor(m: Surface, r: Repo, m': Surface) {
    || (m' == m && (r.key in m || forall k :: k in m ==> m[k].stableId != Some(StableOf(r))))
    || (r.key !in m && exists k :: k in m && m[k].stableId == Some(StableOf(r)) && MovedFrom(m, k, r.key, m'))
  }

  ghost predicate MovedFrom(m: Surface, k: string, key: string, m': Surface)
    requires k in m
  {
    m' == (m - {k})[key := m[k]]
  }

  /** Moves an entry that the repository had under an earlier name, whichever the map yields first. */
  method MoveRenamed(m: Surface, r: Repo) returns (m': Surface)
    ensures MovedFor(m, r, m') && |m'| == |m|
  {
    m' := m;
    if r.key in m { return; }
    var left := m.Keys;
    while left != {}
      invariant left <= m.Keys && forall k :: k in m && k !in left ==> m[k].stableId != Some(StableOf(r))
      decreases |left|
    {
      var k :| k in left;
      left := left - {k};
      if m[k].stableId == Some(StableOf(r)) {
        m' := (m - {k})[r.key := m[k]];
        MoveSize(m, k, r.key);
        assert MovedFrom(m, k, r.key, m');
        return;
      }
    }
  }

  lemma MoveSize(m: Surface, k: string, key: string)
    requires k in m && key !in m
    ensures |(m - {k})[key := m[k]]| == |m|
  {
    var m' := (m - {k})[key := m[k]];
    assert m'.Keys == m.Keys - {k} + {key};
    assert |m'.Keys| == |m.Keys|;
  }

  /** The surface after the renames of the first `n` repositories. */
  ghost predicate MovedAll(m: Surface, repos: seq<Repo>, n: nat, m': Surface)
    requires n <= |repos|
    decreases n, 1
  {
    if n == 0 then m' == m
    else
      var last := repos[n - 1];
      exists mid: Surface :: MovedBefore(m, repos, n, mid) && MovedFor(mid, last, m')
  }

  ghost predicate MovedBefore(m: Surface, repos: seq<Repo>, n: nat, mid: Surface)
    requires 0 < n <= |repos|
    decreases n, 0
  {
    MovedAll(m, repos, n - 1, mid)
  }

  // ---------------------------------------------------------------------------------------
  // One run on one surface

  /** Sweeps one entry. */
  method SweepOne(m: Surface, k: string, e: Option<Entry>) returns (m': Surface, pruned: nat)
    requires k in m
    ensures m'.Keys <= m.Keys && |m| == |m'| + pruned
    ensures m' == if e.Some? then m[k := e.value] else m - {k}
  {
    if e.Some? {
      m', pruned := m[k := e.value], 0;
      assert m'.Keys == m.Keys;
    } else {
      m', pruned := m - {k}, 1;
      assert m'.Keys == m.Keys - {k};
    }
    assert |m'.Keys| == |m'| && |m.Keys| == |m|;
  }

  /** Sweeps every entry, in any order. */
  method Sweep(m: Surface, observed: map<string, Repo>, same: bool, now: int, policy: Policy)
    returns (m': Surface, pruned: nat)
    ensures m' == SweptAll(m, observed, same, now, policy) && |m| == |m'| + pruned
  {
    m', pruned := m, 0;
    var left := m.Keys;
    while left != {}
      invariant left <= m.Keys && m'.Keys <= m.Keys && |m| == |m'| + pruned
      invariant SweptOutside(m, m', observed, same, now, policy, left)
      decreases |left|
    {
      var k :| k in left;
      assert SweptTo(m, m', observed, same, now, policy, k, true);
      ghost var before := m';
      var gone;
      m', gone := SweepOne(m', k, Swept(m[k], Observed(observed, k), same, now, policy));
      SweptNext(m, before, observed, same, now, policy, k, left, m');
      left, pruned := left - {k}, pruned + gone;
    }
    AllSwept(m, m', observed, same, now, policy);
  }

  ghost predicate SweptTo(m: Surface, m': Surface, observed: map<string, Repo>, same: bool, now: int, policy: Policy,
                          k: string, waiting: bool)
    requires k in m
  {
    var e := Swept(m[k], Observed(observed, k), same, now, policy);
    if waiting then k in m' && m'[k] == m[k] else if e.Some? then k in m' && m'[k] == e.value else k !in m'
  }

  /** All entries but those left have been swept. */
  ghost predicate SweptOutside(m: Surface, m': Surface, observed: map<string, Repo>, same: bool, now: int,
                               policy: Policy, left: set<string>) {
    forall k :: k in m ==> SweptTo(m, m', observed, same, now, policy, k, k in left)
  }

  lemma SweptNext(m: Surface, before: Surface, observed: map<string, Repo>, same: bool, now: int, policy: Policy,
                  k: string, left: set<string>, m': Surface)
    requires k in m && k in left && k in before && SweptOutside(m, before, observed, same, now, policy, left)
    requires var e := Swept(m[k], Observed(observed, k), same, now, policy);
             m' == if e.Some? then before[k := e.value] else before - {k}
    ensures SweptOutside(m, m', observed, same, now, policy, left - {k})
  {
    forall j | j in m ensures SweptTo(m, m', observed, same, now, policy, j, j in left - {k}) {
      assert SweptTo(m, before, observed, same, now, policy, j, j in left);
    }
  }

  lemma AllSwept(m: Surface, m': Surface, observed: map<string, Repo>, same: bool, now: int, policy: Policy)
    requires m'.Keys <= m.Keys && SweptOutside(m, m', observed, same, now, policy, {})
    ensures m' == SweptAll(m, observed, same, now, policy)
  {
    assert forall k :: k in m ==> SweptTo(m, m', observed, same, now, policy, k, false);
  }

  /** The surface after one run: moved first, then swept. */
  ghost predicate PreparedFrom(m: Surface, repos: seq<Repo>, same: bool, now: int, policy: Policy, m': Surface) {
    exists moved: Surface :: MovedAll(m, repos, |repos|, moved)
      && m' == SweptAll(moved, ObservedOf(repos), same, now, policy)
  }

  /** One run: renamed entries move, then every entry is swept. Nothing is lost but what is counted as pruned. */
  method PrepareSurface(m: Surface, repos: seq<Repo>, same: bool, now: int, policy: Policy)
    returns (m': Surface, pruned: nat)
    ensures PreparedFrom(m, repos, same, now, policy, m') && |m| == |m'| + pruned
    ensures !same ==> pruned == 0
  {
    var moved := m;
    for i := 0 to |repos|
      invariant MovedAll(m, repos, i, moved) && |moved| == |m|
    {
      ghost var mid := moved;
      moved := MoveRenamed(moved, repos[i]);
      assert MovedBefore(m, repos, i + 1, mid);
    }
    m', pruned := Sweep(moved, ObservedOf(repos), same, now, policy);
    if !same { NothingDropped(moved, ObservedOf(repos), now, policy); }
  }

  /** A change of scope drops nothing. */
  lemma NothingDropped(m: Surface, observed: map<string, Repo>, now: int, policy: Policy)
    ensures SweptAll(m, observed, false, now, policy).Keys == m.Keys
    ensures |SweptAll(m, observed, false, now, policy)| == |m|
  {
    assert SweptAll(m, observed, false, now, policy).Keys == m.Keys;
    assert |SweptAll(m, observed, false, now, policy).Keys| == |m.Keys|;
  }

  // ---------------------------------------------------------------------------------------
  // What moves keep

  /** After the moves an entry stands where it stood or under an observed key. */
  ghost predicate StandsAt(m: Surface, e: Entry, k: string, home: string, repos: seq<Repo>, n: nat)
    requires n <= |repos|
  {
    k in m && m[k] == e && (k == home || exists i :: 0 <= i < n && repos[i].key == k)
  }

  lemma {:induction false} EntryStands(m: Surface, repos: seq<Repo>, n: nat, m': Surface, home: string)
    returns (k: string)
    requires n <= |repos| && MovedAll(m, repos, n, m') && home in m
    ensures StandsAt(m', m[home], k, home, repos, n)
  {
    if n == 0 {
      k := home;
    } else {
      var r := repos[n - 1];
      var mid: Surface :| MovedBefore(m, repos, n, mid) && MovedFor(mid, r, m');
      var at := EntryStands(m, repos, n - 1, mid, home);
      if at in m' && m'[at] == mid[at] {
        k := at;
      } else {
        k := r.key;
      }
    }
  }

  /** Entries only ever come to stand under the keys of repositories. */
  lemma {:induction false} KeysAfterMoves(m: Surface, repos: seq<Repo>, n: nat, m': Surface, k: string)
    requires n <= |repos| && MovedAll(m, repos, n, m') && k in m'
    ensures k in m || exists i :: 0 <= i < n && repos[i].key == k
  {
    if n > 0 {
      var r := repos[n - 1];
      var mid: Surface :| MovedBefore(m, repos, n, mid) && MovedFor(mid, r, m');
      if k in mid { KeysAfterMoves(m, repos, n - 1, mid, k); }
    }
  }

  /** An entry that stays under a key of no repository never moved. */
  lemma {:induction false} UnobservedStays(m: Surface, repos: seq<Repo>, n: nat, m': Surface, k: string)
    requires n <= |repos| && MovedAll(m, repos, n, m') && k in m' && forall i :: 0 <= i < n ==> repos[i].key != k
    ensures k in m && m'[k] == m[k]
  {
    if n > 0 {
      var r := repos[n - 1];
      var mid: Surface :| MovedBefore(m, repos, n, mid) && MovedFor(mid, r, m');
      assert k in mid && m'[k] == mid[k];
      UnobservedStays(m, repos, n - 1, mid, k);
    }
  }

  /** At most one entry carries the stable name. */
  ghost predicate OneWith(m: Surface, id: StableId) {
    forall a, b :: a in m && b in m && m[a].stableId == Some(id) && m[b].stableId == Some(id) ==> a == b
  }

  lemma OneAfterMove(m: Surface, r: Repo, m': Surface, id: StableId)
    requires MovedFor(m, r, m') && OneWith(m, id)
    ensures OneWith(m', id)
  {
  }

  lemma {:induction false} OneAfterMoves(m: Surface, repos: seq<Repo>, n: nat, m': Surface, id: StableId)
    requires n <= |repos| && MovedAll(m, repos, n, m') && OneWith(m, id)
    ensures OneWith(m', id)
  {
    if n > 0 {
      var r := repos[n - 1];
      var mid: Surface :| MovedBefore(m, repos, n, mid) && MovedFor(mid, r, m');
      OneAfterMoves(m, repos, n - 1, mid, id);
      OneAfterMove(mid, r, m', id);
    }
  }

  ghost predicate DistinctKeys(repos: seq<Repo>) {
    forall i, j :: 0 <= i < j < |repos| ==> repos[i].key != repos[j].key
  }

  ghost predicate DistinctNames(repos: seq<Repo>) {
    forall i, j :: 0 <= i < j < |repos| ==> StableOf(repos[i]) != StableOf(repos[j])
  }

  /** No stable name is carried twice. */
  ghost predicate Unique(m: Surface) {
    forall id :: OneWith(m, id)
  }

  /** Repository `i` carries the stable name of the entry under `k`, and no other entry carries it. */
  ghost predicate NamedBy(m: Surface, repos: seq<Repo>, k: string, i: int) {
    && 0 <= i < |repos| && k in m
    && m[k].stableId == Some(StableOf(repos[i])) && OneWith(m, StableOf(repos[i]))
  }

  /** The key of repository `i` has no entry when its turn comes: it never had one, or an earlier repository took it. */
  ghost predicate FreeFor(m: Surface, repos: seq<Repo>, i: nat)
    requires i < |repos|
    decreases i, 1
  {
    repos[i].key !in m || Taken(m, repos, i, repos[i].key)
  }

  /** One of the first `n` repositories takes the entry of `k` along to its own key. */
  ghost predicate Taken(m: Surface, repos: seq<Repo>, n: nat, k: string)
    requires n <= |repos|
    decreases n, 0
  {
    exists i: nat :: i < n && repos[i].key != k && NamedBy(m, repos, k, i) && FreeFor(m, repos, i)
  }

  /** A free key has no entry when its turn comes. */
  lemma {:induction false} FreeKey(m: Surface, repos: seq<Repo>, i: nat, mid: Surface)
    requires i < |repos| && DistinctKeys(repos) && MovedAll(m, repos, i, mid) && FreeFor(m, repos, i)
    ensures repos[i].key !in mid
    decreases i, 1
  {
    var key := repos[i].key;
    if key in m {
      TakenLeaves(m, repos, i, mid, key);
    } else if key in mid {
      KeysAfterMoves(m, repos, i, mid, key);
    }
  }

  /** A taken entry leaves, and nothing stands under its key unless the run observes it. */
  lemma {:induction false} TakenLeaves(m: Surface, repos: seq<Repo>, n: nat, m': Surface, k: string)
    requires n <= |repos| && DistinctKeys(repos) && MovedAll(m, repos, n, m') && Taken(m, repos, n, k)
    requires forall i :: 0 <= i < n ==> repos[i].key != k
    ensures k !in m'
    decreases n, 0
  {
    var r := repos[n - 1];
    var mid: Surface :| MovedBefore(m, repos, n, mid) && MovedFor(mid, r, m');
    if Taken(m, repos, n - 1, k) {
      TakenLeaves(m, repos, n - 1, mid, k);
    } else {
      FreeKey(m, repos, n - 1, mid);
      OneAfterMoves(m, repos, n - 1, mid, StableOf(r));
      if k in mid { UnobservedStays(m, repos, n - 1, mid, k); }
    }
  }

  /** An entry whose stable name, carried by no other entry, is that of a repository with a free key comes to stand
      under that key. */
  lemma {:induction false} NameFollows(m: Surface, repos: seq<Repo>, n: nat, m': Surface, k: string, i: nat)
    requires i < n <= |repos| && DistinctKeys(repos) && DistinctNames(repos) && MovedAll(m, repos, n, m')
    requires NamedBy(m, repos, k, i) && FreeFor(m, repos, i)
    ensures repos[i].key in m' && m'[repos[i].key] == m[k]
  {
    var r := repos[n - 1];
    var mid: Surface :| MovedBefore(m, repos, n, mid) && MovedFor(mid, r, m');
    if i < n - 1 {
      NameFollows(m, repos, n - 1, mid, k, i);
    } else {
      OwnEntryStays(m, repos, n - 1, mid, k);
      FreeKey(m, repos, i, mid);
      OneAfterMoves(m, repos, n - 1, mid, StableOf(r));
    }
  }

  /** An entry keeps its place when no other repository carries its stable name. */
  lemma {:induction false} OwnEntryStays(m: Surface, repos: seq<Repo>, n: nat, m': Surface, k: string)
    requires n <= |repos| && MovedAll(m, repos, n, m') && k in m
    requires forall i :: 0 <= i < n ==> repos[i].key == k || m[k].stableId != Some(StableOf(repos[i]))
    ensures k in m' && m'[k] == m[k]
  {
    if n > 0 {
      var r := repos[n - 1];
      var mid: Surface :| MovedBefore(m, repos, n, mid) && MovedFor(mid, r, m');
      OwnEntryStays(m, repos, n - 1, mid, k);
    }
  }

  /** With unique names, a key that is not free has its own entry when its turn comes. */
  lemma {:induction false} UntakenStays(m: Surface, repos: seq<Repo>, n: nat, m': Surface, k: string)
    requires n <= |repos| && Unique(m) && MovedAll(m, repos, n, m')
    requires k in m && !Taken(m, repos, n, k)
    ensures k in m' && m'[k] == m[k]
  {
    if n > 0 {
      var r := repos[n - 1];
      var mid: Surface :| MovedBefore(m, repos, n, mid) && MovedFor(mid, r, m');
      assert !Taken(m, repos, n - 1, k);
      UntakenStays(m, repos, n - 1, mid, k);
      if m[k].stableId == Some(StableOf(r)) && r.key != k {
        assert NamedBy(m, repos, k, n - 1);
        UntakenStays(m, repos, n - 1, mid, r.key);
      }
    }
  }

  /** With unique names, an entry keeps its place exactly when no repository of the run takes it along. */
  lemma OwnEntryStaysExactly(m: Surface, repos: seq<Repo>, moved: Surface, k: string)
    requires MovedAll(m, repos, |repos|, moved) && DistinctKeys(repos) && DistinctNames(repos) && Unique(m) && k in m
    ensures k in moved && moved[k] == m[k] <==> !Taken(m, repos, |repos|, k)
  {
    if Taken(m, repos, |repos|, k) {
      var i: nat :| i < |repos| && repos[i].key != k && NamedBy(m, repos, k, i) && FreeFor(m, repos, i);
      NameFollows(m, repos, |repos|, moved, k, i);
      OneAfterMoves(m, repos, |repos|, moved, StableOf(repos[i]));
    } else {
      UntakenStays(m, repos, |repos|, moved, k);
    }
  }

  /** With unique names, the entry that carries a repository's name comes to stand under the repository's key exactly
      when it stood there before or the key is free when the repository's turn comes. */
  lemma NameFollowsExactly(m: Surface, repos: seq<Repo>, moved: Surface, k: string, i: nat)
    requires MovedAll(m, repos, |repos|, moved) && DistinctKeys(repos) && DistinctNames(repos) && Unique(m)
    requires i < |repos| && NamedBy(m, repos, k, i)
    ensures var key := repos[i].key;
            key in moved && moved[key] == m[k] <==> key == k || FreeFor(m, repos, i)
  {
    var key := repos[i].key;
    if key == k {
      OwnEntryStays(m, repos, |repos|, moved, k);
    } else if FreeFor(m, repos, i) {
      NameFollows(m, repos, |repos|, moved, k, i);
    } else {
      forall j: nat | j < |repos| && NamedBy(m, repos, k, j) ensures j == i { }
      UntakenStays(m, repos, |repos|, moved, k);
      OneAfterMoves(m, repos, |repos|, moved, StableOf(repos[i]));
    }
  }

  /** A run finds the checkpoint of a renamed repository again under its new key, if that key is free in its turn. */
  lemma RenamedFound(m: Surface, repos: seq<Repo>, same: bool, now: int, policy: Policy, m': Surface, k: string, i: nat)
    requires PreparedFrom(m, repos, same, now, policy, m') && DistinctKeys(repos) && DistinctNames(repos)
    requires i < |repos| && NamedBy(m, repos, k, i) && FreeFor(m, repos, i)
    ensures repos[i].key in m' && m'[repos[i].key].checkpoint == m[k].checkpoint
    ensures m'[repos[i].key].unobservedRuns == 0
  {
    var moved: Surface :| MovedAll(m, repos, |repos|, moved)
      && m' == SweptAll(moved, ObservedOf(repos), same, now, policy);
    NameFollows(m, repos, |repos|, moved, k, i);
    ObservedMembers(repos, repos[i].key);
  }

  /** The repository of an entry is observed: under its key, or, by its stable name, under a key that is free in its
      turn. */
  ghost predicate StillObserved(m: Surface, repos: seq<Repo>, k: string) {
    k in ObservedOf(repos) || Taken(m, repos, |repos|, k)
  }

  /** One run keeps the checkpoint of every entry whose repository it observes, under an observed key and with no missed
      runs. */
  lemma ObservedSurvives(m: Surface, repos: seq<Repo>, same: bool, now: int, policy: Policy, m': Surface, home: string)
    returns (k: string)
    requires PreparedFrom(m, repos, same, now, policy, m') && DistinctKeys(repos)
    requires home in m && StillObserved(m, repos, home)
    ensures k in ObservedOf(repos) && k in m'
    ensures m'[k] == Entry(m[home].checkpoint, Some(StableOf(ObservedOf(repos)[k])), Recorded(now), 0, None)
  {
    var moved: Surface :| MovedAll(m, repos, |repos|, moved)
      && m' == SweptAll(moved, ObservedOf(repos), same, now, policy);
    k := EntryStands(m, repos, |repos|, moved, home);
    ObservedMembers(repos, k);
    if k !in ObservedOf(repos) {
      TakenLeaves(m, repos, |repos|, moved, home);
    }
  }

  /** An observed key keeps its own checkpoint when no other observed repository carries its entry's stable name. */
  lemma ObservedKeyKept(m: Surface, repos: seq<Repo>, same: bool, now: int, policy: Policy, m': Surface, k: string)
    requires PreparedFrom(m, repos, same, now, policy, m') && k in m && k in ObservedOf(repos)
    requires forall i :: 0 <= i < |repos| ==> repos[i].key == k || m[k].stableId != Some(StableOf(repos[i]))
    ensures k in m' && m'[k] == Entry(m[k].checkpoint, Some(StableOf(ObservedOf(repos)[k])), Recorded(now), 0, None)
  {
    var moved: Surface :| MovedAll(m, repos, |repos|, moved)
      && m' == SweptAll(moved, ObservedOf(repos), same, now, policy);
    OwnEntryStays(m, repos, |repos|, moved, k);
  }

  /** When a repository is renamed and a new one takes its old name, the entry goes with the renamed one: the old name
      is observed and had an entry, and has none after the run. */
  method NameTaken() returns (m': Surface)
    ensures "x" !in m' && "y" in m' && m'["y"] == Entry("heads", Some(ById(1)), 0, 0, None)
  {
    var m := map["x" := Entry("heads", Some(ById(1)), 0, 0, None)];
    var first := MoveRenamed(m, Repo("y", 1));
    assert m["x"].stableId == Some(StableOf(Repo("y", 1)));
    assert first == map["y" := m["x"]];
    var moved := MoveRenamed(first, Repo("x", 2));
    assert moved == first;
    var pruned;
    m', pruned := Sweep(moved, map["x" := Repo("x", 2), "y" := Repo("y", 1)], true, 0, Policy(SECOND, 1));
  }

  // ---------------------------------------------------------------------------------------
  // Runs keep the histories

  lemma PreparedHistory(m: Surface, log: seq<Event>, ev: Event, m': Surface)
    requires HistoryOk(m, log) && ev.Prepared?
    requires PreparedFrom(m, ev.repos, ev.scope == ScopeOf(log), ev.now, ev.policy, m')
    ensures HistoryOk(m', log + [ev])
  {
    var same, observed := ev.scope == ScopeOf(log), ObservedOf(ev.repos);
    var moved: Surface :| MovedAll(m, ev.repos, |ev.repos|, moved)
      && m' == SweptAll(moved, observed, same, ev.now, ev.policy);
    assert (log + [ev])[..|log|] == log;
    forall k | k in m' ensures EntryOk(m'[k], Missed(log + [ev], k)) {
      ObservedMembers(ev.repos, k);
      if k !in observed {
        UnobservedStays(m, ev.repos, |ev.repos|, moved, k);
        assert EntryOk(m[k], Missed(log, k));
        if Missed(log, k) != [] { assert (Missed(log, k) + [ev.now])[0] == Missed(log, k)[0]; }
      }
    }
  }

  /** The entry a commit writes. */
  function NewEntry(checkpoint: string, r: Repo, now: int): Entry {
    Entry(checkpoint, Some(StableOf(r)), Recorded(now), 0, None)
  }

  lemma CommittedHistory(m: Surface, log: seq<Event>, ev: Event, written: bool)
    requires HistoryOk(m, log) && ev.Committed? && ev.repo.key in LastObserved(log)
    ensures HistoryOk(if written then m[ev.repo.key := NewEntry(ev.checkpoint, ev.repo, ev.now)] else m, log + [ev])
  {
    var m' := if written then m[ev.repo.key := NewEntry(ev.checkpoint, ev.repo, ev.now)] else m;
    assert (log + [ev])[..|log|] == log;
    ObservedNotMissed(log, ev.repo.key);
    forall k | k in m' ensures EntryOk(m'[k], Missed(log + [ev], k)) {
      if k in m { assert EntryOk(m[k], Missed(log, k)); }
    }
  }

  /** The unobserved entries of a run are dropped exactly when, as the whole history tells it, at least the required
      number of runs of the same scope have missed them since they were last observed, and the recorded time of the
      first of these lies the retention age back. */
  lemma DroppedExactly(m: Surface, log: seq<Event>, ev: Event, m': Surface, k: string)
    requires HistoryOk(m, log) && ev.Prepared?
    requires PreparedFrom(m, ev.repos, ev.scope == ScopeOf(log), ev.now, ev.policy, m')
    requires k in m && !StillNamed(m, ev.repos, k)
    ensures var missed := Missed(log + [ev], k);
            k !in m' <==> ev.scope == ScopeOf(log) && AgedOut(missed, ev.now, ev.policy)
  {
    var same, observed := ev.scope == ScopeOf(log), ObservedOf(ev.repos);
    var moved: Surface :| MovedAll(m, ev.repos, |ev.repos|, moved)
      && m' == SweptAll(moved, observed, same, ev.now, ev.policy);
    ObservedMembers(ev.repos, k);
    OwnEntryStays(m, ev.repos, |ev.repos|, moved, k);
    if same { MissedNext(m, log, ev, k); }
  }

  /** With unique names an unobserved key is without its entry after a run exactly when a repository took the entry
      along or, as the whole history tells it, the entry has aged out. */
  lemma GoneExactly(m: Surface, log: seq<Event>, ev: Event, m': Surface, k: string)
    requires HistoryOk(m, log) && ev.Prepared?
    requires PreparedFrom(m, ev.repos, ev.scope == ScopeOf(log), ev.now, ev.policy, m')
    requires DistinctKeys(ev.repos) && DistinctNames(ev.repos) && Unique(m) && k in m && k !in ObservedOf(ev.repos)
    ensures var aged := ev.scope == ScopeOf(log) && AgedOut(Missed(log + [ev], k), ev.now, ev.policy);
            k !in m' <==> Taken(m, ev.repos, |ev.repos|, k) || aged
  {
    var same, observed := ev.scope == ScopeOf(log), ObservedOf(ev.repos);
    var moved: Surface :|
      MovedAll(m, ev.repos, |ev.repos|, moved) && m' == SweptAll(moved, observed, same, ev.now, ev.policy);
    ObservedMembers(ev.repos, k);
    if Taken(m, ev.repos, |ev.repos|, k) {
      TakenLeaves(m, ev.repos, |ev.repos|, moved, k);
    } else {
      UntakenStays(m, ev.repos, |ev.repos|, moved, k);
      if same { MissedNext(m, log, ev, k); }
    }
  }

  /** One more miss: the counter goes up by one and the first miss stays the first. */
  lemma MissedNext(m: Surface, log: seq<Event>, ev: Event, k: string)
    requires HistoryOk(m, log) && ev.Prepared? && k in m && k !in ObservedOf(ev.repos) && ev.scope == ScopeOf(log)
    ensures var missed := Missed(log + [ev], k);
            && |missed| == m[k].unobservedRuns + 1
            && Recorded(missed[0]) == if m[k].unobservedSince.Some? then m[k].unobservedSince.value
               else Recorded(ev.now)
  {
    assert (log + [ev])[..|log|] == log;
    assert EntryOk(m[k], Missed(log, k));
    if Missed(log, k) != [] { assert (Missed(log, k) + [ev.now])[0] == Missed(log, k)[0]; }
  }

  /** A repository of the run has the entry's key or its stable name. */
  ghost predicate StillNamed(m: Surface, repos: seq<Repo>, k: string)
    requires k in m
  {
    exists i :: 0 <= i < |repos| && (repos[i].key == k || m[k].stableId == Some(StableOf(repos[i])))
  }

  /** Whatever is gone after a run, under every key, was either taken along by a rename or dropped with that history. */
  lemma GoneExplained(m: Surface, log: seq<Event>, ev: Event, m': Surface, home: string)
    requires HistoryOk(m, log) && ev.Prepared?
    requires PreparedFrom(m, ev.repos, ev.scope == ScopeOf(log), ev.now, ev.policy, m')
    requires home in m && home !in m'
    requires forall k :: k in m' && k in ObservedOf(ev.repos) ==>
               m'[k] != Fresh(m[home], ObservedOf(ev.repos)[k], ev.now)
    ensures var missed := Missed(log + [ev], home);
            ev.scope == ScopeOf(log) && AgedOut(missed, ev.now, ev.policy)
  {
    var same, observed := ev.scope == ScopeOf(log), ObservedOf(ev.repos);
    var moved: Surface :| MovedAll(m, ev.repos, |ev.repos|, moved)
      && m' == SweptAll(moved, observed, same, ev.now, ev.policy);
    var k := EntryStands(m, ev.repos, |ev.repos|, moved, home);
    ObservedMembers(ev.repos, k);
    assert (log + [ev])[..|log|] == log;
    assert EntryOk(m[home], Missed(log, home));
    if Missed(log, home) != [] { assert (Missed(log, home) + [ev.now])[0] == Missed(log, home)[0]; }
  }

  // ---------------------------------------------------------------------------------------
  // The persisted state

  /** The state with its two surfaces, and all that ever happened to it. */
  class RetentionState {
    var scope: string
    var completeRuns: nat
    var history: Surface
    var wiki: Surface
    ghost var log: seq<Event>

    ghost predicate Valid()
      reads this
    {
      scope == ScopeOf(log) && HistoryOk(history, log) && HistoryOk(wiki, log)
    }

    constructor ()
      ensures Valid() && history == map[] && wiki == map[] && log == []
    {
      scope, completeRuns, history, wiki, log := "", 0, map[], map[], [];
    }

    /** One run with its scope and the repositories it observed. */
    method Prepare(repos: seq<Repo>, newScope: string, now: int, policy: Policy) returns (pruned: nat)
      requires Valid()
      modifies this
      ensures Valid() && log == old(log) + [Prepared(repos, newScope, now, policy)]
      ensures completeRuns == if old(scope) == newScope then old(completeRuns) + 1 else 1
      ensures |old(history)| + |old(wiki)| == |history| + |wiki| + pruned
      ensures old(scope) != newScope ==> pruned == 0
      ensures PreparedFrom(old(history), repos, old(scope) == newScope, now, policy, history)
      ensures PreparedFrom(old(wiki), repos, old(scope) == newScope, now, policy, wiki)
    {
      var same := scope == newScope;
      ghost var ev := Prepared(repos, newScope, now, policy);
      completeRuns := if same then completeRuns + 1 else 1;
      var a, b;
      history, a := PrepareSurface(history, repos, same, now, policy);
      wiki, b := PrepareSurface(wiki, repos, same, now, policy);
      PreparedHistory(old(history), log, ev, history);
      PreparedHistory(old(wiki), log, ev, wiki);
      scope := newScope;
      log := log + [ev];
      pruned := a + b;
    }

    /** The result of scanning one repository of the last run. */
    method Commit(onWiki: bool, repo: Repo, checkpoint: string, now: int)
      requires Valid() && repo.key in LastObserved(log)
      modifies this
      ensures Valid() && log == old(log) + [Committed(onWiki, repo, checkpoint, now)]
      ensures scope == old(scope) && completeRuns == old(completeRuns)
      ensures var entry := Entry(checkpoint, Some(StableOf(repo)), Recorded(now), 0, None);
              && history == (if onWiki then old(history) else old(history)[repo.key := entry])
              && wiki == (if onWiki then old(wiki)[repo.key := entry] else old(wiki))
    {
      ghost var ev := Committed(onWiki, repo, checkpoint, now);
      CommittedHistory(history, log, ev, !onWiki);
      CommittedHistory(wiki, log, ev, onWiki);
      if onWiki {
        wiki := wiki[repo.key := NewEntry(checkpoint, repo, now)];
      } else {
        history := history[repo.key := NewEntry(checkpoint, repo, now)];
      }
      log := log + [ev];
      assert (old(log) + [ev])[..|old(log)|] == old(log);
    }

    /** One more event. */
    method Apply(ev: Event)
      requires Valid() && (ev.Committed? ==> ev.repo.key in LastObserved(log))
      modifies this
      ensures Valid() && log == old(log) + [ev]
    {
      match ev
      case Prepared(repos, newScope, now, policy) => var pruned := Prepare(repos, newScope, now, policy);
      case Committed(onWiki, repo, checkpoint, now) => Commit(onWiki, repo, checkpoint, now);
    }
  }

  /** Every history of runs and commits leads to a state whose counters and times tell exactly the runs that missed each
      entry. */
  method Replay(events: seq<Event>) returns (s: RetentionState)
    requires Legal(events)
    ensures fresh(s) && s.Valid() && s.log == events
  {
    s := new RetentionState();
    for i := 0 to |events|
      invariant s.Valid() && s.log == events[..i]
    {
      s.Apply(events[i]);
    }
    assert events[..|events|] == events;
  }

  // ---------------------------------------------------------------------------------------
  // Names carried twice

  /** Where two entries carry the name of a repository without an entry, the map order decides which one it gets. */
  lemma OrderDecides(m: Surface, r: Repo, j: string, k: string) returns (a: Surface, b: Surface)
    requires r.key !in m && j in m && k in m
    requires m[j].stableId == Some(StableOf(r)) && m[k].stableId == Some(StableOf(r))
    ensures MovedFor(m, r, a) && a[r.key] == m[j] && MovedFor(m, r, b) && b[r.key] == m[k]
  {
    a, b := (m - {j})[r.key := m[j]], (m - {k})[r.key := m[k]];
    assert MovedFrom(m, j, r.key, a) && MovedFrom(m, k, r.key, b);
  }

  /** Two repositories observed and committed. */
  method CommittedTwo() returns (s: RetentionState)
    ensures fresh(s) && s.Valid() && s.scope == "org"
    ensures "x" in s.history && s.history["x"] == NewEntry("a", Repo("x", 1), 0)
    ensures "y" in s.history && s.history["y"] == NewEntry("b", Repo("y", 2), 0)
  {
    s := new RetentionState();
    var pruned := s.Prepare([Repo("x", 1), Repo("y", 2)], "org", 0, Policy(DAY, 2));
    ghost var log := s.log;
    assert "x" in LastObserved(log) && "y" in LastObserved(log);
    s.Commit(false, Repo("x", 1), "a", 0);
    assert s.log[..|log|] == log;
    s.Commit(false, Repo("y", 2), "b", 0);
  }

  /** Runs do make such states: `y` is observed as repository 1, whose entry still stands under `x`. */
  method Namesakes() returns (s: RetentionState)
    ensures fresh(s) && s.Valid() && !Unique(s.history)
    ensures "x" in s.history && s.history["x"].checkpoint == "a" && s.history["x"].stableId == Some(ById(1))
    ensures "y" in s.history && s.history["y"].checkpoint == "b" && s.history["y"].stableId == Some(ById(1))
  {
    s := CommittedTwo();
    ghost var before := s.history;
    var pruned := s.Prepare([Repo("y", 1)], "org", 0, Policy(DAY, 2));
    NamesakesAfter(before, Policy(DAY, 2), s.history);
  }

  lemma NamesakesAfter(m: Surface, policy: Policy, m': Surface)
    requires "x" in m && m["x"] == NewEntry("a", Repo("x", 1), 0)
    requires "y" in m && m["y"] == NewEntry("b", Repo("y", 2), 0)
    requires policy.minRuns >= 2 && PreparedFrom(m, [Repo("y", 1)], true, 0, policy, m')
    ensures "x" in m' && m'["x"].checkpoint == "a" && m'["x"].stableId == Some(ById(1))
    ensures "y" in m' && m'["y"].checkpoint == "b" && m'["y"].stableId == Some(ById(1))
    ensures !Unique(m')
  {
    var repos := [Repo("y", 1)];
    var moved: Surface :| MovedAll(m, repos, 1, moved) && m' == SweptAll(moved, ObservedOf(repos), true, 0, policy);
    OneKeyRun(m, repos[0], moved);
    ObservedMembers(repos, "x");
    ObservedMembers(repos, "y");
    assert repos[0].key == "y";
    Twice(m', "x", "y", ById(1));
  }

  lemma Twice(m: Surface, j: string, k: string, id: StableId)
    requires j != k && j in m && k in m && m[j].stableId == Some(id) && m[k].stableId == Some(id)
    ensures !Unique(m)
  {
    assert !OneWith(m, id);
  }

  /** A repository whose key has an entry moves nothing. */
  lemma OneKeyRun(m: Surface, r: Repo, moved: Surface)
    requires r.key in m && MovedAll(m, [r], 1, moved)
    ensures moved == m
  {
  }

  // ---------------------------------------------------------------------------------------
  // The retention age

  const DAY: int := 86400 * SECOND

  /** A repository observed and committed. */
  method CommittedOnce(repo: Repo) returns (s: RetentionState)
    ensures fresh(s) && s.Valid() && s.scope == "org" && s.wiki == map[] && Missed(s.log, repo.key) == []
    ensures s.history == map[repo.key := NewEntry("heads", repo, 0)]
  {
    s := new RetentionState();
    var pruned := s.Prepare([repo], "org", 0, Policy(DAY, 2));
    s.Commit(false, repo, "heads", 0);
  }

  /** The same, then missed once, at a time that is no whole second. */
  method MissedOnce(repo: Repo) returns (s: RetentionState)
    ensures fresh(s) && s.Valid() && s.scope == "org" && s.wiki == map[]
    ensures s.history == map[repo.key := Entry("heads", Some(StableOf(repo)), 0, 1, Some(0))]
    ensures Missed(s.log, repo.key) == [SECOND - 1]
  {
    s := CommittedOnce(repo);
    ghost var committed := s.history;
    var pruned := s.Prepare([], "org", SECOND - 1, Policy(DAY, 2));
    UnobservedRun(committed, true, SECOND - 1, Policy(DAY, 2), s.history);
  }

  /** Such an entry is dropped before the full age has passed since it was first missed. */
  method EarlyDrop(repo: Repo) returns (pruned: nat, ghost missed: seq<int>, ghost now: int, ghost policy: Policy)
    ensures pruned == 1 && policy == Policy(DAY, 2) && missed == [SECOND - 1, now]
    ensures now - missed[0] < policy.age
  {
    policy, now := Policy(DAY, 2), DAY;
    var s := MissedOnce(repo);
    ghost var before := s.history;
    pruned := s.Prepare([], "org", DAY, Policy(DAY, 2));
    UnobservedRun(before, true, DAY, policy, s.history);
    assert s.history == map[];
    missed := Missed(s.log, repo.key);
  }

  /** A run that observes nothing moves nothing. */
  lemma UnobservedRun(m: Surface, same: bool, now: int, policy: Policy, m': Surface)
    requires PreparedFrom(m, [], same, now, policy, m')
    ensures m' == SweptAll(m, map[], same, now, policy)
  {
  }

  /** Drops respect the full age since the first miss, whenever they come, exactly when that miss was at a whole
      second. */
  lemma AgeRespectedExactly(e: Entry, missed: seq<int>, policy: Policy)
    requires EntryOk(e, missed) && missed != [] && |missed| + 1 >= policy.minRuns
    ensures (forall now :: Swept(e, None, true, now, policy).None? ==> now - missed[0] >= policy.age) <==>
              missed[0] % SECOND == 0
  {
    var early := Recorded(missed[0]) + policy.age;
    assert Swept(e, None, true, early, policy).None?;
  }

  /** In any case less than a second is missing. */
  lemma AgeNearlyRespected(missed: seq<int>, now: int, policy: Policy)
    requires AgedOut(missed, now, policy)
    ensures now - missed[0] > policy.age - SECOND
  {
  }
}
