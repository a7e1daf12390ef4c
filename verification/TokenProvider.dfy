/** The installation-token refresh: callers share one cached token, and at most one of them fetches a new one. */
module TokenProvider {
  import opened Bytes

  /** How long before its expiry a cached token is no longer used. */
  const SKEW: nat := 300

  datatype Token = Token(id: nat, expires: int)

  /** A caller is about to take the lock, waits for a refresh to finish, fetches, or has returned. */
  datatype Caller =
    | AtLock | WaitingFor(refresh: nat) | Fetching(refresh: nat)
    | GotCached(token: Token, at: int) | GotFresh(token: Token) | Failed

  /** Refreshes are numbered; `refresh` is the one under way, and `closed` are those whose channel was closed. */
  datatype State = State(now: int, token: Option<Token>, refresh: Option<nat>, started: nat, closed: set<nat>,
                         callers: seq<Caller>)

  datatype Step =
    | Tick(seconds: nat)
    | Lock(caller: nat)
    | Wake(caller: nat)
    | GiveUp(caller: nat)
    | Fetched(caller: nat, token: Token)
    | FetchFailed(caller: nat)

  predicate Usable(s: State) {
    s.token.Some? && s.now < s.token.value.expires - SKEW
  }

  predicate Enabled(s: State, step: Step) {
    match step
    case Tick(_) => true
    case Lock(i) => i < |s.callers| && s.callers[i].AtLock?
    case Wake(i) => i < |s.callers| && s.callers[i].WaitingFor? && s.callers[i].refresh in s.closed
    case GiveUp(i) => i < |s.callers| && s.callers[i].WaitingFor?
    case Fetched(i, _) => i < |s.callers| && s.callers[i].Fetching?
    case FetchFailed(i) => i < |s.callers| && s.callers[i].Fetching?
  }

  function Next(s: State, step: Step): State
    requires Enabled(s, step)
  {
    match step
    case Tick(n) => s.(now := s.now + n)
    case Lock(i) =>
      if Usable(s) then s.(callers := s.callers[i := GotCached(s.token.value, s.now)])
      else if s.refresh.Some? then s.(callers := s.callers[i := WaitingFor(s.refresh.value)])
      else s.(refresh := Some(s.started), started := s.started + 1, callers := s.callers[i := Fetching(s.started)])
    case Wake(i) => s.(callers := s.callers[i := AtLock])
    case GiveUp(i) => s.(callers := s.callers[i := Failed])
    case Fetched(i, token) =>
      s.(token := Some(token), refresh := None, closed := s.closed + {s.callers[i].refresh},
         callers := s.callers[i := GotFresh(token)])
    case FetchFailed(i) =>
      s.(refresh := None, closed := s.closed + {s.callers[i].refresh}, callers := s.callers[i := Failed])
  }

  predicate Init(s: State) {
    s.token == None && s.refresh == None && s.started == 0 && s.closed == {}
      && forall i :: 0 <= i < |s.callers| ==> s.callers[i] == AtLock
  }

  /** A fetching caller owns the refresh under way; a waiting one waits for that or for one already closed; a cached
      token was outside the skew when it was returned. */
  ghost predicate CallerOk(s: State, c: Caller) {
    && (c.Fetching? ==> s.refresh == Some(c.refresh))
    && (c.WaitingFor? ==> c.refresh in s.closed || s.refresh == Some(c.refresh))
    && (c.GotCached? ==> c.at < c.token.expires - SKEW)
  }

  ghost predicate Inv(s: State) {
    && (forall i :: 0 <= i < |s.callers| ==> CallerOk(s, s.callers[i]))
    && (forall i, j :: 0 <= i < j < |s.callers| ==> !(s.callers[i].Fetching? && s.callers[j].Fetching?))
    && (s.refresh.Some? ==> s.refresh.value < s.started && s.refresh.value !in s.closed
                            && exists i :: 0 <= i < |s.callers| && s.callers[i] == Fetching(s.refresh.value))
    && (forall g :: g in s.closed ==> g < s.started)
    && (s.refresh.Some? ==> !Usable(s))
  }

  lemma InitInv(s: State)
    requires Init(s)
    ensures Inv(s)
  {
  }

  /** The owner of the refresh under way. */
  lemma Owner(s: State) returns (i: nat)
    requires Inv(s) && s.refresh.Some?
    ensures i < |s.callers| && s.callers[i] == Fetching(s.refresh.value)
  {
    i :| 0 <= i < |s.callers| && s.callers[i] == Fetching(s.refresh.value);
  }

  lemma LockKeeps(s: State, i: nat)
    requires Inv(s) && Enabled(s, Lock(i))
    ensures Inv(Next(s, Lock(i)))
  {
    var t := Next(s, Lock(i));
    forall j | 0 <= j < |t.callers| ensures CallerOk(t, t.callers[j]) { assert CallerOk(s, s.callers[j]); }
    if s.refresh.Some? {
      var o := Owner(s);
      assert t.callers[o] == s.callers[o];
    } else if t.refresh.Some? {
      assert t.callers[i] == Fetching(t.refresh.value);
      forall j | 0 <= j < |s.callers| ensures !s.callers[j].Fetching? { assert CallerOk(s, s.callers[j]); }
    }
  }

  lemma ReleaseKeeps(s: State, step: Step)
    requires Inv(s) && Enabled(s, step) && (step.Fetched? || step.FetchFailed?)
    ensures Inv(Next(s, step))
  {
    var t, i := Next(s, step), step.caller;
    assert CallerOk(s, s.callers[i]);
    forall j | 0 <= j < |t.callers| ensures CallerOk(t, t.callers[j]) {
      assert CallerOk(s, s.callers[j]);
      assert j != i ==> !s.callers[j].Fetching?;
    }
  }

  lemma OtherKeeps(s: State, step: Step)
    requires Inv(s) && Enabled(s, step) && (step.Tick? || step.Wake? || step.GiveUp?)
    ensures Inv(Next(s, step))
  {
    var t := Next(s, step);
    forall j | 0 <= j < |t.callers| ensures CallerOk(t, t.callers[j]) { assert CallerOk(s, s.callers[j]); }
    if s.refresh.Some? {
      var o := Owner(s);
      assert t.callers[o] == s.callers[o];
    }
  }

  lemma StepKeeps(s: State, step: Step)
    requires Inv(s) && Enabled(s, step)
    ensures Inv(Next(s, step))
  {
    match step
    case Lock(i) => LockKeeps(s, i);
    case Fetched(_, _) => ReleaseKeeps(s, step);
    case FetchFailed(_) => ReleaseKeeps(s, step);
    case _ => OtherKeeps(s, step);
  }

  ghost predicate Runs(s: State, steps: seq<Step>)
    decreases |steps|
  {
    steps == [] || (Enabled(s, steps[0]) && Runs(Next(s, steps[0]), steps[1..]))
  }

  ghost function After(s: State, steps: seq<Step>): State
    requires Runs(s, steps)
    decreases |steps|
  {
    if steps == [] then s else After(Next(s, steps[0]), steps[1..])
  }

  lemma {:induction false} RunKeeps(s: State, steps: seq<Step>)
    requires Inv(s) && Runs(s, steps)
    ensures Inv(After(s, steps))
    decreases |steps|
  {
    if steps != [] {
      StepKeeps(s, steps[0]);
      RunKeeps(Next(s, steps[0]), steps[1..]);
    }
  }

  /** In every interleaving at most one request is outstanding, and a refresh is under way exactly while one is, never
      beside a usable token. */
  lemma OneRequest(s: State, steps: seq<Step>)
    requires Init(s) && Runs(s, steps)
    ensures var t := After(s, steps);
            && (forall i, j :: 0 <= i < j < |t.callers| ==> !(t.callers[i].Fetching? && t.callers[j].Fetching?))
            && (t.refresh.Some? <==> exists i :: 0 <= i < |t.callers| && t.callers[i].Fetching?)
            && (t.refresh.Some? ==> !Usable(t))
            && forall i :: 0 <= i < |t.callers| && t.callers[i].GotCached? ==>
                 t.callers[i].at < t.callers[i].token.expires - SKEW
  {
    InitInv(s);
    RunKeeps(s, steps);
    var t := After(s, steps);
    forall i | 0 <= i < |t.callers| ensures CallerOk(t, t.callers[i]) { }
    if t.refresh.Some? { var o := Owner(t); }
  }

  /** No fetch ends during the steps. */
  ghost predicate NoneEnds(steps: seq<Step>) {
    forall i :: 0 <= i < |steps| ==> !steps[i].Fetched? && !steps[i].FetchFailed?
  }

  ghost predicate SomeLocks(steps: seq<Step>) {
    exists i :: 0 <= i < |steps| && steps[i].Lock?
  }

  /** While a refresh is under way and the token unusable, no second one starts. */
  lemma {:induction false} OwnerAlone(s: State, steps: seq<Step>)
    requires !Usable(s) && s.refresh.Some? && Runs(s, steps) && NoneEnds(steps)
    ensures var t := After(s, steps);
            t.token == s.token && t.refresh == s.refresh && t.started == s.started
    decreases |steps|
  {
    if steps != [] {
      assert !steps[0].Fetched? && !steps[0].FetchFailed?;
      OwnerAlone(Next(s, steps[0]), steps[1..]);
    }
  }

  /** Once nobody fetches and the token is unusable, whoever locks first takes over and nobody else does: until a fetch
      ends, exactly one refresh starts if anyone locks at all, and none otherwise. */
  lemma {:induction false} OneTakesOver(s: State, steps: seq<Step>)
    requires !Usable(s) && s.refresh.None? && Runs(s, steps) && NoneEnds(steps)
    ensures var t := After(s, steps);
            && t.token == s.token
            && if SomeLocks(steps) then t.started == s.started + 1 && t.refresh == Some(s.started)
               else t.started == s.started && t.refresh == None
    decreases |steps|
  {
    if steps != [] {
      var step, rest := steps[0], steps[1..];
      assert !step.Fetched? && !step.FetchFailed?;
      if step.Lock? {
        OwnerAlone(Next(s, step), rest);
      } else {
        OneTakesOver(Next(s, step), rest);
        if i :| 0 <= i < |rest| && rest[i].Lock? { assert steps[i + 1].Lock?; }
        if i :| 0 <= i < |steps| && steps[i].Lock? { assert rest[i - 1].Lock?; }
      }
    }
  }

  /** A failed owner leaves the cached token alone. Of all callers, waiters and newcomers, that then lock in whatever
      order, exactly one becomes the next owner, and only it fetches. */
  lemma FailureHandsOver(s: State, owner: nat, steps: seq<Step>)
    requires Inv(s) && Enabled(s, FetchFailed(owner))
    requires Runs(Next(s, FetchFailed(owner)), steps) && NoneEnds(steps)
    ensures var t := After(Next(s, FetchFailed(owner)), steps);
            && t.token == s.token
            && (SomeLocks(steps) <==> exists i :: 0 <= i < |t.callers| && t.callers[i].Fetching?)
            && (forall i, j :: 0 <= i < j < |t.callers| ==> !(t.callers[i].Fetching? && t.callers[j].Fetching?))
            && forall i :: 0 <= i < |t.callers| && t.callers[i].Fetching? ==> t.callers[i] == Fetching(s.started)
  {
    var u := Next(s, FetchFailed(owner));
    assert CallerOk(s, s.callers[owner]);
    StepKeeps(s, FetchFailed(owner));
    OneTakesOver(u, steps);
    RunKeeps(u, steps);
    var t := After(u, steps);
    forall i | 0 <= i < |t.callers|
      ensures t.callers[i].Fetching? ==> t.callers[i] == Fetching(s.started) && SomeLocks(steps)
    {
      assert CallerOk(t, t.callers[i]);
    }
    if SomeLocks(steps) { var o := Owner(t); }
  }

  /** No waiter is lost: its refresh is closed, or the owner of the refresh can still finish it. */
  lemma NoLostWaiter(s: State, i: nat) returns (step: Step)
    requires Inv(s) && i < |s.callers| && s.callers[i].WaitingFor?
    ensures Enabled(s, step)
    ensures step == Wake(i) || (step.FetchFailed? && s.callers[i].refresh in Next(s, step).closed)
    ensures step == Wake(i) ==> Next(s, step).callers[i] == AtLock
  {
    assert CallerOk(s, s.callers[i]);
    if s.callers[i].refresh in s.closed {
      step := Wake(i);
    } else {
      var o := Owner(s);
      step := FetchFailed(o);
    }
  }

  // ---------------------------------------------------------------------------------------
  // What callers are given

  lemma {:induction false} TimeGrows(s: State, steps: seq<Step>)
    requires Runs(s, steps)
    ensures s.now <= After(s, steps).now
    decreases |steps|
  {
    if steps != [] { TimeGrows(Next(s, steps[0]), steps[1..]); }
  }

  lemma NobodyFetches(s: State)
    requires Inv(s) && s.refresh == None
    ensures forall i :: 0 <= i < |s.callers| ==> !s.callers[i].Fetching?
  {
    forall i | 0 <= i < |s.callers| ensures !s.callers[i].Fetching? { assert CallerOk(s, s.callers[i]); }
  }

  /** A usable token stays, and no refresh starts, as long as it is usable. */
  lemma {:induction false} TokenStays(s: State, steps: seq<Step>, t: Token)
    requires Inv(s) && s.token == Some(t) && s.refresh == None && Runs(s, steps)
    requires After(s, steps).now < t.expires - SKEW
    ensures var v := After(s, steps); v.token == Some(t) && v.refresh == None && v.started == s.started
    decreases |steps|
  {
    if steps != [] {
      TimeGrows(s, steps);
      var step := steps[0];
      NobodyFetches(s);
      StepKeeps(s, step);
      TokenStays(Next(s, step), steps[1..], t);
    }
  }

  /** A fetched token is stored and serves everybody: its owner returns it, and so does every caller that takes the
      lock, however much later in the run, before the skew of its expiry; none of them starts a refresh. */
  lemma TokenServes(s: State, owner: nat, t: Token, steps: seq<Step>, j: nat)
    requires Inv(s) && Enabled(s, Fetched(owner, t)) && Runs(Next(s, Fetched(owner, t)), steps)
    requires var v := After(Next(s, Fetched(owner, t)), steps); v.now < t.expires - SKEW && Enabled(v, Lock(j))
    ensures var u := Next(s, Fetched(owner, t));
            var v := After(u, steps);
            && u.callers[owner] == GotFresh(t)
            && Next(v, Lock(j)).callers[j] == GotCached(t, v.now)
            && Next(v, Lock(j)).started == s.started && Next(v, Lock(j)).refresh == None
  {
    StepKeeps(s, Fetched(owner, t));
    TokenStays(Next(s, Fetched(owner, t)), steps, t);
  }

  ghost function FetchedIn(steps: seq<Step>): set<Token> {
    set i | 0 <= i < |steps| && steps[i].Fetched? :: steps[i].token
  }

  /** Cached and returned tokens are among the given ones. */
  ghost predicate Known(s: State, tokens: set<Token>) {
    && (s.token.Some? ==> s.token.value in tokens)
    && forall i :: 0 <= i < |s.callers| ==> KnownTo(s.callers[i], tokens)
  }

  ghost predicate KnownTo(c: Caller, tokens: set<Token>) {
    (c.GotCached? ==> c.token in tokens) && (c.GotFresh? ==> c.token in tokens)
  }

  lemma {:induction false} OnlyFetched(s: State, steps: seq<Step>, tokens: set<Token>)
    requires Known(s, tokens) && Runs(s, steps)
    ensures Known(After(s, steps), tokens + FetchedIn(steps))
    decreases |steps|
  {
    if steps != [] {
      var step, rest := steps[0], steps[1..];
      var more := tokens + if step.Fetched? then {step.token} else {};
      OnlyFetched(Next(s, step), rest, more);
      forall t | t in FetchedIn(rest) ensures t in FetchedIn(steps) {
        var i :| 0 <= i < |rest| && rest[i].Fetched? && rest[i].token == t;
        assert steps[i + 1] == rest[i];
      }
      assert more + FetchedIn(rest) <= tokens + FetchedIn(steps);
    }
  }

  /** Every token a caller is given was the result of some fetch. */
  lemma TokensFetched(s: State, steps: seq<Step>)
    requires Init(s) && Runs(s, steps)
    ensures Known(After(s, steps), FetchedIn(steps))
  {
    OnlyFetched(s, steps, {});
    assert {} + FetchedIn(steps) == FetchedIn(steps);
  }
}
