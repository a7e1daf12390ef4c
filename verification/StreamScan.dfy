/** The scan of one replayable input: windows feed the cache, and findings are placed through it. */
module StreamScan {
  import opened Bytes
  import opened StreamSearch
  import opened StreamCache
  import opened Windows

  /** Findings that wait for their place, with the hint of each. */
  datatype Findings = Findings(raws: seq<Word>, hints: seq<Hint>)

  const NOTHING := Findings([], [])

  ghost predicate FindingsOk(data: Word, through: nat, active: bool, f: Findings) {
    && |f.raws| == |f.hints|
    && forall i :: 0 <= i < |f.raws| ==> IsHint(data, through, f.raws[i], f.hints[i]) && (f.hints[i].HintAt? ==> active)
  }

  lemma FindingsKept(data: Word, through: nat, through': nat, active: bool, active': bool, f: Findings)
    requires FindingsOk(data, through, active, f) && (active ==> active' && through <= through')
    ensures FindingsOk(data, through', active', f)
  {
    forall i | 0 <= i < |f.raws|
      ensures IsHint(data, through', f.raws[i], f.hints[i]) && (f.hints[i].HintAt? ==> active')
    {
      assert IsHint(data, through, f.raws[i], f.hints[i]);
    }
  }

  /** The next raw window may be observed: it touches what was recorded so far. */
  ghost predicate Ready(cache: StreamMatchCache, start: nat)
    reads cache
  {
    cache.Valid() && !(cache.active && cache.disabled) && (cache.active ==> start < cache.through || start == 0)
  }

  /** One reported raw of a window: the candidate is noted and, once observation is on, the window's own
      first occurrence becomes its hint. */
  method EmitResult(cache: StreamMatchCache, window: Word, start: nat, linesBefore: nat, raw: Word) returns (hint: Hint)
    requires Ready(cache, start) && OccursAt(cache.data, window, start) && window != []
    requires linesBefore == Newlines(cache.data[..start])
    modifies cache
    ensures Ready(cache, start) && cache.values == old(cache.values)
    ensures old(cache.active) ==> cache.active && old(cache.through) <= cache.through
    ensures cache.active && !old(cache.active) ==> start + |window| <= cache.through
    ensures IsHint(cache.data, cache.through, raw, hint) && (hint.HintAt? ==> cache.active)
  {
    hint := NoHint;
    if raw == [] { return; }
    var failed := cache.ObserveRawCandidate(window, start, raw);
    if failed || !cache.active || (|raw| <= BATCH_MAX_RAW && cache.PrefixListFull(raw)) { return; }
    var idx := Index(window, raw);
    if idx >= 0 {
      HintInWindow(cache.data, window, start, raw, idx);
      hint := HintAt(start + idx, linesBefore + Newlines(window[..idx]));
    }
  }

  lemma HintInWindow(data: Word, window: Word, start: nat, raw: Word, idx: nat)
    requires OccursAt(data, window, start) && OccursAt(window, raw, idx)
    ensures OccursAt(data, raw, start + idx) && start + idx + |raw| <= start + |window|
    ensures Newlines(data[..start + idx]) == Newlines(data[..start]) + Newlines(window[..idx])
  {
    OccursInWindow(data, start, start + |window|, raw, idx);
    WindowNewlines(data, start, |window|, idx);
  }

  ghost predicate AllIn(raws: seq<Word>, values: Values) {
    forall i :: 0 <= i < |raws| && raws[i] != [] ==> raws[i] in values
  }

  /** Places the waiting findings. */
  method Flush(cache: StreamMatchCache, f: Findings) returns (failed: bool)
    requires cache.Valid() && FindingsOk(cache.data, cache.through, cache.active, f)
    modifies cache`values, cache`indexes, cache`overBudget, cache`positions, cache`sampleBytes, cache`groupCounts
    ensures cache.Valid() && Extends(old(cache.values), cache.values)
    ensures !failed ==> AllIn(f.raws, cache.values)
    ensures !cache.faults ==> !failed
  {
    failed := cache.Resolve(f.raws, f.hints);
  }

  /** Each nonempty raw is placed or waits. */
  ghost predicate Accounted(values: Values, f: Findings, raws: seq<Word>) {
    forall raw :: raw in raws && raw != [] ==> raw in values || raw in f.raws
  }

  lemma AccountedKept(values: Values, values': Values, f: Findings, f': Findings, raws: seq<Word>)
    requires Accounted(values, f, raws) && Extends(values, values') && Accounted(values', f', f.raws)
    ensures Accounted(values', f', raws)
  {
  }

  /** Detectors report some raws for one window; flushes happen at any time. */
  method ScanWindow(cache: StreamMatchCache, window: Word, start: nat, linesBefore: nat, f: Findings,
                    reported: seq<Word>)
    returns (f': Findings)
    requires Ready(cache, start) && OccursAt(cache.data, window, start) && window != []
    requires linesBefore == Newlines(cache.data[..start])
    requires cache.active ==> start + |window| <= cache.through
    requires FindingsOk(cache.data, cache.through, cache.active, f)
    modifies cache
    ensures cache.Valid() && !(cache.active && cache.disabled) && Extends(old(cache.values), cache.values)
    ensures cache.active ==> start + |window| <= cache.through
    ensures FindingsOk(cache.data, cache.through, cache.active, f')
    ensures !cache.faults ==> Accounted(cache.values, f', f.raws) && Accounted(cache.values, f', reported)
  {
    f' := f;
    for i := 0 to |reported|
      invariant Ready(cache, start) && (cache.active ==> start + |window| <= cache.through)
      invariant Extends(old(cache.values), cache.values) && FindingsOk(cache.data, cache.through, cache.active, f')
      invariant !cache.faults ==> Accounted(cache.values, f', f.raws) && Accounted(cache.values, f', reported[..i])
    {
      ghost var values, waiting := cache.values, f';
      f' := ScanReported(cache, window, start, linesBefore, f', reported[i]);
      ExtendsChain(old(cache.values), values, cache.values);
      assert reported[..i + 1] == reported[..i] + [reported[i]];
    }
    assert reported[..|reported|] == reported;
  }

  /** One reported raw, after which everything that waits may be placed. */
  method ScanReported(cache: StreamMatchCache, window: Word, start: nat, linesBefore: nat, f: Findings, raw: Word)
    returns (f': Findings)
    requires Ready(cache, start) && OccursAt(cache.data, window, start) && window != []
    requires linesBefore == Newlines(cache.data[..start])
    requires cache.active ==> start + |window| <= cache.through
    requires FindingsOk(cache.data, cache.through, cache.active, f)
    modifies cache
    ensures Ready(cache, start) && Extends(old(cache.values), cache.values)
    ensures cache.active ==> start + |window| <= cache.through
    ensures FindingsOk(cache.data, cache.through, cache.active, f')
    ensures !cache.faults ==> Accounted(cache.values, f', f.raws + [raw])
  {
    ghost var through, active := cache.through, cache.active;
    var hint := EmitResult(cache, window, start, linesBefore, raw);
    FindingsKept(cache.data, through, cache.through, active, cache.active, f);
    f' := Findings(f.raws + [raw], f.hints + [hint]);
    var flushing: bool := *;
    if flushing {
      var failed := Flush(cache, f');
      f' := NOTHING;
      assert !failed ==> forall r :: r in f.raws + [raw] && r != [] ==> r in cache.values;
    }
  }

  /** Findings without hints, as full-chunk detectors report them. */
  ghost predicate HintFree(f: Findings) {
    |f.raws| == |f.hints| && forall i :: 0 <= i < |f.hints| ==> f.hints[i].NoHint?
  }

  /** An input of that size has a window `k` steps from its start. */
  predicate HasWindow(size: nat, k: nat) {
    (k == 0 && size > 0) || k * STEP + OVERLAP < size
  }

  /** Everything reported for the first `n` windows is placed or waits. */
  ghost predicate AllAccounted(values: Values, f: Findings, reports: nat -> seq<Word>, n: nat) {
    forall k: nat :: k < n ==> Accounted(values, f, reports(k))
  }

  lemma AllKept(values: Values, values': Values, f: Findings, f': Findings, reports: nat -> seq<Word>, n: nat)
    requires AllAccounted(values, f, reports, n) && Extends(values, values') && Accounted(values', f', f.raws)
    requires Accounted(values', f', reports(n))
    ensures AllAccounted(values', f', reports, n + 1)
  {
    forall k: nat | k < n + 1 ensures Accounted(values', f', reports(k)) {
      if k < n { AccountedKept(values, values', f, f', reports(k)); }
    }
  }

  lemma WindowDone(values: Values, values': Values, f: Findings, f': Findings, waiting: Findings,
                   reports: nat -> seq<Word>, k: nat)
    requires AllAccounted(values, f, reports, k) && Accounted(values, f, waiting.raws) && Extends(values, values')
    requires Accounted(values', f', f.raws) && Accounted(values', f', reports(k))
    ensures AllAccounted(values', f', reports, k + 1) && Accounted(values', f', waiting.raws)
  {
    AllKept(values, values', f, f', reports, k);
    AccountedKept(values, values', f, f', waiting.raws);
  }

  lemma LastWindow(size: nat, k: nat)
    requires size <= k * STEP + MAX_WINDOW
    ensures forall j: nat :: HasWindow(size, j) ==> j < k + 1
  {
  }

  /** The raw variant: every window in order, observed once observation is on, with the findings of the
      full-chunk detectors already waiting. Whatever the detectors report, the overlap and hint obligations of
      the cache are met; and where nothing fails, everything they report is placed or waits. */
  method ScanRawVariant(cache: StreamMatchCache, waiting: Findings, reports: nat -> seq<Word>) returns (f: Findings)
    requires cache.Valid() && !(cache.active && cache.disabled) && !cache.active
    requires HintFree(waiting)
    modifies cache
    ensures cache.Valid() && Extends(old(cache.values), cache.values)
    ensures FindingsOk(cache.data, cache.through, cache.active, f)
    ensures !cache.faults ==> Accounted(cache.values, f, waiting.raws)
    ensures !cache.faults ==> forall k: nat :: HasWindow(|cache.data|, k) ==> Accounted(cache.values, f, reports(k))
  {
    f := waiting;
    var size := |cache.data|;
    var start, linesBefore, k: nat := 0, 0, 0;
    while start < size
      invariant start <= size && linesBefore == Newlines(cache.data[..start]) && Ready(cache, start)
      invariant Extends(old(cache.values), cache.values) && FindingsOk(cache.data, cache.through, cache.active, f)
      invariant start == k * STEP && (!cache.faults ==> AllAccounted(cache.values, f, reports, k))
      invariant !cache.faults ==> Accounted(cache.values, f, waiting.raws)
      invariant start == 0 || start + OVERLAP < size
    {
      var stopped := Fails(cache.faults);
      if stopped { return; }
      var windowSize := if size - start < MAX_WINDOW then size - start else MAX_WINDOW;
      ghost var values, before := cache.values, f;
      var window;
      f, window, stopped := ScanOne(cache, start, windowSize, linesBefore, f, reports(k));
      ExtendsChain(old(cache.values), values, cache.values);
      if stopped { return; }
      if !cache.faults { WindowDone(values, cache.values, before, f, waiting, reports, k); }
      if start + windowSize == size {
        LastWindow(size, k);
        return;
      }
      WindowNewlines(cache.data, start, windowSize, STEP);
      linesBefore := linesBefore + Newlines(window[..STEP]);
      start, k := start + STEP, k + 1;
    }
  }

  /** One window: read, observed and given to the detectors. */
  method ScanOne(cache: StreamMatchCache, start: nat, windowSize: nat, linesBefore: nat, f: Findings,
                 reported: seq<Word>)
    returns (f': Findings, window: Word, failed: bool)
    requires Ready(cache, start) && 0 < windowSize && start + windowSize <= |cache.data|
    requires linesBefore == Newlines(cache.data[..start]) && FindingsOk(cache.data, cache.through, cache.active, f)
    modifies cache
    ensures cache.Valid() && !(cache.active && cache.disabled) && Extends(old(cache.values), cache.values)
    ensures !failed ==> window == cache.data[start..start + windowSize]
    ensures !failed ==> (cache.active ==> start + windowSize <= cache.through)
    ensures FindingsOk(cache.data, cache.through, cache.active, f')
    ensures !cache.faults ==> !failed && Accounted(cache.values, f', f.raws) && Accounted(cache.values, f', reported)
  {
    f', window, failed := f, [], false;
    var read := ReadAt(cache.data, start, windowSize, cache.faults);
    if read.None? { return f, [], true; }
    window := read.value;
    ghost var through := cache.through;
    if cache.active { cache.ObserveRawWindow(window, start); }
    FindingsKept(cache.data, through, cache.through, cache.active, cache.active, f);
    f' := ScanWindow(cache, window, start, linesBefore, f, reported);
  }

  /** A whole scan: the findings of full-chunk detectors and of every window of the raw variant, then batches and single
      lookups of raws from decoded variants, which carry no hints. Every value ever given is the true one, and where
      nothing fails every reported raw is given one. */
  method ScanInput(data: Word, whole: seq<Word>, reports: nat -> seq<Word>, batches: seq<seq<Word>>, faults: bool)
    returns (values: Values)
    ensures AllRight(data, values)
    ensures !faults ==> AllIn(whole, values)
    ensures !faults ==> forall k: nat :: HasWindow(|data|, k) ==> AllIn(reports(k), values)
    ensures !faults ==> forall i :: 0 <= i < |batches| ==> AllIn(batches[i], values)
  {
    var cache := new StreamMatchCache(data, faults);
    var f := ScanRawVariant(cache, Findings(whole, seq(|whole|, _ => NoHint)), reports);
    ghost var before := cache.values;
    var failed := Flush(cache, f);
    ghost var placed := cache.values;
    if !faults {
      NowPlaced(before, f, whole, placed);
      forall k: nat | HasWindow(|data|, k) ensures AllIn(reports(k), placed) {
        NowPlaced(before, f, reports(k), placed);
      }
    }
    for i := 0 to |batches|
      invariant cache.Valid() && cache.data == data && cache.faults == faults && Extends(placed, cache.values)
      invariant !faults ==> forall j :: 0 <= j < i ==> AllIn(batches[j], cache.values)
    {
      ghost var earlier := cache.values;
      PlaceBatch(cache, batches[i]);
      ExtendsChain(placed, earlier, cache.values);
      forall j | 0 <= j < i && !faults ensures AllIn(batches[j], cache.values) {
        StaysIn(batches[j], earlier, cache.values);
      }
    }
    values := cache.values;
    StaysIn(whole, placed, values);
    forall k: nat | HasWindow(|data|, k) && !faults ensures AllIn(reports(k), values) {
      StaysIn(reports(k), placed, values);
    }
  }

  lemma NowPlaced(values: Values, f: Findings, raws: seq<Word>, values': Values)
    requires Accounted(values, f, raws) && Extends(values, values') && AllIn(f.raws, values')
    ensures AllIn(raws, values')
  {
    forall i | 0 <= i < |raws| && raws[i] != [] ensures raws[i] in values' {
      assert raws[i] in raws;
    }
  }

  lemma StaysIn(raws: seq<Word>, values: Values, values': Values)
    requires Extends(values, values')
    ensures AllIn(raws, values) ==> AllIn(raws, values')
  {
  }

  /** The raws of one decoded variant: a single lookup or a batch. */
  method PlaceBatch(cache: StreamMatchCache, raws: seq<Word>)
    requires cache.Valid()
    modifies cache
    ensures cache.Valid() && Extends(old(cache.values), cache.values)
    ensures !cache.faults ==> AllIn(raws, cache.values)
  {
    if |raws| == 1 {
      var m, failed := cache.Match(raws[0], NoHint);
    } else {
      var failed := cache.Resolve(raws, []);
    }
  }

  /** Two scans of the same input agree on every raw both have placed, whatever routes they took. */
  lemma AnswersAgree(data: Word, a: Values, b: Values, raw: Word)
    requires AllRight(data, a) && AllRight(data, b) && raw in a && raw in b
    ensures a[raw] == b[raw]
  {
    MatchUnique(data, raw, a[raw], b[raw]);
  }
}
