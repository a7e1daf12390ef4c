/** The keyword prefilter and the dispatcher: from matcher hits to the slices detectors run on. */
module Dispatch {
  import opened Bytes
  import opened AcSpec
  import opened AcMatcher
  import opened Windows

  // ---------------------------------------------------------------------------------------
  // The prefilter

  /** Detector `di` lists a keyword whose lower case is `pattern`. */
  ghost predicate Lists(keywords: seq<seq<Word>>, di: nat, pattern: Word) {
    di < |keywords| && exists k :: 0 <= k < |keywords[di]| && keywords[di][k] != [] && Lower(keywords[di][k]) == pattern
  }

  /** The pairs of detector and lower-cased keyword of the detectors before `n`, and of the first `m` keywords of
      detector `n`. */
  ghost function Listed(keywords: seq<seq<Word>>, n: nat, m: nat): set<(nat, Word)>
    requires n <= |keywords| && m <= (if n < |keywords| then |keywords[n]| else 0)
    decreases n, m
  {
    if m > 0 then
      var k := keywords[n][m - 1];
      Listed(keywords, n, m - 1) + (if k == [] then {} else {(n, Lower(k))})
    else if n > 0 then Listed(keywords, n - 1, |keywords[n - 1]|)
    else {}
  }

  lemma {:induction false} ListedExact(keywords: seq<seq<Word>>, n: nat, m: nat, di: nat, pattern: Word)
    requires n <= |keywords| && m <= (if n < |keywords| then |keywords[n]| else 0)
    ensures (di, pattern) in Listed(keywords, n, m) <==>
            if di == n then exists k :: 0 <= k < m && keywords[n][k] != [] && Lower(keywords[n][k]) == pattern
            else di < n && Lists(keywords, di, pattern)
    decreases n, m
  {
    if m > 0 {
      ListedExact(keywords, n, m - 1, di, pattern);
    } else if n > 0 {
      ListedExact(keywords, n - 1, |keywords[n - 1]|, di, pattern);
    }
  }

  /** Patterns are distinct and nonempty, each knows its detectors, and none is missing. */
  ghost predicate PrefilterOf(listed: set<(nat, Word)>, patterns: seq<Word>, owners: seq<seq<nat>>) {
    && |owners| == |patterns| && Distinct(patterns)
    && (forall id :: 0 <= id < |patterns| ==> patterns[id] != [])
    && (forall id, di :: 0 <= id < |patterns| ==> (di in owners[id] <==> (di, patterns[id]) in listed))
    && (forall di, pattern :: (di, pattern) in listed ==> pattern in patterns)
  }

  /** Adds one keyword of detector `di`. */
  method AddKeyword(patterns: seq<Word>, owners: seq<seq<nat>>, pattern: Word, di: nat, ghost listed: set<(nat, Word)>)
    returns (patterns': seq<Word>, owners': seq<seq<nat>>)
    requires PrefilterOf(listed, patterns, owners) && pattern != []
    ensures PrefilterOf(listed + {(di, pattern)}, patterns', owners')
  {
    var id := 0;
    while id < |patterns| && patterns[id] != pattern
      invariant 0 <= id <= |patterns| && forall j :: 0 <= j < id ==> patterns[j] != pattern
    {
      id := id + 1;
    }
    if id == |patterns| {
      patterns', owners' := patterns + [pattern], owners + [[di]];
      assert pattern !in patterns;
    } else {
      patterns', owners' := patterns, owners[id := owners[id] + [di]];
    }
  }

  /** Collects the patterns and the detectors that list them. */
  method BuildPrefilter(keywords: seq<seq<Word>>) returns (patterns: seq<Word>, owners: seq<seq<nat>>)
    ensures PrefilterOf(Listed(keywords, |keywords|, 0), patterns, owners)
  {
    patterns, owners := [], [];
    for di := 0 to |keywords|
      invariant PrefilterOf(Listed(keywords, di, 0), patterns, owners)
    {
      for k := 0 to |keywords[di]|
        invariant PrefilterOf(Listed(keywords, di, k), patterns, owners)
      {
        if keywords[di][k] != [] {
          var lower := LowerCase(keywords[di][k]);
          patterns, owners := AddKeyword(patterns, owners, lower, di, Listed(keywords, di, k));
        }
      }
    }
  }

  /** A detector owns a pattern exactly when it lists a keyword with that lower case, and every nonempty keyword has a
      pattern. */
  lemma PrefilterExact(keywords: seq<seq<Word>>, patterns: seq<Word>, owners: seq<seq<nat>>)
    requires PrefilterOf(Listed(keywords, |keywords|, 0), patterns, owners)
    ensures forall id, di :: 0 <= id < |patterns| ==> (di in owners[id] <==> Lists(keywords, di, patterns[id]))
    ensures forall di, pattern :: Lists(keywords, di, pattern) ==> pattern in patterns
  {
    forall id, di | 0 <= id < |patterns| ensures di in owners[id] <==> Lists(keywords, di, patterns[id]) {
      ListedExact(keywords, |keywords|, 0, di, patterns[id]);
    }
    forall di, pattern | Lists(keywords, di, pattern) ensures pattern in patterns {
      ListedExact(keywords, |keywords|, 0, di, pattern);
    }
  }

  // ---------------------------------------------------------------------------------------
  // Events: one per hit and detector that owns it

  datatype Event = Event(detector: nat, end: nat)

  ghost function EventsAt(owners: seq<nat>, end: nat): seq<Event> {
    if owners == [] then [] else EventsAt(owners[..|owners| - 1], end) + [Event(owners[|owners| - 1], end)]
  }

  ghost predicate Owned(hits: seq<Hit>, owners: seq<seq<nat>>) {
    forall i :: 0 <= i < |hits| ==> hits[i].id < |owners|
  }

  ghost function Events(hits: seq<Hit>, owners: seq<seq<nat>>): seq<Event>
    requires Owned(hits, owners)
  {
    if hits == [] then []
    else
      var h := hits[|hits| - 1];
      Events(hits[..|hits| - 1], owners) + EventsAt(owners[h.id], h.end)
  }

  /** The hit ends a detector is called for. */
  ghost function EndsOf(events: seq<Event>, di: nat): seq<nat> {
    if events == [] then []
    else
      var last := events[|events| - 1];
      EndsOf(events[..|events| - 1], di) + (if last.detector == di then [last.end] else [])
  }

  lemma {:induction false} EventsAtMembers(owners: seq<nat>, end: nat, ev: Event)
    ensures ev in EventsAt(owners, end) <==> ev.detector in owners && ev.end == end
  {
    if owners != [] {
      EventsAtMembers(owners[..|owners| - 1], end, ev);
      assert owners == owners[..|owners| - 1] + [owners[|owners| - 1]];
    }
  }

  ghost predicate FromHit(hits: seq<Hit>, owners: seq<seq<nat>>, ev: Event)
    requires Owned(hits, owners)
  {
    exists i :: 0 <= i < |hits| && hits[i].end == ev.end && ev.detector in owners[hits[i].id]
  }

  lemma {:induction false} EventsMembers(hits: seq<Hit>, owners: seq<seq<nat>>, ev: Event)
    requires Owned(hits, owners)
    ensures ev in Events(hits, owners) <==> FromHit(hits, owners, ev)
  {
    if hits != [] {
      var front, h := hits[..|hits| - 1], hits[|hits| - 1];
      EventsMembers(front, owners, ev);
      EventsAtMembers(owners[h.id], h.end, ev);
      FromHitSplit(hits, owners, ev);
    }
  }

  lemma FromHitSplit(hits: seq<Hit>, owners: seq<seq<nat>>, ev: Event)
    requires hits != [] && Owned(hits, owners)
    ensures var front, h := hits[..|hits| - 1], hits[|hits| - 1];
            FromHit(hits, owners, ev) <==>
              FromHit(front, owners, ev) || (h.end == ev.end && ev.detector in owners[h.id])
  {
    var front := hits[..|hits| - 1];
    assert forall i :: 0 <= i < |front| ==> front[i] == hits[i];
    if i :| 0 <= i < |front| && front[i].end == ev.end && ev.detector in owners[front[i].id] {
      assert hits[i] == front[i];
    }
  }

  ghost predicate EndsAscend(events: seq<Event>) {
    forall i, j :: 0 <= i < j < |events| ==> events[i].end <= events[j].end
  }

  ghost predicate EndsBelow(events: seq<Event>, n: nat) {
    forall i :: 0 <= i < |events| ==> events[i].end < n
  }

  lemma EventsAscend(hits: seq<Hit>, owners: seq<seq<nat>>)
    requires Owned(hits, owners) && forall i, j :: 0 <= i < j < |hits| ==> hits[i].end <= hits[j].end
    ensures EndsAscend(Events(hits, owners))
  {
    if hits != [] {
      var front, h := hits[..|hits| - 1], hits[|hits| - 1];
      EventsAscend(front, owners);
      var a, b := Events(front, owners), EventsAt(owners[h.id], h.end);
      forall ev | ev in a ensures ev.end <= h.end {
        EventsMembers(front, owners, ev);
      }
      forall ev | ev in b ensures ev.end == h.end {
        EventsAtMembers(owners[h.id], h.end, ev);
      }
      assert forall i :: 0 <= i < |a| ==> a[i] in a;
      assert forall i :: 0 <= i < |b| ==> b[i] in b;
    }
  }

  lemma {:induction false} EndsOfMembers(events: seq<Event>, di: nat, e: nat)
    ensures e in EndsOf(events, di) <==> Event(di, e) in events
  {
    if events != [] {
      EndsOfMembers(events[..|events| - 1], di, e);
      assert events == events[..|events| - 1] + [events[|events| - 1]];
    }
  }

  lemma {:induction false} EndsOfOrdered(events: seq<Event>, di: nat, n: nat)
    requires EndsAscend(events) && EndsBelow(events, n)
    ensures Ordered(EndsOf(events, di), n)
  {
    if events != [] {
      var front := events[..|events| - 1];
      EndsOfOrdered(front, di, n);
      forall e | e in EndsOf(front, di) ensures e <= events[|events| - 1].end {
        EndsOfMembers(front, di, e);
      }
      assert forall i :: 0 <= i < |EndsOf(front, di)| ==> EndsOf(front, di)[i] in EndsOf(front, di);
    }
  }

  // ---------------------------------------------------------------------------------------
  // Dispatching one window

  function SpansFor(dets: map<nat, seq<Span>>, di: nat): seq<Span> {
    if di in dets then dets[di] else []
  }

  predicate Dispatched(full: seq<bool>, di: nat) {
    di < |full| && !full[di]
  }

  /** Each detector's spans are the merged vicinities of its events. */
  ghost predicate DetsOk(dets: map<nat, seq<Span>>, events: seq<Event>, full: seq<bool>, n: nat) {
    forall di: nat :: SpansFor(dets, di) == if Dispatched(full, di) then Spans(EndsOf(events, di), n) else []
  }

  /** One event: its detector, unless it wants the full chunk, gains a vicinity. */
  function AddEvent(dets: map<nat, seq<Span>>, full: seq<bool>, n: nat, ev: Event): map<nat, seq<Span>> {
    if Dispatched(full, ev.detector) then dets[ev.detector := AddSpan(SpansFor(dets, ev.detector), Vicinity(ev.end, n))]
    else dets
  }

  lemma EventAdded(dets: map<nat, seq<Span>>, events: seq<Event>, full: seq<bool>, n: nat, ev: Event)
    requires DetsOk(dets, events, full, n)
    ensures DetsOk(AddEvent(dets, full, n, ev), events + [ev], full, n)
  {
    var dets' := AddEvent(dets, full, n, ev);
    forall di: nat
      ensures SpansFor(dets', di) == if Dispatched(full, di) then Spans(EndsOf(events + [ev], di), n) else []
    {
      assert SpansFor(dets, di) == if Dispatched(full, di) then Spans(EndsOf(events, di), n) else [];
      EndsOfNext(events, ev, di);
      SpansNext(EndsOf(events, di), ev.end, n);
    }
  }

  lemma EndsOfNext(events: seq<Event>, ev: Event, di: nat)
    ensures EndsOf(events + [ev], di) == if ev.detector == di then EndsOf(events, di) + [ev.end] else EndsOf(events, di)
  {
    assert (events + [ev])[..|events|] == events;
  }

  lemma SpansNext(ends: seq<nat>, e: nat, n: nat)
    ensures Spans(ends + [e], n) == AddSpan(Spans(ends, n), Vicinity(e, n))
  {
    assert (ends + [e])[..|ends|] == ends;
  }

  /** One hit: every detector that owns the pattern gains a vicinity. */
  method AddHit(dets: map<nat, seq<Span>>, owners: seq<nat>, end: nat, full: seq<bool>, n: nat,
                ghost events: seq<Event>)
    returns (dets': map<nat, seq<Span>>)
    requires DetsOk(dets, events, full, n)
    ensures DetsOk(dets', events + EventsAt(owners, end), full, n)
  {
    dets' := dets;
    ghost var all := events;
    for t := 0 to |owners|
      invariant all == events + EventsAt(owners[..t], end) && DetsOk(dets', all, full, n)
    {
      var ev := Event(owners[t], end);
      EventsAtNext(owners, t, end);
      ConcatAssoc(events, EventsAt(owners[..t], end), [ev]);
      EventAdded(dets', all, full, n, ev);
      all := all + [ev];
      dets' := AddEvent(dets', full, n, ev);
    }
    assert owners[..|owners|] == owners;
  }

  lemma EventsAtNext(owners: seq<nat>, t: nat, end: nat)
    requires t < |owners|
    ensures EventsAt(owners[..t + 1], end) == EventsAt(owners[..t], end) + [Event(owners[t], end)]
  {
    assert owners[..t + 1][..t] == owners[..t];
  }

  method CollectSpans(hits: seq<Hit>, owners: seq<seq<nat>>, full: seq<bool>, n: nat)
    returns (dets: map<nat, seq<Span>>)
    requires Owned(hits, owners)
    ensures DetsOk(dets, Events(hits, owners), full, n)
  {
    dets := map[];
    for i := 0 to |hits|
      invariant DetsOk(dets, Events(hits[..i], owners), full, n)
    {
      assert hits[..i + 1][..i] == hits[..i];
      dets := AddHit(dets, owners[hits[i].id], hits[i].end, full, n, Events(hits[..i], owners));
    }
    assert hits[..|hits|] == hits;
  }

  /** One detector call on one slice of the window. */
  datatype Run = Run(detector: nat, span: Span)

  /** The detector owns a keyword whose occurrence ends within the radius of `x`. */
  ghost predicate NearKeyword(patterns: seq<Word>, owners: seq<seq<nat>>, lower: Word, di: nat, x: nat) {
    exists h :: IsHit(patterns, lower, h) && h.id < |owners| && di in owners[h.id]
      && h.end - RADIUS <= x <= h.end + RADIUS
  }

  ghost predicate RunCovers(runs: seq<Run>, di: nat, x: nat) {
    exists i :: 0 <= i < |runs| && runs[i].detector == di && Covers(runs[i].span, x)
  }

  /** Runs follow detector order; runs of one detector are separated slices of the window. */
  ghost predicate RunsOrdered(runs: seq<Run>, full: seq<bool>, n: nat) {
    && (forall i :: 0 <= i < |runs| ==>
        Dispatched(full, runs[i].detector) && runs[i].span.start < runs[i].span.end <= n)
    && forall i, j :: 0 <= i < j < |runs| ==>
         runs[i].detector < runs[j].detector
           || (runs[i].detector == runs[j].detector && runs[i].span.end < runs[j].span.start)
  }

  function RunsOf(di: nat, spans: seq<Span>): seq<Run> {
    seq(|spans|, i requires 0 <= i < |spans| => Run(di, spans[i]))
  }

  /** The runs so far cover what the spans of detectors before `d` cover. */
  ghost predicate RunsTo(runs: seq<Run>, dets: map<nat, seq<Span>>, d: nat) {
    forall di: nat, x: nat :: RunCovers(runs, di, x) <==> di < d && Covered(SpansFor(dets, di), x)
  }

  lemma RunsNext(runs: seq<Run>, dets: map<nat, seq<Span>>, d: nat)
    requires RunsTo(runs, dets, d)
    ensures RunsTo(runs + RunsOf(d, SpansFor(dets, d)), dets, d + 1)
  {
    forall di: nat, x: nat
      ensures RunCovers(runs + RunsOf(d, SpansFor(dets, d)), di, x) <==> di < d + 1 && Covered(SpansFor(dets, di), x)
    {
      RunsJoined(runs, d, SpansFor(dets, d), di, x);
      assert RunCovers(runs, di, x) <==> di < d && Covered(SpansFor(dets, di), x);
    }
  }

  lemma OrderedNext(runs: seq<Run>, full: seq<bool>, n: nat, d: nat, spans: seq<Span>)
    requires RunsOrdered(runs, full, n) && forall i :: 0 <= i < |runs| ==> runs[i].detector < d
    requires Separated(spans, n) && (Dispatched(full, d) || spans == [])
    ensures RunsOrdered(runs + RunsOf(d, spans), full, n)
    ensures forall i :: 0 <= i < |runs + RunsOf(d, spans)| ==> (runs + RunsOf(d, spans))[i].detector < d + 1
  {
  }

  /** Flattens the spans by ascending detector. */
  method RunAll(dets: map<nat, seq<Span>>, full: seq<bool>, n: nat) returns (runs: seq<Run>)
    requires forall di: nat :: Separated(SpansFor(dets, di), n) && (Dispatched(full, di) || SpansFor(dets, di) == [])
    ensures RunsOrdered(runs, full, n) && RunsTo(runs, dets, |full|)
  {
    runs := [];
    for d := 0 to |full|
      invariant RunsOrdered(runs, full, n) && RunsTo(runs, dets, d)
      invariant forall i :: 0 <= i < |runs| ==> runs[i].detector < d
    {
      RunsNext(runs, dets, d);
      OrderedNext(runs, full, n, d, SpansFor(dets, d));
      runs := runs + RunsOf(d, SpansFor(dets, d));
    }
  }

  lemma RunsJoined(runs: seq<Run>, d: nat, spans: seq<Span>, di: nat, x: nat)
    ensures RunCovers(runs + RunsOf(d, spans), di, x) <==> RunCovers(runs, di, x) || (di == d && Covered(spans, x))
  {
    var all := runs + RunsOf(d, spans);
    if i :| 0 <= i < |runs| && runs[i].detector == di && Covers(runs[i].span, x) { assert all[i] == runs[i]; }
    if i :| 0 <= i < |spans| && Covers(spans[i], x) { assert all[|runs| + i] == Run(d, spans[i]); }
  }

  lemma HitListed(patterns: seq<Word>, lower: Word, h: Hit)
    ensures h in AllHits(patterns, lower) <==> IsHit(patterns, lower, h)
  {
    AllHitsExact(patterns, lower);
  }

  lemma HitsOwned(patterns: seq<Word>, owners: seq<seq<nat>>, lower: Word)
    requires |owners| == |patterns|
    ensures Owned(AllHits(patterns, lower), owners)
    ensures forall i, j :: 0 <= i < j < |AllHits(patterns, lower)| ==>
              AllHits(patterns, lower)[i].end <= AllHits(patterns, lower)[j].end
    ensures forall i :: 0 <= i < |AllHits(patterns, lower)| ==> AllHits(patterns, lower)[i].end < |lower|
  {
    AllHitsExact(patterns, lower);
    var hits := AllHits(patterns, lower);
    assert forall i :: 0 <= i < |hits| ==> hits[i] in hits;
  }

  lemma {:induction false} EventsInside(hits: seq<Hit>, owners: seq<seq<nat>>, n: nat)
    requires Owned(hits, owners) && forall i :: 0 <= i < |hits| ==> hits[i].end < n
    ensures EndsBelow(Events(hits, owners), n)
  {
    if hits != [] {
      var h := hits[|hits| - 1];
      EventsInside(hits[..|hits| - 1], owners, n);
      var here := EventsAt(owners[h.id], h.end);
      forall i | 0 <= i < |here| ensures here[i].end < n {
        assert here[i] in here;
        EventsAtMembers(owners[h.id], h.end, here[i]);
      }
    }
  }

  /** An occurrence of a keyword that the detector lists ends at `e`. */
  ghost predicate IsCallEnd(patterns: seq<Word>, owners: seq<seq<nat>>, lower: Word, di: nat, e: nat) {
    exists h :: IsHit(patterns, lower, h) && h.end == e && h.id < |owners| && di in owners[h.id]
  }

  /** The collected ends of a detector are those, in order. */
  lemma CallEndsExact(patterns: seq<Word>, owners: seq<seq<nat>>, lower: Word, di: nat, e: nat)
    requires |owners| == |patterns| && Owned(AllHits(patterns, lower), owners)
    ensures e in EndsOf(Events(AllHits(patterns, lower), owners), di) <==> IsCallEnd(patterns, owners, lower, di, e)
  {
    var hits := AllHits(patterns, lower);
    EndsOfMembers(Events(hits, owners), di, e);
    EventsMembers(hits, owners, Event(di, e));
    if t :| 0 <= t < |hits| && hits[t].end == e && di in owners[hits[t].id] {
      assert hits[t] in hits;
      HitListed(patterns, lower, hits[t]);
    }
    if h :| IsHit(patterns, lower, h) && h.end == e && h.id < |owners| && di in owners[h.id] {
      HitListed(patterns, lower, h);
      var t :| 0 <= t < |hits| && hits[t] == h;
      assert FromHit(hits, owners, Event(di, e));
    }
  }

  lemma CallEndsOrdered(patterns: seq<Word>, owners: seq<seq<nat>>, lower: Word, di: nat)
    requires |owners| == |patterns| && Owned(AllHits(patterns, lower), owners)
    ensures Ordered(EndsOf(Events(AllHits(patterns, lower), owners), di), |lower|)
  {
    HitsOwned(patterns, owners, lower);
    EventsAscend(AllHits(patterns, lower), owners);
    EventsInside(AllHits(patterns, lower), owners, |lower|);
    EndsOfOrdered(Events(AllHits(patterns, lower), owners), di, |lower|);
  }

  /** Vicinities of call ends cover exactly the positions near a keyword. */
  lemma VicinityNear(patterns: seq<Word>, owners: seq<seq<nat>>, lower: Word, di: nat, ends: seq<nat>, x: nat)
    requires forall e: nat :: e in ends <==> IsCallEnd(patterns, owners, lower, di, e)
    ensures InVicinity(ends, |lower|, x) <==> x < |lower| && NearKeyword(patterns, owners, lower, di, x)
  {
    if i :| 0 <= i < |ends| && Covers(Vicinity(ends[i], |lower|), x) {
      assert ends[i] in ends;
      assert IsCallEnd(patterns, owners, lower, di, ends[i]);
    }
    if h :| IsHit(patterns, lower, h) && h.id < |owners| && di in owners[h.id]
            && h.end - RADIUS <= x <= h.end + RADIUS {
      assert IsCallEnd(patterns, owners, lower, di, h.end);
      var i :| 0 <= i < |ends| && ends[i] == h.end;
      assert x < |lower| ==> Covers(Vicinity(ends[i], |lower|), x);
    }
  }

  /** The spans of one detector are separated and cover exactly the surroundings of its keyword occurrences. */
  lemma SpansNearKeywords(patterns: seq<Word>, owners: seq<seq<nat>>, lower: Word, di: nat, spans: seq<Span>)
    requires |owners| == |patterns| && Owned(AllHits(patterns, lower), owners)
    requires spans == Spans(EndsOf(Events(AllHits(patterns, lower), owners), di), |lower|)
    ensures Separated(spans, |lower|)
    ensures forall x: nat :: Covered(spans, x) <==> x < |lower| && NearKeyword(patterns, owners, lower, di, x)
  {
    var ends := EndsOf(Events(AllHits(patterns, lower), owners), di);
    CallEndsOrdered(patterns, owners, lower, di);
    SpansSeparated(ends, |lower|);
    forall e: nat ensures e in ends <==> IsCallEnd(patterns, owners, lower, di, e) {
      CallEndsExact(patterns, owners, lower, di, e);
    }
    forall x: nat ensures Covered(spans, x) <==> x < |lower| && NearKeyword(patterns, owners, lower, di, x) {
      SpansCover(ends, |lower|, x);
      VicinityNear(patterns, owners, lower, di, ends, x);
    }
  }

  /** What the collected spans must be, detector by detector. */
  ghost predicate SpansRight(patterns: seq<Word>, owners: seq<seq<nat>>, lower: Word, full: seq<bool>, di: nat,
                             spans: seq<Span>) {
    && Separated(spans, |lower|) && (Dispatched(full, di) || spans == [])
    && forall x: nat :: Covered(spans, x) <==>
         Dispatched(full, di) && x < |lower| && NearKeyword(patterns, owners, lower, di, x)
  }

  lemma CollectedRight(patterns: seq<Word>, owners: seq<seq<nat>>, lower: Word, full: seq<bool>,
                       dets: map<nat, seq<Span>>, di: nat)
    requires |owners| == |patterns| && Owned(AllHits(patterns, lower), owners)
    requires DetsOk(dets, Events(AllHits(patterns, lower), owners), full, |lower|)
    ensures SpansRight(patterns, owners, lower, full, di, SpansFor(dets, di))
  {
    if Dispatched(full, di) {
      SpansNearKeywords(patterns, owners, lower, di, SpansFor(dets, di));
    }
  }

  /** Ordered separated runs that cover, detector by detector, exactly what is near its keywords. */
  ghost predicate DispatchRight(patterns: seq<Word>, owners: seq<seq<nat>>, full: seq<bool>, window: Word,
                                runs: seq<Run>) {
    && RunsOrdered(runs, full, |window|)
    && forall di: nat, x: nat :: RunCovers(runs, di, x) <==>
         Dispatched(full, di) && x < |window| && NearKeyword(patterns, owners, Lower(window), di, x)
  }

  /** Runs every detector that is not a full-chunk detector on separated slices that together are exactly
      the surroundings of its keyword occurrences in the window, letter case aside. */
  method DispatchAt(m: Matcher, owners: seq<seq<nat>>, full: seq<bool>, window: Word) returns (runs: seq<Run>)
    requires m.Valid() && |owners| == |m.trie.patterns|
    ensures DispatchRight(m.trie.patterns, owners, full, window, runs)
  {
    var lower := LowerCase(window);
    var hits := m.VisitHits(lower);
    ghost var patterns := m.trie.patterns;
    HitsOwned(patterns, owners, lower);
    var dets := CollectSpans(hits, owners, full, |lower|);
    forall di: nat ensures SpansRight(patterns, owners, lower, full, di, SpansFor(dets, di)) {
      CollectedRight(patterns, owners, lower, full, dets, di);
    }
    runs := RunAll(dets, full, |lower|);
    RunsRight(patterns, owners, lower, full, dets, runs);
  }

  lemma RunsRight(patterns: seq<Word>, owners: seq<seq<nat>>, lower: Word, full: seq<bool>, dets: map<nat, seq<Span>>,
                  runs: seq<Run>)
    requires RunsTo(runs, dets, |full|)
    requires forall di: nat :: SpansRight(patterns, owners, lower, full, di, SpansFor(dets, di))
    ensures forall di: nat, x: nat :: RunCovers(runs, di, x) <==>
              Dispatched(full, di) && x < |lower| && NearKeyword(patterns, owners, lower, di, x)
  {
    forall di: nat, x: nat ensures RunCovers(runs, di, x) <==>
              Dispatched(full, di) && x < |lower| && NearKeyword(patterns, owners, lower, di, x) {
      assert SpansRight(patterns, owners, lower, full, di, SpansFor(dets, di));
      assert RunCovers(runs, di, x) <==> di < |full| && Covered(SpansFor(dets, di), x);
    }
  }

  /** Every stretch no longer than the window overlap that holds an occurrence of a keyword, letter case aside, lies in
      a window in which the occurrence is a hit. */
  lemma KeywordReachesWindow(patterns: seq<Word>, id: nat, data: Word, p: nat, lo: nat, hi: nat) returns (w: Window)
    requires id < |patterns| && 0 < |patterns[id]| && OccursAt(Lower(data), patterns[id], p)
    requires lo <= p && p + |patterns[id]| <= hi <= |data| && hi - lo <= OVERLAP
    ensures w in WindowsFrom(data, 0) && Holds(w, data, lo, hi - lo)
    ensures IsHit(patterns, Lower(w.bytes), Hit(id, p - w.start + |patterns[id]| - 1))
  {
    var pattern := patterns[id];
    w := SomeWindowHolds(data, 0, lo, hi - lo);
    ShiftedHit(data, w, pattern, p);
  }

  lemma ShiftedHit(data: Word, w: Window, pattern: Word, p: nat)
    requires Holds(w, data, p, |pattern|) && OccursAt(Lower(data), pattern, p)
    ensures OccursAt(Lower(w.bytes), pattern, p - w.start)
  {
    var lo, hi := w.start, w.start + |w.bytes|;
    LowerSlice(data, lo, hi);
    OccursInWindow(Lower(data), lo, hi, pattern, p - lo);
  }

  /** Keyword `k` of detector `di`, in whatever letter case, stands at `p` in the stretch from `lo` to `hi`, which is no
      longer than the window overlap. */
  ghost predicate KeywordWithin(keywords: seq<seq<Word>>, di: nat, k: nat, data: Word, p: nat, lo: nat, hi: nat) {
    && di < |keywords| && k < |keywords[di]| && 0 < |keywords[di][k]|
    && lo <= p && p + |keywords[di][k]| <= hi <= |data| && hi - lo <= OVERLAP
    && forall i :: 0 <= i < |keywords[di][k]| ==> SameLetter(data[p + i], keywords[di][k][i])
  }

  lemma KeywordStands(data: Word, keyword: Word, p: nat)
    requires p + |keyword| <= |data| && forall i :: 0 <= i < |keyword| ==> SameLetter(data[p + i], keyword[i])
    ensures OccursAt(Lower(data), Lower(keyword), p)
  {
    LowerExactly(data[p..p + |keyword|], keyword);
    LowerSlice(data, p, p + |keyword|);
  }

  /** Every byte of such a stretch is near the keyword in some window. */
  lemma KeywordNear(keywords: seq<seq<Word>>, patterns: seq<Word>, owners: seq<seq<nat>>, di: nat, k: nat, data: Word,
                    p: nat, lo: nat, hi: nat) returns (w: Window)
    requires PrefilterOf(Listed(keywords, |keywords|, 0), patterns, owners)
    requires KeywordWithin(keywords, di, k, data, p, lo, hi)
    ensures w in WindowsFrom(data, 0) && Holds(w, data, lo, hi - lo)
    ensures forall x: nat :: lo <= w.start + x < hi ==> NearKeyword(patterns, owners, Lower(w.bytes), di, x)
  {
    var pattern := Lower(keywords[di][k]);
    KeywordStands(data, keywords[di][k], p);
    PrefilterExact(keywords, patterns, owners);
    assert Lists(keywords, di, pattern);
    var id :| 0 <= id < |patterns| && patterns[id] == pattern;
    w := KeywordReachesWindow(patterns, id, data, p, lo, hi);
    var h := Hit(id, p - w.start + |pattern| - 1);
    forall x: nat | lo <= w.start + x < hi ensures NearKeyword(patterns, owners, Lower(w.bytes), di, x) {
      assert IsHit(patterns, Lower(w.bytes), h) && di in owners[h.id];
    }
  }

  // ---------------------------------------------------------------------------------------
  // From keyword lists to detector runs

  /** A stretch that a detector's runs cover byte by byte lies in one of them, because they keep gaps. */
  lemma OneRunCovers(runs: seq<Run>, full: seq<bool>, n: nat, di: nat, lo: nat, hi: nat) returns (j: nat)
    requires RunsOrdered(runs, full, n) && lo < hi && forall x: nat :: lo <= x < hi ==> RunCovers(runs, di, x)
    ensures j < |runs| && runs[j].detector == di && runs[j].span.start <= lo && hi <= runs[j].span.end
  {
    assert RunCovers(runs, di, lo);
    j :| 0 <= j < |runs| && runs[j].detector == di && Covers(runs[j].span, lo);
    GapAfter(runs, full, n, j);
  }

  /** Behind each run of a detector there is a byte that none of its runs covers. */
  lemma GapAfter(runs: seq<Run>, full: seq<bool>, n: nat, j: nat)
    requires RunsOrdered(runs, full, n) && j < |runs|
    ensures !RunCovers(runs, runs[j].detector, runs[j].span.end)
  {
  }

  /** One run of the detector, in one window, holds the whole stretch of the data. */
  ghost predicate InOneRun(windows: seq<Window>, calls: seq<seq<Run>>, di: nat, p: nat, length: nat) {
    exists i, j :: 0 <= i < |windows| && i < |calls| && 0 <= j < |calls[i]| && calls[i][j].detector == di
                   && windows[i].start + calls[i][j].span.start <= p
                   && p + length <= windows[i].start + calls[i][j].span.end
  }

  /** A stretch no longer than the overlap that holds a keyword of a dispatched detector lies wholly in one of
      its runs. */
  lemma KeywordSeen(keywords: seq<seq<Word>>, patterns: seq<Word>, owners: seq<seq<nat>>, full: seq<bool>, data: Word,
                    calls: seq<seq<Run>>, di: nat, k: nat, p: nat, lo: nat, hi: nat)
    requires PrefilterOf(Listed(keywords, |keywords|, 0), patterns, owners) && data != []
    requires |calls| == |WindowsFrom(data, 0)|
    requires forall i :: 0 <= i < |calls| ==>
               DispatchRight(patterns, owners, full, WindowsFrom(data, 0)[i].bytes, calls[i])
    requires di < |full| && !full[di] && KeywordWithin(keywords, di, k, data, p, lo, hi)
    ensures InOneRun(WindowsFrom(data, 0), calls, di, lo, hi - lo)
  {
    var w := KeywordNear(keywords, patterns, owners, di, k, data, p, lo, hi);
    var windows := WindowsFrom(data, 0);
    var i :| 0 <= i < |windows| && windows[i] == w;
    assert DispatchRight(patterns, owners, full, windows[i].bytes, calls[i]);
    var from, to := lo - w.start, hi - w.start;
    forall x: nat | from <= x < to ensures RunCovers(calls[i], di, x) {
      assert NearKeyword(patterns, owners, Lower(w.bytes), di, x);
    }
    var j := OneRunCovers(calls[i], full, |w.bytes|, di, from, to);
  }

  /** Dispatches every window. */
  method DispatchAll(m: Matcher, owners: seq<seq<nat>>, full: seq<bool>, windows: seq<Word>)
    returns (calls: seq<seq<Run>>)
    requires m.Valid() && |owners| == |m.trie.patterns|
    ensures |calls| == |windows|
    ensures forall i :: 0 <= i < |calls| ==> DispatchRight(m.trie.patterns, owners, full, windows[i], calls[i])
  {
    calls := [];
    for i := 0 to |windows|
      invariant |calls| == i
      invariant forall j :: 0 <= j < i ==> DispatchRight(m.trie.patterns, owners, full, windows[j], calls[j])
    {
      var runs := DispatchAt(m, owners, full, windows[i]);
      calls := calls + [runs];
    }
  }

  lemma {:induction false} ContentsAt(windows: seq<Window>)
    ensures |Contents(windows)| == |windows|
    ensures forall i :: 0 <= i < |windows| ==> Contents(windows)[i] == windows[i].bytes
  {
    if windows != [] { ContentsAt(windows[1..]); }
  }

  /** From the keyword lists of the detectors to the slices they run on, buffered or streamed: whatever is no longer
      than the window overlap and holds a keyword of a detector that does not want the full chunk, in whatever letter
      case, lies wholly inside one slice that the detector is run on. */
  method ScanVariant(keywords: seq<seq<Word>>, full: seq<bool>, data: Word, stream: bool, faults: bool)
    returns (calls: seq<seq<Run>>, failed: bool)
    ensures !failed && data != [] ==>
              forall di: nat, k: nat, p: nat, lo: nat, hi: nat ::
                di < |full| && !full[di] && KeywordWithin(keywords, di, k, data, p, lo, hi) ==>
                  InOneRun(WindowsFrom(data, 0), calls, di, lo, hi - lo)
    ensures !faults ==> !failed
  {
    var patterns, owners := BuildPrefilter(keywords);
    var m := new Matcher(patterns);
    var windows;
    windows, failed := WindowContents(data, stream, faults);
    if failed { return [], true; }
    calls := DispatchAll(m, owners, full, windows);
    if data != [] {
      ContentsAt(WindowsFrom(data, 0));
      forall di: nat, k: nat, p: nat, lo: nat, hi: nat
        | di < |full| && !full[di] && KeywordWithin(keywords, di, k, data, p, lo, hi)
        ensures InOneRun(WindowsFrom(data, 0), calls, di, lo, hi - lo)
      {
        KeywordSeen(keywords, patterns, owners, full, data, calls, di, k, p, lo, hi);
      }
    }
  }

  /** The windows by either path. */
  method WindowContents(data: Word, stream: bool, faults: bool) returns (windows: seq<Word>, failed: bool)
    ensures !failed && data != [] ==> windows == Contents(WindowsFrom(data, 0))
    ensures !faults ==> !failed
  {
    if stream {
      var based;
      based, failed := ReaderWindows(data, faults);
      windows := seq(|based|, i requires 0 <= i < |based| => based[i].bytes);
      if !failed { ContentsAt(based); }
    } else {
      windows, failed := BufferedWindows(data, faults);
    }
  }
}
