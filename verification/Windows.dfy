/** Sliding windows over a variant, and the slices of a window that each detector sees. */
module Windows {
  import opened Bytes
  import opened StreamSearch

  const MAX_WINDOW: nat := 32 * 1024
  const OVERLAP: nat := 1024
  const STEP: nat := MAX_WINDOW - OVERLAP
  const RADIUS: nat := 2048

  // ---------------------------------------------------------------------------------------
  // Windows

  /** A window with its offset and the newlines before it. */
  datatype Window = Window(start: nat, bytes: Word, newlines: nat)

  function WindowEnd(n: nat, start: nat): nat {
    if start + MAX_WINDOW > n then n else start + MAX_WINDOW
  }

  /** The windows of `data` from `start` on. */
  ghost function WindowsFrom(data: Word, start: nat): seq<Window>
    requires start < |data|
    decreases |data| - start
  {
    var end := WindowEnd(|data|, start);
    [Window(start, data[start..end], Newlines(data[..start]))] +
    (if end == |data| then [] else WindowsFrom(data, start + STEP))
  }

  /** The `i`-th window from `start` on: not longer than the maximum, and shorter only when it is the last. */
  ghost predicate Regular(windows: seq<Window>, start: nat, i: nat)
    requires i < |windows|
  {
    && windows[i].start == start + i * STEP && 0 < |windows[i].bytes| <= MAX_WINDOW
    && (i + 1 < |windows| ==> |windows[i].bytes| == MAX_WINDOW)
  }

  lemma FirstRegular(data: Word, start: nat)
    requires start < |data|
    ensures Regular(WindowsFrom(data, start), start, 0)
  {
  }

  lemma LaterRegular(first: Window, rest: seq<Window>, start: nat, i: nat)
    requires 0 < i <= |rest| && Regular(rest, start + STEP, i - 1)
    ensures Regular([first] + rest, start, i)
  {
    assert ([first] + rest)[i] == rest[i - 1];
  }

  /** Windows start a step apart and are never longer than the maximum; only the last one may be shorter. */
  lemma {:induction false} WindowsRegular(data: Word, start: nat, i: nat)
    requires start < |data| && i < |WindowsFrom(data, start)|
    ensures Regular(WindowsFrom(data, start), start, i)
    decreases i
  {
    if i == 0 {
      FirstRegular(data, start);
    } else {
      WindowsRegular(data, start + STEP, i - 1);
      LaterRegular(WindowsFrom(data, start)[0], WindowsFrom(data, start + STEP), start, i);
    }
  }

  ghost function Contents(windows: seq<Window>): seq<Word> {
    if windows == [] then [] else [windows[0].bytes] + Contents(windows[1..])
  }

  /** Stands in the window at the offset it has in the data. */
  ghost predicate Holds(w: Window, data: Word, p: nat, length: nat) {
    && w.start + |w.bytes| <= |data| && w.bytes == data[w.start..w.start + |w.bytes|]
    && w.newlines == Newlines(data[..w.start])
    && w.start <= p && p + length <= w.start + |w.bytes|
  }

  /** Whatever is no longer than the overlap falls inside some window. */
  lemma {:induction false} SomeWindowHolds(data: Word, start: nat, p: nat, length: nat) returns (w: Window)
    requires start < |data| && start <= p && p + length <= |data| && length <= OVERLAP
    ensures w in WindowsFrom(data, start) && Holds(w, data, p, length)
    decreases |data| - start
  {
    var end := WindowEnd(|data|, start);
    if p + length <= end {
      w := Window(start, data[start..end], Newlines(data[..start]));
    } else {
      w := SomeWindowHolds(data, start + STEP, p, length);
    }
  }

  /** The windows of a buffered variant, as they are dispatched. */
  method BufferedWindows(data: Word, faults: bool) returns (windows: seq<Word>, cancelled: bool)
    ensures data == [] ==> windows == [[]]
    ensures data != [] && !cancelled ==> windows == Contents(WindowsFrom(data, 0))
    ensures data != [] && cancelled ==> windows <= Contents(WindowsFrom(data, 0))
    ensures !faults ==> !cancelled
  {
    cancelled := false;
    if |data| <= MAX_WINDOW {
      assert data[0..|data|] == data;
      return [data], false;
    }
    windows := [];
    var start := 0;
    while true
      invariant start < |data|
      invariant windows + Contents(WindowsFrom(data, start)) == Contents(WindowsFrom(data, 0))
      decreases |data| - start
    {
      var stopped := Fails(faults);
      if stopped { cancelled := true; return; }
      var end := if start + MAX_WINDOW > |data| then |data| else start + MAX_WINDOW;
      ContentsStep(windows, data, start);
      windows := windows + [data[start..end]];
      if end == |data| { break; }
      start := start + STEP;
    }
  }

  lemma ContentsStep(windows: seq<Word>, data: Word, start: nat)
    requires start < |data|
    ensures windows + Contents(WindowsFrom(data, start)) ==
            windows + [data[start..WindowEnd(|data|, start)]] +
            (if WindowEnd(|data|, start) == |data| then [] else Contents(WindowsFrom(data, start + STEP)))
  {
    var all := WindowsFrom(data, start);
    assert all[1..] == if WindowEnd(|data|, start) == |data| then [] else WindowsFrom(data, start + STEP);
  }

  /** The windows of a replayable variant, with their offsets and newline bases. */
  method ReaderWindows(data: Word, faults: bool) returns (windows: seq<Window>, failed: bool)
    ensures data == [] ==> windows == [] && !failed
    ensures data != [] && !failed ==> windows == WindowsFrom(data, 0)
    ensures data != [] && failed ==> windows <= WindowsFrom(data, 0)
    ensures !faults ==> !failed
  {
    windows, failed := [], false;
    var start, linesBefore := 0, 0;
    while start < |data|
      invariant start <= |data| && (data != [] ==> start < |data|)
      invariant data != [] ==> windows + WindowsFrom(data, start) == WindowsFrom(data, 0)
      invariant data == [] ==> windows == []
      invariant linesBefore == Newlines(data[..start])
      decreases |data| - start
    {
      var stopped := Fails(faults);
      if stopped { failed := true; return; }
      var windowSize := if |data| - start < MAX_WINDOW then |data| - start else MAX_WINDOW;
      var read := ReadAt(data, start, windowSize, faults);
      if read.None? { failed := true; return; }
      var window := read.value;
      ConcatAssoc(windows, [Window(start, window, linesBefore)],
                  if start + windowSize == |data| then [] else WindowsFrom(data, start + STEP));
      windows := windows + [Window(start, window, linesBefore)];
      if start + windowSize == |data| { return; }
      WindowNewlines(data, start, windowSize, STEP);
      linesBefore := linesBefore + Newlines(window[..STEP]);
      start := start + STEP;
    }
  }

  // ---------------------------------------------------------------------------------------
  // ASCII lower case

  function LowerByte(b: byte): byte {
    if 65 <= b <= 90 then (b as int) + 32 else b
  }

  ghost function Lower(s: Word): (t: Word)
    ensures |t| == |s| && forall i :: 0 <= i < |s| ==> t[i] == LowerByte(s[i])
  {
    seq(|s|, i requires 0 <= i < |s| => LowerByte(s[i]))
  }

  method LowerCase(s: Word) returns (t: Word)
    ensures t == Lower(s)
  {
    t := [];
    for i := 0 to |s|
      invariant |t| == i && forall j :: 0 <= j < i ==> t[j] == LowerByte(s[j])
    {
      t := t + [LowerByte(s[i])];
    }
  }

  /** The same byte, or the same letter in the other case. */
  predicate SameLetter(a: byte, b: byte) {
    a == b || ('A' as int <= a <= 'Z' as int && b == a + 32) || ('A' as int <= b <= 'Z' as int && a == b + 32)
  }

  /** Strings have the same lower case exactly when they differ at most in the case of ASCII letters. */
  lemma LowerExactly(s: Word, t: Word)
    ensures Lower(s) == Lower(t) <==> |s| == |t| && forall i :: 0 <= i < |s| ==> SameLetter(s[i], t[i])
  {
    if |s| == |t| {
      if Lower(s) == Lower(t) {
        forall i | 0 <= i < |s| ensures SameLetter(s[i], t[i]) { assert Lower(s)[i] == Lower(t)[i]; }
      }
    } else {
      assert |Lower(s)| != |Lower(t)|;
    }
  }

  lemma LowerSlice(s: Word, i: nat, j: nat)
    requires i <= j <= |s|
    ensures Lower(s[i..j]) == Lower(s)[i..j]
  {
  }

  // ---------------------------------------------------------------------------------------
  // Vicinities and their merged spans

  datatype Span = Span(start: nat, end: nat)

  predicate Covers(s: Span, x: nat) {
    s.start <= x < s.end
  }

  /** The clipped surroundings of a hit that ends at `e`. */
  function Vicinity(e: nat, n: nat): Span {
    Span(if e < RADIUS then 0 else e - RADIUS, if e + 1 + RADIUS > n then n else e + 1 + RADIUS)
  }

  /** Merges a span that starts no earlier than the last one. */
  function AddSpan(spans: seq<Span>, s: Span): seq<Span> {
    if |spans| > 0 && s.start <= spans[|spans| - 1].end then
      if s.end > spans[|spans| - 1].end then spans[|spans| - 1 := Span(spans[|spans| - 1].start, s.end)] else spans
    else spans + [s]
  }

  /** The merged spans of a list of hit ends. */
  ghost function Spans(ends: seq<nat>, n: nat): seq<Span> {
    if ends == [] then [] else AddSpan(Spans(ends[..|ends| - 1], n), Vicinity(ends[|ends| - 1], n))
  }

  ghost predicate Ordered(ends: seq<nat>, n: nat) {
    && (forall i :: 0 <= i < |ends| ==> ends[i] < n)
    && forall i, j :: 0 <= i < j < |ends| ==> ends[i] <= ends[j]
  }

  /** Nonempty spans inside the window, ascending, with a gap between neighbours. */
  ghost predicate Separated(spans: seq<Span>, n: nat) {
    && (forall i :: 0 <= i < |spans| ==> spans[i].start < spans[i].end <= n)
    && forall i, j :: 0 <= i < j < |spans| ==> spans[i].end < spans[j].start
  }

  ghost predicate Covered(spans: seq<Span>, x: nat) {
    exists i :: 0 <= i < |spans| && Covers(spans[i], x)
  }

  ghost predicate InVicinity(ends: seq<nat>, n: nat, x: nat) {
    exists i :: 0 <= i < |ends| && Covers(Vicinity(ends[i], n), x)
  }

  lemma AddSpanSeparated(spans: seq<Span>, s: Span, n: nat)
    requires Separated(spans, n) && s.start < s.end <= n
    requires spans != [] ==> spans[|spans| - 1].start <= s.start
    ensures Separated(AddSpan(spans, s), n)
    ensures AddSpan(spans, s) != [] && AddSpan(spans, s)[|AddSpan(spans, s)| - 1].start <= s.start
  {
  }

  lemma AddSpanCovers(spans: seq<Span>, s: Span, n: nat, x: nat)
    requires Separated(spans, n) && s.start < s.end <= n
    requires spans != [] ==> spans[|spans| - 1].start <= s.start
    ensures Covered(AddSpan(spans, s), x) <==> Covered(spans, x) || Covers(s, x)
  {
    var spans' := AddSpan(spans, s);
    if i :| 0 <= i < |spans| && Covers(spans[i], x) { assert Covers(spans'[i], x); }
    if Covers(s, x) { assert Covers(spans'[|spans'| - 1], x); }
    if i :| 0 <= i < |spans'| && Covers(spans'[i], x) {
      assert i < |spans| && spans'[i] == spans[i] ==> Covered(spans, x);
      assert i == |spans| - 1 && x < spans[i].end ==> Covers(spans[i], x);
    }
  }

  /** Merging as hits arrive gives separated spans. */
  lemma {:induction false} SpansSeparated(ends: seq<nat>, n: nat)
    requires Ordered(ends, n)
    ensures Separated(Spans(ends, n), n)
    ensures ends != [] ==>
              Spans(ends, n) != [] && Spans(ends, n)[|Spans(ends, n)| - 1].start <= Vicinity(ends[|ends| - 1], n).start
  {
    if ends != [] {
      SpansSeparated(ends[..|ends| - 1], n);
      AddSpanSeparated(Spans(ends[..|ends| - 1], n), Vicinity(ends[|ends| - 1], n), n);
    }
  }

  /** Their union is the union of the vicinities. */
  lemma {:induction false} SpansCover(ends: seq<nat>, n: nat, x: nat)
    requires Ordered(ends, n)
    ensures Covered(Spans(ends, n), x) <==> InVicinity(ends, n, x)
  {
    if ends != [] {
      var front, last := ends[..|ends| - 1], ends[|ends| - 1];
      SpansCover(front, n, x);
      SpansSeparated(front, n);
      AddSpanCovers(Spans(front, n), Vicinity(last, n), n, x);
      if i :| 0 <= i < |front| && Covers(Vicinity(front[i], n), x) { assert Covers(Vicinity(ends[i], n), x); }
    }
  }
}
