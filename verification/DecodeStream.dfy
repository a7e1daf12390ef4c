/** The decoders of a replayable input, and their agreement with the buffered ones. A read error or a
    cancellation ends the walk with a failure. */
module DecodeStream {
  import opened Bytes
  import opened DecodeSpec
  import opened DecodeBuffered
  import opened DecodeRuns
  import opened StreamSearch

  // ---------------------------------------------------------------------------------------
  // All variants of a buffered input

  /** The original and every decoded form worth scanning, whatever scratch storage is passed in. */
  method Variants(data: Word, scratch: array<byte>) returns (out: seq<Variant>)
    modifies scratch
    ensures out == VariantsOf(data)
  {
    var base64 := DecodeBase64WithScratch(data, scratch);
    var percent := BufferedPercent(data);
    var hex := DecodeHexRuns(data);
    var utf16 := BufferedUtf16(data);
    var unicode := BufferedUnicode(data);
    out := [Variant(Raw, data)] + (if base64 == [] then [] else [Variant(Base64, base64)]) + percent
           + (if hex == [] then [] else [Variant(Hex, hex)]) + utf16 + unicode;
  }

  method BufferedPercent(data: Word) returns (out: seq<Variant>)
    ensures out == PercentVariant(data)
  {
    var eligible := HasPercentEscapePair(data);
    if !eligible { return []; }
    var r := DecodePercentCandidate(data);
    if r.None? { return []; }
    return [Variant(Percent, r.value)];
  }

  method BufferedUtf16(data: Word) returns (out: seq<Variant>)
    ensures out == Utf16Variant(data)
  {
    var kind := SniffUtf16(data);
    if kind.NotUtf16? { return []; }
    var decoded := DecodeUtf16(data, kind.LittleEndian?);
    var printable := CheckPrintable(decoded);
    if !printable { return []; }
    return [Variant(if kind.LittleEndian? then Utf16le else Utf16be, decoded)];
  }

  method BufferedUnicode(data: Word) returns (out: seq<Variant>)
    ensures out == UnicodeVariant(data)
  {
    var eligible := HasUnicodeEscapePair(data);
    if !eligible { return []; }
    var r := DecodeUnicodeEscape(data);
    if r.None? { return []; }
    return [Variant(UnicodeEscape, r.value)];
  }

  // ---------------------------------------------------------------------------------------
  // Eligibility of a stream

  const GATE_BUFFER: nat := 64 * 1024 + 11
  const CARRY: nat := 11

  datatype Gate = PercentGate | UnicodeGate

  predicate PairAt(gate: Gate, data: Word, i: int) {
    match gate
    case PercentGate => PercentPairAt(data, i)
    case UnicodeGate => UnicodePairAt(data, i)
  }

  function PairLength(gate: Gate): nat {
    if gate.PercentGate? then 6 else 12
  }

  /** A pair inside a window is a pair of the data, and the other way round when it fits. */
  lemma PairInWindow(gate: Gate, data: Word, lo: nat, hi: nat, i: int)
    requires lo <= hi <= |data| && lo <= i
    ensures PairAt(gate, data[lo..hi], i - lo) <==> i + PairLength(gate) <= hi && PairAt(gate, data, i)
  {
    var w := data[lo..hi];
    assert forall k :: 0 <= k < |w| ==> w[k] == data[lo + k];
  }

  ghost predicate NoPairWithin(gate: Gate, data: Word, hi: int) {
    forall i :: 0 <= i && i + PairLength(gate) <= hi ==> !PairAt(gate, data, i)
  }

  ghost predicate AnyPair(gate: Gate, data: Word) {
    exists i :: PairAt(gate, data, i)
  }

  /** A pair of the window is a pair of the data; clearing a window that carries eleven bytes over clears
      the data up to its end. */
  lemma WindowSearched(gate: Gate, data: Word, lo: nat, pos: nat, hi: nat, found: bool)
    requires lo <= pos <= hi <= |data| && NoPairWithin(gate, data, pos)
    requires lo == 0 || lo + CARRY <= pos
    requires found == AnyPair(gate, data[lo..hi])
    ensures found ==> AnyPair(gate, data)
    ensures !found ==> NoPairWithin(gate, data, hi)
  {
    if i :| PairAt(gate, data[lo..hi], i) {
      PairInWindow(gate, data, lo, hi, lo + i);
      assert PairAt(gate, data, lo + i);
    } else {
      WindowCleared(gate, data, lo, pos, hi);
    }
  }

  lemma WindowCleared(gate: Gate, data: Word, lo: nat, pos: nat, hi: nat)
    requires lo <= pos <= hi <= |data| && NoPairWithin(gate, data, pos)
    requires lo == 0 || lo + CARRY <= pos
    requires forall i :: !PairAt(gate, data[lo..hi], i)
    ensures NoPairWithin(gate, data, hi)
  {
    forall i | 0 <= i && i + PairLength(gate) <= hi ensures !PairAt(gate, data, i) {
      if i >= lo {
        PairInWindow(gate, data, lo, hi, i);
        assert !PairAt(gate, data[lo..hi], i - lo);
      }
    }
  }

  method HasPair(gate: Gate, data: Word) returns (r: bool)
    ensures r == AnyPair(gate, data)
  {
    match gate
    case PercentGate =>
      r := HasPercentEscapePair(data);
      assert forall i :: PairAt(gate, data, i) <==> PercentPairAt(data, i);
    case UnicodeGate =>
      r := HasUnicodeEscapePair(data);
      assert forall i :: PairAt(gate, data, i) <==> UnicodePairAt(data, i);
  }

  /** The bytes kept from what was read before `pos`. */
  ghost predicate Carried(data: Word, carry: Word, pos: nat) {
    pos <= |data| && |carry| == (if pos < CARRY then pos else CARRY) && carry == data[pos - |carry|..pos]
  }

  lemma CarryNext(data: Word, carry: Word, pos: nat, n: nat, keep: nat)
    requires Carried(data, carry, pos) && pos + n <= |data|
    requires keep == (if |carry| + n < CARRY then |carry| + n else CARRY)
    ensures carry + data[pos..pos + n] == data[pos - |carry|..pos + n]
    ensures Carried(data, data[pos - |carry|..pos + n][|carry| + n - keep..], pos + n)
  {
    var lo, hi := pos - |carry|, pos + n;
    SliceJoin(data, lo, pos, hi);
    SliceOfSlice(data, lo, hi, hi - lo - keep, hi - lo);
    assert data[lo..hi][hi - lo - keep..] == data[lo..hi][hi - lo - keep..hi - lo];
  }

  /** The carried bytes and the next block, and what is carried on. */
  method GateWindow(data: Word, carry: Word, pos: nat, faults: bool)
    returns (window: Word, carry': Word, pos': nat, failed: bool)
    requires Carried(data, carry, pos)
    ensures !failed ==> pos <= pos' <= |data| && (pos' == pos ==> pos == |data|) && window == data[pos - |carry|..pos']
    ensures !failed ==> Carried(data, carry', pos')
    ensures !faults ==> !failed
  {
    var want := GATE_BUFFER - |carry|;
    var n := if |data| - pos < want then |data| - pos else want;
    var read := ReadAt(data, pos, n, faults);
    if read.None? { return [], [], pos, true; }
    window, pos', failed := carry + read.value, pos + n, false;
    var keep := if |window| < CARRY then |window| else CARRY;
    CarryNext(data, carry, pos, n, keep);
    carry' := window[|window| - keep..];
  }

  /** One read of the gate: the carried bytes and the next block are searched together. */
  method GateStep(gate: Gate, data: Word, carry: Word, pos: nat, faults: bool)
    returns (found: bool, carry': Word, pos': nat, failed: bool)
    requires Carried(data, carry, pos) && NoPairWithin(gate, data, pos)
    ensures !failed ==> Carried(data, carry', pos') && pos <= pos' && (pos' == pos ==> pos == |data|)
    ensures !failed && found ==> AnyPair(gate, data)
    ensures !failed && !found ==> NoPairWithin(gate, data, pos')
    ensures !faults ==> !failed
  {
    found := false;
    var window;
    window, carry', pos', failed := GateWindow(data, carry, pos, faults);
    if failed { return; }
    found := SearchGate(gate, data, pos - |carry|, pos, pos', window);
  }

  method SearchGate(gate: Gate, ghost data: Word, ghost lo: nat, ghost pos: nat, ghost hi: nat, window: Word)
    returns (found: bool)
    requires lo <= pos <= hi <= |data| && NoPairWithin(gate, data, pos) && window == data[lo..hi]
    requires lo == 0 || lo + CARRY <= pos
    ensures found ==> AnyPair(gate, data)
    ensures !found ==> NoPairWithin(gate, data, hi)
  {
    found := HasPair(gate, window);
    WindowSearched(gate, data, lo, pos, hi, found);
  }

  /** Whether two adjacent escapes stand anywhere, across reads too. */
  method StreamEligible(gate: Gate, data: Word, faults: bool) returns (eligible: bool, failed: bool)
    ensures !failed ==> (eligible <==> exists i :: PairAt(gate, data, i))
    ensures !faults ==> !failed
  {
    var carry: Word, pos: nat := [], 0;
    while true
      invariant Carried(data, carry, pos) && NoPairWithin(gate, data, pos)
      decreases |data| - pos
    {
      var last := pos;
      var found;
      found, carry, pos, failed := GateStep(gate, data, carry, pos, faults);
      if failed || found { return found, failed; }
      if pos == last {
        assert forall i :: PairAt(gate, data, i) ==> 0 <= i && i + PairLength(gate) <= |data|;
        return false, false;
      }
    }
  }

  lemma {:induction false} NulsPrefix(data: Word, m: nat, n: nat, odd: bool)
    requires n <= m <= |data|
    ensures NulsAt(data[..m], n, odd) == NulsAt(data, n, odd)
  {
    if n > 0 { NulsPrefix(data, m, n - 1, odd); }
  }

  /** The first 128 bytes decide about UTF-16. */
  lemma SniffPrefix(data: Word)
    ensures Sniff(data[..if |data| < 128 then |data| else 128]) == Sniff(data)
  {
    var m := if |data| < 128 then |data| else 128;
    var n := SampleLen(|data|);
    NulsPrefix(data, m, n, true);
    NulsPrefix(data, m, n, false);
  }

  // ---------------------------------------------------------------------------------------
  // Transforming a stream

  /** The next bytes of a buffered reader: fewer at the end of the data, or at `limit`, from where on every read fails.
      An error is reported with the bytes there are. */
  method Peek(data: Word, limit: nat, pos: nat, k: nat) returns (bytes: Word, bad: bool)
    requires pos <= limit <= |data|
    ensures bytes == data[pos..if pos + k <= limit then pos + k else limit]
    ensures bad <==> pos + k > limit && limit < |data|
  {
    var end := if pos + k <= limit then pos + k else limit;
    return data[pos..end], end < pos + k && limit < |data|;
  }

  /** Where reads begin to fail: nowhere, or somewhere in the data. */
  method ReadLimit(data: Word, faults: bool) returns (limit: nat)
    ensures limit <= |data| && (!faults ==> limit == |data|)
  {
    var n: int := *;
    return if faults && 0 <= n < |data| then n else |data|;
  }

  /** The second look ahead ignores an error, which the first look ahead of a later turn then meets. */
  method TransformPercent(data: Word, limit: nat) returns (out: Word, failed: bool)
    requires limit <= |data|
    ensures failed <==> limit < |data|
    ensures !failed ==> out == PercentFrom(data, 0)
  {
    out := [];
    var pos := 0;
    ghost var all := PercentFrom(data, 0);
    while true
      invariant pos <= limit && (limit == |data| ==> out + PercentFrom(data, pos) == all)
      decreases |data| - pos
    {
      var p, bad := Peek(data, limit, pos, 1);
      if bad { return out, true; }
      if p == [] { return out, false; }
      var c, need := p[0], 1;
      if c == 37 {
        var q, ignored := Peek(data, limit, pos, 3);
        if |q| == 3 && IsHex(q[1]) && IsHex(q[2]) {
          c, need := HexValue(q[1]) * 16 + HexValue(q[2]), 3;
        }
      } else if c == 43 {
        c := 32;
      }
      ConcatAssoc(out, [c], PercentFrom(data, pos + need));
      assert limit == |data| ==> c == PercentByte(data, pos) && need == PercentStep(data, pos);
      out := out + [c];
      pos := pos + need;
    }
  }

  /** The escaped character or the byte at `pos`. */
  method NextUnicode(data: Word, limit: nat, pos: nat) returns (bytes: Word, need: nat)
    requires pos < limit <= |data|
    ensures 1 <= need && pos + need <= limit && (limit == |data| ==> need == UnicodeStep(data, pos))
    ensures limit == |data| ==> bytes == UnicodeChar(data, pos)
  {
    bytes, need := [data[pos]], 1;
    var q, ignored := Peek(data, limit, pos, 6);
    if |q| == 6 {
      EscapeSeen(data, pos, q, 0);
      if EscapeAt(q, 0) {
        var value;
        value, need := NextEscape(data, limit, pos, Hex4Value(q, 2));
        bytes := EncodeRune(value);
      }
    }
  }

  lemma EscapeSeen(data: Word, pos: nat, q: Word, k: nat)
    requires pos + |q| <= |data| && q == data[pos..pos + |q|] && k + 6 <= |q|
    ensures EscapeAt(data, pos + k) <==> EscapeAt(q, k)
    ensures EscapeAt(q, k) ==> Hex4Value(data, pos + k + 2) == Hex4Value(q, k + 2)
  {
    assert forall i :: 0 <= i < |q| ==> q[i] == data[pos + i];
  }

  /** The rune of the escape at `pos`, which may be the first half of a surrogate pair. */
  method NextEscape(data: Word, limit: nat, pos: nat, hi: int) returns (value: int, need: nat)
    requires pos + 6 <= limit <= |data| && EscapeAt(data, pos) && hi == Hex4Value(data, pos + 2)
    ensures 0 <= value <= 0x10_FFFF && 6 <= need && pos + need <= limit
    ensures limit == |data| ==> need == UnicodeStep(data, pos) && UnicodeChar(data, pos) == EncodeRune(value)
  {
    value, need := hi, 6;
    var pair, ignored := Peek(data, limit, pos, 12);
    if |pair| == 12 {
      EscapeSeen(data, pos, pair, 6);
      if HighSurrogate(hi) && EscapeAt(pair, 6) && LowSurrogate(Hex4Value(pair, 8)) {
        value, need := Combine(hi, Hex4Value(pair, 8)), 12;
      }
    }
  }

  method TransformUnicode(data: Word, limit: nat) returns (out: Word, failed: bool)
    requires limit <= |data|
    ensures failed <==> limit < |data|
    ensures !failed ==> out == UnicodeFrom(data, 0)
  {
    out := [];
    var pos := 0;
    ghost var all := UnicodeFrom(data, 0);
    while true
      invariant pos <= limit && (limit == |data| ==> out + UnicodeFrom(data, pos) == all)
      decreases |data| - pos
    {
      var p, bad := Peek(data, limit, pos, 1);
      if bad { return out, true; }
      if p == [] { return out, false; }
      var bytes, need := NextUnicode(data, limit, pos);
      ConcatAssoc(out, bytes, UnicodeFrom(data, pos + need));
      out := out + bytes;
      pos := pos + need;
    }
  }

  /** The character at `pos`; lone surrogates are left to the encoder, which replaces them. */
  method NextUtf16(data: Word, limit: nat, pos: nat, le: bool) returns (bytes: Word, need: nat)
    requires pos + 2 <= limit <= |data|
    ensures 2 <= need && pos + need <= limit
    ensures limit == |data| ==> bytes == Utf16Char(data, pos, le) && need == Utf16Step(data, pos, le)
  {
    var value := Unit(data, pos, le);
    need := 2;
    if HighSurrogate(value) {
      var q, ignored := Peek(data, limit, pos, 4);
      if |q| == 4 {
        var lo := Unit(q, 2, le);
        assert lo == Unit(data, pos + 2, le);
        if LowSurrogate(lo) {
          value, need := Combine(value, lo), 4;
        } else {
          value := REPLACEMENT;
        }
      }
    }
    assert EncodeRune(REPLACEMENT) == [0xEF, 0xBF, 0xBD];
    bytes := if value == BYTE_ORDER_MARK then [] else EncodeRune(value);
  }

  method TransformUtf16(data: Word, limit: nat, le: bool) returns (out: Word, failed: bool)
    requires limit <= |data|
    ensures failed <==> limit < |data|
    ensures !failed ==> out == Utf16From(data, 0, le)
  {
    out := [];
    var pos := 0;
    ghost var all := Utf16From(data, 0, le);
    while true
      invariant pos <= limit && (limit == |data| ==> out + Utf16From(data, pos, le) == all)
      decreases |data| - pos
    {
      var p, bad := Peek(data, limit, pos, 2);
      if bad { return out, true; }
      if |p| < 2 { return out, false; }
      var bytes, need := NextUtf16(data, limit, pos, le);
      ghost var front, at := out, pos;
      out := out + bytes;
      pos := pos + need;
      if limit == |data| { NextChar(front, data, at, le, pos); }
    }
  }

  // ---------------------------------------------------------------------------------------
  // Runs of a stream

  const SCAN_BLOCK: nat := 64 * 1024

  datatype Status = Finished | Corrupt | TooManyBad | ReadFailed

  /** One more chunk. */
  lemma ChunkCounted(bytes: Word, n: nat, m: nat)
    requires n <= m <= |bytes|
    ensures Bad(bytes[..m]) == Bad(bytes[..n]) + Bad(bytes[n..m]) && Bad(bytes[..m]) <= Bad(bytes)
  {
    assert bytes[..m] == bytes[..n] + bytes[n..m];
    BadConcat(bytes[..n], bytes[n..m]);
    BadSplit(bytes, m);
  }

  /** Feeds bytes to a counter, in chunks of any size, and stops as soon as it has seen more unprintable ones than
      the budget allows. */
  method CountChunks(bytes: Word, budget: nat, faults: bool) returns (n: nat, bad: nat, status: Status)
    ensures !status.Corrupt?
    ensures status.Finished? ==> n == |bytes| && bad == Bad(bytes)
    ensures status.TooManyBad? ==> Bad(bytes) > budget
    ensures !faults ==> !status.ReadFailed?
  {
    n, bad := 0, 0;
    while n < |bytes|
      invariant n <= |bytes| && bad == Bad(bytes[..n])
    {
      var stopped := Fails(faults);
      if stopped { return n, bad, ReadFailed; }
      var size: int := *;
      if size <= 0 || n + size > |bytes| { size := |bytes| - n; }
      ChunkCounted(bytes, n, n + size);
      n, bad := n + size, bad + Bad(bytes[n..n + size]);
      if bad > budget { return n, bad, TooManyBad; }
    }
    assert bytes[..n] == bytes;
    return n, bad, Finished;
  }

  /** Copies the decoding of a run into a counter; a run that does not decode may feed some bytes first. */
  method CountDecoded(kind: Kind, run: EncodedRun, budget: nat, faults: bool) returns (n: nat, bad: nat, status: Status)
    ensures status.Finished? ==>
              DecodeRun(kind, run).Bytes? && n == |DecodeRun(kind, run).bytes| && bad == Bad(DecodeRun(kind, run).bytes)
    ensures status.Corrupt? ==> DecodeRun(kind, run).Rejected?
    ensures status.TooManyBad? ==> DecodeRun(kind, run).Rejected? || Bad(DecodeRun(kind, run).bytes) > budget
    ensures !faults ==> !status.ReadFailed?
  {
    var stopped := Fails(faults);
    if stopped { return 0, 0, ReadFailed; }
    var decoded := DecodeRun(kind, run);
    if decoded.Rejected? {
      if * { return 0, 0, TooManyBad; }
      return 0, 0, Corrupt;
    }
    n, bad, status := CountChunks(decoded.bytes, budget, faults);
  }

  lemma {:induction false} HexPairsLength(s: Word, i: nat)
    requires i <= |s| && forall k :: 0 <= k < |s| ==> IsHex(s[k])
    ensures |HexPairs(s, i)| == (|s| - i) / 2
    decreases |s| - i
  {
    if i + 2 <= |s| { HexPairsLength(s, i + 2); }
  }

  /** The most bytes a run of that length can decode to. */
  function UpperBound(kind: Kind, signs: nat): nat {
    match kind
    case Base64Runs => signs * 3 / 4
    case HexRuns => signs / 2
  }

  lemma DecodedBelow(kind: Kind, run: EncodedRun)
    requires DecodeRun(kind, run).Bytes?
    ensures |DecodeRun(kind, run).bytes| <= UpperBound(kind, |run.body| + run.pads)
  {
    match kind
    case Base64Runs => DecodedFits(Encoding(run.urlSafe, run.pads > 0), run.body, run.pads);
    case HexRuns => HexPairsLength(run.body, 0);
  }

  /** The early stop never rejects a run that the full count would accept. */
  lemma EarlyStopSafe(kind: Kind, run: EncodedRun)
    requires Accepted(kind, run)
    ensures Bad(DecodeRun(kind, run).bytes) <= Budget(UpperBound(kind, |run.body| + run.pads))
  {
    DecodedBelow(kind, run);
    BudgetMonotone(|DecodeRun(kind, run).bytes|, UpperBound(kind, |run.body| + run.pads));
  }

  /** Closes the run that ends at `end`: a first pass decides, a second one writes. */
  method FlushRun(kind: Kind, data: Word, start: nat, end: nat, urlSafe: bool, out: Word, faults: bool)
    returns (out': Word, failed: bool)
    requires start <= end <= |data| && urlSafe == UrlSafe(data[start..end])
    ensures !failed ==>
              out' == if end - start < MinRun(kind) then out else WithRun(kind, out, RunAt(kind, data, start, end))
    ensures !faults ==> !failed
  {
    out', failed := out, false;
    if end - start < MinRun(kind) { return; }
    var pads := 0;
    if kind.Base64Runs? {
      var k := if |data| - end < 2 then |data| - end else 2;
      var padding := ReadAt(data, end, k, faults);
      if padding.None? { return out, true; }
      pads := CountPads(padding.value, 0);
      SamePads(data, end, k);
    }
    var run := EncodedRun(data[start..end], pads, urlSafe);
    var n, bad, status := CountDecoded(kind, run, Budget(UpperBound(kind, |run.body| + run.pads)), faults);
    if status.ReadFailed? { return out, true; }
    if Accepted(kind, run) { EarlyStopSafe(kind, run); }
    if status.Finished? && n > 0 && bad <= Budget(n) {
      var stopped := Fails(faults);
      if stopped { return out, true; }
      out' := (if out == [] then [] else out + [NEWLINE]) + DecodeRun(kind, run).bytes;
    }
  }

  lemma SamePads(data: Word, end: nat, k: nat)
    requires end + k <= |data| && k == (if |data| - end < 2 then |data| - end else 2)
    ensures Pads(Base64Runs, data[end..end + k], 0) == Pads(Base64Runs, data, end)
  {
  }

  /** The accepted lines of all runs closed so far. */
  ghost predicate LinesTo(kind: Kind, data: Word, start: int, i: nat, out: Word) {
    && start <= i <= |data|
    && exists done :: done + Ahead(kind, data, start, i) == RunsFrom(kind, data, 0) && out == Lines(kind, done)
  }

  lemma LinesMove(kind: Kind, data: Word, start: int, i: nat, out: Word, start': int, i': nat, out': Word,
                  closed: seq<EncodedRun>)
    requires LinesTo(kind, data, start, i, out) && start' <= i' <= |data| && |closed| <= 1
    requires Ahead(kind, data, start, i) == closed + Ahead(kind, data, start', i')
    requires out' == if closed == [] then out else WithRun(kind, out, closed[0])
    ensures LinesTo(kind, data, start', i', out')
  {
    var done :| done + Ahead(kind, data, start, i) == RunsFrom(kind, data, 0) && out == Lines(kind, done);
    ConcatAssoc(done, closed, Ahead(kind, data, start', i'));
    LinesClosed(kind, done, closed);
  }

  lemma LinesClosed(kind: Kind, done: seq<EncodedRun>, closed: seq<EncodedRun>)
    requires |closed| <= 1
    ensures Lines(kind, done + closed) == if closed == [] then Lines(kind, done)
            else WithRun(kind, Lines(kind, done), closed[0])
  {
    var all := done + closed;
    if closed == [] {
      assert all == done;
    } else {
      assert all[..|done|] == done && all[..|done| + 1] == all;
      LinesNext(kind, all, |done|);
    }
  }

  /** One byte of a block. */
  method ScanByte(kind: Kind, data: Word, start: int, i: nat, c: byte, urlSafe: bool, out: Word, faults: bool)
    returns (start': int, urlSafe': bool, out': Word, failed: bool)
    requires start <= i < |data| && c == data[i] && Scanning(kind, data, start, i, urlSafe)
    requires LinesTo(kind, data, start, i, out)
    ensures !failed ==>
              start' <= i + 1 && Scanning(kind, data, start', i + 1, urlSafe')
                && LinesTo(kind, data, start', i + 1, out')
    ensures !faults ==> !failed
  {
    start', urlSafe', out', failed := start, urlSafe, out, false;
    if InRun(kind, c) {
      RunGoesOn(kind, data, start, i, urlSafe);
      if start < 0 { start', urlSafe' := i, false; }
      urlSafe' := NextUrlSafe(urlSafe', c);
      LinesMove(kind, data, start, i, out, start', i + 1, out', []);
    } else {
      RunBroken(kind, data, start, i, urlSafe);
      if start >= 0 {
        out', failed := FlushRun(kind, data, start, i, urlSafe, out, faults);
        if failed { return; }
      }
      start', urlSafe' := -1, false;
      LinesMove(kind, data, start, i, out, -1, i + 1, out', Closed(kind, data, start, i));
    }
  }

  method ScanRunBlock(kind: Kind, data: Word, start: int, offset: nat, block: Word, urlSafe: bool, out: Word,
                      faults: bool)
    returns (start': int, urlSafe': bool, out': Word, failed: bool)
    requires offset + |block| <= |data| && block == data[offset..offset + |block|]
    requires start <= offset && Scanning(kind, data, start, offset, urlSafe) && LinesTo(kind, data, start, offset, out)
    ensures !failed ==>
              && start' <= offset + |block| && Scanning(kind, data, start', offset + |block|, urlSafe')
              && LinesTo(kind, data, start', offset + |block|, out')
    ensures !faults ==> !failed
  {
    start', urlSafe', out', failed := start, urlSafe, out, false;
    var at: nat := offset;
    while at < offset + |block|
      invariant offset <= at <= offset + |block|
      invariant start' <= at && Scanning(kind, data, start', at, urlSafe') && LinesTo(kind, data, start', at, out')
    {
      start', urlSafe', out', failed := ScanByte(kind, data, start', at, block[at - offset], urlSafe', out', faults);
      if failed { return; }
      at := at + 1;
    }
  }

  /** Every accepted run of a stream, decoded, one per line, scanning block by block. */
  method DecodeStreamRuns(kind: Kind, data: Word, faults: bool) returns (out: Word, failed: bool)
    ensures !failed ==> out == Lines(kind, RunsFrom(kind, data, 0))
    ensures !faults ==> !failed
  {
    out, failed := [], false;
    var start, urlSafe := -1, false;
    var offset: nat := 0;
    NothingClosed(kind, data);
    while offset < |data|
      invariant offset <= |data| && start <= offset && Scanning(kind, data, start, offset, urlSafe)
      invariant LinesTo(kind, data, start, offset, out)
    {
      var stopped := Fails(faults);
      if stopped { return out, true; }
      var size := if |data| - offset < SCAN_BLOCK then |data| - offset else SCAN_BLOCK;
      var block := ReadAt(data, offset, size, faults);
      if block.None? { return out, true; }
      start, urlSafe, out, failed := ScanRunBlock(kind, data, start, offset, block.value, urlSafe, out, faults);
      if failed { return; }
      offset := offset + size;
    }
    out, failed := CloseLast(kind, data, start, urlSafe, out, faults);
  }

  /** The run that reaches the end of the data. */
  method CloseLast(kind: Kind, data: Word, start: int, urlSafe: bool, lines: Word, faults: bool)
    returns (out: Word, failed: bool)
    requires start <= |data| && Scanning(kind, data, start, |data|, urlSafe)
    requires LinesTo(kind, data, start, |data|, lines)
    ensures !failed ==> out == Lines(kind, RunsFrom(kind, data, 0))
    ensures !faults ==> !failed
  {
    out, failed := lines, false;
    RunCloses(kind, data, start, |data|, urlSafe);
    if start >= 0 {
      out, failed := FlushRun(kind, data, start, |data|, urlSafe, lines, faults);
      if failed { return; }
    }
    LinesMove(kind, data, start, |data|, lines, -1, |data|, out, Closed(kind, data, start, |data|));
    AllClosed(kind, data, out);
  }

  lemma NothingClosed(kind: Kind, data: Word)
    ensures LinesTo(kind, data, -1, 0, [])
  {
    assert [] + Ahead(kind, data, -1, 0) == RunsFrom(kind, data, 0) && Lines(kind, []) == [];
  }

  lemma AllClosed(kind: Kind, data: Word, out: Word)
    requires LinesTo(kind, data, -1, |data|, out)
    ensures out == Lines(kind, RunsFrom(kind, data, 0))
  {
    var done :| done + Ahead(kind, data, -1, |data|) == RunsFrom(kind, data, 0) && out == Lines(kind, done);
    assert done == RunsFrom(kind, data, 0);
  }

  // ---------------------------------------------------------------------------------------
  // All variants of a stream

  method WalkRuns(kind: Kind, data: Word, faults: bool) returns (visited: seq<Variant>, failed: bool)
    ensures !failed ==> visited == RunVariant(data, kind)
    ensures failed ==> visited == []
    ensures !faults ==> !failed
  {
    var out;
    out, failed := DecodeStreamRuns(kind, data, faults);
    if failed || out == [] { return [], failed; }
    return [Variant(if kind.Base64Runs? then Base64 else Hex, out)], false;
  }

  method WalkPercent(data: Word, faults: bool) returns (visited: seq<Variant>, failed: bool)
    ensures !failed ==> visited == PercentVariant(data)
    ensures failed ==> visited == []
    ensures !faults ==> !failed
  {
    var eligible;
    eligible, failed := StreamEligible(PercentGate, data, faults);
    assert forall i :: PairAt(PercentGate, data, i) <==> PercentPairAt(data, i);
    if failed || !eligible { return [], failed; }
    var limit := ReadLimit(data, faults);
    var out;
    out, failed := TransformPercent(data, limit);
    if failed || !MostlyPrintable(out) { return [], failed; }
    return [Variant(Percent, out)], false;
  }

  method WalkUnicode(data: Word, faults: bool) returns (visited: seq<Variant>, failed: bool)
    ensures !failed ==> visited == UnicodeVariant(data)
    ensures failed ==> visited == []
    ensures !faults ==> !failed
  {
    var eligible;
    eligible, failed := StreamEligible(UnicodeGate, data, faults);
    assert forall i :: PairAt(UnicodeGate, data, i) <==> UnicodePairAt(data, i);
    if failed || !eligible { return [], failed; }
    var limit := ReadLimit(data, faults);
    var out;
    out, failed := TransformUnicode(data, limit);
    if failed || !MostlyPrintable(out) { return [], failed; }
    return [Variant(UnicodeEscape, out)], false;
  }

  method WalkUtf16(data: Word, faults: bool) returns (visited: seq<Variant>, failed: bool)
    ensures !failed ==> visited == Utf16Variant(data)
    ensures failed ==> visited == []
    ensures !faults ==> !failed
  {
    var prefix := ReadAt(data, 0, if |data| < 128 then |data| else 128, faults);
    if prefix.None? { return [], true; }
    SniffPrefix(data);
    assert prefix.value == data[..if |data| < 128 then |data| else 128];
    var kind := SniffUtf16(prefix.value);
    if kind.NotUtf16? { return [], false; }
    var limit := ReadLimit(data, faults);
    var out;
    out, failed := TransformUtf16(data, limit, kind.LittleEndian?);
    if failed || !MostlyPrintable(out) { return [], failed; }
    return [Variant(if kind.LittleEndian? then Utf16le else Utf16be, out)], false;
  }

  /** The decoders in the order they are tried. */
  datatype Decoder = Base64Decoder | PercentDecoder | HexDecoder | Utf16Decoder | UnicodeDecoder

  const DECODERS := [Base64Decoder, PercentDecoder, HexDecoder, Utf16Decoder, UnicodeDecoder]

  ghost function VariantBy(decoder: Decoder, data: Word): seq<Variant> {
    match decoder
    case Base64Decoder => RunVariant(data, Base64Runs)
    case PercentDecoder => PercentVariant(data)
    case HexDecoder => RunVariant(data, HexRuns)
    case Utf16Decoder => Utf16Variant(data)
    case UnicodeDecoder => UnicodeVariant(data)
  }

  ghost function VariantsBy(decoders: seq<Decoder>, data: Word): seq<Variant> {
    if decoders == [] then [Variant(Raw, data)]
    else VariantsBy(decoders[..|decoders| - 1], data) + VariantBy(decoders[|decoders| - 1], data)
  }

  lemma DecodersInOrder(data: Word)
    ensures VariantsBy(DECODERS, data) == VariantsOf(data)
  {
    FiveDecoders(data);
  }

  lemma FiveDecoders(data: Word)
    ensures VariantsBy(DECODERS, data) ==
            [Variant(Raw, data)] + VariantBy(Base64Decoder, data) + VariantBy(PercentDecoder, data)
              + VariantBy(HexDecoder, data)
            + VariantBy(Utf16Decoder, data) + VariantBy(UnicodeDecoder, data)
  {
    var d := DECODERS;
    VariantsByNext(d, 0, data);
    VariantsByNext(d, 1, data);
    VariantsByNext(d, 2, data);
    VariantsByNext(d, 3, data);
    VariantsByNext(d, 4, data);
    assert d[..0] == [] && d[..5] == d;
  }

  lemma {:induction false} VariantsByPrefix(decoders: seq<Decoder>, k: nat, data: Word)
    requires k <= |decoders|
    ensures VariantsBy(decoders[..k], data) <= VariantsBy(decoders, data)
    decreases |decoders|
  {
    if k == |decoders| {
      assert decoders[..k] == decoders;
    } else {
      var front := decoders[..|decoders| - 1];
      VariantsByPrefix(front, k, data);
      assert front[..k] == decoders[..k];
    }
  }

  lemma VariantsByNext(decoders: seq<Decoder>, k: nat, data: Word)
    requires k < |decoders|
    ensures VariantsBy(decoders[..k + 1], data) == VariantsBy(decoders[..k], data) + VariantBy(decoders[k], data)
  {
    assert decoders[..k + 1][..k] == decoders[..k];
  }

  method WalkDecoded(decoder: Decoder, data: Word, faults: bool) returns (visited: seq<Variant>, failed: bool)
    ensures !failed ==> visited == VariantBy(decoder, data)
    ensures failed ==> visited == []
    ensures !faults ==> !failed
  {
    match decoder
    case Base64Decoder => visited, failed := WalkRuns(Base64Runs, data, faults);
    case PercentDecoder => visited, failed := WalkPercent(data, faults);
    case HexDecoder => visited, failed := WalkRuns(HexRuns, data, faults);
    case Utf16Decoder => visited, failed := WalkUtf16(data, faults);
    case UnicodeDecoder => visited, failed := WalkUnicode(data, faults);
  }

  /** Visits exactly the variants that the buffered form returns, in the same order; a failure cuts the
      list short. */
  method WalkVariants(data: Word, faults: bool) returns (visited: seq<Variant>, failed: bool)
    ensures !failed ==> visited == VariantsOf(data)
    ensures failed ==> visited <= VariantsOf(data)
    ensures !faults ==> !failed
  {
    failed := false;
    DecodersInOrder(data);
    var stopped := Fails(faults);
    if stopped { return [], true; }
    visited := [Variant(Raw, data)];
    for k := 0 to |DECODERS|
      invariant visited == VariantsBy(DECODERS[..k], data)
    {
      var more;
      more, failed := WalkDecoded(DECODERS[k], data, faults);
      if failed {
        VariantsByPrefix(DECODERS, k, data);
        return;
      }
      VariantsByNext(DECODERS, k, data);
      visited := visited + more;
    }
    assert DECODERS[..|DECODERS|] == DECODERS;
    failed := Fails(faults);
  }
}
