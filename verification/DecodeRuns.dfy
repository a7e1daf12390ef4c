/** Runs of base64 and hexadecimal signs in a buffered input, and their decoding into reused storage. */
module DecodeRuns {
  import opened Bytes
  import opened DecodeSpec
  import opened DecodeBuffered

  // ---------------------------------------------------------------------------------------
  // Locating runs

  ghost predicate AllInRun(kind: Kind, data: Word, i: nat, j: nat) {
    j <= |data| && forall k :: i <= k < j ==> InRun(kind, data[k])
  }

  /** A run is the same from any of its signs. */
  lemma {:induction false} RunThrough(kind: Kind, data: Word, i: nat, j: nat)
    requires i <= j && AllInRun(kind, data, i, j)
    ensures RunEnd(kind, data, i) == RunEnd(kind, data, j)
    decreases j - i
  {
    if i < j { RunThrough(kind, data, i + 1, j); }
  }

  /** What a scanner that has a run open since `start` (or none) still has to report. */
  ghost function Ahead(kind: Kind, data: Word, start: int, i: nat): seq<EncodedRun>
    requires start <= i <= |data|
  {
    RunsFrom(kind, data, if start >= 0 then start else i)
  }

  /** A scanner position: an open run has only signs so far, and its alphabet is known. */
  ghost predicate Scanning(kind: Kind, data: Word, start: int, i: nat, urlSafe: bool) {
    && i <= |data|
    && (start >= 0 ==> start < i && AllInRun(kind, data, start, i) && urlSafe == UrlSafe(data[start..i]))
  }

  /** The run that ends at `i`, if it is long enough. */
  ghost function Closed(kind: Kind, data: Word, start: int, i: nat): seq<EncodedRun>
    requires start <= i <= |data|
  {
    if start >= 0 && i - start >= MinRun(kind) then [RunAt(kind, data, start, i)] else []
  }

  /** A run ends where a byte outside the alphabet stands, or at the end of the data. */
  lemma RunCloses(kind: Kind, data: Word, start: int, i: nat, urlSafe: bool)
    requires Scanning(kind, data, start, i, urlSafe) && (i == |data| || !InRun(kind, data[i]))
    ensures Ahead(kind, data, start, i) == Closed(kind, data, start, i) + RunsFrom(kind, data, i)
  {
    if start >= 0 {
      RunThrough(kind, data, start, i);
    }
  }

  function NextUrlSafe(urlSafe: bool, c: byte): bool {
    if c == 45 || c == 95 then true else if c == 43 || c == 47 then false else urlSafe
  }

  /** One more sign. */
  lemma RunGoesOn(kind: Kind, data: Word, start: int, i: nat, urlSafe: bool)
    requires Scanning(kind, data, start, i, urlSafe) && i < |data| && InRun(kind, data[i])
    ensures var start' := if start < 0 then i else start;
            var urlSafe' := NextUrlSafe(start >= 0 && urlSafe, data[i]);
            Scanning(kind, data, start', i + 1, urlSafe')
              && Ahead(kind, data, start, i) == Ahead(kind, data, start', i + 1)
  {
    var start' := if start < 0 then i else start;
    var s := data[start'..i + 1];
    assert s[..|s| - 1] == data[start'..i];
  }

  /** One byte that is no sign. */
  lemma RunBroken(kind: Kind, data: Word, start: int, i: nat, urlSafe: bool)
    requires Scanning(kind, data, start, i, urlSafe) && i < |data| && !InRun(kind, data[i])
    ensures Scanning(kind, data, -1, i + 1, false)
    ensures Ahead(kind, data, start, i) == Closed(kind, data, start, i) + Ahead(kind, data, -1, i + 1)
  {
    RunCloses(kind, data, start, i, urlSafe);
  }

  /** The base64 runs, each with its padding and its alphabet. */
  method WalkBase64Runs(data: Word) returns (runs: seq<EncodedRun>)
    ensures runs == RunsFrom(Base64Runs, data, 0)
  {
    runs := [];
    var start, urlSafe := -1, false;
    ghost var all := RunsFrom(Base64Runs, data, 0);
    for i := 0 to |data|
      invariant start <= i && Scanning(Base64Runs, data, start, i, urlSafe)
      invariant runs + Ahead(Base64Runs, data, start, i) == all
    {
      var c := data[i];
      if IsBase64(c) {
        RunGoesOn(Base64Runs, data, start, i, urlSafe);
        if start < 0 { start, urlSafe := i, false; }
        urlSafe := NextUrlSafe(urlSafe, c);
      } else {
        RunBroken(Base64Runs, data, start, i, urlSafe);
        ConcatAssoc(runs, Closed(Base64Runs, data, start, i), Ahead(Base64Runs, data, -1, i + 1));
        if start >= 0 {
          if i - start >= MIN_BASE64_RUN {
            var pad := CountPads(data, i);
            runs := runs + [EncodedRun(data[start..i], pad, urlSafe)];
          }
          start := -1;
        }
      }
    }
    RunCloses(Base64Runs, data, start, |data|, urlSafe);
    if start >= 0 && |data| - start >= MIN_BASE64_RUN {
      runs := runs + [EncodedRun(data[start..], 0, urlSafe)];
      assert data[start..] == data[start..|data|];
    }
  }

  method CountPads(data: Word, end: nat) returns (pad: nat)
    requires end <= |data|
    ensures pad == Pads(Base64Runs, data, end)
  {
    pad := 0;
    while pad < 2 && end + pad < |data| && data[end + pad] == 61
      invariant pad <= 2 && end + pad <= |data|
      invariant (pad >= 1 ==> data[end] == 61) && (pad == 2 ==> data[end + 1] == 61)
    {
      pad := pad + 1;
    }
  }

  /** The hexadecimal runs. */
  method WalkHexRuns(data: Word) returns (runs: seq<EncodedRun>)
    ensures runs == RunsFrom(HexRuns, data, 0)
  {
    runs := [];
    var start := -1;
    ghost var all, urlSafe := RunsFrom(HexRuns, data, 0), false;
    for i := 0 to |data|
      invariant start <= i && Scanning(HexRuns, data, start, i, urlSafe)
      invariant runs + Ahead(HexRuns, data, start, i) == all
    {
      if IsHex(data[i]) {
        RunGoesOn(HexRuns, data, start, i, urlSafe);
        urlSafe := NextUrlSafe(start >= 0 && urlSafe, data[i]);
        if start < 0 { start := i; }
      } else {
        RunBroken(HexRuns, data, start, i, urlSafe);
        ConcatAssoc(runs, Closed(HexRuns, data, start, i), Ahead(HexRuns, data, -1, i + 1));
        runs := CloseHexRun(data, start, i, urlSafe, runs);
        start := -1;
      }
    }
    RunCloses(HexRuns, data, start, |data|, urlSafe);
    runs := CloseHexRun(data, start, |data|, urlSafe, runs);
  }

  /** Reports the run that ends at `i`, if it is long enough. */
  method CloseHexRun(data: Word, start: int, i: nat, ghost urlSafe: bool, runs: seq<EncodedRun>)
    returns (runs': seq<EncodedRun>)
    requires start <= i && Scanning(HexRuns, data, start, i, urlSafe)
    ensures runs' == runs + Closed(HexRuns, data, start, i)
  {
    runs' := runs;
    if start >= 0 && i - start >= MIN_HEX_RUN {
      NoMarks(data[start..i]);
      runs' := runs + [EncodedRun(data[start..i], 0, false)];
    }
  }

  /** Hexadecimal digits say nothing about the base64 alphabet. */
  lemma {:induction false} NoMarks(s: Word)
    requires forall k :: 0 <= k < |s| ==> IsHex(s[k])
    ensures !UrlSafe(s)
  {
    if s != [] {
      NoMarks(s[..|s| - 1]);
    }
  }

  // ---------------------------------------------------------------------------------------
  // Decoding into reused storage

  /** How many bytes a group of signs gives. */
  function GroupBytes(m: nat): nat {
    m / 4 * 3 + (if m % 4 == 2 then 1 else if m % 4 == 3 then 2 else 0)
  }

  lemma {:induction false} SextetsLength(s: Word, u: bool, i: nat)
    requires AllIn(s, u) && i <= |s|
    ensures |Sextets(s, u, i)| == GroupBytes(|s| - i)
    decreases |s| - i
  {
    if i + 4 <= |s| {
      SextetsLength(s, u, i + 4);
      GroupLess(|s| - i);
    }
  }

  lemma GroupLess(m: nat)
    requires m >= 4
    ensures GroupBytes(m) == 3 + GroupBytes(m - 4)
  {
  }

  /** Room for the decoding of `n` signs under any of the encodings. */
  function Base64DecodedLen(n: nat): nat {
    var padded := n / 4 * 3;
    var raw := n * 6 / 8;
    if raw > padded then raw else padded
  }

  lemma DecodedFits(enc: Encoding, body: Word, pads: nat)
    requires DecodeBase64(enc, body, pads).Bytes?
    ensures |DecodeBase64(enc, body, pads).bytes| <= Base64DecodedLen(|body| + pads)
  {
    SextetsLength(body, enc.urlSafe, 0);
  }

  /** The library decoder: on success the bytes stand at `start`; on failure anything may have been
      written into the room it was given. */
  method LibraryDecode(enc: Encoding, body: Word, pads: nat, dst: array<byte>, start: nat) returns (n: nat, ok: bool)
    requires start + Base64DecodedLen(|body| + pads) <= dst.Length
    modifies dst
    ensures dst[..start] == old(dst[..start])
    ensures ok <==> DecodeBase64(enc, body, pads).Bytes?
    ensures ok ==>
              n == |DecodeBase64(enc, body, pads).bytes| && start + n <= dst.Length
                && dst[start..start + n] == DecodeBase64(enc, body, pads).bytes
  {
    var decoded := DecodeBase64(enc, body, pads);
    ok := decoded.Bytes?;
    n := 0;
    if ok {
      DecodedFits(enc, body, pads);
      Put(dst, start, decoded.bytes);
      n := |decoded.bytes|;
    } else {
      var garbage: Word := *;
      if |garbage| <= Base64DecodedLen(|body| + pads) { Put(dst, start, garbage); }
    }
  }

  method Put(dst: array<byte>, start: nat, s: Word)
    requires start + |s| <= dst.Length
    modifies dst
    ensures dst[..start] == old(dst[..start]) && dst[start..start + |s|] == s
  {
    for k := 0 to |s|
      invariant dst[..start] == old(dst[..start]) && dst[start..start + k] == s[..k]
    {
      dst[start + k] := s[k];
      assert dst[start..start + k + 1] == dst[start..start + k] + [s[k]];
      assert s[..k + 1] == s[..k] + [s[k]];
    }
    assert s[..|s|] == s;
  }

  /** Where the encoding guessed from the padding fails, the complementary one fails or gives nothing too. */
  lemma FallbackNeverHelps(enc: Encoding, body: Word, pads: nat)
    requires enc.padded == (pads > 0)
    requires DecodeBase64(enc, body, pads).Rejected? || DecodeBase64(enc, body, pads).bytes == []
    ensures var other := DecodeBase64(enc.(padded := !enc.padded), body, pads);
            other.Rejected? || other.bytes == []
  {
  }

  /** Decodes one run, trying the complementary padding when the first attempt fails. */
  method DecodeBase64Into(run: EncodedRun, dst: array<byte>, start: nat) returns (n: nat, ok: bool)
    requires start + Base64DecodedLen(|run.body| + run.pads) <= dst.Length
    modifies dst
    ensures dst[..start] == old(dst[..start])
    ensures ok <==> DecodeRun(Base64Runs, run).Bytes? && DecodeRun(Base64Runs, run).bytes != []
    ensures ok ==>
              n == |DecodeRun(Base64Runs, run).bytes| && start + n <= dst.Length
                && dst[start..start + n] == DecodeRun(Base64Runs, run).bytes
  {
    var enc := Encoding(run.urlSafe, run.pads > 0);
    n, ok := LibraryDecode(enc, run.body, run.pads, dst, start);
    if ok && n > 0 { return; }
    FallbackNeverHelps(enc, run.body, run.pads);
    n, ok := LibraryDecode(enc.(padded := !enc.padded), run.body, run.pads, dst, start);
    ok := ok && n > 0;
  }

  /** What one more run adds to the accepted lines. */
  ghost function WithRun(kind: Kind, front: Word, run: EncodedRun): Word {
    if !Accepted(kind, run) then front
    else front + (if front == [] then [] else [NEWLINE]) + DecodeRun(kind, run).bytes
  }

  lemma LinesNext(kind: Kind, runs: seq<EncodedRun>, i: nat)
    requires i < |runs|
    ensures Lines(kind, runs[..i + 1]) == WithRun(kind, Lines(kind, runs[..i]), runs[i])
  {
    assert runs[..i + 1][..i] == runs[..i];
  }

  /** Storage with room for `size` bytes that keeps the first `len`. */
  method Grown(buf: array<byte>, len: nat, size: nat) returns (buf': array<byte>)
    requires len <= buf.Length && len <= size
    ensures fresh(buf') && buf'.Length == size && buf'[..len] == buf[..len]
  {
    buf' := new byte[size](_ => 0);
    Put(buf', 0, buf[..len]);
    assert buf'[0..0 + len] == buf'[..len];
  }

  /** Moves the output to owned storage once the scratch storage is too small. */
  method WithRoom(buf: array<byte>, owned: bool, len: nat, size: nat) returns (buf': array<byte>, owned': bool)
    requires len <= buf.Length && len <= size
    ensures size <= buf'.Length && buf'[..len] == buf[..len] && (fresh(buf') || buf' == buf)
    ensures !owned' ==> buf' == buf && !owned
  {
    buf', owned' := buf, owned;
    if !owned && size > buf.Length {
      buf' := Grown(buf, len, len);
      owned' := true;
    }
    if size > buf'.Length { buf' := Grown(buf', len, size); }
  }

  /** Appends one run's decoding if it is accepted. The separator is written only then, and the room behind
      the current output is all that a rejected run touches. */
  method AppendRun(run: EncodedRun, buf: array<byte>, owned: bool, len: nat)
    returns (buf': array<byte>, owned': bool, len': nat)
    requires len <= buf.Length
    modifies buf
    ensures len' <= buf'.Length && (fresh(buf') || buf' == buf) && (!owned' ==> buf' == buf && !owned)
    ensures buf'[..len'] == WithRun(Base64Runs, old(buf[..len]), run)
  {
    var needed := Base64DecodedLen(|run.body| + run.pads);
    var start := if len > 0 then len + 1 else len;
    len' := len;
    buf', owned' := WithRoom(buf, owned, len, start + needed);
    ghost var front := buf'[..len];
    assert front == buf'[..start][..len];
    var n, ok := DecodeBase64Into(run, buf', start);
    assert buf'[..len] == buf'[..start][..len] == front;
    if ok {
      var printable := CheckPrintable(buf'[start..start + n]);
      if printable {
        if len > 0 { buf'[start - 1] := NEWLINE; }
        len' := start + n;
        Joined(buf'[..len'], len, start, front, DecodeRun(Base64Runs, run).bytes);
      }
    }
  }

  lemma Joined(s: Word, len: nat, start: nat, front: Word, bytes: Word)
    requires len <= start <= |s| && start == (if len > 0 then len + 1 else len)
    requires s[..len] == front && s[start..] == bytes && (len > 0 ==> s[len] == NEWLINE)
    ensures s == front + (if front == [] then [] else [NEWLINE]) + bytes
  {
    assert s == s[..len] + s[len..start] + s[start..];
    if len > 0 { assert s[len..start] == [NEWLINE]; }
  }

  /** Every accepted base64 run, decoded, one per line: whatever the scratch storage holds and however large it is. */
  method DecodeBase64WithScratch(data: Word, scratch: array<byte>) returns (out: Word)
    modifies scratch
    ensures out == Lines(Base64Runs, RunsFrom(Base64Runs, data, 0))
  {
    var runs := WalkBase64Runs(data);
    var buf, owned, len: nat := scratch, false, 0;
    for i := 0 to |runs|
      invariant len <= buf.Length && (buf == scratch || fresh(buf))
      invariant buf[..len] == Lines(Base64Runs, runs[..i])
    {
      LinesNext(Base64Runs, runs, i);
      buf, owned, len := AppendRun(runs[i], buf, owned, len);
    }
    assert runs[..|runs|] == runs;
    out := buf[..len];
  }

  /** Every accepted hexadecimal run, decoded, one per line. */
  method DecodeHexRuns(data: Word) returns (out: Word)
    ensures out == Lines(HexRuns, RunsFrom(HexRuns, data, 0))
  {
    var runs := WalkHexRuns(data);
    out := [];
    for i := 0 to |runs|
      invariant out == Lines(HexRuns, runs[..i])
    {
      LinesNext(HexRuns, runs, i);
      var decoded := DecodeHex(runs[i].body);
      if decoded.Bytes? {
        var printable := CheckPrintable(decoded.bytes);
        if printable { out := if out == [] then decoded.bytes else out + [NEWLINE] + decoded.bytes; }
      }
    }
    assert runs[..|runs|] == runs;
  }
}
