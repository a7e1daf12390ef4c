/** Encoded text inside an input is found: it appears, decoded, in the variants of the input. */
module DecodeFound {
  import opened Bytes
  import opened DecodeSpec
  import opened DecodeRoundTrip
  import opened DecodeRuns

  // ---------------------------------------------------------------------------------------
  // Runs

  lemma {:induction false} RunStopsBefore(kind: Kind, data: Word, j: nat, k: nat)
    requires j <= k < |data| && !InRun(kind, data[k])
    ensures RunEnd(kind, data, j) <= k
    decreases k - j
  {
    if j < k { RunStopsBefore(kind, data, j + 1, k); }
  }

  /** A maximal run from `i` to `e`. */
  ghost predicate MaximalRun(kind: Kind, data: Word, i: nat, e: nat) {
    && i < e && AllInRun(kind, data, i, e) && (i == 0 || !InRun(kind, data[i - 1]))
    && (e == |data| || !InRun(kind, data[e]))
  }

  /** A maximal run that is long enough is reported. */
  lemma {:induction false} RunReported(kind: Kind, data: Word, j: nat, i: nat, e: nat)
    requires j <= i && MaximalRun(kind, data, i, e) && e - i >= MinRun(kind)
    ensures RunAt(kind, data, i, e) in RunsFrom(kind, data, j)
    decreases i - j
  {
    if j == i {
      RunThrough(kind, data, i, e);
    } else if !InRun(kind, data[j]) {
      RunReported(kind, data, j + 1, i, e);
    } else {
      RunStopsBefore(kind, data, j, i - 1);
      RunReported(kind, data, RunEnd(kind, data, j), i, e);
    }
  }

  lemma OccursFurther(s: Word, t: Word, raw: Word)
    requires Occurs(s, raw)
    ensures Occurs(s + t, raw)
  {
    var i :| OccursAt(s, raw, i);
    assert (s + t)[i..i + |raw|] == s[i..i + |raw|];
    assert OccursAt(s + t, raw, i);
  }

  /** The decoding of an accepted run is part of the lines. */
  lemma {:induction false} LineListed(kind: Kind, runs: seq<EncodedRun>, run: EncodedRun)
    requires run in runs && Accepted(kind, run)
    ensures Occurs(Lines(kind, runs), DecodeRun(kind, run).bytes) && Lines(kind, runs) != []
  {
    var front, last := runs[..|runs| - 1], runs[|runs| - 1];
    var bytes := DecodeRun(kind, run).bytes;
    if run == last {
      var before := Lines(kind, front) + (if Lines(kind, front) == [] then [] else [NEWLINE]);
      assert Lines(kind, runs) == before + bytes;
      assert OccursAt(before + bytes, bytes, |before|);
    } else {
      assert run in front;
      LineListed(kind, front, run);
      if Accepted(kind, last) {
        var sep := if Lines(kind, front) == [] then [] else [NEWLINE];
        OccursFurther(Lines(kind, front), sep, bytes);
        OccursFurther(Lines(kind, front) + sep, DecodeRun(kind, last).bytes, bytes);
      }
    }
  }

  /** Some variant from the given decoder holds the bytes. */
  ghost predicate FoundIn(data: Word, source: Source, bytes: Word) {
    exists v :: v in VariantsOf(data) && v.source == source && Occurs(v.bytes, bytes)
  }

  ghost function SourceOf(kind: Kind): Source {
    if kind.Base64Runs? then Base64 else Hex
  }

  /** The decoding of an accepted maximal run is found. */
  lemma RunFound(kind: Kind, data: Word, i: nat, e: nat)
    requires MaximalRun(kind, data, i, e) && e - i >= MinRun(kind) && Accepted(kind, RunAt(kind, data, i, e))
    ensures FoundIn(data, SourceOf(kind), DecodeRun(kind, RunAt(kind, data, i, e)).bytes)
  {
    var run, runs := RunAt(kind, data, i, e), RunsFrom(kind, data, 0);
    RunReported(kind, data, 0, i, e);
    LineListed(kind, runs, run);
    var lines := Lines(kind, runs);
    var v := Variant(SourceOf(kind), lines);
    assert v in RunVariant(data, kind);
    assert v in VariantsOf(data);
  }

  // ---------------------------------------------------------------------------------------
  // Hexadecimal and base64 text

  /** The byte before and the byte behind do not belong to the text. */
  ghost predicate SetApart(kind: Kind, before: Word, behind: Word) {
    (before == [] || !InRun(kind, before[|before| - 1])) && (behind == [] || !InRun(kind, behind[0]))
  }

  lemma EmbeddedRun(kind: Kind, before: Word, signs: Word, behind: Word)
    requires signs != [] && SetApart(kind, before, behind) && forall k :: 0 <= k < |signs| ==> InRun(kind, signs[k])
    ensures var data := before + signs + behind;
            MaximalRun(kind, data, |before|, |before| + |signs|) && data[|before|..|before| + |signs|] == signs
  {
  }

  /** Printable text in hexadecimal, in either letter case and set apart from its surroundings, is found. */
  lemma HexFound(before: Word, x: Word, upper: bool, behind: Word)
    requires |x| >= 20 && MostlyPrintable(x) && SetApart(HexRuns, before, behind)
    ensures FoundIn(before + HexOf(x, upper, 0) + behind, Hex, x)
  {
    var signs := HexOf(x, upper, 0);
    var data, i, e := before + signs + behind, |before|, |before| + |signs|;
    HexDigitsOnly(x, upper, 0);
    EmbeddedRun(HexRuns, before, signs, behind);
    HexRoundTrip(x, upper);
    RunFound(HexRuns, data, i, e);
  }

  lemma {:induction false} AlphabetsAgree(s: Word, i: nat)
    requires i <= |s| && AllIn(s, true) && AllIn(s, false)
    ensures Sextets(s, true, i) == Sextets(s, false, i)
    decreases |s| - i
  {
    if i + 4 <= |s| { AlphabetsAgree(s, i + 4); }
  }

  /** Without a sign of the URL-safe alphabet in force, no URL-safe sign is there at all. */
  lemma {:induction false} NoUrlSigns(s: Word)
    requires AllIn(s, true) && !UrlSafe(s)
    ensures AllIn(s, false)
  {
    if s != [] {
      var front := s[..|s| - 1];
      NoUrlSigns(front);
      assert forall k :: 0 <= k < |s| ==> (k < |front| && s[k] == front[k]) || k == |s| - 1;
    }
  }

  lemma {:induction false} StandardSigns(s: Word)
    requires AllIn(s, false)
    ensures !UrlSafe(s)
  {
    if s != [] { StandardSigns(s[..|s| - 1]); }
  }

  /** The alphabet guessed from the signs decodes what either alphabet encoded. */
  lemma GuessDecodes(x: Word, u: bool, padded: bool)
    ensures var s, pads := Signs(x, u, 0), PadsFor(Encoding(u, padded), |x|);
            DecodeBase64(Encoding(UrlSafe(s), pads > 0), s, pads) == Bytes(x)
  {
    var s, pads := Signs(x, u, 0), PadsFor(Encoding(u, padded), |x|);
    SignsIn(x, u, 0);
    Base64RoundTrip(Encoding(u, padded), x);
    if !u {
      StandardSigns(s);
    } else if !UrlSafe(s) {
      NoUrlSigns(s);
      AlphabetsAgree(s, 0);
    }
  }

  function Padding(n: nat): (s: Word)
    ensures |s| == n && forall k :: 0 <= k < n ==> s[k] == 61
  {
    seq(n, _ => 61)
  }

  lemma SignsInRun(s: Word, u: bool)
    requires AllIn(s, u)
    ensures forall k :: 0 <= k < |s| ==> InRun(Base64Runs, s[k])
  {
  }

  /** Padding behind a run is counted, up to the two signs that can belong to it. */
  lemma PadsCounted(front: Word, pads: nat, behind: Word)
    requires pads <= 2 && (pads == 2 || behind == [] || behind[0] != 61)
    ensures Pads(Base64Runs, front + (Padding(pads) + behind), |front|) == pads
  {
  }

  /** The run of encoded text is the one that decodes to it. */
  lemma EncodedRunDecodes(data: Word, i: nat, e: nat, x: Word, u: bool, padded: bool)
    requires i <= e <= |data| && data[i..e] == Signs(x, u, 0)
    requires Pads(Base64Runs, data, e) == PadsFor(Encoding(u, padded), |x|)
    ensures DecodeRun(Base64Runs, RunAt(Base64Runs, data, i, e)) == Bytes(x)
  {
    GuessDecodes(x, u, padded);
  }

  lemma PaddingApart(pads: nat, behind: Word)
    requires behind == [] || !InRun(Base64Runs, behind[0])
    ensures Padding(pads) + behind == [] || !InRun(Base64Runs, (Padding(pads) + behind)[0])
  {
  }

  /** Printable text in base64, in either alphabet, padded or not and set apart from its surroundings, is found. */
  lemma Base64Found(before: Word, x: Word, u: bool, padded: bool, behind: Word)
    requires |x| >= 24 && MostlyPrintable(x) && SetApart(Base64Runs, before, behind)
    requires PadsFor(Encoding(u, padded), |x|) == 2 || behind == [] || behind[0] != 61
    ensures FoundIn(before + Signs(x, u, 0) + (Padding(PadsFor(Encoding(u, padded), |x|)) + behind), Base64, x)
  {
    var signs, pads := Signs(x, u, 0), PadsFor(Encoding(u, padded), |x|);
    var tail := Padding(pads) + behind;
    var data, i, e := before + signs + tail, |before|, |before| + |signs|;
    SignsIn(x, u, 0);
    SignsInRun(signs, u);
    PaddingApart(pads, behind);
    EmbeddedRun(Base64Runs, before, signs, tail);
    PadsCounted(before + signs, pads, behind);
    EncodedRunDecodes(data, i, e, x, u, padded);
    RunFound(Base64Runs, data, i, e);
  }

  // ---------------------------------------------------------------------------------------
  // UTF-16 text

  ghost predicate Ascii(t: seq<int>) {
    forall i :: 0 <= i < |t| ==> 0 < t[i] < 128
  }

  /** The bytes of ASCII text in UTF-16: NULs at odd offsets, or at even ones. */
  lemma {:induction false} AsciiBytes(t: seq<int>, le: bool, i: nat)
    requires Ascii(t) && Text(t) && i <= |t|
    ensures var s := Utf16Of(t, le, i);
            |s| == 2 * (|t| - i) && forall k :: 0 <= k < |t| - i ==> NulAt(s, t, le, i, k)
    decreases |t| - i
  {
    if i < |t| {
      AsciiBytes(t, le, i + 1);
      var s, rest := Utf16Of(t, le, i), Utf16Of(t, le, i + 1);
      assert s == CharBytes(t[i], le) + rest;
      forall k | 0 <= k < |t| - i ensures NulAt(s, t, le, i, k) {
        if k > 0 { assert NulAt(rest, t, le, i + 1, k - 1); }
      }
    }
  }

  ghost predicate NulAt(s: Word, t: seq<int>, le: bool, i: nat, k: int)
    requires i <= |t|
  {
    && 0 <= k < |t| - i && 2 * k + 1 < |s|
    && (if le then s[2 * k] == t[i + k] && s[2 * k + 1] == 0 else s[2 * k] == 0 && s[2 * k + 1] == t[i + k])
  }

  lemma {:induction false} AsciiNuls(s: Word, t: seq<int>, le: bool, k: nat, odd: bool)
    requires Ascii(t) && |s| == 2 * |t| && k <= |t| && forall j :: 0 <= j < |t| ==> NulAt(s, t, le, 0, j)
    ensures NulsAt(s, 2 * k, odd) == if odd == le then k else 0
  {
    if k > 0 {
      AsciiNuls(s, t, le, k - 1, odd);
      assert NulAt(s, t, le, 0, k - 1);
      assert 2 * k - 1 == 2 * (k - 1) + 1;
      assert NulsAt(s, 2 * k, odd) == NulsAt(s, 2 * k - 1, odd) + (if s[2 * k - 1] == 0 && odd then 1 else 0);
      assert NulsAt(s, 2 * k - 1, odd) == NulsAt(s, 2 * k - 2, odd) + (if s[2 * k - 2] == 0 && !odd then 1 else 0);
    }
  }

  /** ASCII text of at least four characters is recognised in either byte order, without a byte order mark. */
  lemma AsciiSniffed(t: seq<int>, le: bool)
    requires Ascii(t) && Text(t) && |t| >= 4
    ensures Sniff(Utf16Of(t, le, 0)) == if le then LittleEndian else BigEndian
  {
    var s := Utf16Of(t, le, 0);
    AsciiBytes(t, le, 0);
    assert NulAt(s, t, le, 0, 0);
    var n := SampleLen(|s|);
    var k := if |t| > 64 then 64 else |t|;
    assert n == 2 * k;
    AsciiNuls(s, t, le, k, true);
    AsciiNuls(s, t, le, k, false);
  }

  lemma {:induction false} NoNuls(s: Word, n: nat, odd: bool)
    requires n <= |s| && 0 !in s
    ensures NulsAt(s, n, odd) == 0
  {
    if n > 0 { NoNuls(s, n - 1, odd); }
  }

  /** Bytes without a NUL are taken for UTF-16 exactly when a byte order mark leads four or more of them. */
  lemma PlainSniffed(s: Word)
    requires 0 !in s
    ensures Sniff(s) != NotUtf16 <==> |s| >= 4 && (s[..2] == [0xFF, 0xFE] || s[..2] == [0xFE, 0xFF])
  {
    NoNuls(s, SampleLen(|s|), true);
    NoNuls(s, SampleLen(|s|), false);
    if |s| >= 4 {
      assert s[..2] == [s[0], s[1]];
    }
  }

  ghost predicate PrintableText(t: seq<int>) {
    forall i :: 0 <= i < |t| ==> 0x20 <= t[i] <= 0x7e
  }

  ghost function AsciiOf(t: seq<int>, i: nat): Word
    requires PrintableText(t) && i <= |t|
    decreases |t| - i
  {
    if i == |t| then [] else [t[i]] + AsciiOf(t, i + 1)
  }

  lemma {:induction false} AsciiUtf8(t: seq<int>, i: nat)
    requires PrintableText(t) && Text(t) && i <= |t|
    ensures Utf8(t, i) == AsciiOf(t, i)
    decreases |t| - i
  {
    if i < |t| {
      AsciiUtf8(t, i + 1);
      assert EncodeRune(t[i]) == [t[i]];
    }
  }

  lemma {:induction false} AsciiPrintable(t: seq<int>, i: nat)
    requires PrintableText(t) && i <= |t|
    ensures |AsciiOf(t, i)| == |t| - i && forall k :: 0 <= k < |t| - i ==> Printable(AsciiOf(t, i)[k])
    decreases |t| - i
  {
    if i < |t| { AsciiPrintable(t, i + 1); }
  }

  lemma {:induction false} NoneBad(s: Word)
    requires forall k :: 0 <= k < |s| ==> Printable(s[k])
    ensures Bad(s) == 0
  {
    if s != [] { NoneBad(s[..|s| - 1]); }
  }

  lemma AsciiDecoded(t: seq<int>, le: bool)
    requires PrintableText(t) && Text(t) && |t| >= 4
    ensures Utf16From(Utf16Of(t, le, 0), 0, le) == AsciiOf(t, 0) && MostlyPrintable(AsciiOf(t, 0))
  {
    assert BYTE_ORDER_MARK !in t;
    Utf16RoundTrip(t, le);
    AsciiUtf8(t, 0);
    AsciiPrintable(t, 0);
    NoneBad(AsciiOf(t, 0));
  }

  /** Printable text of at least four characters in UTF-16, in either byte order, is found as it is. */
  lemma Utf16Found(t: seq<int>, le: bool)
    requires PrintableText(t) && |t| >= 4
    ensures FoundIn(Utf16Of(t, le, 0), if le then Utf16le else Utf16be, AsciiOf(t, 0))
  {
    assert Ascii(t) && Text(t);
    var data, text := Utf16Of(t, le, 0), AsciiOf(t, 0);
    AsciiSniffed(t, le);
    AsciiDecoded(t, le);
    var v := Variant(if le then Utf16le else Utf16be, text);
    assert v in Utf16Variant(data);
    assert v in VariantsOf(data);
    assert OccursAt(text, text, 0);
  }
}
