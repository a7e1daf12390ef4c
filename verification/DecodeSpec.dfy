/** What each decoder means, independently of whether it works on a buffer or on a stream. */
module DecodeSpec {
  import opened Bytes

  // ---------------------------------------------------------------------------------------
  // Printability

  predicate Printable(c: byte) {
    0x20 <= c <= 0x7e || c == 9 || c == 10 || c == 13
  }

  function Bad(s: Word): nat {
    if s == [] then 0 else Bad(s[..|s| - 1]) + (if Printable(s[|s| - 1]) then 0 else 1)
  }

  /** How many unprintable bytes the four-fifths threshold tolerates among `n`. */
  function Budget(n: nat): nat {
    n - n * 4 / 5
  }

  /** Nonempty, and at least four fifths printable. */
  predicate MostlyPrintable(s: Word) {
    s != [] && Bad(s) <= Budget(|s|)
  }

  /** The visible ASCII characters, the blank, tab and the two line ends. */
  lemma PrintableExactly(c: byte)
    ensures Printable(c) <==>
              ' ' as int <= c <= '~' as int || c == '\t' as int || c == '\n' as int || c == '\r' as int
  {
  }

  /** The printable bytes. */
  ghost function Visible(s: Word): Word {
    if s == [] then [] else Visible(s[..|s| - 1]) + (if Printable(s[|s| - 1]) then [s[|s| - 1]] else [])
  }

  lemma {:induction false} BadAndVisible(s: Word)
    ensures Bad(s) + |Visible(s)| == |s|
  {
    if s != [] { BadAndVisible(s[..|s| - 1]); }
  }

  /** At least four fifths of the bytes, rounded down, are printable. */
  lemma ThresholdExactly(s: Word)
    ensures MostlyPrintable(s) <==> s != [] && 5 * (|Visible(s)| + 1) > 4 * |s|
  {
    BadAndVisible(s);
  }

  lemma {:induction false} BadConcat(s: Word, t: Word)
    ensures Bad(s + t) == Bad(s) + Bad(t)
    decreases |t|
  {
    if t == [] {
      assert s + t == s;
    } else {
      assert (s + t)[..|s + t| - 1] == s + t[..|t| - 1];
      BadConcat(s, t[..|t| - 1]);
    }
  }

  lemma BadSplit(s: Word, i: nat)
    requires i <= |s|
    ensures Bad(s) == Bad(s[..i]) + Bad(s[i..])
  {
    assert s == s[..i] + s[i..];
    BadConcat(s[..i], s[i..]);
  }

  /** More bytes never tolerate fewer unprintable ones. */
  lemma BudgetMonotone(m: nat, n: nat)
    requires m <= n
    ensures Budget(m) <= Budget(n)
  {
  }

  // ---------------------------------------------------------------------------------------
  // Hexadecimal digits

  predicate IsHex(c: byte) {
    48 <= c <= 57 || 97 <= c <= 102 || 65 <= c <= 70
  }

  function HexValue(c: byte): (v: int)
    requires IsHex(c)
    ensures 0 <= v < 16
  {
    if c <= 57 then c - 48 else if c >= 97 then c - 97 + 10 else c - 65 + 10
  }

  predicate Hex4(s: Word, i: int) {
    0 <= i && i + 4 <= |s| && IsHex(s[i]) && IsHex(s[i + 1]) && IsHex(s[i + 2]) && IsHex(s[i + 3])
  }

  function Hex4Value(s: Word, i: int): (v: int)
    requires Hex4(s, i)
    ensures 0 <= v < 0x1_0000
  {
    ((HexValue(s[i]) * 16 + HexValue(s[i + 1])) * 16 + HexValue(s[i + 2])) * 16 + HexValue(s[i + 3])
  }

  // ---------------------------------------------------------------------------------------
  // Runes

  const REPLACEMENT: int := 0xFFFD
  const BYTE_ORDER_MARK: int := 0xFEFF

  predicate HighSurrogate(u: int) { 0xD800 <= u <= 0xDBFF }
  predicate LowSurrogate(u: int) { 0xDC00 <= u <= 0xDFFF }

  /** The scalar value of a surrogate pair. */
  function Combine(hi: int, lo: int): (r: int)
    requires HighSurrogate(hi) && LowSurrogate(lo)
    ensures 0x1_0000 <= r <= 0x10_FFFF
  {
    (hi - 0xD800) * 0x400 + (lo - 0xDC00) + 0x1_0000
  }

  /** UTF-8; surrogates encode as the replacement character. */
  function EncodeRune(r: int): (s: Word)
    requires 0 <= r <= 0x10_FFFF
    ensures 1 <= |s| <= 4
  {
    if r < 0x80 then [r]
    else if r < 0x800 then [0xC0 + r / 64, 0x80 + r % 64]
    else if HighSurrogate(r) || LowSurrogate(r) then [0xEF, 0xBF, 0xBD]
    else if r < 0x1_0000 then [0xE0 + r / 4096, 0x80 + r / 64 % 64, 0x80 + r % 64]
    else [0xF0 + r / 262144, 0x80 + r / 4096 % 64, 0x80 + r / 64 % 64, 0x80 + r % 64]
  }

  // ---------------------------------------------------------------------------------------
  // Percent escapes

  predicate PercentAt(data: Word, i: int) {
    0 <= i && i + 3 <= |data| && data[i] == 37 && IsHex(data[i + 1]) && IsHex(data[i + 2])
  }

  /** How many bytes the escape or byte at `i` takes. */
  function PercentStep(data: Word, i: nat): nat {
    if PercentAt(data, i) then 3 else 1
  }

  /** Escapes become bytes and plus signs blanks. */
  function PercentByte(data: Word, i: nat): byte
    requires i < |data|
  {
    if PercentAt(data, i) then HexValue(data[i + 1]) * 16 + HexValue(data[i + 2])
    else if data[i] == 43 then 32
    else data[i]
  }

  /** The decoded form of `data` from `i` on. */
  ghost function PercentFrom(data: Word, i: nat): Word
    decreases |data| - i
  {
    if i >= |data| then [] else [PercentByte(data, i)] + PercentFrom(data, i + PercentStep(data, i))
  }

  predicate PercentPairAt(data: Word, i: int) {
    PercentAt(data, i) && PercentAt(data, i + 3)
  }

  // ---------------------------------------------------------------------------------------
  // Unicode escapes

  predicate EscapeAt(data: Word, i: int) {
    0 <= i && i + 6 <= |data| && data[i] == 92 && data[i + 1] == 117 && Hex4(data, i + 2)
  }

  predicate SurrogatePairAt(data: Word, i: int) {
    && EscapeAt(data, i) && HighSurrogate(Hex4Value(data, i + 2))
    && EscapeAt(data, i + 6) && LowSurrogate(Hex4Value(data, i + 8))
  }

  /** How many bytes the escaped character or the byte at `i` takes. */
  function UnicodeStep(data: Word, i: nat): nat {
    if SurrogatePairAt(data, i) then 12 else if EscapeAt(data, i) then 6 else 1
  }

  /** UTF-8 of the escaped character at `i`, or the byte there; escaped surrogate pairs combine. */
  function UnicodeChar(data: Word, i: nat): Word
    requires i < |data|
  {
    if SurrogatePairAt(data, i) then EncodeRune(Combine(Hex4Value(data, i + 2), Hex4Value(data, i + 8)))
    else if EscapeAt(data, i) then EncodeRune(Hex4Value(data, i + 2))
    else [data[i]]
  }

  /** The decoded form of `data` from `i` on. */
  ghost function UnicodeFrom(data: Word, i: nat): Word
    decreases |data| - i
  {
    if i >= |data| then [] else UnicodeChar(data, i) + UnicodeFrom(data, i + UnicodeStep(data, i))
  }

  predicate UnicodePairAt(data: Word, i: int) {
    EscapeAt(data, i) && EscapeAt(data, i + 6)
  }

  // ---------------------------------------------------------------------------------------
  // UTF-16

  function Unit(data: Word, i: nat, le: bool): (u: int)
    requires i + 2 <= |data|
    ensures 0 <= u < 0x1_0000
  {
    if le then (data[i] as int) + (data[i + 1] as int) * 256 else (data[i + 1] as int) + (data[i] as int) * 256
  }

  predicate Utf16PairAt(data: Word, i: nat, le: bool) {
    i + 4 <= |data| && HighSurrogate(Unit(data, i, le)) && LowSurrogate(Unit(data, i + 2, le))
  }

  function Scalar(u: int): Word
    requires 0 <= u < 0x1_0000
  {
    if u == BYTE_ORDER_MARK then [] else EncodeRune(u)
  }

  /** How many bytes the character at `i` takes. */
  function Utf16Step(data: Word, i: nat, le: bool): nat {
    if Utf16PairAt(data, i, le) then 4 else 2
  }

  /** UTF-8 of the character at `i`: pairs combine, lone surrogates are replaced, byte order marks are dropped. */
  function Utf16Char(data: Word, i: nat, le: bool): Word
    requires i + 2 <= |data|
  {
    if Utf16PairAt(data, i, le) then EncodeRune(Combine(Unit(data, i, le), Unit(data, i + 2, le)))
    else Scalar(Unit(data, i, le))
  }

  /** UTF-8 of the characters from `i` on; a trailing odd byte is ignored. */
  ghost function Utf16From(data: Word, i: nat, le: bool): Word
    decreases |data| - i
  {
    if i + 2 > |data| then [] else Utf16Char(data, i, le) + Utf16From(data, i + Utf16Step(data, i, le), le)
  }

  /** NUL bytes among the first `n`, at even or at odd offsets. */
  function NulsAt(data: Word, n: nat, odd: bool): nat
    requires n <= |data|
  {
    if n == 0 then 0 else NulsAt(data, n - 1, odd) + (if data[n - 1] == 0 && ((n - 1) % 2 == 1) == odd then 1 else 0)
  }

  datatype Utf16Kind = LittleEndian | BigEndian | NotUtf16

  function SampleLen(n: nat): nat {
    var m := if n > 128 then 128 else n;
    m - m % 2
  }

  /** A byte order mark decides; otherwise three quarters NULs at odd or even offsets of a short sample. */
  function Sniff(data: Word): Utf16Kind {
    var n := SampleLen(|data|);
    if |data| < 4 then NotUtf16
    else if data[0] == 0xFF && data[1] == 0xFE then LittleEndian
    else if data[0] == 0xFE && data[1] == 0xFF then BigEndian
    else if n < 8 then NotUtf16
    else if NulsAt(data, n, true) * 4 >= (n / 2) * 3 then LittleEndian
    else if NulsAt(data, n, false) * 4 >= (n / 2) * 3 then BigEndian
    else NotUtf16
  }

  // ---------------------------------------------------------------------------------------
  // Encoded runs

  datatype Kind = Base64Runs | HexRuns

  predicate IsBase64(c: byte) {
    65 <= c <= 90 || 97 <= c <= 122 || 48 <= c <= 57 || c == 43 || c == 47 || c == 95 || c == 45
  }

  predicate InRun(kind: Kind, c: byte) {
    match kind
    case Base64Runs => IsBase64(c)
    case HexRuns => IsHex(c)
  }

  const MIN_BASE64_RUN: nat := 32
  const MIN_HEX_RUN: nat := 40

  function MinRun(kind: Kind): nat {
    match kind
    case Base64Runs => MIN_BASE64_RUN
    case HexRuns => MIN_HEX_RUN
  }

  /** Where the maximal run through `i` ends. */
  ghost function RunEnd(kind: Kind, data: Word, i: nat): (e: nat)
    requires i <= |data|
    ensures i <= e <= |data|
    decreases |data| - i
  {
    if i < |data| && InRun(kind, data[i]) then RunEnd(kind, data, i + 1) else i
  }

  /** Up to two padding signs after a base64 run. */
  function Pads(kind: Kind, data: Word, e: nat): (n: nat)
    ensures n <= 2 && (e <= |data| ==> e + n <= |data|)
  {
    if kind.HexRuns? || e >= |data| || data[e] != 61 then 0
    else if e + 1 < |data| && data[e + 1] == 61 then 2
    else 1
  }

  /** Whether the last sign of the run that tells the alphabets apart is from the URL-safe one. */
  ghost function UrlSafe(s: Word): bool {
    s != [] &&
    var c := s[|s| - 1];
    if c == 45 || c == 95 then true else if c == 43 || c == 47 then false else UrlSafe(s[..|s| - 1])
  }

  datatype EncodedRun = EncodedRun(body: Word, pads: nat, urlSafe: bool)

  ghost function RunAt(kind: Kind, data: Word, i: nat, e: nat): EncodedRun
    requires i <= e <= |data|
  {
    EncodedRun(data[i..e], Pads(kind, data, e), UrlSafe(data[i..e]))
  }

  /** The maximal runs from `i` on that are long enough. */
  ghost function RunsFrom(kind: Kind, data: Word, i: nat): seq<EncodedRun>
    requires i <= |data|
    decreases |data| - i
  {
    if i == |data| then []
    else if !InRun(kind, data[i]) then RunsFrom(kind, data, i + 1)
    else
      var e := RunEnd(kind, data, i);
      (if e - i >= MinRun(kind) then [RunAt(kind, data, i, e)] else []) + RunsFrom(kind, data, e)
  }

  // ---------------------------------------------------------------------------------------
  // Base64 (sections 4 and 5 of RFC 4648) and hexadecimal (section 8)

  datatype Encoding = Encoding(urlSafe: bool, padded: bool)

  predicate InAlphabet(c: byte, urlSafe: bool) {
    || 65 <= c <= 90 || 97 <= c <= 122 || 48 <= c <= 57
    || (if urlSafe then c == 45 || c == 95 else c == 43 || c == 47)
  }

  function SextetOf(c: byte, urlSafe: bool): (v: int)
    requires InAlphabet(c, urlSafe)
    ensures 0 <= v < 64
  {
    if 65 <= c <= 90 then c - 65
    else if 97 <= c <= 122 then c - 97 + 26
    else if 48 <= c <= 57 then c - 48 + 52
    else if c == 43 || c == 45 then 62
    else 63
  }

  predicate AllIn(s: Word, urlSafe: bool) {
    forall i :: 0 <= i < |s| ==> InAlphabet(s[i], urlSafe)
  }

  /** The bytes of an unpadded string: four signs give three bytes, a rest of two or three gives one or two. */
  function Sextets(s: Word, u: bool, i: nat): Word
    requires AllIn(s, u) && i <= |s|
    decreases |s| - i
  {
    if i + 2 > |s| then []
    else if i + 2 == |s| then [First(s, u, i)]
    else if i + 3 == |s| then [First(s, u, i), Second(s, u, i)]
    else [First(s, u, i), Second(s, u, i), Third(s, u, i)] + Sextets(s, u, i + 4)
  }

  function First(s: Word, u: bool, i: nat): byte
    requires i + 1 < |s| && InAlphabet(s[i], u) && InAlphabet(s[i + 1], u)
  {
    SextetOf(s[i], u) * 4 + SextetOf(s[i + 1], u) / 16
  }

  function Second(s: Word, u: bool, i: nat): byte
    requires i + 2 < |s| && InAlphabet(s[i + 1], u) && InAlphabet(s[i + 2], u)
  {
    SextetOf(s[i + 1], u) % 16 * 16 + SextetOf(s[i + 2], u) / 4
  }

  function Third(s: Word, u: bool, i: nat): byte
    requires i + 3 < |s| && InAlphabet(s[i + 2], u) && InAlphabet(s[i + 3], u)
  {
    SextetOf(s[i + 2], u) % 4 * 64 + SextetOf(s[i + 3], u)
  }

  datatype Decoded = Rejected | Bytes(bytes: Word)

  /** Padding completes the last group of four, or there is none to complete. */
  predicate PadsFit(enc: Encoding, signs: nat, pads: nat) {
    if enc.padded then (signs % 4 == 0 && pads == 0) || (signs % 4 == 2 && pads == 2) || (signs % 4 == 3 && pads == 1)
    else pads == 0 && signs % 4 != 1
  }

  /** Decodes signs followed by padding under one encoding. */
  function DecodeBase64(enc: Encoding, body: Word, pads: nat): Decoded {
    if AllIn(body, enc.urlSafe) && PadsFit(enc, |body|, pads) then Bytes(Sextets(body, enc.urlSafe, 0)) else Rejected
  }

  /** The bytes of a string of hexadecimal digits; an odd number of them is an error. */
  function HexPairs(s: Word, i: nat): Word
    requires i <= |s| && forall k :: 0 <= k < |s| ==> IsHex(s[k])
    decreases |s| - i
  {
    if i + 2 > |s| then [] else [HexValue(s[i]) * 16 + HexValue(s[i + 1])] + HexPairs(s, i + 2)
  }

  function DecodeHex(s: Word): Decoded {
    if |s| % 2 == 0 && forall k :: 0 <= k < |s| ==> IsHex(s[k]) then Bytes(HexPairs(s, 0)) else Rejected
  }

  /** What a run decodes to. */
  function DecodeRun(kind: Kind, run: EncodedRun): Decoded {
    match kind
    case Base64Runs => DecodeBase64(Encoding(run.urlSafe, run.pads > 0), run.body, run.pads)
    case HexRuns => DecodeHex(run.body)
  }

  /** Whether a run decodes to something worth keeping. */
  predicate Accepted(kind: Kind, run: EncodedRun) {
    DecodeRun(kind, run).Bytes? && MostlyPrintable(DecodeRun(kind, run).bytes)
  }

  /** The decodings of the accepted runs, one per line. */
  ghost function Lines(kind: Kind, runs: seq<EncodedRun>): Word {
    if runs == [] then []
    else
      var front := Lines(kind, runs[..|runs| - 1]);
      var run := runs[|runs| - 1];
      if !Accepted(kind, run) then front
      else front + (if front == [] then [] else [NEWLINE]) + DecodeRun(kind, run).bytes
  }

  // ---------------------------------------------------------------------------------------
  // The variants of an input

  datatype Source = Raw | Base64 | Percent | Hex | Utf16le | Utf16be | UnicodeEscape

  datatype Variant = Variant(source: Source, bytes: Word)

  ghost function Optional(source: Source, keep: bool, bytes: Word): seq<Variant> {
    if keep then [Variant(source, bytes)] else []
  }

  ghost function RunVariant(data: Word, kind: Kind): seq<Variant> {
    var bytes := Lines(kind, RunsFrom(kind, data, 0));
    Optional(if kind.Base64Runs? then Base64 else Hex, bytes != [], bytes)
  }

  ghost function PercentVariant(data: Word): seq<Variant> {
    Optional(Percent, (exists i :: PercentPairAt(data, i)) && MostlyPrintable(PercentFrom(data, 0)),
             PercentFrom(data, 0))
  }

  ghost function Utf16Variant(data: Word): seq<Variant> {
    match Sniff(data)
    case NotUtf16 => []
    case LittleEndian => Optional(Utf16le, MostlyPrintable(Utf16From(data, 0, true)), Utf16From(data, 0, true))
    case BigEndian => Optional(Utf16be, MostlyPrintable(Utf16From(data, 0, false)), Utf16From(data, 0, false))
  }

  ghost function UnicodeVariant(data: Word): seq<Variant> {
    Optional(UnicodeEscape, (exists i :: UnicodePairAt(data, i)) && MostlyPrintable(UnicodeFrom(data, 0)),
             UnicodeFrom(data, 0))
  }

  /** The input itself and its decoded forms worth scanning, in order. */
  ghost function VariantsOf(data: Word): seq<Variant> {
    [Variant(Raw, data)] + RunVariant(data, Base64Runs) + PercentVariant(data) + RunVariant(data, HexRuns)
    + Utf16Variant(data) + UnicodeVariant(data)
  }
}
