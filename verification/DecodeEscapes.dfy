/** Text written with percent or unicode escapes decodes to what it means, and is found inside an input. */
module DecodeEscapes {
  import opened Bytes
  import opened DecodeSpec
  import opened DecodeRoundTrip
  import opened DecodeFound
  import opened Utf8Reader

  lemma OccursSplit(data: Word, a: Word, b: Word, p: nat)
    requires OccursAt(data, a + b, p)
    ensures OccursAt(data, a, p) && OccursAt(data, b, p + |a|)
  {
    var n := |a + b|;
    SliceOfSlice(data, p, p + n, 0, |a|);
    SliceOfSlice(data, p, p + n, |a|, n);
    assert (a + b)[0..|a|] == a && (a + b)[|a|..n] == b;
  }

  lemma SignAt(data: Word, text: Word, p: nat, k: nat)
    requires OccursAt(data, text, p) && k < |text|
    ensures data[p + k] == text[k]
  {
    assert data[p..p + |text|][k] == text[k];
  }

  /** One step and then the rest. */
  lemma StepThenRest(all: Word, step: Word, later: Word, rest: Word, last: Word)
    requires all == step + later && later == rest + last
    ensures all == (step + rest) + last
  {
    ConcatAssoc(step, rest, last);
  }

  lemma OccursBetween(front: Word, x: Word, back: Word)
    ensures Occurs(front + (x + back), x)
  {
    var s := front + (x + back);
    assert s[|front|..|front| + |x|] == x;
    assert OccursAt(s, x, |front|);
  }

  lemma EmbeddedAt(before: Word, text: Word, behind: Word)
    ensures OccursAt(before + text + behind, text, |before|)
  {
  }

  // ---------------------------------------------------------------------------------------
  // What opens the gates

  /** A hexadecimal digit, in either letter case. */
  ghost predicate Digit(c: byte) {
    exists v: nat, upper: bool :: v < 16 && HexDigit(v, upper) == c
  }

  /** Two percent signs three bytes apart, each with two digits behind it. */
  lemma PercentPairExactly(data: Word, i: nat)
    ensures PercentPairAt(data, i) <==>
              && i + 6 <= |data| && data[i] == '%' as int && data[i + 3] == '%' as int
              && Digit(data[i + 1]) && Digit(data[i + 2]) && Digit(data[i + 4]) && Digit(data[i + 5])
  {
    if i + 6 <= |data| {
      HexExactly(data[i + 1]);
      HexExactly(data[i + 2]);
      HexExactly(data[i + 4]);
      HexExactly(data[i + 5]);
    }
  }

  /** A backslash, the letter u and four digits. */
  ghost predicate EscapeSigns(data: Word, i: nat) {
    && i + 6 <= |data| && data[i] == '\\' as int && data[i + 1] == 'u' as int
    && Digit(data[i + 2]) && Digit(data[i + 3]) && Digit(data[i + 4]) && Digit(data[i + 5])
  }

  lemma EscapeExactly(data: Word, i: nat)
    ensures EscapeAt(data, i) <==> EscapeSigns(data, i)
  {
    if i + 6 <= |data| {
      HexExactly(data[i + 2]);
      HexExactly(data[i + 3]);
      HexExactly(data[i + 4]);
      HexExactly(data[i + 5]);
    }
  }

  /** Two escapes six bytes apart. */
  lemma UnicodePairExactly(data: Word, i: nat)
    ensures UnicodePairAt(data, i) <==> EscapeSigns(data, i) && EscapeSigns(data, i + 6)
  {
    EscapeExactly(data, i);
    EscapeExactly(data, i + 6);
  }

  // ---------------------------------------------------------------------------------------
  // Percent escapes

  /** One byte of percent-encoded text: as an escape, as it is, or a blank as a plus sign. */
  datatype PercentToken = Escaped(value: byte, upper: bool) | Verbatim(value: byte) | Blank

  /** The signs that mean something else are escaped. */
  ghost predicate PercentWritten(ts: seq<PercentToken>) {
    forall i :: 0 <= i < |ts| && ts[i].Verbatim? ==> ts[i].value != 37 && ts[i].value != 43
  }

  function PercentSigns(t: PercentToken): Word {
    match t
    case Escaped(b, upper) => [37, HexDigit(b / 16, upper), HexDigit(b % 16, upper)]
    case Verbatim(c) => [c]
    case Blank => [43]
  }

  function PercentValue(t: PercentToken): Word {
    [if t.Blank? then 32 else t.value]
  }

  ghost function PercentText(ts: seq<PercentToken>): Word {
    if ts == [] then [] else PercentSigns(ts[0]) + PercentText(ts[1..])
  }

  /** What the text means. */
  ghost function PercentMeaning(ts: seq<PercentToken>): Word {
    if ts == [] then [] else PercentValue(ts[0]) + PercentMeaning(ts[1..])
  }

  lemma PercentTokenRead(data: Word, p: nat, t: PercentToken, next: nat)
    requires OccursAt(data, PercentSigns(t), p) && next == p + |PercentSigns(t)|
    requires t.Verbatim? ==> t.value != 37 && t.value != 43
    ensures PercentFrom(data, p) == PercentValue(t) + PercentFrom(data, next)
  {
    SignAt(data, PercentSigns(t), p, 0);
    if t.Escaped? {
      SignAt(data, PercentSigns(t), p, 1);
      SignAt(data, PercentSigns(t), p, 2);
    }
  }

  /** However a text was escaped, and whatever stands behind it, the decoder reads its meaning. */
  lemma {:induction false} PercentRoundTripAt(data: Word, p: nat, ts: seq<PercentToken>, e: nat)
    requires PercentWritten(ts) && OccursAt(data, PercentText(ts), p) && e == p + |PercentText(ts)|
    ensures PercentFrom(data, p) == PercentMeaning(ts) + PercentFrom(data, e)
    decreases |ts|
  {
    if ts != [] {
      var signs, next := PercentSigns(ts[0]), p + |PercentSigns(ts[0])|;
      OccursSplit(data, signs, PercentText(ts[1..]), p);
      PercentTokenRead(data, p, ts[0], next);
      PercentRoundTripAt(data, next, ts[1..], e);
      StepThenRest(PercentFrom(data, p), PercentValue(ts[0]), PercentFrom(data, next), PercentMeaning(ts[1..]),
                   PercentFrom(data, e));
    }
  }

  /** Decoding undoes percent encoding, whichever bytes were escaped and in whichever letter case. */
  lemma PercentRoundTrip(ts: seq<PercentToken>)
    requires PercentWritten(ts)
    ensures PercentFrom(PercentText(ts), 0) == PercentMeaning(ts)
  {
    PercentRoundTripAt(PercentText(ts), 0, ts, |PercentText(ts)|);
  }

  /** The decoder comes to `p` unless an escape could reach over it. */
  lemma {:induction false} PercentComesTo(data: Word, i: nat, p: nat) returns (front: Word)
    requires i <= p <= |data| && forall k :: i <= k < p && p - 2 <= k ==> data[k] != 37
    ensures PercentFrom(data, i) == front + PercentFrom(data, p)
    decreases p - i
  {
    if i == p {
      front := [];
    } else {
      var rest := PercentComesTo(data, i + PercentStep(data, i), p);
      front := [PercentByte(data, i)] + rest;
      ConcatAssoc([PercentByte(data, i)], rest, PercentFrom(data, p));
    }
  }

  /** Percent-encoded text anywhere in an input is found, where the input holds two adjacent escapes, decodes to mostly
      printable bytes and has no percent sign right before the text. */
  lemma PercentFound(before: Word, ts: seq<PercentToken>, behind: Word, at: int)
    requires PercentWritten(ts) && forall k :: 0 <= k < |before| && |before| - 2 <= k ==> before[k] != 37
    requires var data := before + PercentText(ts) + behind;
             PercentPairAt(data, at) && MostlyPrintable(PercentFrom(data, 0))
    ensures FoundIn(before + PercentText(ts) + behind, Percent, PercentMeaning(ts))
  {
    var data, p := before + PercentText(ts) + behind, |before|;
    EmbeddedAt(before, PercentText(ts), behind);
    PercentRead(data, p, ts);
    PercentKept(data, at, PercentMeaning(ts));
  }

  lemma PercentRead(data: Word, p: nat, ts: seq<PercentToken>)
    requires PercentWritten(ts) && OccursAt(data, PercentText(ts), p)
    requires forall k :: 0 <= k < p && p - 2 <= k ==> data[k] != 37
    ensures Occurs(PercentFrom(data, 0), PercentMeaning(ts))
  {
    var e := p + |PercentText(ts)|;
    var front := PercentComesTo(data, 0, p);
    PercentRoundTripAt(data, p, ts, e);
    OccursBetween(front, PercentMeaning(ts), PercentFrom(data, e));
  }

  lemma PercentKept(data: Word, at: int, x: Word)
    requires PercentPairAt(data, at) && MostlyPrintable(PercentFrom(data, 0)) && Occurs(PercentFrom(data, 0), x)
    ensures FoundIn(data, Percent, x)
  {
    var v := Variant(Percent, PercentFrom(data, 0));
    assert v in PercentVariant(data);
    assert v in VariantsOf(data);
  }

  lemma PairBehind(a: Word, b: Word, j: nat)
    requires PercentPairAt(b, j)
    ensures PercentPairAt(a + b, |a| + j)
  {
    var s := a + b;
    assert s[|a| + (j + 0)] == b[j] && s[|a| + (j + 1)] == b[j + 1] && s[|a| + (j + 2)] == b[j + 2];
    assert s[|a| + (j + 3)] == b[j + 3] && s[|a| + (j + 4)] == b[j + 4] && s[|a| + (j + 5)] == b[j + 5];
  }

  lemma PairInFront(t: PercentToken, u: PercentToken, rest: Word)
    requires t.Escaped? && u.Escaped?
    ensures PercentPairAt(PercentSigns(t) + (PercentSigns(u) + rest), 0)
  {
  }

  /** Two escaped bytes in a row give the decoder its pair. */
  lemma {:induction false} EscapedPair(ts: seq<PercentToken>, i: nat) returns (at: nat)
    requires i + 1 < |ts| && ts[i].Escaped? && ts[i + 1].Escaped?
    ensures PercentPairAt(PercentText(ts), at)
    decreases i
  {
    if i == 0 {
      at := 0;
      PairInFront(ts[0], ts[1], PercentText(ts[1..][1..]));
    } else {
      var j := EscapedPair(ts[1..], i - 1);
      at := |PercentSigns(ts[0])| + j;
      PairBehind(PercentSigns(ts[0]), PercentText(ts[1..]), j);
    }
  }

  /** A mostly printable text of which two bytes in a row are escaped is found when it is the whole input. */
  lemma PercentTextFound(ts: seq<PercentToken>, i: nat)
    requires PercentWritten(ts) && MostlyPrintable(PercentMeaning(ts))
    requires i + 1 < |ts| && ts[i].Escaped? && ts[i + 1].Escaped?
    ensures FoundIn(PercentText(ts), Percent, PercentMeaning(ts))
  {
    var at := EscapedPair(ts, i);
    PercentRoundTrip(ts);
    OccursInItself(PercentMeaning(ts));
    PercentKept(PercentText(ts), at, PercentMeaning(ts));
  }

  lemma OccursInItself(x: Word)
    ensures Occurs(x, x)
  {
    assert OccursAt(x, x, 0);
  }

  // ---------------------------------------------------------------------------------------
  // Unicode escapes

  /** One character as an escape or an escaped surrogate pair, or one byte as it is. */
  datatype UnicodeToken = Rune(value: int, upper: bool) | Plain(byte: byte)

  ghost predicate UnicodeWritten(ts: seq<UnicodeToken>) {
    forall i :: 0 <= i < |ts| ==> TokenOk(ts[i])
  }

  predicate TokenOk(t: UnicodeToken) {
    match t
    case Rune(r, _) => IsScalar(r)
    case Plain(c) => c != 92
  }

  function UnitSigns(u: int, upper: bool): (s: Word)
    requires 0 <= u < 0x1_0000
    ensures |s| == 6
  {
    [92, 117, HexDigit(u / 4096, upper), HexDigit(u / 256 % 16, upper), HexDigit(u / 16 % 16, upper),
     HexDigit(u % 16, upper)]
  }

  function UnicodeSigns(t: UnicodeToken): Word
    requires TokenOk(t)
  {
    match t
    case Rune(r, upper) =>
      if r < 0x1_0000 then UnitSigns(r, upper) else UnitSigns(HighOf(r), upper) + UnitSigns(LowOf(r), upper)
    case Plain(c) => [c]
  }

  function UnicodeValue(t: UnicodeToken): Word
    requires TokenOk(t)
  {
    match t
    case Rune(r, _) => EncodeRune(r)
    case Plain(c) => [c]
  }

  ghost function UnicodeText(ts: seq<UnicodeToken>): Word
    requires UnicodeWritten(ts)
  {
    if ts == [] then [] else UnicodeSigns(ts[0]) + UnicodeText(ts[1..])
  }

  /** What the text means. */
  ghost function UnicodeMeaning(ts: seq<UnicodeToken>): Word
    requires UnicodeWritten(ts)
  {
    if ts == [] then [] else UnicodeValue(ts[0]) + UnicodeMeaning(ts[1..])
  }

  lemma HexDigitsOf(u: int)
    requires 0 <= u < 0x1_0000
    ensures ((u / 4096 * 16 + u / 256 % 16) * 16 + u / 16 % 16) * 16 + u % 16 == u && u / 4096 < 16
  {
  }

  lemma UnitRead(data: Word, p: nat, u: int, upper: bool)
    requires 0 <= u < 0x1_0000 && OccursAt(data, UnitSigns(u, upper), p)
    ensures EscapeAt(data, p) && Hex4Value(data, p + 2) == u
  {
    var s := UnitSigns(u, upper);
    forall k: nat | k < 6 ensures data[p + k] == s[k] { SignAt(data, s, p, k); }
    assert data[p + 0] == s[0] && data[p + 1] == s[1] && data[p + 2] == s[2];
    assert data[p + 3] == s[3] && data[p + 4] == s[4] && data[p + 5] == s[5];
    HexDigitsOf(u);
  }

  lemma UnicodeTokenAt(data: Word, p: nat, t: UnicodeToken)
    requires TokenOk(t) && OccursAt(data, UnicodeSigns(t), p)
    ensures p < |data| && UnicodeStep(data, p) == |UnicodeSigns(t)| && UnicodeChar(data, p) == UnicodeValue(t)
  {
    match t
    case Plain(c) => SignAt(data, UnicodeSigns(t), p, 0);
    case Rune(r, upper) =>
      if r < 0x1_0000 {
        UnitRead(data, p, r, upper);
      } else {
        OccursSplit(data, UnitSigns(HighOf(r), upper), UnitSigns(LowOf(r), upper), p);
        UnitRead(data, p, HighOf(r), upper);
        UnitRead(data, p + 6, LowOf(r), upper);
        SurrogatesCombine(r);
      }
  }

  lemma UnicodeTokenRead(data: Word, p: nat, t: UnicodeToken, next: nat)
    requires TokenOk(t) && OccursAt(data, UnicodeSigns(t), p) && next == p + |UnicodeSigns(t)|
    ensures UnicodeFrom(data, p) == UnicodeValue(t) + UnicodeFrom(data, next)
  {
    UnicodeTokenAt(data, p, t);
    UnicodeNext(data, p, UnicodeValue(t), next);
  }

  lemma UnicodeNext(data: Word, p: nat, bytes: Word, next: nat)
    requires p < |data| && UnicodeChar(data, p) == bytes && p + UnicodeStep(data, p) == next
    ensures UnicodeFrom(data, p) == bytes + UnicodeFrom(data, next)
  {
  }

  /** However a text was escaped, and whatever stands behind it, the decoder reads its meaning. */
  lemma {:induction false} UnicodeRoundTripAt(data: Word, p: nat, ts: seq<UnicodeToken>, e: nat)
    requires UnicodeWritten(ts) && OccursAt(data, UnicodeText(ts), p) && e == p + |UnicodeText(ts)|
    ensures UnicodeFrom(data, p) == UnicodeMeaning(ts) + UnicodeFrom(data, e)
    decreases |ts|
  {
    if ts != [] {
      var signs, next := UnicodeSigns(ts[0]), p + |UnicodeSigns(ts[0])|;
      OccursSplit(data, signs, UnicodeText(ts[1..]), p);
      UnicodeTokenRead(data, p, ts[0], next);
      UnicodeRoundTripAt(data, next, ts[1..], e);
      StepThenRest(UnicodeFrom(data, p), UnicodeValue(ts[0]), UnicodeFrom(data, next), UnicodeMeaning(ts[1..]),
                   UnicodeFrom(data, e));
    }
  }

  /** The bytes from `p` on are the text: UTF-8 that reads as the character for each escape, and the plain bytes. */
  ghost predicate Spells(s: Word, p: nat, ts: seq<UnicodeToken>)
    decreases |ts|
  {
    if ts == [] then p == |s|
    else
      match ts[0]
      case Plain(c) => p < |s| && s[p] == c && Spells(s, p + 1, ts[1..])
      case Rune(r, _) =>
        ReadCharacter(s, p).Character? && ReadCharacter(s, p).value == r
          && Spells(s, p + ReadCharacter(s, p).width, ts[1..])
  }

  lemma {:induction false} MeaningSpells(ts: seq<UnicodeToken>, before: Word)
    requires UnicodeWritten(ts)
    ensures Spells(before + UnicodeMeaning(ts), |before|, ts)
    decreases |ts|
  {
    if ts != [] {
      var here, rest := UnicodeValue(ts[0]), UnicodeMeaning(ts[1..]);
      MeaningSpells(ts[1..], before + here);
      ConcatAssoc(before, here, rest);
      var s := before + (here + rest);
      assert s[|before|..|before| + |here|] == here;
      if ts[0].Rune? {
        EncodedReads(s, |before|, ts[0].value);
      } else {
        assert s[|before|] == here[0];
      }
    }
  }

  /** Decoding undoes unicode escapes, whichever characters were escaped and in whichever letter case: the decoded bytes
      read back as the text. */
  lemma UnicodeRoundTrip(ts: seq<UnicodeToken>)
    requires UnicodeWritten(ts)
    ensures UnicodeFrom(UnicodeText(ts), 0) == UnicodeMeaning(ts) && Spells(UnicodeMeaning(ts), 0, ts)
  {
    UnicodeRoundTripAt(UnicodeText(ts), 0, ts, |UnicodeText(ts)|);
    MeaningSpells(ts, []);
    assert [] + UnicodeMeaning(ts) == UnicodeMeaning(ts);
  }

  /** Whatever stands around it, an escape decodes to UTF-8 of its number, of the pair it begins, or of the replacement
      character when it is a lone surrogate. */
  lemma EscapeReads(data: Word, i: nat)
    requires EscapeAt(data, i)
    ensures var u := Hex4Value(data, i + 2);
            var r := if SurrogatePairAt(data, i) then 0x1_0000 + (u - 0xD800) * 0x400
              + (Hex4Value(data, i + 8) - 0xDC00)
                     else if Surrogate(u) then REPLACEMENT else u;
            ReadCharacter(UnicodeChar(data, i), 0) == Character(r, |UnicodeChar(data, i)|)
  {
    var u, s := Hex4Value(data, i + 2), UnicodeChar(data, i);
    var r := if SurrogatePairAt(data, i) then Combine(u, Hex4Value(data, i + 8)) else u;
    assert s[0..|s|] == s;
    EncodedReads(s, 0, r);
  }

  /** The decoder comes to `p` unless an escape could reach over it. */
  lemma {:induction false} UnicodeComesTo(data: Word, i: nat, p: nat) returns (front: Word)
    requires i <= p <= |data| && forall k :: i <= k < p && p - 11 <= k ==> data[k] != 92
    ensures UnicodeFrom(data, i) == front + UnicodeFrom(data, p)
    decreases p - i
  {
    if i == p {
      front := [];
    } else {
      var next := i + UnicodeStep(data, i);
      var rest := UnicodeComesTo(data, next, p);
      front := UnicodeChar(data, i) + rest;
      UnicodeNext(data, i, UnicodeChar(data, i), next);
      StepThenRest(UnicodeFrom(data, i), UnicodeChar(data, i), UnicodeFrom(data, next), rest, UnicodeFrom(data, p));
    }
  }

  /** Unicode-escaped text anywhere in an input is found, where the input holds two adjacent escapes, decodes to mostly
      printable bytes and has no backslash right before the text. */
  lemma UnicodeFound(before: Word, ts: seq<UnicodeToken>, behind: Word, at: int)
    requires UnicodeWritten(ts) && forall k :: 0 <= k < |before| && |before| - 11 <= k ==> before[k] != 92
    requires var data := before + UnicodeText(ts) + behind;
             UnicodePairAt(data, at) && MostlyPrintable(UnicodeFrom(data, 0))
    ensures FoundIn(before + UnicodeText(ts) + behind, UnicodeEscape, UnicodeMeaning(ts))
    ensures Spells(UnicodeMeaning(ts), 0, ts)
  {
    var data, p := before + UnicodeText(ts) + behind, |before|;
    EmbeddedAt(before, UnicodeText(ts), behind);
    UnicodeRead(data, p, ts);
    UnicodeRoundTrip(ts);
    UnicodeKept(data, at, UnicodeMeaning(ts));
  }

  lemma UnicodeRead(data: Word, p: nat, ts: seq<UnicodeToken>)
    requires UnicodeWritten(ts) && OccursAt(data, UnicodeText(ts), p)
    requires forall k :: 0 <= k < p && p - 11 <= k ==> data[k] != 92
    ensures Occurs(UnicodeFrom(data, 0), UnicodeMeaning(ts))
  {
    var e := p + |UnicodeText(ts)|;
    var front := UnicodeComesTo(data, 0, p);
    UnicodeRoundTripAt(data, p, ts, e);
    OccursBetween(front, UnicodeMeaning(ts), UnicodeFrom(data, e));
  }

  lemma UnicodeKept(data: Word, at: int, x: Word)
    requires UnicodePairAt(data, at) && MostlyPrintable(UnicodeFrom(data, 0)) && Occurs(UnicodeFrom(data, 0), x)
    ensures FoundIn(data, UnicodeEscape, x)
  {
    var v := Variant(UnicodeEscape, UnicodeFrom(data, 0));
    assert v in UnicodeVariant(data);
    assert v in VariantsOf(data);
  }

  lemma UnicodePairBehind(a: Word, b: Word, j: nat)
    requires UnicodePairAt(b, j)
    ensures UnicodePairAt(a + b, |a| + j)
  {
    EscapeBehind(a, b, j);
    EscapeBehind(a, b, j + 6);
  }

  lemma EscapeBehind(a: Word, b: Word, j: nat)
    requires EscapeAt(b, j)
    ensures EscapeAt(a + b, |a| + j)
  {
    var s := a + b;
    assert s[|a| + (j + 0)] == b[j] && s[|a| + (j + 1)] == b[j + 1] && s[|a| + (j + 2)] == b[j + 2];
    assert s[|a| + (j + 3)] == b[j + 3] && s[|a| + (j + 4)] == b[j + 4] && s[|a| + (j + 5)] == b[j + 5];
  }

  /** Two escaped characters in a row, or one that takes a surrogate pair. */
  ghost predicate RunesAt(ts: seq<UnicodeToken>, i: nat) {
    && i < |ts| && ts[i].Rune? && IsScalar(ts[i].value)
    && (ts[i].value >= 0x1_0000 || (i + 1 < |ts| && ts[i + 1].Rune? && 0 <= ts[i + 1].value < 0x1_0000))
  }

  lemma UnitsInFront(u: int, v: int, upper: bool, upper': bool, rest: Word)
    requires 0 <= u < 0x1_0000 && 0 <= v < 0x1_0000
    ensures UnicodePairAt(UnitSigns(u, upper) + (UnitSigns(v, upper') + rest), 0)
  {
  }

  lemma {:induction false} RunePair(ts: seq<UnicodeToken>, i: nat) returns (at: nat)
    requires UnicodeWritten(ts) && RunesAt(ts, i)
    ensures UnicodePairAt(UnicodeText(ts), at)
    decreases i
  {
    var rest := UnicodeText(ts[1..]);
    if i > 0 {
      var j := RunePair(ts[1..], i - 1);
      at := |UnicodeSigns(ts[0])| + j;
      UnicodePairBehind(UnicodeSigns(ts[0]), rest, j);
    } else {
      at := 0;
      FirstRunes(ts);
    }
  }

  lemma FirstRunes(ts: seq<UnicodeToken>)
    requires UnicodeWritten(ts) && RunesAt(ts, 0)
    ensures UnicodePairAt(UnicodeText(ts), 0)
  {
    var r, upper, rest := ts[0].value, ts[0].upper, UnicodeText(ts[1..]);
    if r >= 0x1_0000 {
      UnitsInFront(HighOf(r), LowOf(r), upper, upper, rest);
      ConcatAssoc(UnitSigns(HighOf(r), upper), UnitSigns(LowOf(r), upper), rest);
    } else {
      UnitsInFront(r, ts[1].value, upper, ts[1].upper, UnicodeText(ts[1..][1..]));
    }
  }

  /** A mostly printable text of which two characters in a row, or one beyond the basic plane, are escaped is found when
      it is the whole input. */
  lemma UnicodeTextFound(ts: seq<UnicodeToken>, i: nat)
    requires UnicodeWritten(ts) && MostlyPrintable(UnicodeMeaning(ts)) && RunesAt(ts, i)
    ensures FoundIn(UnicodeText(ts), UnicodeEscape, UnicodeMeaning(ts)) && Spells(UnicodeMeaning(ts), 0, ts)
  {
    var at := RunePair(ts, i);
    UnicodeRoundTrip(ts);
    OccursInItself(UnicodeMeaning(ts));
    UnicodeKept(UnicodeText(ts), at, UnicodeMeaning(ts));
  }
}
