/** The decoders of a buffered input. */
module DecodeBuffered {
  import opened Bytes
  import opened DecodeSpec
  import opened StreamSearch

  // ---------------------------------------------------------------------------------------
  // Printability and gates

  /** Counts unprintable bytes and gives up as soon as the budget is exceeded. */
  method CheckPrintable(b: Word) returns (r: bool)
    ensures r == MostlyPrintable(b)
  {
    if b == [] { return false; }
    var budget := Budget(|b|);
    var bad := 0;
    for i := 0 to |b|
      invariant bad == Bad(b[..i]) && bad <= budget
    {
      BadNext(b, i);
      if !Printable(b[i]) {
        bad := bad + 1;
        if bad > budget {
          BadSplit(b, i + 1);
          return false;
        }
      }
    }
    assert b[..|b|] == b;
    return true;
  }

  lemma BadNext(b: Word, i: nat)
    requires i < |b|
    ensures Bad(b[..i + 1]) == Bad(b[..i]) + (if Printable(b[i]) then 0 else 1)
  {
    assert b[..i + 1][..i] == b[..i];
  }

  /** Two adjacent percent escapes stand somewhere. */
  method HasPercentEscapePair(data: Word) returns (r: bool)
    ensures r <==> exists i :: PercentPairAt(data, i)
  {
    var start := 0;
    while start < |data|
      invariant 0 <= start <= |data|
      invariant forall i :: 0 <= i < start ==> !PercentPairAt(data, i)
      decreases |data| - start
    {
      var i := IndexByteFrom(data, start, 37);
      if i < 0 { return false; }
      if PercentPairAt(data, i) { return true; }
      start := i + 1;
    }
    return false;
  }

  /** Two adjacent unicode escapes stand somewhere. */
  method HasUnicodeEscapePair(data: Word) returns (r: bool)
    ensures r <==> exists i :: UnicodePairAt(data, i)
  {
    var start := 0;
    while start < |data|
      invariant 0 <= start <= |data|
      invariant forall i :: 0 <= i < start ==> !UnicodePairAt(data, i)
      decreases |data| - start
    {
      var i := IndexByteFrom(data, start, 92);
      if i < 0 { return false; }
      if UnicodePairAt(data, i) { return true; }
      start := i + 1;
    }
    return false;
  }

  // ---------------------------------------------------------------------------------------
  // Escapes

  /** Decoding never lengthens, and shortens exactly when there is an escape. */
  lemma {:induction false} PercentLength(data: Word, i: nat)
    requires i <= |data|
    ensures |PercentFrom(data, i)| <= |data| - i
    ensures |PercentFrom(data, i)| == |data| - i <==> forall j :: i <= j ==> !PercentAt(data, j)
    decreases |data| - i
  {
    if i < |data| {
      if PercentAt(data, i) {
        PercentLength(data, i + 3);
      } else {
        PercentLength(data, i + 1);
      }
    }
  }

  /** Decodes, and tells whether an escape or a plus sign was seen. */
  method DecodePercent(data: Word) returns (decoded: Word, changed: bool)
    ensures decoded == PercentFrom(data, 0)
    ensures !changed ==> forall j :: 0 <= j ==> !PercentAt(data, j)
  {
    decoded, changed := [], false;
    var i := 0;
    while i < |data|
      invariant 0 <= i <= |data| && decoded + PercentFrom(data, i) == PercentFrom(data, 0)
      invariant !changed ==> forall j :: 0 <= j < i ==> !PercentAt(data, j)
    {
      ghost var front, at := decoded, i;
      if PercentAt(data, i) {
        decoded := decoded + [HexValue(data[i + 1]) * 16 + HexValue(data[i + 2])];
        changed := true;
        i := i + 3;
      } else {
        decoded := decoded + [if data[i] == 43 then 32 else data[i]];
        changed := changed || data[i] == 43;
        i := i + 1;
      }
      PercentNext(front, data, at, i);
    }
  }

  lemma PercentNext(out: Word, data: Word, i: nat, next: nat)
    requires i < |data| && next == i + PercentStep(data, i)
    ensures out + PercentFrom(data, i) == (out + [PercentByte(data, i)]) + PercentFrom(data, next)
  {
    ConcatAssoc(out, [PercentByte(data, i)], PercentFrom(data, next));
  }

  /** Nothing comes back unless an escape was decoded and the result is printable. */
  method DecodePercentCandidate(data: Word) returns (r: Option<Word>)
    ensures r.Some? <==> (exists i :: PercentAt(data, i)) && MostlyPrintable(PercentFrom(data, 0))
    ensures r.Some? ==> r.value == PercentFrom(data, 0)
  {
    var decoded, changed := DecodePercent(data);
    PercentLength(data, 0);
    var printable := CheckPrintable(decoded);
    if !changed || |decoded| == |data| || !printable { return None; }
    return Some(decoded);
  }

  lemma UnicodeNext(out: Word, data: Word, i: nat, next: nat)
    requires i < |data| && next == i + UnicodeStep(data, i)
    ensures out + UnicodeFrom(data, i) == (out + UnicodeChar(data, i)) + UnicodeFrom(data, next)
  {
    ConcatAssoc(out, UnicodeChar(data, i), UnicodeFrom(data, next));
  }

  /** Nothing comes back unless an escape was decoded and the result is printable. */
  method DecodeUnicodeEscape(data: Word) returns (r: Option<Word>)
    ensures r.Some? <==> (exists i :: EscapeAt(data, i)) && MostlyPrintable(UnicodeFrom(data, 0))
    ensures r.Some? ==> r.value == UnicodeFrom(data, 0)
  {
    var out: Word := [];
    var changed := false;
    var i := 0;
    while i < |data|
      invariant 0 <= i <= |data| && out + UnicodeFrom(data, i) == UnicodeFrom(data, 0)
      invariant if changed then exists j :: EscapeAt(data, j) else forall j :: 0 <= j < i ==> !EscapeAt(data, j)
    {
      ghost var front, at := out, i;
      if EscapeAt(data, i) {
        changed := true;
        var r, consumed := Hex4Value(data, i + 2), 6;
        if HighSurrogate(r) && EscapeAt(data, i + 6) && LowSurrogate(Hex4Value(data, i + 8)) {
          r, consumed := Combine(r, Hex4Value(data, i + 8)), 12;
        }
        out := out + EncodeRune(r);
        i := i + consumed;
      } else {
        out := out + [data[i]];
        i := i + 1;
      }
      UnicodeNext(front, data, at, i);
    }
    assert out == UnicodeFrom(data, 0);
    var printable := CheckPrintable(out);
    if !changed || !printable { return None; }
    return Some(out);
  }

  // ---------------------------------------------------------------------------------------
  // UTF-16

  /** Recognises UTF-16 by its byte order mark or its NULs. */
  method SniffUtf16(data: Word) returns (kind: Utf16Kind)
    ensures kind == Sniff(data)
  {
    if |data| < 4 { return NotUtf16; }
    if data[0] == 0xFF && data[1] == 0xFE { return LittleEndian; }
    if data[0] == 0xFE && data[1] == 0xFF { return BigEndian; }
    var n := if |data| > 128 then 128 else |data|;
    if n % 2 != 0 { n := n - 1; }
    if n < 8 { return NotUtf16; }
    var evenNul, oddNul := 0, 0;
    for i := 0 to n
      invariant evenNul == NulsAt(data, i, false) && oddNul == NulsAt(data, i, true)
    {
      if data[i] == 0 {
        if i % 2 == 0 { evenNul := evenNul + 1; } else { oddNul := oddNul + 1; }
      }
    }
    if oddNul * 4 >= (n / 2) * 3 { return LittleEndian; }
    if evenNul * 4 >= (n / 2) * 3 { return BigEndian; }
    return NotUtf16;
  }

  predicate Even(i: int) {
    i % 2 == 0
  }

  lemma EvenSteps(i: int)
    requires Even(i)
    ensures Even(i + 2) && Even(i + 4)
  {
  }

  lemma EvenBelow(i: int, n: int)
    requires Even(i) && Even(n) && i < n
    ensures i + 2 <= n && (i + 4 <= n || i + 2 == n)
  {
  }

  /** A window that drops leading bytes and at most a trailing odd byte shows the same characters. */
  lemma SameChar(data: Word, lo: nat, hi: nat, i: nat, le: bool)
    requires lo <= hi <= |data| <= hi + 1 && Even(hi - lo) && Even(i) && i + 2 <= hi - lo
    ensures Utf16Step(data[lo..hi], i, le) == Utf16Step(data, lo + i, le)
    ensures Utf16Char(data[lo..hi], i, le) == Utf16Char(data, lo + i, le)
  {
    var d := data[lo..hi];
    assert Unit(d, i, le) == Unit(data, lo + i, le);
    if i + 4 <= hi - lo {
      assert Unit(d, i + 2, le) == Unit(data, lo + (i + 2), le);
    } else {
      EvenBelow(i, hi - lo);
    }
  }

  lemma {:induction false} Utf16Slice(data: Word, lo: nat, hi: nat, i: nat, le: bool)
    requires lo <= hi <= |data| <= hi + 1 && Even(hi - lo) && Even(i) && i <= hi - lo
    ensures Utf16From(data[lo..hi], i, le) == Utf16From(data, lo + i, le)
    decreases hi - lo - i
  {
    if i < hi - lo {
      EvenBelow(i, hi - lo);
      EvenSteps(i);
      SameChar(data, lo, hi, i, le);
      var step := Utf16Step(data[lo..hi], i, le);
      Utf16Slice(data, lo, hi, i + step, le);
      assert Utf16From(data, lo + i, le) == Utf16Char(data, lo + i, le) + Utf16From(data, lo + (i + step), le);
    }
  }

  /** Transcodes to UTF-8 after stripping a leading byte order mark and a trailing odd byte. */
  method DecodeUtf16(data: Word, le: bool) returns (out: Word)
    ensures out == Utf16From(data, 0, le)
  {
    var lo := if |data| >= 2 && Unit(data, 0, le) == BYTE_ORDER_MARK then 2 else 0;
    var hi := if (|data| - lo) % 2 != 0 then |data| - 1 else |data|;
    Utf16Slice(data, lo, hi, 0, le);
    out := TranscodeUnits(data[lo..hi], le, (hi - lo) / 2);
  }

  method TranscodeUnits(data: Word, le: bool, ghost units: nat) returns (out: Word)
    requires |data| == 2 * units
    ensures out == Utf16From(data, 0, le)
  {
    out := [];
    var i := 0;
    ghost var done, all := 0, Utf16From(data, 0, le);
    while i < |data|
      invariant 0 <= i <= |data| && i == 2 * done
      invariant out + Utf16From(data, i, le) == all
    {
      ghost var front, at := out, i;
      var r, step := ReadRune(data, i, le);
      if r != BYTE_ORDER_MARK { out := out + EncodeRune(r); }
      i := i + step;
      done := if step == 4 then done + 2 else done + 1;
      assert out + Utf16From(data, i, le) == all by {
        assert out == front + Utf16Char(data, at, le);
        NextChar(front, data, at, le, i);
      }
    }
    assert Utf16From(data, i, le) == [];
  }

  lemma NextChar(out: Word, data: Word, i: nat, le: bool, next: nat)
    requires i + 2 <= |data| && next == i + Utf16Step(data, i, le)
    ensures out + Utf16From(data, i, le) == (out + Utf16Char(data, i, le)) + Utf16From(data, next, le)
  {
    ConcatAssoc(out, Utf16Char(data, i, le), Utf16From(data, next, le));
  }

  /** The rune at `i`, with lone surrogates replaced, and its width. */
  method ReadRune(data: Word, i: nat, le: bool) returns (r: int, step: nat)
    requires i + 2 <= |data|
    ensures 0 <= r <= 0x10_FFFF && step == Utf16Step(data, i, le)
    ensures Utf16Char(data, i, le) == if r == BYTE_ORDER_MARK then [] else EncodeRune(r)
  {
    r, step := Unit(data, i, le), 2;
    if HighSurrogate(r) && i + 3 < |data| {
      var lo := Unit(data, i + 2, le);
      if LowSurrogate(lo) {
        r, step := Combine(r, lo), 4;
      } else {
        r := REPLACEMENT;
      }
    } else if LowSurrogate(r) {
      r := REPLACEMENT;
    }
    assert EncodeRune(REPLACEMENT) == [0xEF, 0xBF, 0xBD];
  }
}
