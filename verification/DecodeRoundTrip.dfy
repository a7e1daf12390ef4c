/** The decoders undo the encodings they are named after. */
module DecodeRoundTrip {
  import opened Bytes
  import opened DecodeSpec
  import opened Utf8Reader

  // ---------------------------------------------------------------------------------------
  // Base64

  function Sign(v: int, urlSafe: bool): (c: byte)
    requires 0 <= v < 64
    ensures InAlphabet(c, urlSafe) && SextetOf(c, urlSafe) == v
  {
    if v < 26 then 65 + v
    else if v < 52 then 97 + v - 26
    else if v < 62 then 48 + v - 52
    else if v == 62 then (if urlSafe then 45 else 43)
    else (if urlSafe then 95 else 47)
  }

  /** The signs of the bytes from `i` on, without padding. */
  ghost function Signs(x: Word, u: bool, i: nat): Word
    requires i <= |x|
    decreases |x| - i
  {
    if i == |x| then []
    else if i + 1 == |x| then [Sign(x[i] / 4, u), Sign(x[i] % 4 * 16, u)]
    else if i + 2 == |x| then [Sign(x[i] / 4, u), Sign(x[i] % 4 * 16 + x[i + 1] / 16, u), Sign(x[i + 1] % 16 * 4, u)]
    else Quad(x, u, i) + Signs(x, u, i + 3)
  }

  ghost function Quad(x: Word, u: bool, i: nat): Word
    requires i + 3 <= |x|
  {
    [Sign(x[i] / 4, u), Sign(x[i] % 4 * 16 + x[i + 1] / 16, u), Sign(x[i + 1] % 16 * 4 + x[i + 2] / 64, u),
     Sign(x[i + 2] % 64, u)]
  }

  ghost function PadsFor(enc: Encoding, n: nat): nat {
    if enc.padded then (3 - n % 3) % 3 else 0
  }

  /** The signs of each alphabet are those that stand for some six bits, and the two together are the signs of runs. */
  lemma AlphabetsExactly(c: byte)
    ensures forall u :: InAlphabet(c, u) <==> exists v: nat :: v < 64 && Sign(v, u) == c
    ensures IsBase64(c) <==> InAlphabet(c, true) || InAlphabet(c, false)
  {
    forall u ensures InAlphabet(c, u) <==> exists v: nat :: v < 64 && Sign(v, u) == c {
      if InAlphabet(c, u) { assert Sign(SextetOf(c, u), u) == c; }
    }
  }

  function SignCount(n: nat): nat {
    n / 3 * 4 + (if n % 3 == 0 then 0 else n % 3 + 1)
  }

  lemma SignCountNext(n: nat)
    requires n >= 3
    ensures SignCount(n) == 4 + SignCount(n - 3)
  {
  }

  lemma PadsComplete(enc: Encoding, n: nat)
    ensures PadsFit(enc, SignCount(n), PadsFor(enc, n))
  {
  }

  lemma {:induction false} SignsIn(x: Word, u: bool, i: nat)
    requires i <= |x|
    ensures AllIn(Signs(x, u, i), u) && |Signs(x, u, i)| == SignCount(|x| - i)
    decreases |x| - i
  {
    if i + 3 <= |x| {
      SignsIn(x, u, i + 3);
      SignCountNext(|x| - i);
    }
  }

  /** Sextets put three bytes back together. */
  lemma BytesOfSextets(a: byte, b: byte, c: byte)
    ensures a / 4 * 4 + (a % 4 * 16 + b / 16) / 16 == a
    ensures (a % 4 * 16 + b / 16) % 16 * 16 + (b % 16 * 4 + c / 64) / 4 == b
    ensures (b % 16 * 4 + c / 64) % 4 * 64 + c % 64 == c
  {
  }

  lemma QuadAt(s: Word, u: bool, p: nat, x: Word, i: nat)
    requires i + 3 <= |x| && AllIn(s, u) && p + 4 <= |s|
    requires s[p] == Quad(x, u, i)[0] && s[p + 1] == Quad(x, u, i)[1] && s[p + 2] == Quad(x, u, i)[2]
    requires s[p + 3] == Quad(x, u, i)[3]
    ensures First(s, u, p) == x[i] && Second(s, u, p) == x[i + 1] && Third(s, u, p) == x[i + 2]
  {
    BytesOfSextets(x[i], x[i + 1], x[i + 2]);
  }

  lemma OneByteTail(s: Word, u: bool, p: nat, a: byte)
    requires AllIn(s, u) && |s| == p + 2 && s[p] == Sign(a / 4, u) && s[p + 1] == Sign(a % 4 * 16, u)
    ensures Sextets(s, u, p) == [a]
  {
    BytesOfSextets(a, 0, 0);
  }

  lemma TwoByteTail(s: Word, u: bool, p: nat, a: byte, b: byte)
    requires AllIn(s, u) && |s| == p + 3
    requires s[p] == Sign(a / 4, u) && s[p + 1] == Sign(a % 4 * 16 + b / 16, u) && s[p + 2] == Sign(b % 16 * 4, u)
    ensures Sextets(s, u, p) == [a, b]
  {
    BytesOfSextets(a, b, 0);
    assert First(s, u, p) == a;
    assert Second(s, u, p) == b;
  }

  lemma TailAt(x: Word, u: bool, i: nat, before: Word, s: Word)
    requires i <= |x| < i + 3 && s == before + Signs(x, u, i) && AllIn(s, u)
    ensures Sextets(s, u, |before|) == x[i..]
  {
    var p := |before|;
    assert forall k :: 0 <= k < |Signs(x, u, i)| ==> s[p + k] == Signs(x, u, i)[k];
    if i + 1 == |x| {
      OneByteTail(s, u, p, x[i]);
      assert x[i..] == [x[i]];
    } else if i + 2 == |x| {
      TwoByteTail(s, u, p, x[i], x[i + 1]);
      assert x[i..] == [x[i], x[i + 1]];
    }
  }

  lemma {:induction false} SextetsOfSigns(x: Word, u: bool, i: nat, before: Word, s: Word)
    requires i <= |x| && s == before + Signs(x, u, i) && AllIn(s, u)
    ensures Sextets(s, u, |before|) == x[i..]
    decreases |x| - i
  {
    if i + 3 <= |x| {
      var quad, p := Quad(x, u, i), |before|;
      ConcatAssoc(before, quad, Signs(x, u, i + 3));
      SextetsOfSigns(x, u, i + 3, before + quad, s);
      assert s[p] == quad[0] && s[p + 1] == quad[1] && s[p + 2] == quad[2] && s[p + 3] == quad[3];
      QuadAt(s, u, p, x, i);
      SextetsNext(s, u, p);
      NextThree(x, i);
    } else {
      TailAt(x, u, i, before, s);
    }
  }

  lemma NextThree(x: Word, i: nat)
    requires i + 3 <= |x|
    ensures x[i..] == [x[i], x[i + 1], x[i + 2]] + x[i + 3..]
  {
  }

  lemma SextetsNext(s: Word, u: bool, p: nat)
    requires AllIn(s, u) && p + 4 <= |s|
    ensures Sextets(s, u, p) == [First(s, u, p), Second(s, u, p), Third(s, u, p)] + Sextets(s, u, p + 4)
  {
  }

  /** Decoding undoes encoding, under each of the four encodings. */
  lemma Base64RoundTrip(enc: Encoding, x: Word)
    ensures DecodeBase64(enc, Signs(x, enc.urlSafe, 0), PadsFor(enc, |x|)) == Bytes(x)
  {
    var s := Signs(x, enc.urlSafe, 0);
    SignsIn(x, enc.urlSafe, 0);
    PadsComplete(enc, |x|);
    assert [] + s == s;
    SextetsOfSigns(x, enc.urlSafe, 0, [], s);
    assert x[0..] == x;
  }

  // ---------------------------------------------------------------------------------------
  // Hexadecimal

  function HexDigit(v: int, upper: bool): (c: byte)
    requires 0 <= v < 16
    ensures IsHex(c) && HexValue(c) == v
  {
    if v < 10 then 48 + v else if upper then 65 + v - 10 else 97 + v - 10
  }

  lemma HexExactly(c: byte)
    ensures IsHex(c) <==> exists v: nat, upper: bool :: v < 16 && HexDigit(v, upper) == c
  {
    if IsHex(c) { assert HexDigit(HexValue(c), c < 97) == c; }
  }

  ghost function HexOf(x: Word, upper: bool, i: nat): Word
    requires i <= |x|
    decreases |x| - i
  {
    if i == |x| then [] else [HexDigit(x[i] / 16, upper), HexDigit(x[i] % 16, upper)] + HexOf(x, upper, i + 1)
  }

  lemma {:induction false} HexDigitsOnly(x: Word, upper: bool, i: nat)
    requires i <= |x|
    ensures |HexOf(x, upper, i)| == 2 * (|x| - i)
    ensures forall k :: 0 <= k < |HexOf(x, upper, i)| ==> IsHex(HexOf(x, upper, i)[k])
    decreases |x| - i
  {
    if i < |x| { HexDigitsOnly(x, upper, i + 1); }
  }

  lemma {:induction false} PairsOfHex(x: Word, upper: bool, i: nat, before: Word, s: Word)
    requires i <= |x| && s == before + HexOf(x, upper, i) && forall k :: 0 <= k < |s| ==> IsHex(s[k])
    ensures HexPairs(s, |before|) == x[i..]
    decreases |x| - i
  {
    if i < |x| {
      var pair, p := [HexDigit(x[i] / 16, upper), HexDigit(x[i] % 16, upper)], |before|;
      ConcatAssoc(before, pair, HexOf(x, upper, i + 1));
      PairsOfHex(x, upper, i + 1, before + pair, s);
      assert s[p] == pair[0] && s[p + 1] == pair[1];
      assert x[i..] == [x[i]] + x[i + 1..];
    }
  }

  /** Decoding undoes encoding, in either letter case. */
  lemma HexRoundTrip(x: Word, upper: bool)
    ensures DecodeHex(HexOf(x, upper, 0)) == Bytes(x)
  {
    var s := HexOf(x, upper, 0);
    HexDigitsOnly(x, upper, 0);
    assert [] + s == s;
    PairsOfHex(x, upper, 0, [], s);
    assert x[0..] == x;
  }

  // ---------------------------------------------------------------------------------------
  // UTF-16

  /** A Unicode scalar value. */
  predicate IsScalar(r: int) {
    0 <= r <= 0x10_FFFF && !HighSurrogate(r) && !LowSurrogate(r)
  }

  ghost predicate Text(t: seq<int>) {
    forall i :: 0 <= i < |t| ==> IsScalar(t[i])
  }

  ghost function Utf8(t: seq<int>, i: nat): Word
    requires Text(t) && i <= |t|
    decreases |t| - i
  {
    if i == |t| then [] else EncodeRune(t[i]) + Utf8(t, i + 1)
  }

  function UnitBytes(u: int, le: bool): Word
    requires 0 <= u < 0x1_0000
  {
    if le then [u % 256, u / 256] else [u / 256, u % 256]
  }

  function HighOf(r: int): (u: int)
    requires 0x1_0000 <= r <= 0x10_FFFF
    ensures HighSurrogate(u)
  {
    0xD800 + (r - 0x1_0000) / 0x400
  }

  function LowOf(r: int): (u: int)
    requires 0x1_0000 <= r <= 0x10_FFFF
    ensures LowSurrogate(u)
  {
    0xDC00 + (r - 0x1_0000) % 0x400
  }

  lemma SurrogatesCombine(r: int)
    requires 0x1_0000 <= r <= 0x10_FFFF
    ensures Combine(HighOf(r), LowOf(r)) == r
  {
  }

  function CharBytes(r: int, le: bool): (s: Word)
    requires IsScalar(r)
    ensures |s| == if r < 0x1_0000 then 2 else 4
  {
    if r < 0x1_0000 then UnitBytes(r, le) else UnitBytes(HighOf(r), le) + UnitBytes(LowOf(r), le)
  }

  ghost function Utf16Of(t: seq<int>, le: bool, i: nat): Word
    requires Text(t) && i <= |t|
    decreases |t| - i
  {
    if i == |t| then [] else CharBytes(t[i], le) + Utf16Of(t, le, i + 1)
  }

  lemma UnitAt(s: Word, p: nat, u: int, le: bool)
    requires 0 <= u < 0x1_0000 && p + 2 <= |s| && s[p..p + 2] == UnitBytes(u, le)
    ensures Unit(s, p, le) == u
  {
    assert s[p] == s[p..p + 2][0] && s[p + 1] == s[p..p + 2][1];
  }

  lemma CharAt(s: Word, p: nat, r: int, le: bool)
    requires IsScalar(r) && r != BYTE_ORDER_MARK && p + |CharBytes(r, le)| <= |s|
    requires s[p..p + |CharBytes(r, le)|] == CharBytes(r, le)
    ensures Utf16Step(s, p, le) == |CharBytes(r, le)| && Utf16Char(s, p, le) == EncodeRune(r)
  {
    if r < 0x1_0000 {
      UnitAt(s, p, r, le);
    } else {
      SliceOfSlice(s, p, p + 4, 0, 2);
      SliceOfSlice(s, p, p + 4, 2, 4);
      UnitAt(s, p, HighOf(r), le);
      UnitAt(s, p + 2, LowOf(r), le);
      SurrogatesCombine(r);
    }
  }

  lemma {:induction false} Utf16RoundTripFrom(t: seq<int>, le: bool, i: nat, before: Word, s: Word)
    requires Text(t) && BYTE_ORDER_MARK !in t && i <= |t| && s == before + Utf16Of(t, le, i)
    ensures Utf16From(s, |before|, le) == Utf8(t, i)
    decreases |t| - i
  {
    if i < |t| {
      var here := CharBytes(t[i], le);
      ConcatAssoc(before, here, Utf16Of(t, le, i + 1));
      assert s[|before|..|before| + |here|] == here;
      assert t[i] in t;
      CharAt(s, |before|, t[i], le);
      Utf16RoundTripFrom(t, le, i + 1, before + here, s);
    }
  }

  /** The characters of UTF-16 bytes: pairs combine, lone surrogates are replaced, byte order marks are dropped. */
  ghost function Characters(data: Word, i: nat, le: bool): seq<int>
    decreases |data| - i
  {
    if i + 2 > |data| then []
    else
      var u := Unit(data, i, le);
      if HighSurrogate(u) && i + 4 <= |data| && LowSurrogate(Unit(data, i + 2, le)) then
        [0x1_0000 + (u - 0xD800) * 0x400 + (Unit(data, i + 2, le) - 0xDC00)] + Characters(data, i + 4, le)
      else (if u == BYTE_ORDER_MARK then [] else [Replaced(u)]) + Characters(data, i + 2, le)
  }

  lemma SuffixSplit(s: Word, p: nat, here: Word, after: Word, next: nat)
    requires p <= |s| && s[p..] == here + after && next == p + |here|
    ensures next <= |s| && OccursAt(s, here, p) && s[next..] == after
  {
    assert |s| - p == |here + after|;
    assert s[p..next] == s[p..][..|here|] == here;
    assert s[next..] == s[p..][|here|..] == after;
  }

  lemma {:induction false} TranscodedReadsFrom(data: Word, i: nat, le: bool, s: Word, p: nat)
    requires p <= |s| && s[p..] == Utf16From(data, i, le)
    ensures ReadText(s, p) == Some(Characters(data, i, le))
    decreases |data| - i
  {
    if i + 2 <= |data| {
      var here, next := Utf16Char(data, i, le), i + Utf16Step(data, i, le);
      var q := p + |here|;
      SuffixSplit(s, p, here, Utf16From(data, next, le), q);
      TranscodedReadsFrom(data, next, le, s, q);
      CharacterReads(data, i, le, s, p, Characters(data, next, le));
    }
  }

  lemma CharacterReads(data: Word, i: nat, le: bool, s: Word, p: nat, rest: seq<int>)
    requires i + 2 <= |data| && OccursAt(s, Utf16Char(data, i, le), p)
    requires ReadText(s, p + |Utf16Char(data, i, le)|) == Some(rest)
    requires rest == Characters(data, i + Utf16Step(data, i, le), le)
    ensures ReadText(s, p) == Some(Characters(data, i, le))
  {
    var u := Unit(data, i, le);
    if Utf16PairAt(data, i, le) {
      ReadsNext(s, p, Combine(u, Unit(data, i + 2, le)), rest);
    } else if u == BYTE_ORDER_MARK {
      assert [] + rest == rest;
    } else {
      ReadsNext(s, p, u, rest);
    }
  }

  /** Whatever the bytes, their transcoding is well-formed UTF-8 and reads as their characters. */
  lemma TranscodedReads(data: Word, le: bool)
    ensures ReadText(Utf16From(data, 0, le), 0) == Some(Characters(data, 0, le))
  {
    var s := Utf16From(data, 0, le);
    assert s[0..] == s;
    TranscodedReadsFrom(data, 0, le, s, 0);
  }

  lemma HeadAndTail(t: seq<int>, i: nat)
    requires i < |t|
    ensures t[i..] == [t[i]] + t[i + 1..]
  {
  }

  lemma ReadsScalar(s: Word, p: nat, t: seq<int>, i: nat, here: Word, q: nat)
    requires i < |t| && IsScalar(t[i]) && here == EncodeRune(t[i]) && OccursAt(s, here, p)
    requires q == p + |here| && ReadText(s, q) == Some(t[i + 1..])
    ensures ReadText(s, p) == Some(t[i..])
  {
    ReadsNext(s, p, t[i], t[i + 1..]);
    HeadAndTail(t, i);
    assert Replaced(t[i]) == t[i];
  }

  lemma {:induction false} Utf8Reads(t: seq<int>, i: nat, s: Word, p: nat)
    requires Text(t) && i <= |t| && p <= |s| && s[p..] == Utf8(t, i)
    ensures ReadText(s, p) == Some(t[i..])
    decreases |t| - i
  {
    if i < |t| {
      var here := EncodeRune(t[i]);
      var q := p + |here|;
      SuffixSplit(s, p, here, Utf8(t, i + 1), q);
      Utf8Reads(t, i + 1, s, q);
      ReadsScalar(s, p, t, i, here, q);
    } else {
      assert |s[p..]| == 0 && t[i..] == [];
    }
  }

  /** Transcoding UTF-16 text, in either byte order, gives its UTF-8 form, which reads back as the text. */
  lemma Utf16RoundTrip(t: seq<int>, le: bool)
    requires Text(t) && BYTE_ORDER_MARK !in t
    ensures Utf16From(Utf16Of(t, le, 0), 0, le) == Utf8(t, 0)
    ensures ReadText(Utf16From(Utf16Of(t, le, 0), 0, le), 0) == Some(t)
  {
    assert [] + Utf16Of(t, le, 0) == Utf16Of(t, le, 0);
    Utf16RoundTripFrom(t, le, 0, [], Utf16Of(t, le, 0));
    var s := Utf8(t, 0);
    assert s[0..] == s && t[0..] == t;
    Utf8Reads(t, 0, s, 0);
  }
}
