/** A reader of UTF-8 (section 4 of RFC 3629) that knows nothing of the encoder, and what it reads in encoded text. */
module Utf8Reader {
  import opened Bytes
  import opened DecodeSpec

  datatype Reading = Malformed | Character(value: int, width: nat)

  /** A continuation byte. */
  predicate Continues(s: Word, i: nat) {
    i < |s| && 0x80 <= s[i] <= 0xBF
  }

  function Payload(s: Word, i: nat): (v: int)
    requires Continues(s, i)
    ensures 0 <= v < 64
  {
    s[i] - 0x80
  }

  predicate Surrogate(v: int) {
    0xD800 <= v <= 0xDFFF
  }

  /** The character that starts at `i`: the lead byte tells the length, the form is the shortest, and it is no
      surrogate. */
  function ReadCharacter(s: Word, i: nat): (r: Reading)
    ensures r.Character? ==> 1 <= r.width && i + r.width <= |s| && 0 <= r.value <= 0x10_FFFF && !Surrogate(r.value)
  {
    if i >= |s| then Malformed
    else if s[i] < 0x80 then Character(s[i], 1)
    else if 0xC2 <= s[i] <= 0xDF && Continues(s, i + 1) then Character((s[i] - 0xC0) * 64 + Payload(s, i + 1), 2)
    else if 0xE0 <= s[i] <= 0xEF && Continues(s, i + 1) && Continues(s, i + 2) then
      var v := ((s[i] - 0xE0) * 64 + Payload(s, i + 1)) * 64 + Payload(s, i + 2);
      if v < 0x800 || Surrogate(v) then Malformed else Character(v, 3)
    else if 0xF0 <= s[i] <= 0xF4 && Continues(s, i + 1) && Continues(s, i + 2) && Continues(s, i + 3) then
      var v := (((s[i] - 0xF0) * 64 + Payload(s, i + 1)) * 64 + Payload(s, i + 2)) * 64 + Payload(s, i + 3);
      if v < 0x1_0000 || v > 0x10_FFFF then Malformed else Character(v, 4)
    else Malformed
  }

  /** The characters from `i` on, if all of them are well formed. */
  ghost function ReadText(s: Word, i: nat): Option<seq<int>>
    decreases |s| - i
  {
    if i >= |s| then Some([])
    else
      match ReadCharacter(s, i)
      case Malformed => None
      case Character(v, width) =>
        var rest := ReadText(s, i + width);
        if rest.None? then None else Some([v] + rest.value)
  }

  /** What a decoder makes of a number: surrogates are no characters and are replaced. */
  function Replaced(r: int): int {
    if Surrogate(r) then REPLACEMENT else r
  }

  lemma DigitsOf(r: int)
    requires 0 <= r <= 0x10_FFFF
    ensures r / 64 * 64 + r % 64 == r
    ensures (r / 4096 * 64 + r / 64 % 64) * 64 + r % 64 == r
    ensures ((r / 262144 * 64 + r / 4096 % 64) * 64 + r / 64 % 64) * 64 + r % 64 == r
  {
  }

  /** The encoding of a number reads back as that number, whatever stands around it. */
  lemma EncodedReads(s: Word, i: nat, r: int)
    requires 0 <= r <= 0x10_FFFF && OccursAt(s, EncodeRune(r), i)
    ensures ReadCharacter(s, i) == Character(Replaced(r), |EncodeRune(r)|)
  {
    var e := EncodeRune(r);
    DigitsOf(r);
    var t := s[i..i + |e|];
    assert s[i] == t[0];
    if |e| >= 2 { assert s[i + 1] == t[1]; }
    if |e| >= 3 { assert s[i + 2] == t[2]; }
    if |e| >= 4 { assert s[i + 3] == t[3]; }
  }

  /** What reads as a character is its encoding: there is no other form. */
  lemma ReadsEncoded(s: Word, i: nat)
    requires ReadCharacter(s, i).Character?
    ensures var c := ReadCharacter(s, i); s[i..i + c.width] == EncodeRune(c.value)
  {
    var c := ReadCharacter(s, i);
    if c.width == 1 {
      assert s[i..i + 1] == [s[i]];
    } else if c.width == 2 {
      ReadsTwo(s, i);
    } else if c.width == 3 {
      ReadsThree(s, i);
    } else {
      ReadsFour(s, i);
    }
  }

  lemma ReadsTwo(s: Word, i: nat)
    requires ReadCharacter(s, i).Character? && ReadCharacter(s, i).width == 2
    ensures s[i..i + 2] == EncodeRune(ReadCharacter(s, i).value)
  {
    EncodedInTwo(s[i] - 0xC0, Payload(s, i + 1));
    assert s[i..i + 2] == [s[i], s[i + 1]];
  }

  lemma ReadsThree(s: Word, i: nat)
    requires ReadCharacter(s, i).Character? && ReadCharacter(s, i).width == 3
    ensures s[i..i + 3] == EncodeRune(ReadCharacter(s, i).value)
  {
    EncodedInThree(s[i] - 0xE0, Payload(s, i + 1), Payload(s, i + 2));
    assert s[i..i + 3] == [s[i], s[i + 1], s[i + 2]];
  }

  lemma ReadsFour(s: Word, i: nat)
    requires ReadCharacter(s, i).Character? && ReadCharacter(s, i).width == 4
    ensures s[i..i + 4] == EncodeRune(ReadCharacter(s, i).value)
  {
    EncodedInFour(s[i] - 0xF0, Payload(s, i + 1), Payload(s, i + 2), Payload(s, i + 3));
    assert s[i..i + 4] == [s[i], s[i + 1], s[i + 2], s[i + 3]];
  }

  lemma EncodedInTwo(a: int, b: int)
    requires 2 <= a < 32 && 0 <= b < 64
    ensures EncodeRune(a * 64 + b) == [0xC0 + a, 0x80 + b]
  {
  }

  lemma EncodedInThree(a: int, b: int, c: int)
    requires 0 <= a < 16 && 0 <= b < 64 && 0 <= c < 64
    requires var v := (a * 64 + b) * 64 + c; v >= 0x800 && !Surrogate(v)
    ensures EncodeRune((a * 64 + b) * 64 + c) == [0xE0 + a, 0x80 + b, 0x80 + c]
  {
    var v := (a * 64 + b) * 64 + c;
    assert v / 64 == a * 64 + b;
  }

  lemma EncodedInFour(a: int, b: int, c: int, d: int)
    requires 0 <= a <= 4 && 0 <= b < 64 && 0 <= c < 64 && 0 <= d < 64
    requires 0x1_0000 <= ((a * 64 + b) * 64 + c) * 64 + d <= 0x10_FFFF
    ensures EncodeRune(((a * 64 + b) * 64 + c) * 64 + d) == [0xF0 + a, 0x80 + b, 0x80 + c, 0x80 + d]
  {
    var v := ((a * 64 + b) * 64 + c) * 64 + d;
    assert v / 64 == (a * 64 + b) * 64 + c && v / 4096 == a * 64 + b;
  }

  /** One more character in front. */
  lemma ReadsNext(s: Word, i: nat, r: int, rest: seq<int>)
    requires 0 <= r <= 0x10_FFFF && OccursAt(s, EncodeRune(r), i) && ReadText(s, i + |EncodeRune(r)|) == Some(rest)
    ensures ReadText(s, i) == Some([Replaced(r)] + rest)
  {
    EncodedReads(s, i, r);
  }
}
