/** Header counts of TAR and ZIP archives, taken before the archive libraries allocate anything. */
module ArchivePreflight {
  import opened Bytes

  const MAX_INT64: int := 0x7fff_ffff_ffff_ffff
  const MAX_UINT64: int := 0xffff_ffff_ffff_ffff
  const MAX_TAR_METADATA: int := 0x10_0000
  const BLOCK: nat := 512

  // ---------------------------------------------------------------------------------------
  // Size fields

  /** A big-endian number; the marker bit of the first byte does not count. */
  ghost function Base256(field: Word): nat {
    if field == [] then 0
    else if |field| == 1 then field[0] % 128
    else Base256(field[..|field| - 1]) * 256 + field[|field| - 1]
  }

  ghost function Octal(digits: Word): nat {
    if digits == [] then 0
    else Octal(digits[..|digits| - 1]) * 8 + (if digits[|digits| - 1] >= 48 then digits[|digits| - 1] - 48 else 0)
  }

  predicate OctalDigit(c: byte) {
    48 <= c <= 55
  }

  predicate Filler(c: byte) {
    c == 32 || c == 0
  }

  /** The field without leading and trailing blanks and NULs. */
  function Trimmed(field: Word): Word {
    if field == [] then []
    else if Filler(field[0]) then Trimmed(field[1..])
    else if Filler(field[|field| - 1]) then Trimmed(field[..|field| - 1])
    else field
  }

  /** What a size field means: a number in range, or nothing. */
  ghost function SizeOf(field: Word): Option<nat> {
    if field == [] then None
    else if field[0] >= 128 then (if field[0] >= 192 || Base256(field) > MAX_INT64 then None else Some(Base256(field)))
    else
      var digits := Trimmed(field);
      if digits == [] then Some(0)
      else if (exists i :: 0 <= i < |digits| && !OctalDigit(digits[i])) || Octal(digits) > MAX_INT64 then None
      else Some(Octal(digits))
  }

  lemma {:induction false} Base256Grows(field: Word, k: nat)
    requires 0 < k <= |field|
    ensures Base256(field[..k]) <= Base256(field)
    decreases |field|
  {
    if k < |field| {
      Base256Grows(field[..|field| - 1], k);
      assert field[..|field| - 1][..k] == field[..k];
    } else {
      assert field[..k] == field;
    }
  }

  /** The overflow test before the multiplication is exact. */
  lemma OverflowTestExact(value: nat, current: byte)
    ensures value > (MAX_UINT64 - current) / 256 <==> value * 256 + current > MAX_UINT64
  {
  }

  /** Parses a base-256 field in unsigned 64-bit arithmetic that never wraps. */
  method ParseBase256(field: Word) returns (r: Option<nat>)
    requires field != [] && 128 <= field[0] < 192
    ensures r == if Base256(field) > MAX_INT64 then None else Some(Base256(field))
  {
    var value: nat := 0;
    for i := 0 to |field|
      invariant value <= MAX_UINT64 && value == Base256(field[..i])
    {
      var current: byte := if i == 0 then field[0] % 128 else field[i];
      OverflowTestExact(value, current);
      assert field[..i + 1][..i] == field[..i];
      Base256Grows(field, i + 1);
      if value > (MAX_UINT64 - current) / 256 { return None; }
      value := value * 256 + current;
    }
    assert field[..|field|] == field;
    if value > MAX_INT64 { return None; }
    return Some(value);
  }

  /** The library's octal parser with a limit of 63 bits. */
  method ParseOctal(digits: Word) returns (r: Option<nat>)
    requires digits != []
    ensures r.Some? <==> (forall i :: 0 <= i < |digits| ==> OctalDigit(digits[i])) && Octal(digits) <= MAX_INT64
    ensures r.Some? ==> r.value == Octal(digits)
  {
    var value: nat := 0;
    for i := 0 to |digits|
      invariant value <= MAX_INT64 && value == Octal(digits[..i]) && forall j :: 0 <= j < i ==> OctalDigit(digits[j])
    {
      if !OctalDigit(digits[i]) { return None; }
      assert digits[..i + 1][..i] == digits[..i];
      OctalGrows(digits, i + 1);
      value := value * 8 + (digits[i] - 48);
      if value > MAX_INT64 { return None; }
    }
    assert digits[..|digits|] == digits;
    return Some(value);
  }

  lemma {:induction false} OctalGrows(digits: Word, k: nat)
    requires k <= |digits|
    ensures Octal(digits[..k]) <= Octal(digits)
    decreases |digits|
  {
    if k < |digits| {
      OctalGrows(digits[..|digits| - 1], k);
      assert digits[..|digits| - 1][..k] == digits[..k];
    } else {
      assert digits[..k] == digits;
    }
  }

  /** Accepts exactly the fields that mean a size in range, and returns that size. */
  method ParseTarSize(field: Word) returns (r: Option<nat>)
    ensures r == SizeOf(field)
  {
    if field == [] { return None; }
    if field[0] >= 128 {
      if field[0] >= 192 { return None; }
      r := ParseBase256(field);
      return;
    }
    var digits := Trimmed(field);
    if digits == [] { return Some(0); }
    r := ParseOctal(digits);
  }

  // ---------------------------------------------------------------------------------------
  // Numbers as archivers write them

  ghost function Power8(n: nat): nat {
    if n == 0 then 1 else Power8(n - 1) * 8
  }

  /** A size in `n` octal digits. */
  ghost function OctalText(v: nat, n: nat): Word {
    if n == 0 then [] else OctalText(v / 8, n - 1) + ['0' as int + v % 8]
  }

  lemma {:induction false} OctalReads(v: nat, n: nat)
    requires v < Power8(n)
    ensures |OctalText(v, n)| == n && Octal(OctalText(v, n)) == v
    ensures forall i :: 0 <= i < n ==> OctalDigit(OctalText(v, n)[i])
  {
    if n > 0 {
      OctalReads(v / 8, n - 1);
      var front, s := OctalText(v / 8, n - 1), OctalText(v, n);
      assert s[..n - 1] == front && s[n - 1] == 48 + v % 8;
    }
  }

  ghost predicate Blank(s: Word) {
    forall i :: 0 <= i < |s| ==> s[i] == ' ' as int || s[i] == 0
  }

  lemma {:induction false} TrimmedIs(lead: Word, digits: Word, trail: Word)
    requires Blank(lead) && Blank(trail) && digits != []
    requires !Filler(digits[0]) && !Filler(digits[|digits| - 1])
    ensures Trimmed(lead + digits + trail) == digits
    decreases |lead| + |trail|
  {
    var field := lead + digits + trail;
    if lead != [] {
      assert field[0] == lead[0] && field[1..] == lead[1..] + digits + trail;
      TrimmedIs(lead[1..], digits, trail);
    } else if trail != [] {
      assert field[0] == digits[0] && field[|field| - 1] == trail[|trail| - 1];
      assert field[..|field| - 1] == lead + digits + trail[..|trail| - 1];
      TrimmedIs(lead, digits, trail[..|trail| - 1]);
    } else {
      assert field == digits;
    }
  }

  /** A size in octal digits, padded with blanks and NULs on either side, is read as that size. */
  lemma OctalField(lead: Word, v: nat, n: nat, trail: Word)
    requires Blank(lead) && Blank(trail) && n > 0 && v < Power8(n) && v <= MAX_INT64
    ensures SizeOf(lead + OctalText(v, n) + trail) == Some(v)
  {
    var digits := OctalText(v, n);
    var field := lead + digits + trail;
    OctalReads(v, n);
    TrimmedIs(lead, digits, trail);
    assert field[0] == (if lead != [] then lead[0] else digits[0]);
  }

  ghost function Power256(n: nat): nat {
    if n == 0 then 1 else Power256(n - 1) * 256
  }

  /** A size in `n` bytes, the first of which carries the marker bit and six bits of the size. */
  ghost function Base256Text(v: nat, n: nat): Word
    requires n > 0 && v < 64 * Power256(n - 1)
  {
    if n == 1 then [128 + v] else Base256Text(v / 256, n - 1) + [v % 256]
  }

  lemma {:induction false} Base256Reads(v: nat, n: nat)
    requires n > 0 && v < 64 * Power256(n - 1)
    ensures var s := Base256Text(v, n); |s| == n && 128 <= s[0] < 192 && Base256(s) == v
  {
    if n > 1 {
      Base256Reads(v / 256, n - 1);
      var front, s := Base256Text(v / 256, n - 1), Base256Text(v, n);
      assert s[..n - 1] == front && s[n - 1] == v % 256 && s[0] == front[0];
    }
  }

  /** A size in base 256 with the marker bit is read as that size. */
  lemma Base256Field(v: nat, n: nat)
    requires n > 0 && v < 64 * Power256(n - 1) && v <= MAX_INT64
    ensures SizeOf(Base256Text(v, n)) == Some(v)
  {
    Base256Reads(v, n);
  }

  // ---------------------------------------------------------------------------------------
  // TAR

  /** Extended headers of either scope and GNU long names and links. */
  lemma MetadataExactly(flag: byte)
    ensures Metadata(flag) <==> flag == 'x' as int || flag == 'g' as int || flag == 'L' as int || flag == 'K' as int
  {
  }

  predicate ZeroBlock(data: Word, offset: nat) {
    offset + BLOCK <= |data| && forall i :: offset <= i < offset + BLOCK ==> data[i] == 0
  }

  ghost function BodySize(data: Word, offset: nat): Option<nat>
    requires offset + BLOCK <= |data|
  {
    SizeOf(data[offset + 124..offset + 136])
  }

  /** A size rounded up to whole blocks. */
  function Padded(size: nat): (n: nat)
    ensures size <= n < size + BLOCK && n % BLOCK == 0
  {
    (size + 511) / 512 * 512
  }

  predicate Metadata(flag: byte) {
    flag == 120 || flag == 103 || flag == 76 || flag == 75
  }

  /** A physical record stands at `offset` and fits into the data. */
  ghost predicate RecordAt(data: Word, offset: nat) {
    && offset + BLOCK <= |data| && !ZeroBlock(data, offset) && data[offset + 156] != 83
    && BodySize(data, offset).Some? && offset + BLOCK + Padded(BodySize(data, offset).value) <= |data|
  }

  ghost function RecordEnd(data: Word, offset: nat): nat
    requires RecordAt(data, offset)
  {
    offset + BLOCK + Padded(BodySize(data, offset).value)
  }

  /** Where `n` records that lie end to end from the start of the data end, if there are so many. */
  ghost function AfterRecords(data: Word, n: nat): Option<nat> {
    if n == 0 then Some(0)
    else
      var before := AfterRecords(data, n - 1);
      if before.Some? && RecordAt(data, before.value) then Some(RecordEnd(data, before.value)) else None
  }

  /** The data holds exactly `n` records, then a zero block or nothing. */
  ghost predicate TarRecords(data: Word, n: nat) {
    AfterRecords(data, n).Some?
      && (AfterRecords(data, n).value == |data| || ZeroBlock(data, AfterRecords(data, n).value))
  }

  lemma RecordHere(data: Word, offset: nat, size: nat)
    requires offset + BLOCK <= |data| && !ZeroBlock(data, offset) && data[offset + 156] != 83
    requires SizeOf(data[offset + 124..offset + 136]) == Some(size) && offset + BLOCK + Padded(size) <= |data|
    ensures RecordAt(data, offset) && RecordEnd(data, offset) == offset + BLOCK + Padded(size)
  {
  }

  /** The bytes of metadata in the first `n` records. */
  ghost function MetadataBytes(data: Word, n: nat): nat {
    if n == 0 || AfterRecords(data, n - 1).None? then 0
    else MetadataBytes(data, n - 1) + MetadataAt(data, AfterRecords(data, n - 1).value)
  }

  ghost function MetadataAt(data: Word, at: nat): nat {
    if RecordAt(data, at) && Metadata(data[at + 156]) then BodySize(data, at).value else 0
  }

  lemma RecordCounted(data: Word, n: nat, offset: nat)
    requires AfterRecords(data, n) == Some(offset) && RecordAt(data, offset)
    ensures AfterRecords(data, n + 1) == Some(RecordEnd(data, offset))
  {
  }

  lemma MetadataCounted(data: Word, n: nat, offset: nat)
    requires AfterRecords(data, n) == Some(offset)
    ensures MetadataBytes(data, n + 1) == MetadataBytes(data, n) + MetadataAt(data, offset)
  {
  }

  /** Exactly `n` records, within the header and metadata limits. */
  ghost predicate TarAcceptable(data: Word, n: nat, maxHeaders: int) {
    TarRecords(data, n) && n <= maxHeaders && MetadataBytes(data, n) <= MAX_TAR_METADATA
  }

  /** Behind `n` records another one begins that is one too many or holds too much metadata. */
  ghost predicate HeaderOver(data: Word, n: nat, maxHeaders: int) {
    && AfterRecords(data, n).Some?
    && var at := AfterRecords(data, n).value;
       && at + BLOCK <= |data| && !ZeroBlock(data, at)
       && (n >= maxHeaders || (BodySize(data, at).Some? && Metadata(data[at + 156])
                               && MetadataBytes(data, n) + BodySize(data, at).value > MAX_TAR_METADATA))
  }

  ghost predicate TarOverLimit(data: Word, maxHeaders: int) {
    exists n: nat :: HeaderOver(data, n, maxHeaders)
  }

  lemma {:induction false} RecordsBefore(data: Word, n: nat, m: nat)
    requires n <= m && AfterRecords(data, m).Some?
    ensures AfterRecords(data, n).Some? && MetadataBytes(data, n) <= MetadataBytes(data, m)
    decreases m
  {
    if n < m { RecordsBefore(data, n, m - 1); }
  }

  lemma MoreToCome(data: Word, headers: nat, offset: nat, n: nat)
    requires AfterRecords(data, headers) == Some(offset) && offset < |data| && !ZeroBlock(data, offset)
    requires TarRecords(data, n)
    ensures n > headers
  {
    if n < headers { NoMoreRecords(data, n, headers); }
  }

  lemma RecordFollows(data: Word, headers: nat, offset: nat)
    requires AfterRecords(data, headers) == Some(offset) && AfterRecords(data, headers + 1).Some?
    ensures RecordAt(data, offset)
  {
  }

  /** Where neither the end nor a zero block has come, every count goes on with another record. */
  lemma GoesOn(data: Word, headers: nat, offset: nat, n: nat)
    requires AfterRecords(data, headers) == Some(offset) && offset < |data| && !ZeroBlock(data, offset)
    requires TarRecords(data, n)
    ensures n > headers && RecordAt(data, offset)
    ensures MetadataBytes(data, headers + 1) <= MetadataBytes(data, n)
  {
    MoreToCome(data, headers, offset, n);
    RecordsBefore(data, headers + 1, n);
    RecordFollows(data, headers, offset);
  }

  /** At the start nothing has been read. */
  lemma NothingRead(data: Word)
    ensures AfterRecords(data, 0) == Some(0) && MetadataBytes(data, 0) == 0
  {
  }

  lemma AtEnd(data: Word, headers: nat, maxHeaders: int)
    requires AfterRecords(data, headers) == Some(|data|)
    ensures TarRecords(data, headers) && forall n: nat :: TarAcceptable(data, n, maxHeaders) ==> n == headers
  {
    OnlyCount(data, headers, maxHeaders);
  }

  lemma NothingAcceptable(data: Word, headers: nat, offset: nat, maxHeaders: int)
    requires AfterRecords(data, headers) == Some(offset) && offset < |data| && !ZeroBlock(data, offset)
    requires headers >= maxHeaders || offset + BLOCK > |data| || !RecordAt(data, offset)
             || MetadataBytes(data, headers + 1) > MAX_TAR_METADATA
    ensures forall n: nat :: !TarAcceptable(data, n, maxHeaders)
  {
    forall n: nat ensures !TarAcceptable(data, n, maxHeaders) {
      if TarRecords(data, n) { GoesOn(data, headers, offset, n); }
    }
  }

  lemma OnlyCount(data: Word, headers: nat, maxHeaders: int)
    requires TarRecords(data, headers)
    ensures forall n: nat :: TarAcceptable(data, n, maxHeaders) ==> n == headers
  {
    forall n: nat | TarAcceptable(data, n, maxHeaders) ensures n == headers { TarCountUnique(data, n, headers); }
  }

  /** What a preflight finds: the number of records, more than a limit allows, or an archive that cannot be read. */
  datatype Count = Counted(records: nat) | OverLimit | Unreadable

  /** Counts the physical records before the first zero block or the end, within the header and metadata limits.
      No intermediate value leaves the signed 64-bit range. */
  method PreflightTar(data: Word, maxHeaders: int, faults: bool) returns (r: Count)
    requires |data| <= MAX_INT64
    ensures r.Counted? ==> r.records <= maxHeaders && TarRecords(data, r.records)
    ensures !faults ==> forall n: nat :: TarAcceptable(data, n, maxHeaders) ==> r == Counted(n)
    ensures r.OverLimit? ==> TarOverLimit(data, maxHeaders)
  {
    if maxHeaders < 0 { return Unreadable; }
    var offset: nat, metadata: nat, headers: nat := 0, 0, 0;
    NothingRead(data);
    while offset < |data|
      invariant offset <= |data| && metadata <= MAX_TAR_METADATA && headers <= maxHeaders
      invariant AfterRecords(data, headers) == Some(offset) && metadata == MetadataBytes(data, headers)
      decreases |data| - offset
    {
      var stopped := Fails(faults);
      if stopped { return Unreadable; }
      var stop;
      stop, offset, metadata := PreflightHeader(data, offset, headers, metadata, maxHeaders);
      if stop.Some? { return stop.value; }
      headers := headers + 1;
    }
    AtEnd(data, headers, maxHeaders);
    return Counted(headers);
  }

  /** One block: the end, or one more record. */
  method PreflightHeader(data: Word, offset: nat, headers: nat, metadata: nat, maxHeaders: int)
    returns (stop: Option<Count>, offset': nat, metadata': nat)
    requires |data| <= MAX_INT64 && offset < |data| && metadata <= MAX_TAR_METADATA && headers <= maxHeaders
    requires AfterRecords(data, headers) == Some(offset) && metadata == MetadataBytes(data, headers)
    ensures metadata' <= MAX_TAR_METADATA
    ensures stop.Some? && stop.value.Counted? ==> stop.value == Counted(headers) && TarRecords(data, headers)
    ensures stop.Some? && stop.value.OverLimit? ==> TarOverLimit(data, maxHeaders)
    ensures stop.Some? ==> forall n: nat :: TarAcceptable(data, n, maxHeaders) ==> stop.value == Counted(n)
    ensures stop.None? ==>
              && headers < maxHeaders && offset < offset' <= |data|
              && AfterRecords(data, headers + 1) == Some(offset') && metadata' == MetadataBytes(data, headers + 1)
  {
    stop, offset', metadata' := None, offset, metadata;
    if |data| - offset < BLOCK {
      NothingAcceptable(data, headers, offset, maxHeaders);
      return Some(Unreadable), offset, metadata;
    }
    if ZeroBlock(data, offset) {
      OnlyCount(data, headers, maxHeaders);
      return Some(Counted(headers)), offset, metadata;
    }
    if headers + 1 > maxHeaders {
      NothingAcceptable(data, headers, offset, maxHeaders);
      assert HeaderOver(data, headers, maxHeaders);
      return Some(OverLimit), offset, metadata;
    }
    stop, offset', metadata' := NextHeader(data, offset, headers, metadata, maxHeaders);
  }

  /** One more record, for which there is room. */
  method NextHeader(data: Word, offset: nat, ghost headers: nat, metadata: nat, ghost maxHeaders: int)
    returns (stop: Option<Count>, offset': nat, metadata': nat)
    requires |data| <= MAX_INT64 && offset + BLOCK <= |data| && !ZeroBlock(data, offset)
    requires metadata <= MAX_TAR_METADATA && headers < maxHeaders
    requires AfterRecords(data, headers) == Some(offset) && metadata == MetadataBytes(data, headers)
    ensures metadata' <= MAX_TAR_METADATA
    ensures stop.Some? ==> !stop.value.Counted? && forall n: nat :: !TarAcceptable(data, n, maxHeaders)
    ensures stop.Some? && stop.value.OverLimit? ==> TarOverLimit(data, maxHeaders)
    ensures stop.None? ==>
              && offset < offset' <= |data| && AfterRecords(data, headers + 1) == Some(offset')
              && metadata' == MetadataBytes(data, headers + 1)
  {
    stop, offset' := None, offset;
    var next, over;
    next, metadata', over := PreflightRecord(data, offset, metadata);
    MetadataCounted(data, headers, offset);
    if next.None? {
      NothingAcceptable(data, headers, offset, maxHeaders);
      assert over ==> HeaderOver(data, headers, maxHeaders);
      return Some(if over then OverLimit else Unreadable), offset, metadata;
    }
    RecordCounted(data, headers, offset);
    offset' := next.value;
  }

  /** One record: its size, its metadata budget and its extent. */
  method PreflightRecord(data: Word, offset: nat, metadata: nat) returns (next: Option<nat>, metadata': nat, over: bool)
    requires |data| <= MAX_INT64 && offset + BLOCK <= |data| && !ZeroBlock(data, offset) && metadata <= MAX_TAR_METADATA
    ensures metadata' <= MAX_TAR_METADATA
    ensures next.Some? ==>
              offset < next.value <= |data| && RecordAt(data, offset) && RecordEnd(data, offset) == next.value
    ensures over <==> BodySize(data, offset).Some? && Metadata(data[offset + 156])
                      && metadata + BodySize(data, offset).value > MAX_TAR_METADATA
    ensures over ==> next.None?
    ensures next.Some? <==> !over && RecordAt(data, offset)
    ensures next.Some? ==>
              metadata' == metadata + if Metadata(data[offset + 156]) then BodySize(data, offset).value else 0
  {
    next, metadata', over := None, metadata, false;
    var size := ParseTarSize(data[offset + 124..offset + 136]);
    if size.None? || data[offset + 156] == 83 { return; }
    if Metadata(data[offset + 156]) {
      if size.value > MAX_TAR_METADATA - metadata { return None, metadata, true; }
      metadata' := metadata + size.value;
    }
    if size.value > MAX_INT64 - 511 { return; }
    var padded := Padded(size.value);
    assert size.value + 511 <= MAX_INT64 && padded <= MAX_INT64;
    if padded > |data| - offset - BLOCK { return; }
    RecordHere(data, offset, size.value);
    next := Some(offset + BLOCK + padded);
  }

  /** After the last record there is no further one. */
  lemma {:induction false} NoMoreRecords(data: Word, n: nat, m: nat)
    requires TarRecords(data, n) && n < m
    ensures AfterRecords(data, m) == None
    decreases m
  {
    var at := AfterRecords(data, n).value;
    if n + 1 < m {
      NoMoreRecords(data, n, m - 1);
    } else {
      assert !RecordAt(data, at);
    }
  }

  /** So the count is determined by the bytes of the archive. */
  lemma TarCountUnique(data: Word, n: nat, m: nat)
    requires TarRecords(data, n) && TarRecords(data, m)
    ensures n == m
  {
    if n < m { NoMoreRecords(data, n, m); }
    if m < n { NoMoreRecords(data, m, n); }
  }

  // ---------------------------------------------------------------------------------------
  // ZIP central directories (section 4.3.12 of PKWARE APPNOTE)

  function Word16(data: Word, i: nat): (v: nat)
    requires i + 2 <= |data|
    ensures v < 0x1_0000
  {
    (data[i] as int) + (data[i + 1] as int) * 256
  }

  /** Two bytes, the low one first. */
  lemma Word16Reads(data: Word, i: nat, v: nat)
    requires i + 2 <= |data| && v < 0x1_0000
    ensures Word16(data, i) == v <==> data[i] == v % 256 && data[i + 1] == v / 256
  {
  }

  /** A record as section 4.3.12 lays it out: signature, 24 bytes, the lengths of name, extra field and comment, 12
      bytes and then these three. */
  lemma DirectoryRecordReads(data: Word, at: nat, name: nat, extra: nat, comment: nat)
    requires at + 46 <= |data| && name < 0x1_0000 && extra < 0x1_0000 && comment < 0x1_0000
    requires data[at] == 'P' as int && data[at + 1] == 'K' as int && data[at + 2] == 1 && data[at + 3] == 2
    requires data[at + 28..at + 34] == [name % 256, name / 256, extra % 256, extra / 256, comment % 256, comment / 256]
    ensures DirectoryAt(data, at) && DirectoryEnd(data, at) == at + 46 + name + extra + comment
  {
    var fields := data[at + 28..at + 34];
    assert fields[0] == data[at + 28] && fields[1] == data[at + 29] && fields[2] == data[at + 30];
    assert fields[3] == data[at + 31] && fields[4] == data[at + 32] && fields[5] == data[at + 33];
    Word16Reads(data, at + 28, name);
    Word16Reads(data, at + 30, extra);
    Word16Reads(data, at + 32, comment);
  }

  predicate DirectorySignature(data: Word, i: nat) {
    i + 4 <= |data| && data[i] == 0x50 && data[i + 1] == 0x4b && data[i + 2] == 0x01 && data[i + 3] == 0x02
  }

  /** A directory record: the fixed part, then name, extra field and comment. */
  predicate DirectoryAt(data: Word, offset: nat) {
    offset + 46 <= |data| && DirectorySignature(data, offset)
  }

  function DirectoryEnd(data: Word, offset: nat): nat
    requires DirectoryAt(data, offset)
  {
    offset + 46 + Word16(data, offset + 28) + Word16(data, offset + 30) + Word16(data, offset + 32)
  }

  /** Where `n` records that lie end to end from `from` on end, if there are so many. */
  ghost function AfterDirectory(data: Word, from: nat, n: nat): Option<nat> {
    if n == 0 then Some(from)
    else
      var before := AfterDirectory(data, from, n - 1);
      if before.Some? && DirectoryAt(data, before.value) then Some(DirectoryEnd(data, before.value)) else None
  }

  /** `n` records tile the range from `from` to `to`. */
  ghost predicate DirectoryTiles(data: Word, from: nat, n: nat, to: nat) {
    AfterDirectory(data, from, n) == Some(to)
  }

  lemma {:induction false} DirectoryGrows(data: Word, from: nat, n: nat, m: nat)
    requires n < m && AfterDirectory(data, from, m).Some?
    ensures AfterDirectory(data, from, n).Some?
    ensures AfterDirectory(data, from, n).value < AfterDirectory(data, from, m).value
    decreases m
  {
    if n < m - 1 { DirectoryGrows(data, from, n, m - 1); }
  }

  /** The number of records that tile a range is determined by the bytes of the archive. */
  lemma ZipCountUnique(data: Word, from: nat, to: nat, n: nat, m: nat)
    requires DirectoryTiles(data, from, n, to) && DirectoryTiles(data, from, m, to)
    ensures n == m
  {
    if n < m { DirectoryGrows(data, from, n, m); }
    if m < n { DirectoryGrows(data, from, m, n); }
  }

  /** `n` records tile the directory, within the header limit. */
  ghost predicate ZipAcceptable(data: Word, offset: nat, size: nat, n: nat, maxHeaders: int) {
    DirectoryTiles(data, offset, n, offset + size) && (n > 0 ==> n <= maxHeaders)
  }

  lemma {:induction false} DirectoryBefore(data: Word, from: nat, n: nat, m: nat)
    requires n <= m && AfterDirectory(data, from, m).Some?
    ensures AfterDirectory(data, from, n).Some?
    ensures AfterDirectory(data, from, n).value <= AfterDirectory(data, from, m).value
    decreases m
  {
    if n < m { DirectoryBefore(data, from, n, m - 1); }
  }

  /** Before the end of the directory every count goes on with another record that fits. */
  lemma ZipGoesOn(data: Word, offset: nat, size: nat, count: nat, at: nat, maxHeaders: int)
    requires DirectoryTiles(data, offset, count, at) && at < offset + size
    ensures forall n: nat :: ZipAcceptable(data, offset, size, n, maxHeaders) ==>
              count + 1 <= maxHeaders && DirectoryAt(data, at) && DirectoryEnd(data, at) <= offset + size
  {
    forall n: nat | ZipAcceptable(data, offset, size, n, maxHeaders)
      ensures count + 1 <= maxHeaders && DirectoryAt(data, at) && DirectoryEnd(data, at) <= offset + size
    {
      if n <= count {
        DirectoryBefore(data, offset, n, count);
      } else {
        DirectoryBefore(data, offset, count + 1, n);
      }
    }
  }

  /** Counts the records of a central directory; on success they lie end to end over exactly its range. */
  method CountZipDirectory(data: Word, offset: int, size: int, maxHeaders: int, faults: bool) returns (r: Count)
    requires |data| <= MAX_INT64 && offset <= MAX_INT64 && size <= MAX_INT64
    ensures r.Counted? ==>
              && offset >= 0 && size >= 0 && offset + size <= MAX_INT64
              && DirectoryTiles(data, offset, r.records, offset + size) && (r.records > 0 ==> r.records <= maxHeaders)
    ensures r.OverLimit? ==> offset >= 0 && (maxHeaders < 0 || AfterDirectory(data, offset, maxHeaders).Some?)
    ensures !faults && offset >= 0 && size >= 0 && offset + size <= MAX_INT64 ==>
              forall n: nat :: ZipAcceptable(data, offset, size, n, maxHeaders) ==> r == Counted(n)
  {
    if offset < 0 || size < 0 { return Unreadable; }
    var end := offset + size;
    if end > MAX_INT64 { return Unreadable; }
    var count: nat, at: nat := 0, offset;
    while at < end
      invariant offset <= at <= end && DirectoryTiles(data, offset, count, at) && (count > 0 ==> count <= maxHeaders)
      decreases end - at
    {
      var stopped := Fails(faults);
      if stopped { return Unreadable; }
      ZipGoesOn(data, offset, size, count, at, maxHeaders);
      if end - at < 46 || at + 46 > |data| { return Unreadable; }
      if !DirectorySignature(data, at) { return Unreadable; }
      if count + 1 > maxHeaders { return OverLimit; }
      var step := 46 + Word16(data, at + 28) + Word16(data, at + 30) + Word16(data, at + 32);
      if step > end - at { return Unreadable; }
      assert DirectoryEnd(data, at) == at + step;
      assert DirectoryTiles(data, offset, count + 1, at + step);
      count, at := count + 1, at + step;
    }
    forall n: nat | ZipAcceptable(data, offset, size, n, maxHeaders) ensures n == count {
      ZipCountUnique(data, offset, end, n, count);
    }
    return Counted(count);
  }

  // ---------------------------------------------------------------------------------------
  // Either format

  /** What the end record of a ZIP tells: where its directory lies and how many records it holds, that it is longer than
      allowed, or nothing that makes sense. */
  datatype Directory = Located(offset: int, size: int, records: int) | Oversized | NotFound

  datatype ArchiveFile = Tar(bytes: Word) | Zip(bytes: Word, directory: Directory)

  /** Sizes and offsets are signed 64-bit numbers. */
  predicate Addressable(a: ArchiveFile) {
    && |a.bytes| <= MAX_INT64
    && (a.Zip? && a.directory.Located? ==> a.directory.offset <= MAX_INT64 && a.directory.size <= MAX_INT64)
  }

  type Archive = a: ArchiveFile | Addressable(a) witness Tar([])

  /** The archive holds exactly `n` physical records. */
  ghost predicate HasRecords(a: Archive, n: nat) {
    match a
    case Tar(bytes) => TarRecords(bytes, n)
    case Zip(bytes, Located(offset, size, records)) =>
      offset >= 0 && size >= 0 && records == n && DirectoryTiles(bytes, offset, n, offset + size)
    case Zip(_, _) => false
  }

  /** Exactly `n` records, and nothing that exceeds a limit. */
  ghost predicate Acceptable(a: Archive, n: nat, maxHeaders: nat) {
    && HasRecords(a, n) && n <= maxHeaders
    && match a
       case Tar(bytes) => MetadataBytes(bytes, n) <= MAX_TAR_METADATA
       case Zip(_, Located(offset, size, _)) => offset + size <= MAX_INT64
       case Zip(_, _) => false
  }

  /** The number of physical records, if it is within the limit. */
  method Preflight(a: Archive, maxHeaders: nat, faults: bool) returns (r: Count)
    ensures r.Counted? ==> r.records <= maxHeaders && HasRecords(a, r.records)
    ensures !faults ==> forall n: nat :: Acceptable(a, n, maxHeaders) ==> r == Counted(n)
  {
    match a
    case Tar(bytes) => r := PreflightTar(bytes, maxHeaders, faults);
    case Zip(_, Oversized) => return OverLimit;
    case Zip(_, NotFound) => return Unreadable;
    case Zip(bytes, Located(offset, size, records)) =>
      r := CountZipDirectory(bytes, offset, size, maxHeaders, faults);
      assert forall n: nat :: Acceptable(a, n, maxHeaders) ==> ZipAcceptable(bytes, offset, size, n, maxHeaders);
      if r.Counted? && r.records != records { return Unreadable; }
  }

  /** The number of physical records is determined by the archive. */
  lemma CountUnique(a: Archive, n: nat, m: nat)
    requires HasRecords(a, n) && HasRecords(a, m)
    ensures n == m
  {
    if a.Tar? { TarCountUnique(a.bytes, n, m); }
  }
}
