/** First-occurrence searches over a replayable input that is read block by block. The input is a
    fixed byte string; a read error, a short read or a cancellation is a nondeterministic failure. */
module StreamSearch {
  import opened Bytes
  import opened AcSpec
  import opened AcTrie

  const BLOCK_SIZE: nat := 0x1_0000

  // ---------------------------------------------------------------------------------------
  // What a search must answer

  datatype StreamMatch = StreamMatch(offset: int, newlines: nat, found: bool)

  const ABSENT := StreamMatch(-1, 0, false)

  /** `m` is the answer `bytes.Index` and a newline count would give on the whole input. */
  ghost predicate IsMatch(data: Word, raw: Word, m: StreamMatch) {
    if m.found then
      && m.offset >= 0
      && IsIndex(data, raw, m.offset)
      && m.newlines == Newlines(data[..m.offset])
    else
      m == ABSENT && !Occurs(data, raw)
  }

  lemma MatchUnique(data: Word, raw: Word, m: StreamMatch, m': StreamMatch)
    requires IsMatch(data, raw, m) && IsMatch(data, raw, m')
    ensures m == m'
  {
    assert m.found ==> OccursAt(data, raw, m.offset);
    assert m'.found ==> OccursAt(data, raw, m'.offset);
    if m.found && m'.found {
      IndexUnique(data, raw, m.offset, m'.offset);
    }
  }

  /** No occurrence of `raw` starts before `n`. */
  ghost predicate NoneBefore(data: Word, raw: Word, n: int) {
    forall j :: 0 <= j < n ==> !OccursAt(data, raw, j)
  }

  lemma NoneAnywhere(data: Word, raw: Word, n: int)
    requires NoneBefore(data, raw, n) && |data| - |raw| < n
    ensures !Occurs(data, raw)
  {
  }

  // ---------------------------------------------------------------------------------------
  // The reader and the library searches inside one buffer

  method ReadAt(data: Word, offset: nat, length: nat, faults: bool) returns (r: Option<Word>)
    requires offset + length <= |data|
    ensures r.Some? ==> r.value == data[offset..offset + length]
    ensures !faults ==> r.Some?
  {
    var stopped := Fails(faults);
    if stopped { return None; }
    r := Some(data[offset..offset + length]);
  }

  method Index(hay: Word, needle: Word) returns (i: int)
    ensures IsIndex(hay, needle, i)
  {
    for k := 0 to |hay| + 1
      invariant NoneBefore(hay, needle, k)
    {
      if OccursAt(hay, needle, k) { return k; }
    }
    return -1;
  }

  method IndexByteFrom(hay: Word, from: nat, b: byte) returns (i: int)
    requires from <= |hay|
    ensures i == -1 || (from <= i < |hay| && hay[i] == b)
    ensures forall k :: from <= k < (if i < 0 then |hay| else i) ==> hay[k] != b
  {
    for k := from to |hay|
      invariant forall j :: from <= j < k ==> hay[j] != b
    {
      if hay[k] == b { return k; }
    }
    return -1;
  }

  // ---------------------------------------------------------------------------------------
  // The single-pattern pass

  /** Searching one window: a hit is the first occurrence of all, a miss clears the window. */
  lemma WindowSearched(data: Word, raw: Word, start: nat, got: nat, i: int)
    requires start + got <= |data| && NoneBefore(data, raw, start)
    requires IsIndex(data[start..start + got], raw, i)
    ensures i >= 0 ==> IsIndex(data, raw, start + i)
    ensures i < 0 ==> NoneBefore(data, raw, start + got - |raw| + 1)
  {
    var window := data[start..start + got];
    forall j | start <= j < (if i >= 0 then start + i else start + got - |raw| + 1)
      ensures !OccursAt(data, raw, j)
    {
      OccursInWindow(data, start, start + got, raw, j - start);
      assert OccursAt(window, raw, j - start) ==> Occurs(window, raw);
    }
    OccursInWindow(data, start, start + got, raw, i);
  }

  lemma WindowNewlines(data: Word, start: nat, got: nat, i: nat)
    requires i <= got && start + got <= |data|
    ensures Newlines(data[..start + i]) == Newlines(data[..start]) + Newlines(data[start..start + got][..i])
  {
    NewlinesSplit(data, start, start + i);
    SliceOfSlice(data, start, start + got, 0, i);
  }

  /** The first match of `raw` and the newlines before it, by one forward pass over overlapping
      blocks. */
  method FindReaderMatch(data: Word, raw: Word, faults: bool) returns (r: Option<StreamMatch>)
    requires raw != []
    ensures r.Some? ==> IsMatch(data, raw, r.value)
    ensures !faults ==> r.Some?
  {
    var block := if |raw| + 1 > BLOCK_SIZE then |raw| + 1 else BLOCK_SIZE;
    var lineCount := 0;
    var start := 0;
    while start < |data|
      invariant start <= |data| && lineCount == Newlines(data[..start])
      invariant NoneBefore(data, raw, start)
    {
      var stopped := Fails(faults);
      if stopped { return None; }
      var want := if |data| - start < block then |data| - start else block;
      var read := ReadAt(data, start, want, faults);
      if read.None? { return None; }
      var buf := read.value;
      var idx := Index(buf, raw);
      WindowSearched(data, raw, start, want, idx);
      if idx >= 0 {
        WindowNewlines(data, start, want, idx);
        return Some(StreamMatch(start + idx, lineCount + Newlines(buf[..idx]), true));
      }
      if want < |raw| {
        NoneAnywhere(data, raw, start + want - |raw| + 1);
        return Some(ABSENT);
      }
      var advance := want - (|raw| - 1);
      WindowNewlines(data, start, want, advance);
      lineCount := lineCount + Newlines(buf[..advance]);
      start := start + advance;
    }
    NoneAnywhere(data, raw, start);
    return Some(ABSENT);
  }

  // ---------------------------------------------------------------------------------------
  // The shared pass over many short patterns

  /** Patterns with the same first two bytes: their common prefix, and the patterns by length. */
  datatype PrefixGroup = PrefixGroup(prefix: Word, byLen: map<nat, set<Word>>)

  /** The wanted patterns: their first bytes, the one-byte patterns, and the others by first two bytes. */
  datatype Groups = Groups(firsts: set<byte>, singles: set<Word>, pairs: map<(byte, byte), PrefixGroup>)

  ghost predicate InGroup(g: PrefixGroup, raw: Word) {
    |raw| in g.byLen && raw in g.byLen[|raw|]
  }

  /** `raw` can be reached by its first byte, second byte and length. */
  ghost predicate Filed(groups: Groups, raw: Word)
    requires raw != []
  {
    && raw[0] in groups.firsts
    && if |raw| == 1 then raw in groups.singles
       else (raw[0], raw[1]) in groups.pairs && InGroup(groups.pairs[(raw[0], raw[1])], raw)
  }

  /** Whatever a group holds is wanted, starts with the group's prefix and stands under its length. */
  ghost predicate GroupOk(key: (byte, byte), g: PrefixGroup, wanted: set<Word>) {
    && |g.prefix| >= 2 && g.prefix[0] == key.0 && g.prefix[1] == key.1
    && forall len, raw :: len in g.byLen && raw in g.byLen[len] ==> |raw| == len && g.prefix <= raw && raw in wanted
  }

  ghost predicate GroupsOk(groups: Groups, wanted: set<Word>) {
    && (forall raw :: raw in groups.singles ==> |raw| == 1 && raw in wanted)
    && (forall key :: key in groups.pairs ==> GroupOk(key, groups.pairs[key], wanted))
  }

  /** Adds `raw` to its prefix group, shortening the common prefix. */
  method FileInGroup(key: (byte, byte), g: PrefixGroup, raw: Word, ghost wanted: set<Word>) returns (g': PrefixGroup)
    requires |raw| >= 2 && key == (raw[0], raw[1]) && raw in wanted && GroupOk(key, g, wanted)
    ensures GroupOk(key, g', wanted)
    ensures forall other :: InGroup(g', other) <==> InGroup(g, other) || other == raw
  {
    var n := CommonPrefix(g.prefix, raw);
    CommonExact(g.prefix, raw, n);
    CommonExact(g.prefix, raw, 2);
    assert raw[..2] <= g.prefix;
    var same := if |raw| in g.byLen then g.byLen[|raw|] else {};
    g' := PrefixGroup(g.prefix[..n], g.byLen[|raw| := same + {raw}]);
    forall len, other | len in g'.byLen && other in g'.byLen[len]
      ensures |other| == len && g'.prefix <= other && other in wanted
    {
      if other != raw { assert len in g.byLen && other in g.byLen[len]; }
    }
    forall other ensures InGroup(g', other) <==> InGroup(g, other) || other == raw {
      if InGroup(g, other) { assert other in g'.byLen[|other|]; }
    }
  }

  /** Files one pattern. */
  method FileRaw(groups: Groups, raw: Word, ghost wanted: set<Word>) returns (groups': Groups)
    requires raw != [] && raw in wanted && GroupsOk(groups, wanted)
    ensures GroupsOk(groups', wanted) && Filed(groups', raw)
    ensures forall other :: other != [] && Filed(groups, other) ==> Filed(groups', other)
  {
    groups' := groups.(firsts := groups.firsts + {raw[0]});
    if |raw| == 1 {
      groups' := groups'.(singles := groups.singles + {raw});
    } else {
      var key := (raw[0], raw[1]);
      var g := if key in groups.pairs then groups.pairs[key] else PrefixGroup(raw, map[]);
      g := FileInGroup(key, g, raw, wanted);
      groups' := groups'.(pairs := groups.pairs[key := g]);
    }
  }

  type Values = map<Word, StreamMatch>

  /** The scan has only added right answers for wanted patterns. */
  ghost predicate ValuesOk(data: Word, wanted: set<Word>, before: Values, values: Values) {
    && (forall raw :: raw in before ==> raw in values && values[raw] == before[raw])
    && (forall raw :: raw in values && raw !in before ==>
        raw in wanted && (raw != [] ==> IsMatch(data, raw, values[raw])))
  }

  ghost function Found(wanted: set<Word>, before: Values, values: Values): set<Word> {
    set raw | raw in wanted && raw in values && raw !in before
  }

  /** What one scan carries: the answers and how many of them are new. */
  datatype Scan = Scan(values: Values, found: nat)

  ghost predicate ScanOk(data: Word, wanted: set<Word>, before: Values, scan: Scan) {
    ValuesOk(data, wanted, before, scan.values) && scan.found == |Found(wanted, before, scan.values)|
  }

  /** Wanted patterns that stand at `p`, where the block goes on with `rest`, were not missed before. */
  ghost predicate NotMissed(data: Word, wanted: set<Word>, values: Values, rest: Word, p: nat) {
    forall raw :: raw in wanted && raw != [] && raw <= rest ==> raw in values || NoneBefore(data, raw, p)
  }

  /** Position `p` of the input, seen from a block that goes on with `rest`. */
  ghost predicate Standing(data: Word, rest: Word, p: nat, newlines: nat) {
    p + |rest| <= |data| && rest == data[p..p + |rest|] && newlines == Newlines(data[..p])
  }

  lemma PrefixOccurs(data: Word, rest: Word, p: nat, raw: Word)
    requires p + |rest| <= |data| && rest == data[p..p + |rest|]
    ensures raw <= rest <==> p + |raw| <= p + |rest| && OccursAt(data, raw, p)
  {
    if |raw| <= |rest| {
      SliceOfSlice(data, p, p + |rest|, 0, |raw|);
    }
  }

  /** Records a match at `p` for each of `here` that has no answer yet. */
  method RecordHere(ghost data: Word, scan: Scan, here: set<Word>, ghost rest: Word, p: nat, newlines: nat,
                    ghost wanted: set<Word>, ghost before: Values)
    returns (scan': Scan)
    requires ScanOk(data, wanted, before, scan)
    requires forall raw :: raw in here ==> raw in wanted && raw != [] && raw <= rest
    requires Standing(data, rest, p, newlines) && NotMissed(data, wanted, scan.values, rest, p)
    ensures ScanOk(data, wanted, before, scan')
    ensures scan'.values.Keys == scan.values.Keys + here
  {
    HereMatches(data, here, rest, p, newlines, wanted, scan.values);
    scan' := WithMatch(scan, here, StreamMatch(p, newlines, true));
    WithMatchOk(data, wanted, before, scan, here, StreamMatch(p, newlines, true));
  }

  function WithMatch(scan: Scan, here: set<Word>, m: StreamMatch): (scan': Scan)
    ensures scan'.values.Keys == scan.values.Keys + here
  {
    var unanswered := here - scan.values.Keys;
    Scan(scan.values + (map raw | raw in unanswered :: m), scan.found + |unanswered|)
  }

  lemma WithMatchOk(data: Word, wanted: set<Word>, before: Values, scan: Scan, here: set<Word>, m: StreamMatch)
    requires ScanOk(data, wanted, before, scan) && here <= wanted
    requires forall raw :: raw in here && raw !in scan.values ==> IsMatch(data, raw, m)
    ensures ScanOk(data, wanted, before, WithMatch(scan, here, m))
  {
    ValuesAdded(data, wanted, before, scan.values, here - scan.values.Keys, m);
    FoundAdded(wanted, before, scan.values, here - scan.values.Keys, m);
  }

  lemma HereMatches(data: Word, here: set<Word>, rest: Word, p: nat, newlines: nat, wanted: set<Word>, values: Values)
    requires forall raw :: raw in here ==> raw in wanted && raw != [] && raw <= rest
    requires Standing(data, rest, p, newlines) && NotMissed(data, wanted, values, rest, p)
    ensures forall raw :: raw in here && raw !in values ==> IsMatch(data, raw, StreamMatch(p, newlines, true))
  {
    forall raw | raw in here && raw !in values ensures IsMatch(data, raw, StreamMatch(p, newlines, true)) {
      PrefixOccurs(data, rest, p, raw);
    }
  }

  lemma ValuesAdded(data: Word, wanted: set<Word>, before: Values, values: Values, added: set<Word>, m: StreamMatch)
    requires ValuesOk(data, wanted, before, values) && added !! values.Keys && added <= wanted
    requires forall raw :: raw in added ==> IsMatch(data, raw, m)
    ensures ValuesOk(data, wanted, before, values + (map raw | raw in added :: m))
  {
  }

  lemma FoundAdded(wanted: set<Word>, before: Values, values: Values, added: set<Word>, m: StreamMatch)
    requires added !! values.Keys && added <= wanted && before.Keys <= values.Keys
    ensures |Found(wanted, before, values + (map raw | raw in added :: m))| == |Found(wanted, before, values)| + |added|
  {
    assert Found(wanted, before, values + (map raw | raw in added :: m)) == Found(wanted, before, values) + added;
    assert Found(wanted, before, values) !! added;
  }

  /** When as many answers are new as were wanted, every wanted pattern is answered. */
  lemma AllFound(data: Word, wanted: set<Word>, before: Values, scan: Scan)
    requires ScanOk(data, wanted, before, scan) && scan.found == |wanted|
    ensures forall raw :: raw in wanted ==> raw in scan.values
  {
    EqualSets(Found(wanted, before, scan.values), wanted);
  }

  lemma {:induction false} EqualSets<T>(a: set<T>, b: set<T>)
    requires a <= b && |a| == |b|
    ensures a == b
  {
    if x :| x in b && x !in a {
      SubsetCardinality(a, b - {x});
    }
  }

  /** The members of one prefix group that stand here, trying its lengths in any order. */
  method TryLengths(rest: Word, g: PrefixGroup) returns (here: set<Word>)
    requires forall len, raw :: len in g.byLen && raw in g.byLen[len] ==> |raw| == len
    ensures forall raw :: raw in here <==> InGroup(g, raw) && raw <= rest
  {
    here := {};
    var lengths := g.byLen.Keys;
    while lengths != {}
      invariant lengths <= g.byLen.Keys
      invariant forall raw :: raw in here <==> InGroup(g, raw) && raw <= rest && |raw| !in lengths
      decreases |lengths|
    {
      var len :| len in lengths;
      lengths := lengths - {len};
      assert forall raw :: InGroup(g, raw) && raw <= rest && |raw| == len ==> raw == rest[..len];
      if len <= |rest| && rest[..len] in g.byLen[len] {
        here := here + {rest[..len]};
      }
    }
  }

  /** The wanted patterns that stand at a candidate offset: the one-byte pattern, then the group of
      the first two bytes once its common prefix has been seen. */
  method StandingHere(rest: Word, groups: Groups, ghost wanted: set<Word>) returns (here: set<Word>)
    requires rest != [] && GroupsOk(groups, wanted)
    requires forall raw :: raw in wanted && raw != [] ==> Filed(groups, raw)
    ensures forall raw :: raw in here <==> raw in wanted && raw != [] && raw <= rest
  {
    var single := rest[..1];
    here := if single in groups.singles then {single} else {};
    var longer := LongerHere(rest, groups, wanted);
    assert forall raw :: raw in wanted && |raw| == 1 && raw <= rest ==> raw == single && Filed(groups, raw);
    here := here + longer;
  }

  /** The wanted patterns of two or more bytes that stand at the front. */
  method LongerHere(rest: Word, groups: Groups, ghost wanted: set<Word>) returns (here: set<Word>)
    requires rest != [] && GroupsOk(groups, wanted)
    requires forall raw :: raw in wanted && raw != [] ==> Filed(groups, raw)
    ensures forall raw :: raw in here <==> raw in wanted && |raw| >= 2 && raw <= rest
  {
    if |rest| < 2 { return {}; }
    var key := (rest[0], rest[1]);
    forall raw | raw in wanted && |raw| >= 2 && raw <= rest
      ensures key in groups.pairs && InGroup(groups.pairs[key], raw)
    {
      assert Filed(groups, raw);
    }
    if key !in groups.pairs { return {}; }
    var g := groups.pairs[key];
    assert GroupOk(key, g, wanted);
    if |g.prefix| > |rest| || rest[..|g.prefix|] != g.prefix {
      assert forall raw :: InGroup(g, raw) ==> g.prefix <= raw;
      return {};
    }
    here := TryLengths(rest, g);
  }

  /** No occurrence of `raw` that ends by `hi` starts before `n`. */
  ghost predicate NoneWithin(data: Word, raw: Word, n: int, hi: int) {
    forall j :: 0 <= j < n && j + |raw| <= hi ==> !OccursAt(data, raw, j)
  }

  /** Wanted patterns that start with `first` and have no answer do not occur before `n` up to `hi`. */
  ghost predicate ClearedTo(data: Word, wanted: set<Word>, values: Values, first: byte, n: int, hi: int) {
    forall raw :: raw in wanted && raw != [] && raw[0] == first && raw !in values ==> NoneWithin(data, raw, n, hi)
  }

  lemma ClearedNotMissed(data: Word, wanted: set<Word>, values: Values, p: nat, hi: nat, rest: Word)
    requires p < hi <= |data| && ClearedTo(data, wanted, values, data[p], p, hi) && rest == data[p..hi]
    ensures NotMissed(data, wanted, values, rest, p)
  {
    forall raw | raw in wanted && raw != [] && raw <= rest && raw !in values ensures NoneBefore(data, raw, p) {
      assert raw[0] == data[p];
      assert NoneWithin(data, raw, p, hi);
    }
  }

  /** Bytes other than `first` cannot start a pattern that starts with `first`. */
  lemma ClearedSkip(data: Word, wanted: set<Word>, values: Values, first: byte, n: nat, n': nat, hi: nat)
    requires n <= n' <= hi <= |data| && ClearedTo(data, wanted, values, first, n, hi)
    requires forall k :: n <= k < n' ==> data[k] != first
    ensures ClearedTo(data, wanted, values, first, n', hi)
  {
    forall raw, j | raw in wanted && raw != [] && raw[0] == first && raw !in values && 0 <= j < n' && j + |raw| <= hi
      ensures !OccursAt(data, raw, j)
    {
      assert NoneWithin(data, raw, n, hi);
      if j >= n { assert data[j..j + |raw|][0] == data[j]; }
    }
  }

  lemma ClearedStep(data: Word, wanted: set<Word>, values: Values, values': Values, p: nat, hi: nat, rest: Word,
                    here: set<Word>)
    requires p < hi <= |data| && ClearedTo(data, wanted, values, data[p], p, hi) && rest == data[p..hi]
    requires values'.Keys == values.Keys + here
    requires forall raw :: raw in here <==> raw in wanted && raw != [] && raw <= rest
    ensures ClearedTo(data, wanted, values', data[p], p + 1, hi)
  {
    forall raw | raw in wanted && raw != [] && raw[0] == data[p] && raw !in values'
      ensures NoneWithin(data, raw, p + 1, hi)
    {
      assert NoneWithin(data, raw, p, hi);
      PrefixOccurs(data, rest, p, raw);
    }
  }

  /** Visits every offset of the block that holds one wanted first byte. */
  method ScanFirst(ghost data: Word, start: nat, buf: Word, first: byte, groups: Groups, lineCount: nat, scan: Scan,
                   wanted: set<Word>, ghost before: Values, faults: bool)
    returns (scan': Scan, cancelled: bool)
    requires start + |buf| <= |data| && buf == data[start..start + |buf|] && lineCount == Newlines(data[..start])
    requires GroupsOk(groups, wanted) && forall raw :: raw in wanted && raw != [] ==> Filed(groups, raw)
    requires ScanOk(data, wanted, before, scan)
    requires ClearedTo(data, wanted, scan.values, first, start, start + |buf|)
    ensures ScanOk(data, wanted, before, scan') && scan.values.Keys <= scan'.values.Keys
    ensures !cancelled && scan'.found != |wanted| ==>
              ClearedTo(data, wanted, scan'.values, first, start + |buf|, start + |buf|)
    ensures !faults ==> !cancelled
  {
    scan', cancelled := scan, false;
    ghost var hi := start + |buf|;
    var from := 0;
    while from < |buf|
      invariant 0 <= from <= |buf|
      invariant ScanOk(data, wanted, before, scan') && scan.values.Keys <= scan'.values.Keys
      invariant ClearedTo(data, wanted, scan'.values, first, start + from, hi)
    {
      var offset := IndexByteFrom(buf, from, first);
      ghost var p := if offset < 0 then hi else start + offset;
      assert forall k :: start + from <= k < p ==> data[k] == buf[k - start];
      ClearedSkip(data, wanted, scan'.values, first, start + from, p, hi);
      if offset < 0 { break; }
      var stopped := Fails(faults);
      if stopped { cancelled := true; return; }
      scan' := ScanOffset(data, start, buf, offset, groups, lineCount, scan', wanted, before);
      if scan'.found == |wanted| { return; }
      from := offset + 1;
    }
  }

  method ScanOffset(ghost data: Word, start: nat, buf: Word, offset: nat, groups: Groups, lineCount: nat, scan: Scan,
                    ghost wanted: set<Word>, ghost before: Values)
    returns (scan': Scan)
    requires start + |buf| <= |data| && buf == data[start..start + |buf|] && lineCount == Newlines(data[..start])
    requires offset < |buf|
    requires GroupsOk(groups, wanted) && forall raw :: raw in wanted && raw != [] ==> Filed(groups, raw)
    requires ScanOk(data, wanted, before, scan)
    requires ClearedTo(data, wanted, scan.values, buf[offset], start + offset, start + |buf|)
    ensures ScanOk(data, wanted, before, scan') && scan.values.Keys <= scan'.values.Keys
    ensures ClearedTo(data, wanted, scan'.values, buf[offset], start + offset + 1, start + |buf|)
  {
    ghost var p, hi := start + offset, start + |buf|;
    var rest := buf[offset..];
    StandingAt(data, start, buf, offset, lineCount);
    ClearedNotMissed(data, wanted, scan.values, p, hi, rest);
    var here := StandingHere(rest, groups, wanted);
    scan' := RecordHere(data, scan, here, rest, start + offset, lineCount + Newlines(buf[..offset]), wanted, before);
    ClearedStep(data, wanted, scan.values, scan'.values, p, hi, rest, here);
  }

  lemma StandingAt(data: Word, start: nat, buf: Word, offset: nat, lineCount: nat)
    requires start + |buf| <= |data| && buf == data[start..start + |buf|] && lineCount == Newlines(data[..start])
    requires offset < |buf|
    ensures data[start + offset] == buf[offset] && buf[offset..] == data[start + offset..start + |buf|]
    ensures Standing(data, buf[offset..], start + offset, lineCount + Newlines(buf[..offset]))
  {
    SliceOfSlice(data, start, start + |buf|, offset, |buf|);
    WindowNewlines(data, start, |buf|, offset);
  }

  /** Wanted patterns without an answer do not occur before `n`. */
  ghost predicate AllClearedTo(data: Word, wanted: set<Word>, values: Values, n: int) {
    forall raw :: raw in wanted && raw != [] && raw !in values ==> NoneBefore(data, raw, n)
  }

  /** One block: every wanted first byte, in any order. */
  method ScanBlock(ghost data: Word, start: nat, buf: Word, groups: Groups, lineCount: nat, scan: Scan,
                   wanted: set<Word>, ghost before: Values, faults: bool)
    returns (scan': Scan, cancelled: bool)
    requires start + |buf| <= |data| && buf == data[start..start + |buf|] && lineCount == Newlines(data[..start])
    requires GroupsOk(groups, wanted) && forall raw :: raw in wanted && raw != [] ==> Filed(groups, raw)
    requires ScanOk(data, wanted, before, scan) && AllClearedTo(data, wanted, scan.values, start)
    ensures ScanOk(data, wanted, before, scan') && scan.values.Keys <= scan'.values.Keys
    ensures !cancelled && scan'.found != |wanted| ==> BlockCleared(data, wanted, scan'.values, start + |buf|)
    ensures !faults ==> !cancelled
  {
    scan', cancelled := scan, false;
    var firsts := groups.firsts;
    ghost var hi := start + |buf|;
    while firsts != {}
      invariant firsts <= groups.firsts
      invariant ScanOk(data, wanted, before, scan') && scan.values.Keys <= scan'.values.Keys
      invariant forall f: byte :: f in groups.firsts && f !in firsts ==>
                  ClearedTo(data, wanted, scan'.values, f, hi, hi)
      invariant !faults ==> !cancelled
      decreases |firsts|
    {
      var first :| first in firsts;
      firsts := firsts - {first};
      ghost var prior := scan'.values;
      StillCleared(data, wanted, scan.values, prior, first, start, hi);
      scan', cancelled := ScanFirst(data, start, buf, first, groups, lineCount, scan', wanted, before, faults);
      if cancelled || scan'.found == |wanted| { return; }
      forall f: byte | f in groups.firsts && f !in firsts ensures ClearedTo(data, wanted, scan'.values, f, hi, hi) {
        if f != first { ClearedGrows(data, wanted, prior, scan'.values, f, hi, hi); }
      }
    }
    forall raw | raw in wanted && raw != [] && raw !in scan'.values ensures NoneWithin(data, raw, hi, hi) {
      assert Filed(groups, raw);
      assert ClearedTo(data, wanted, scan'.values, raw[0], hi, hi);
    }
  }

  lemma ClearedGrows(data: Word, wanted: set<Word>, values: Values, values': Values, first: byte, n: int, hi: int)
    requires ClearedTo(data, wanted, values, first, n, hi) && values.Keys <= values'.Keys
    ensures ClearedTo(data, wanted, values', first, n, hi)
  {
  }

  lemma StillCleared(data: Word, wanted: set<Word>, values: Values, values': Values, first: byte, n: int, hi: int)
    requires AllClearedTo(data, wanted, values, n) && values.Keys <= values'.Keys
    ensures ClearedTo(data, wanted, values', first, n, hi)
  {
    forall raw | raw in wanted && raw != [] && raw[0] == first && raw !in values' ensures NoneWithin(data, raw, n, hi) {
      assert NoneBefore(data, raw, n);
    }
  }

  /** Files every wanted pattern, in any order. */
  method FileAll(wanted: set<Word>) returns (groups: Groups, maxLength: nat)
    ensures GroupsOk(groups, wanted) && forall raw :: raw in wanted && raw != [] ==> Filed(groups, raw)
    ensures forall raw :: raw in wanted ==> |raw| <= maxLength
  {
    groups, maxLength := Groups({}, {}, map[]), 0;
    var left := wanted;
    while left != {}
      invariant left <= wanted && GroupsOk(groups, wanted)
      invariant forall raw :: raw in wanted && raw !in left ==> |raw| <= maxLength && (raw != [] ==> Filed(groups, raw))
      decreases |left|
    {
      var raw :| raw in left;
      left := left - {raw};
      if raw != [] {
        groups := FileRaw(groups, raw, wanted);
        if |raw| > maxLength { maxLength := |raw|; }
      }
    }
  }

  /** Wanted patterns without an answer do not occur inside the input read so far. */
  ghost predicate BlockCleared(data: Word, wanted: set<Word>, values: Values, hi: int) {
    forall raw :: raw in wanted && raw != [] && raw !in values ==> NoneWithin(data, raw, hi, hi)
  }

  lemma BlockAdvance(data: Word, wanted: set<Word>, values: Values, hi: int, maxLength: nat)
    requires BlockCleared(data, wanted, values, hi) && forall raw :: raw in wanted ==> |raw| <= maxLength
    ensures AllClearedTo(data, wanted, values, hi - maxLength + 1)
  {
    forall raw | raw in wanted && raw != [] && raw !in values ensures NoneBefore(data, raw, hi - maxLength + 1) {
      assert NoneWithin(data, raw, hi, hi);
    }
  }

  lemma UnansweredAbsent(data: Word, wanted: set<Word>, before: Values, values: Values)
    requires ValuesOk(data, wanted, before, values)
    requires BlockCleared(data, wanted, values, |data|)
    ensures ValuesOk(data, wanted, before, values + (map raw | raw in wanted - values.Keys :: ABSENT))
  {
    forall raw | raw in wanted && raw != [] && raw !in values ensures IsMatch(data, raw, ABSENT) {
      assert NoneWithin(data, raw, |data|, |data|);
    }
  }

  /** Resolves the wanted patterns in one forward pass over overlapping blocks. On success every
      nonempty wanted pattern is answered; on failure only right answers have been added. */
  method FindReaderMatches(data: Word, wanted: set<Word>, values: Values, faults: bool)
    returns (values': Values, failed: bool)
    ensures ValuesOk(data, wanted, values, values')
    ensures !failed ==> forall raw :: raw in wanted && raw != [] ==> raw in values'
    ensures !faults ==> !failed
  {
    values', failed := values, false;
    var groups, maxLength := FileAll(wanted);
    if maxLength == 0 { return; }
    values', failed := ScanBlocks(data, groups, maxLength, wanted, values, faults);
    if failed { return; }
    var stopped := Fails(faults);
    if stopped { return values', true; }
    UnansweredAbsent(data, wanted, values, values');
    values' := values' + (map raw | raw in wanted - values'.Keys :: ABSENT);
  }

  method ScanBlocks(data: Word, groups: Groups, maxLength: nat, wanted: set<Word>, values: Values, faults: bool)
    returns (values': Values, failed: bool)
    requires GroupsOk(groups, wanted) && forall raw :: raw in wanted && raw != [] ==> Filed(groups, raw)
    requires 0 < maxLength && forall raw :: raw in wanted ==> |raw| <= maxLength
    ensures ValuesOk(data, wanted, values, values')
    ensures !failed ==> BlockCleared(data, wanted, values', |data|)
    ensures !faults ==> !failed
  {
    failed := false;
    var overlap := maxLength - 1;
    var scan := Scan(values, 0);
    var lineCount, start := 0, 0;
    assert Found(wanted, values, values) == {};
    while start < |data|
      invariant start <= |data| && lineCount == Newlines(data[..start])
      invariant ScanOk(data, wanted, values, scan) && AllClearedTo(data, wanted, scan.values, start)
    {
      var stopped := Fails(faults);
      if stopped { return scan.values, true; }
      var want := if |data| - start < BLOCK_SIZE + overlap then |data| - start else BLOCK_SIZE + overlap;
      var read := ReadAt(data, start, want, faults);
      if read.None? { return scan.values, true; }
      var buf := read.value;
      var cancelled;
      scan, cancelled := ScanBlock(data, start, buf, groups, lineCount, scan, wanted, values, faults);
      if cancelled { return scan.values, true; }
      if scan.found == |wanted| {
        AllFound(data, wanted, values, scan);
        return scan.values, false;
      }
      if start + want == |data| { return scan.values, false; }
      var advance := want - overlap;
      BlockAdvance(data, wanted, scan.values, start + want, maxLength);
      WindowNewlines(data, start, want, advance);
      lineCount := lineCount + Newlines(buf[..advance]);
      start := start + advance;
    }
    EmptyInput(data, wanted, scan.values, start);
    return scan.values, false;
  }

  lemma EmptyInput(data: Word, wanted: set<Word>, values: Values, n: int)
    requires AllClearedTo(data, wanted, values, n) && n >= |data|
    ensures BlockCleared(data, wanted, values, |data|)
  {
    forall raw | raw in wanted && raw != [] && raw !in values ensures NoneWithin(data, raw, |data|, |data|) {
      assert NoneBefore(data, raw, n);
    }
  }
}
