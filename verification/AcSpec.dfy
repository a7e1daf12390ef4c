/** What the Aho-Corasick matcher is for, stated without any automaton, and the word theory
    (lexicographic order, prefixes, longest suffixes) that connects the two. */
module AcSpec {
  import opened Bytes

  datatype Hit = Hit(id: nat, end: nat)

  // ---------------------------------------------------------------------------------------
  // The reference: every occurrence of every nonempty pattern

  /** The ids below `n` whose pattern is `w`, ascending. */
  function IdsBelow(patterns: seq<Word>, w: Word, n: nat): seq<nat>
    requires n <= |patterns|
  {
    if n == 0 then []
    else IdsBelow(patterns, w, n - 1) + (if patterns[n - 1] == w then [n - 1] else [])
  }

  function IdsOf(patterns: seq<Word>, w: Word): seq<nat> {
    IdsBelow(patterns, w, |patterns|)
  }

  function HitsAt(ids: seq<nat>, end: nat): (hits: seq<Hit>)
    ensures |hits| == |ids| && forall i :: 0 <= i < |ids| ==> hits[i] == Hit(ids[i], end)
  {
    seq(|ids|, i requires 0 <= i < |ids| => Hit(ids[i], end))
  }

  /** The hits completed by the last byte of `s`: its nonempty suffixes, longest first. */
  function SuffixHits(patterns: seq<Word>, s: Word, end: nat): seq<Hit> {
    if s == [] then [] else HitsAt(IdsOf(patterns, s), end) + SuffixHits(patterns, s[1..], end)
  }

  /** All hits of `patterns` in `data`, in the order `VisitHits` promises them. */
  function AllHits(patterns: seq<Word>, data: Word): seq<Hit> {
    if data == [] then []
    else AllHits(patterns, data[..|data| - 1]) + SuffixHits(patterns, data, |data| - 1)
  }

  lemma AllHitsStep(patterns: seq<Word>, data: Word, i: nat)
    requires i < |data|
    ensures AllHits(patterns, data[..i + 1]) == AllHits(patterns, data[..i]) + SuffixHits(patterns, data[..i + 1], i)
  {
    assert data[..i + 1][..i] == data[..i];
  }

  /** A nonempty pattern ends at byte `h.end` of `data`. */
  predicate IsHit(patterns: seq<Word>, data: Word, h: Hit) {
    && h.id < |patterns|
    && patterns[h.id] != []
    && h.end < |data|
    && OccursAt(data, patterns[h.id], h.end + 1 - |patterns[h.id]|)
  }

  /** Report order: by end, then longer pattern first, then ascending id. */
  predicate Before(patterns: seq<Word>, g: Hit, h: Hit)
    requires g.id < |patterns| && h.id < |patterns|
  {
    || g.end < h.end
    || (g.end == h.end && |patterns[g.id]| > |patterns[h.id]|)
    || (g.end == h.end && |patterns[g.id]| == |patterns[h.id]| && g.id < h.id)
  }

  predicate InReportOrder(patterns: seq<Word>, hits: seq<Hit>) {
    && (forall i :: 0 <= i < |hits| ==> hits[i].id < |patterns|)
    && forall i, j :: 0 <= i < j < |hits| ==> Before(patterns, hits[i], hits[j])
  }

  predicate Ascending(ids: seq<nat>) {
    forall i, j :: 0 <= i < j < |ids| ==> ids[i] < ids[j]
  }

  lemma {:induction false} IdsBelowExact(patterns: seq<Word>, w: Word, n: nat)
    requires n <= |patterns|
    ensures Ascending(IdsBelow(patterns, w, n))
    ensures forall id :: id in IdsBelow(patterns, w, n) <==> 0 <= id < n && patterns[id] == w
  {
    if n > 0 {
      IdsBelowExact(patterns, w, n - 1);
      var ids := IdsBelow(patterns, w, n - 1);
      assert forall i :: 0 <= i < |ids| ==> ids[i] in ids;
    }
  }

  /** An ascending sequence is determined by its members. */
  lemma {:induction false} AscendingUnique(s: seq<nat>, t: seq<nat>)
    requires Ascending(s) && Ascending(t)
    requires forall x :: x in s <==> x in t
    ensures s == t
  {
    if s == [] {
      HasMember(t);
    } else {
      assert s[0] in s;
      assert t != [];
      assert t[0] in t;
      var a, b := s[|s| - 1], t[|t| - 1];
      assert a in t && b in s;
      assert a == b;
      var s', t' := s[..|s| - 1], t[..|t| - 1];
      assert s == s' + [a] && t == t' + [b];
      forall x ensures x in s' <==> x in t' {
        if x in s' { assert x in s && x != a; }
        if x in t' { assert x in t && x != b; }
      }
      AscendingUnique(s', t');
    }
  }

  /** `h` is a hit whose pattern is a suffix of `s`, reported at `end`. */
  predicate SuffixHit(patterns: seq<Word>, s: Word, end: nat, h: Hit) {
    && h.id < |patterns|
    && h.end == end
    && 0 < |patterns[h.id]| <= |s|
    && s[|s| - |patterns[h.id]|..] == patterns[h.id]
  }

  lemma {:induction false} SuffixHitsExact(patterns: seq<Word>, s: Word, end: nat)
    ensures InReportOrder(patterns, SuffixHits(patterns, s, end))
    ensures forall h :: h in SuffixHits(patterns, s, end) <==> SuffixHit(patterns, s, end, h)
  {
    if s != [] {
      var ids, rest := IdsOf(patterns, s), SuffixHits(patterns, s[1..], end);
      IdsBelowExact(patterns, s, |patterns|);
      SuffixHitsExact(patterns, s[1..], end);
      forall h
        ensures h in HitsAt(ids, end) <==> h.id < |patterns| && h.end == end && patterns[h.id] == s
      {
        if h.id in ids && h.end == end {
          var k :| 0 <= k < |ids| && ids[k] == h.id;
          assert HitsAt(ids, end)[k] == h;
        }
      }
      forall h ensures h in SuffixHits(patterns, s, end) <==> SuffixHit(patterns, s, end, h) {
        if h.id < |patterns| && 0 < |patterns[h.id]| < |s| {
          assert s[1..][|s[1..]| - |patterns[h.id]|..] == s[|s| - |patterns[h.id]|..];
        } else if h.id < |patterns| && |patterns[h.id]| == |s| {
          assert s[|s| - |patterns[h.id]|..] == s;
        }
      }
      SuffixHitsOrdered(patterns, s, end, ids, rest);
    }
  }

  lemma SuffixHitsOrdered(patterns: seq<Word>, s: Word, end: nat, ids: seq<nat>, rest: seq<Hit>)
    requires s != [] && Ascending(ids)
    requires forall id :: id in ids ==> 0 <= id < |patterns| && patterns[id] == s
    requires InReportOrder(patterns, rest)
    requires forall h :: h in rest ==> SuffixHit(patterns, s[1..], end, h)
    ensures InReportOrder(patterns, HitsAt(ids, end) + rest)
  {
    var own := HitsAt(ids, end);
    forall i | 0 <= i < |own + rest| ensures (own + rest)[i].id < |patterns| {
      if i < |own| { assert ids[i] in ids; } else { assert rest[i - |own|] in rest; }
    }
    forall i, j | 0 <= i < j < |own + rest|
      ensures Before(patterns, (own + rest)[i], (own + rest)[j])
    {
      if i < |own| { assert ids[i] in ids; }
      if j < |own| {
        assert ids[j] in ids;
      } else {
        assert rest[j - |own|] in rest;
      }
    }
  }

  /** The reference list is sound, complete and duplicate-free: it holds exactly the hits, and
      strictly increases in report order. */
  lemma {:induction false} AllHitsExact(patterns: seq<Word>, data: Word)
    ensures forall h :: h in AllHits(patterns, data) <==> IsHit(patterns, data, h)
    ensures InReportOrder(patterns, AllHits(patterns, data))
    ensures forall i, j :: 0 <= i < j < |AllHits(patterns, data)| ==>
                             AllHits(patterns, data)[i] != AllHits(patterns, data)[j]
  {
    if data != [] {
      var front, end := data[..|data| - 1], |data| - 1;
      AllHitsExact(patterns, front);
      SuffixHitsExact(patterns, data, end);
      var a, b := AllHits(patterns, front), SuffixHits(patterns, data, end);
      forall h ensures h in a + b <==> IsHit(patterns, data, h) {
        HitEarlierOrLast(patterns, data, h);
      }
      forall i, j | 0 <= i < j < |a + b| ensures Before(patterns, (a + b)[i], (a + b)[j]) {
        if i < |a| { assert a[i] in a; } else { assert b[i - |a|] in b; }
        if j < |a| { assert a[j] in a; } else { assert b[j - |a|] in b; }
      }
      assert forall i :: 0 <= i < |a + b| ==> (a + b)[i] in a + b;
    }
  }

  /** A hit ends before the last byte or with it. */
  lemma HitEarlierOrLast(patterns: seq<Word>, data: Word, h: Hit)
    requires data != []
    ensures var end := |data| - 1;
            IsHit(patterns, data, h) <==> IsHit(patterns, data[..end], h) || SuffixHit(patterns, data, end, h)
  {
    if h.id < |patterns| && patterns[h.id] != [] {
      var p, end := patterns[h.id], |data| - 1;
      OccursInWindow(data, 0, end, p, h.end + 1 - |p|);
      assert data[0..end] == data[..end];
      if h.end == end && |p| <= |data| {
        assert data[|data| - |p|..] == data[|data| - |p|..|data| - |p| + |p|];
      }
    }
  }

  // ---------------------------------------------------------------------------------------
  // The de-duplicated form

  /** The caller's marks and output list of the de-duplicating walk. */
  datatype Marks = Marks(seen: seq<bool>, out: seq<nat>)

  /** Ids beyond the marks are skipped. */
  function Record(m: Marks, h: Hit): Marks {
    if h.id < |m.seen| && !m.seen[h.id] then Marks(m.seen[h.id := true], m.out + [h.id]) else m
  }

  function RecordAll(m: Marks, hits: seq<Hit>): Marks {
    if hits == [] then m else Record(RecordAll(m, hits[..|hits| - 1]), hits[|hits| - 1])
  }

  lemma {:induction false} RecordAllConcat(m: Marks, a: seq<Hit>, b: seq<Hit>)
    ensures RecordAll(m, a + b) == RecordAll(RecordAll(m, a), b)
    decreases |b|
  {
    if b == [] {
      assert a + b == a;
    } else {
      assert (a + b)[..|a + b| - 1] == a + b[..|b| - 1];
      RecordAllConcat(m, a, b[..|b| - 1]);
    }
  }

  lemma RecordChain(m: Marks, done: seq<Hit>, here: seq<Hit>, rest: seq<Hit>)
    ensures done + (here + rest) == (done + here) + rest
    ensures RecordAll(m, done + here) == RecordAll(RecordAll(m, done), here)
  {
    ConcatAssoc(done, here, rest);
    RecordAllConcat(m, done, here);
  }

  predicate HasId(hits: seq<Hit>, id: nat) {
    exists h :: h in hits && h.id == id
  }

  /** `r` extends `m` by the unmarked ids of `hits`, each once, and marks them. */
  ghost predicate RecordsExactly(m: Marks, hits: seq<Hit>, r: Marks) {
    && |r.seen| == |m.seen|
    && m.out <= r.out
    && Distinct(r.out[|m.out|..])
    && (forall id :: id in r.out[|m.out|..] <==> 0 <= id < |m.seen| && !m.seen[id] && HasId(hits, id))
    && (forall id :: 0 <= id < |m.seen| ==> (r.seen[id] <==> m.seen[id] || HasId(hits, id)))
  }

  lemma {:induction false} RecordAllExact(m: Marks, hits: seq<Hit>)
    ensures RecordsExactly(m, hits, RecordAll(m, hits))
  {
    if hits == [] {
      assert m.out[|m.out|..] == [];
    } else {
      var n := |hits| - 1;
      var r, h := RecordAll(m, hits[..n]), hits[n];
      RecordAllExact(m, hits[..n]);
      assert hits == hits[..n] + [h];
      assert forall id: nat :: HasId(hits, id) <==> HasId(hits[..n], id) || h.id == id;
      if h.id < |r.seen| && !r.seen[h.id] {
        assert (r.out + [h.id])[|m.out|..] == r.out[|m.out|..] + [h.id];
      }
    }
  }

  ghost predicate OccursNonempty(patterns: seq<Word>, data: Word, id: int) {
    0 <= id < |patterns| && patterns[id] != [] && Occurs(data, patterns[id])
  }

  /** The ids of the hits are the nonempty patterns that occur. */
  lemma HitIds(patterns: seq<Word>, data: Word, id: nat)
    ensures HasId(AllHits(patterns, data), id) <==> OccursNonempty(patterns, data, id)
  {
    var hits := AllHits(patterns, data);
    AllHitsExact(patterns, data);
    if h :| h in hits && h.id == id {
      assert IsHit(patterns, data, h);
      assert OccursAt(data, patterns[id], h.end + 1 - |patterns[id]|);
    }
    if OccursNonempty(patterns, data, id) {
      var i :| OccursAt(data, patterns[id], i);
      var h := Hit(id, i + |patterns[id]| - 1);
      assert IsHit(patterns, data, h);
      assert h in hits;
    }
  }

  /** De-duplicated against no marks, the hits name exactly the patterns that occur. */
  lemma MatchedIds(patterns: seq<Word>, data: Word, seen: seq<bool>)
    requires |seen| == |patterns| && forall j :: 0 <= j < |seen| ==> !seen[j]
    ensures var ids := RecordAll(Marks(seen, []), AllHits(patterns, data)).out;
            Distinct(ids) && forall id :: id in ids <==> OccursNonempty(patterns, data, id)
  {
    var hits, m := AllHits(patterns, data), Marks(seen, []);
    var r := RecordAll(m, hits);
    RecordAllExact(m, hits);
    assert r.out[0..] == r.out;
    forall id ensures id in r.out <==> OccursNonempty(patterns, data, id) {
      if id >= 0 { HitIds(patterns, data, id); }
    }
  }

  // ---------------------------------------------------------------------------------------
  // Longest suffix in a prefix-closed set

  ghost predicate PrefixClosed(W: set<Word>) {
    [] in W && forall w, k :: w in W && 0 <= k <= |w| ==> w[..k] in W
  }

  /** The longest suffix of `s` that is in `W`: what a state of the automaton stands for. */
  ghost function Longest(W: set<Word>, s: Word): Word
    requires [] in W
    decreases |s|
  {
    if s in W then s else Longest(W, s[1..])
  }

  lemma {:induction false} LongestIsSuffix(W: set<Word>, s: Word)
    requires [] in W
    ensures var r := Longest(W, s); r in W && |r| <= |s| && r == s[|s| - |r|..]
    decreases |s|
  {
    if s !in W {
      LongestIsSuffix(W, s[1..]);
    }
  }

  lemma {:induction false} LongestIsLongest(W: set<Word>, s: Word, k: nat)
    requires [] in W && k <= |s| && s[k..] in W
    ensures |s| - k <= |Longest(W, s)|
  {
    if s !in W {
      assert s[0..] == s;
      assert s[1..][k - 1..] == s[k..];
      LongestIsLongest(W, s[1..], k - 1);
    }
  }

  /** Reading one byte more only needs the state, not the whole input. */
  lemma {:induction false} LongestStep(W: set<Word>, s: Word, b: byte)
    requires PrefixClosed(W)
    ensures Longest(W, s + [b]) == Longest(W, Longest(W, s) + [b])
  {
    if s !in W {
      assert (s + [b])[..|s|] == s;
      assert s + [b] !in W;
      assert (s + [b])[1..] == s[1..] + [b];
      LongestStep(W, s[1..], b);
    }
  }

  /** A state with no child on `b` moves where its longest proper suffix state moves. */
  lemma LongestMove(W: set<Word>, w: Word, b: byte)
    requires [] in W && w != [] && w + [b] !in W
    ensures Longest(W, w + [b]) == Longest(W, w[1..] + [b])
  {
    assert (w + [b])[1..] == w[1..] + [b];
  }

  /** Hits depend only on the longest suffix that is a trie word. */
  lemma {:induction false} SuffixHitsLongest(patterns: seq<Word>, W: set<Word>, s: Word, end: nat)
    requires [] in W
    requires forall p :: p in patterns && p != [] ==> p in W
    ensures SuffixHits(patterns, s, end) == SuffixHits(patterns, Longest(W, s), end)
  {
    if s !in W {
      NoIds(patterns, s);
      assert HitsAt([], end) == [];
      SuffixHitsLongest(patterns, W, s[1..], end);
      assert Longest(W, s) == Longest(W, s[1..]);
      assert SuffixHits(patterns, s, end) == SuffixHits(patterns, s[1..], end);
    }
  }

  lemma NoIds(patterns: seq<Word>, w: Word)
    requires w !in patterns
    ensures IdsOf(patterns, w) == []
  {
    IdsBelowExact(patterns, w, |patterns|);
    var ids := IdsOf(patterns, w);
    HasMember(ids);
  }

  /** The longest suffix of `s` that is itself a pattern; the empty word if there is none. */
  function NearestPattern(patterns: seq<Word>, s: Word): (r: Word)
    ensures |r| <= |s|
    ensures r != [] ==> IdsOf(patterns, r) != []
  {
    if s == [] || IdsOf(patterns, s) != [] then s else NearestPattern(patterns, s[1..])
  }

  lemma {:induction false} SuffixHitsNearest(patterns: seq<Word>, s: Word, end: nat)
    ensures SuffixHits(patterns, s, end) == SuffixHits(patterns, NearestPattern(patterns, s), end)
  {
    if s != [] && IdsOf(patterns, s) == [] {
      SuffixHitsNearest(patterns, s[1..], end);
    }
  }

  lemma {:induction false} NearestLongest(patterns: seq<Word>, W: set<Word>, s: Word)
    requires [] in W
    requires forall p :: p in patterns && p != [] ==> p in W
    ensures NearestPattern(patterns, s) == NearestPattern(patterns, Longest(W, s))
  {
    if s !in W {
      NoIds(patterns, s);
      NearestLongest(patterns, W, s[1..]);
    }
  }

  // ---------------------------------------------------------------------------------------
  // Lexicographic order and common prefixes

  /** `bytes.Compare(a, b) <= 0`. */
  predicate LexLeq(a: Word, b: Word) {
    a == [] || (b != [] && (a[0] < b[0] || (a[0] == b[0] && LexLeq(a[1..], b[1..]))))
  }

  lemma {:induction false} LexTotal(a: Word, b: Word)
    ensures LexLeq(a, b) || LexLeq(b, a)
    ensures LexLeq(a, b) && LexLeq(b, a) ==> a == b
    ensures a == b ==> LexLeq(a, b)
  {
    if a != [] && b != [] {
      LexTotal(a[1..], b[1..]);
      assert a == [a[0]] + a[1..] && b == [b[0]] + b[1..];
    }
  }

  lemma {:induction false} LexTransitive(a: Word, b: Word, c: Word)
    requires LexLeq(a, b) && LexLeq(b, c)
    ensures LexLeq(a, c)
  {
    if a != [] && a[0] == b[0] == c[0] {
      LexTransitive(a[1..], b[1..], c[1..]);
    }
  }

  /** Words with a common prefix form an interval of the lexicographic order. */
  lemma {:induction false} LexConvex(w: Word, a: Word, b: Word, c: Word)
    requires LexLeq(a, b) && LexLeq(b, c) && w <= a && w <= c
    ensures w <= b
  {
    if w != [] {
      LexConvex(w[1..], a[1..], b[1..], c[1..]);
      assert w == [w[0]] + w[1..] && b == [b[0]] + b[1..];
    }
  }

  /** The length of the longest common prefix. */
  function Common(a: Word, b: Word): (n: nat)
    ensures n <= |a| && n <= |b|
  {
    if a == [] || b == [] || a[0] != b[0] then 0 else 1 + Common(a[1..], b[1..])
  }

  lemma {:induction false} CommonExact(a: Word, b: Word, k: nat)
    requires k <= |b|
    ensures b[..k] <= a <==> k <= Common(a, b)
  {
    if k > 0 {
      if a != [] && b != [] && a[0] == b[0] {
        CommonExact(a[1..], b[1..], k - 1);
        assert b[1..][..k - 1] == b[..k][1..];
        assert b[..k] == [b[0]] + b[..k][1..];
        assert a == [a[0]] + a[1..];
      } else {
        assert b[..k][0] == b[0];
      }
    }
  }
}
