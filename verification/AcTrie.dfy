/** The trie builder: patterns are sorted, and each one is compared only with its predecessor. */
module AcTrie {
  import opened Bytes
  import opened AcSpec

  datatype Edge = Edge(parent: nat, symbol: byte, child: nat)

  // ---------------------------------------------------------------------------------------
  // The words of the trie

  ghost predicate SortedWords(ps: seq<Word>) {
    forall i, j :: 0 <= i < j < |ps| ==> LexLeq(ps[i], ps[j])
  }

  /** The prefixes of `p` longer than `c`, shortest first. */
  ghost function FreshWords(p: Word, c: nat): seq<Word>
    requires c <= |p|
  {
    seq(|p| - c, i requires 0 <= i < |p| - c => p[..c + 1 + i])
  }

  /** What the last of the first `k` patterns shares with its predecessor. */
  ghost function Shared(ps: seq<Word>, k: nat): (c: nat)
    requires 0 < k <= |ps|
    ensures c <= |ps[k - 1]|
  {
    if k == 1 then 0 else Common(ps[k - 2], ps[k - 1])
  }

  /** The words the builder has numbered, in node order, after reading `k` patterns. */
  ghost function TrieWords(ps: seq<Word>, k: nat): (words: seq<Word>)
    requires k <= |ps|
    ensures |words| >= 1 && words[0] == []
  {
    if k == 0 then [[]] else TrieWords(ps, k - 1) + FreshWords(ps[k - 1], Shared(ps, k))
  }

  ghost predicate IsPrefixOfSome(ps: seq<Word>, k: nat, w: Word)
    requires k <= |ps|
  {
    w == [] || exists i :: 0 <= i < k && w <= ps[i]
  }

  /** Prefixes of a pattern are new exactly when they are longer than what it shares with its
      predecessor: no other earlier pattern has to be looked at. */
  lemma FreshExactly(ps: seq<Word>, k: nat, len: nat)
    requires SortedWords(ps) && k < |ps| && len <= |ps[k]|
    ensures IsPrefixOfSome(ps, k, ps[k][..len]) <==> len <= Shared(ps, k + 1)
  {
    var w := ps[k][..len];
    if k > 0 {
      CommonExact(ps[k - 1], ps[k], len);
      if len > Shared(ps, k + 1) {
        forall i | 0 <= i < k ensures !(w <= ps[i]) {
          if i < k - 1 && w <= ps[i] {
            LexConvex(w, ps[i], ps[k - 1], ps[k]);
          }
        }
      }
    }
  }

  /** One node per distinct prefix, and nothing else. */
  lemma {:induction false} TrieWordsExact(ps: seq<Word>, k: nat)
    requires SortedWords(ps) && k <= |ps|
    ensures Distinct(TrieWords(ps, k))
    ensures forall w :: w in TrieWords(ps, k) <==> IsPrefixOfSome(ps, k, w)
  {
    if k > 0 {
      var p, c := ps[k - 1], Shared(ps, k);
      TrieWordsExact(ps, k - 1);
      var known, added := TrieWords(ps, k - 1), FreshWords(p, c);
      FreshUnknown(ps, k, known, added);
      forall w ensures w in known + added <==> IsPrefixOfSome(ps, k, w) {
        if w <= p && w != [] {
          assert w == p[..|w|];
          FreshExactly(ps, k - 1, |w|);
          if |w| > c { assert added[|w| - c - 1] == w; }
        }
      }
    }
  }

  lemma FreshUnknown(ps: seq<Word>, k: nat, known: seq<Word>, added: seq<Word>)
    requires SortedWords(ps) && 0 < k <= |ps| && Distinct(known) && added == FreshWords(ps[k - 1], Shared(ps, k))
    requires forall w :: w in known <==> IsPrefixOfSome(ps, k - 1, w)
    ensures Distinct(known + added)
  {
    forall i | 0 <= i < |added| ensures added[i] !in known {
      FreshExactly(ps, k - 1, Shared(ps, k) + 1 + i);
    }
    assert forall i, j :: 0 <= i < j < |added| ==> |added[i]| < |added[j]|;
    assert forall i :: 0 <= i < |known| ==> known[i] in known;
  }

  lemma {:induction false} TrieWordsGrow(ps: seq<Word>, k: nat, n: nat)
    requires k <= n <= |ps|
    ensures |TrieWords(ps, k)| <= |TrieWords(ps, n)|
  {
    if k < n {
      TrieWordsGrow(ps, k, n - 1);
    }
  }

  // ---------------------------------------------------------------------------------------
  // Sorting the patterns

  /** The comparator of the pattern sort: by bytes, then by id. */
  predicate OrderLess(patterns: seq<Word>, a: nat, b: nat)
    requires a < |patterns| && b < |patterns|
  {
    LexLeq(patterns[a], patterns[b]) && (patterns[a] == patterns[b] ==> a < b)
  }

  ghost predicate ValidIds(patterns: seq<Word>, order: seq<nat>) {
    forall i :: 0 <= i < |order| ==> order[i] < |patterns|
  }

  ghost predicate SortedIds(patterns: seq<Word>, order: seq<nat>)
    requires ValidIds(patterns, order)
  {
    forall i, j :: 0 <= i < j < |order| ==> OrderLess(patterns, order[i], order[j])
  }

  /** `order` lists the ids of the nonempty patterns, sorted. */
  ghost predicate IsOrder(patterns: seq<Word>, order: seq<nat>) {
    && ValidIds(patterns, order)
    && SortedIds(patterns, order)
    && forall id :: id in order <==> 0 <= id < |patterns| && patterns[id] != []
  }

  ghost function Ordered(patterns: seq<Word>, order: seq<nat>): seq<Word>
    requires ValidIds(patterns, order)
  {
    seq(|order|, i requires 0 <= i < |order| => patterns[order[i]])
  }

  lemma OrderLessTransitive(patterns: seq<Word>, a: nat, b: nat, c: nat)
    requires a < |patterns| && b < |patterns| && c < |patterns|
    requires OrderLess(patterns, a, b) && OrderLess(patterns, b, c)
    ensures OrderLess(patterns, a, c)
  {
    LexTransitive(patterns[a], patterns[b], patterns[c]);
    LexTotal(patterns[a], patterns[b]);
  }

  /** The place of a new id among sorted ones. */
  method PlaceOf(patterns: seq<Word>, sorted: seq<nat>, id: nat) returns (k: nat)
    requires ValidIds(patterns, sorted) && SortedIds(patterns, sorted)
    requires id < |patterns| && id !in sorted
    ensures k <= |sorted|
    ensures forall j :: 0 <= j < k ==> OrderLess(patterns, sorted[j], id)
    ensures forall j :: k <= j < |sorted| ==> OrderLess(patterns, id, sorted[j])
  {
    k := |sorted|;
    while k > 0 && OrderLess(patterns, id, sorted[k - 1])
      invariant 0 <= k <= |sorted|
      invariant forall j :: k <= j < |sorted| ==> OrderLess(patterns, id, sorted[j])
    {
      k := k - 1;
      forall j | k < j < |sorted| ensures OrderLess(patterns, id, sorted[j]) {
        OrderLessTransitive(patterns, id, sorted[k], sorted[j]);
      }
    }
    if k > 0 { AllBefore(patterns, sorted, id, k); }
  }

  lemma AllBefore(patterns: seq<Word>, sorted: seq<nat>, id: nat, k: nat)
    requires ValidIds(patterns, sorted) && SortedIds(patterns, sorted)
    requires id < |patterns| && id !in sorted && 0 < k <= |sorted| && !OrderLess(patterns, id, sorted[k - 1])
    ensures forall j :: 0 <= j < k ==> OrderLess(patterns, sorted[j], id)
  {
    LexTotal(patterns[sorted[k - 1]], patterns[id]);
    assert sorted[k - 1] in sorted;
    forall j | 0 <= j < k - 1 ensures OrderLess(patterns, sorted[j], id) {
      OrderLessTransitive(patterns, sorted[j], sorted[k - 1], id);
    }
  }

  lemma Inserted(patterns: seq<Word>, sorted: seq<nat>, id: nat, k: nat, r: seq<nat>)
    requires ValidIds(patterns, sorted) && SortedIds(patterns, sorted) && id < |patterns| && k <= |sorted|
    requires forall j :: 0 <= j < k ==> OrderLess(patterns, sorted[j], id)
    requires forall j :: k <= j < |sorted| ==> OrderLess(patterns, id, sorted[j])
    requires r == sorted[..k] + [id] + sorted[k..]
    ensures ValidIds(patterns, r) && SortedIds(patterns, r)
  {
    assert forall j :: 0 <= j < |r| ==> r[j] == if j < k then sorted[j] else if j == k then id else sorted[j - 1];
  }

  method InsertId(patterns: seq<Word>, sorted: seq<nat>, id: nat) returns (r: seq<nat>)
    requires ValidIds(patterns, sorted) && SortedIds(patterns, sorted)
    requires id < |patterns| && id !in sorted
    ensures ValidIds(patterns, r) && SortedIds(patterns, r)
    ensures forall x :: x in r <==> x in sorted || x == id
  {
    var k := PlaceOf(patterns, sorted, id);
    r := sorted[..k] + [id] + sorted[k..];
    Inserted(patterns, sorted, id, k, r);
    assert sorted == sorted[..k] + sorted[k..];
  }

  /** Collects the ids of the nonempty patterns and sorts them. */
  method SortedOrder(patterns: seq<Word>) returns (order: seq<nat>)
    ensures IsOrder(patterns, order)
  {
    order := [];
    for id := 0 to |patterns|
      invariant ValidIds(patterns, order) && SortedIds(patterns, order)
      invariant forall x :: x in order <==> 0 <= x < id && patterns[x] != []
    {
      if patterns[id] != [] {
        order := InsertId(patterns, order, id);
      }
    }
  }

  lemma OrderedIsSorted(patterns: seq<Word>, order: seq<nat>)
    requires ValidIds(patterns, order) && SortedIds(patterns, order)
    ensures SortedWords(Ordered(patterns, order))
  {
    var ps := Ordered(patterns, order);
    forall i, j | 0 <= i < j < |ps| ensures LexLeq(ps[i], ps[j]) {
      assert OrderLess(patterns, order[i], order[j]);
    }
  }

  /** The words of a complete order are the prefixes of the nonempty patterns. */
  lemma WordsOfPatterns(patterns: seq<Word>, order: seq<nat>)
    requires IsOrder(patterns, order)
    ensures Distinct(TrieWords(Ordered(patterns, order), |order|))
    ensures forall w :: w in TrieWords(Ordered(patterns, order), |order|) <==>
                          IsPrefixOfSome(patterns, |patterns|, w)
  {
    var ps := Ordered(patterns, order);
    OrderedIsSorted(patterns, order);
    TrieWordsExact(ps, |ps|);
    forall w ensures IsPrefixOfSome(ps, |ps|, w) <==> IsPrefixOfSome(patterns, |patterns|, w) {
      if w != [] && IsPrefixOfSome(ps, |ps|, w) {
        var i :| 0 <= i < |ps| && w <= ps[i];
        assert w <= patterns[order[i]];
      }
      if w != [] && IsPrefixOfSome(patterns, |patterns|, w) {
        var id :| 0 <= id < |patterns| && w <= patterns[id];
        assert id in order;
        var i :| 0 <= i < |order| && order[i] == id;
        assert w <= ps[i];
      }
    }
  }

  // ---------------------------------------------------------------------------------------
  // The counting pass

  method CommonPrefix(left: Word, right: Word) returns (n: nat)
    ensures n == Common(left, right)
  {
    var limit := if |right| < |left| then |right| else |left|;
    n := 0;
    while n < limit
      invariant 0 <= n <= limit
      invariant Common(left, right) == n + Common(left[n..], right[n..])
    {
      if left[n] != right[n] { return; }
      assert left[n..][1..] == left[n + 1..] && right[n..][1..] == right[n + 1..];
      n := n + 1;
    }
  }

  /** First pass: the number of states the tables are sized for. */
  method CountStates(patterns: seq<Word>, order: seq<nat>) returns (stateCount: nat)
    requires ValidIds(patterns, order)
    ensures stateCount == |TrieWords(Ordered(patterns, order), |order|)|
  {
    stateCount := 1;
    ghost var ps := Ordered(patterns, order);
    for k := 0 to |order|
      invariant stateCount == |TrieWords(ps, k)|
    {
      var common := 0;
      if k > 0 {
        common := CommonPrefix(patterns[order[k - 1]], patterns[order[k]]);
      }
      assert ps[k] == patterns[order[k]];
      stateCount := stateCount + |patterns[order[k]]| - common;
    }
  }

  // ---------------------------------------------------------------------------------------
  // The building pass

  /** Node `i + 1` hangs off the parent of edge `i` by one byte. */
  ghost predicate EdgesSpell(words: seq<Word>, edges: seq<Edge>) {
    && |words| == |edges| + 1
    && words[0] == []
    && forall i :: 0 <= i < |edges| ==>
         && edges[i].child == i + 1
         && edges[i].parent <= i
         && words[i + 1] == words[edges[i].parent] + [edges[i].symbol]
  }

  /** `path[j]` is the node of the first `j` bytes of `p`. */
  ghost predicate PathSpells(words: seq<Word>, path: seq<nat>, p: Word) {
    |path| <= |p| + 1 && forall j :: 0 <= j < |path| ==> path[j] < |words| && words[path[j]] == p[..j]
  }

  function CountParent(edges: seq<Edge>, node: nat): nat {
    if edges == [] then 0
    else CountParent(edges[..|edges| - 1], node) + (if edges[|edges| - 1].parent == node then 1 else 0)
  }

  /** The first `k` ids whose pattern is `w`, in sorted order. */
  ghost function Selected(ps: seq<Word>, order: seq<nat>, k: nat, w: Word): seq<nat>
    requires k <= |ps| == |order|
  {
    if k == 0 then []
    else Selected(ps, order, k - 1, w) + (if ps[k - 1] == w then [order[k - 1]] else [])
  }

  lemma {:induction false} SelectedExact(patterns: seq<Word>, order: seq<nat>, k: nat, w: Word)
    requires ValidIds(patterns, order) && SortedIds(patterns, order) && k <= |order|
    ensures var ids := Selected(Ordered(patterns, order), order, k, w);
            Ascending(ids) && forall id :: id in ids <==> id in order[..k] && patterns[id] == w
  {
    if k > 0 {
      var ps := Ordered(patterns, order);
      var front := Selected(ps, order, k - 1, w);
      SelectedExact(patterns, order, k - 1, w);
      assert order[..k] == order[..k - 1] + [order[k - 1]];
      assert ps[k - 1] == patterns[order[k - 1]];
      if ps[k - 1] == w {
        forall i | 0 <= i < |front| ensures front[i] < order[k - 1] {
          assert front[i] in front && front[i] in order[..k - 1];
          var j :| 0 <= j < k - 1 && order[j] == front[i];
          assert OrderLess(patterns, order[j], order[k - 1]);
        }
      }
    }
  }

  lemma SelectedIsIdsOf(patterns: seq<Word>, order: seq<nat>, w: Word)
    requires IsOrder(patterns, order)
    ensures Selected(Ordered(patterns, order), order, |order|, w) ==
            if w == [] then [] else IdsOf(patterns, w)
  {
    SelectedExact(patterns, order, |order|, w);
    IdsBelowExact(patterns, w, |patterns|);
    assert order[..|order|] == order;
    var ids := Selected(Ordered(patterns, order), order, |order|, w);
    if w == [] {
      HasMember(ids);
    } else {
      AscendingUnique(ids, IdsOf(patterns, w));
    }
  }

  /** A word the trie does not have yet belongs to no pattern read so far. */
  lemma {:induction false} SelectedFresh(ps: seq<Word>, order: seq<nat>, k: nat, w: Word)
    requires k <= |ps| == |order| && !IsPrefixOfSome(ps, k, w)
    ensures Selected(ps, order, k, w) == []
  {
    if k > 0 {
      assert !(w <= ps[k - 1]);
      SelectedFresh(ps, order, k - 1, w);
    }
  }

  /** How many edges leave each node. */
  ghost predicate CountsRight(edges: seq<Edge>, counts: seq<nat>) {
    forall n :: 0 <= n < |counts| ==> counts[n] == CountParent(edges, n)
  }

  lemma CountNext(edges: seq<Edge>, counts: seq<nat>, e: Edge)
    requires CountsRight(edges, counts) && e.parent < |counts|
    ensures CountsRight(edges + [e], counts[e.parent := counts[e.parent] + 1])
  {
    assert (edges + [e])[..|edges|] == edges;
  }

  /** What the building pass has established when it has read `k` patterns and numbered `words`. */
  ghost predicate Built(ps: seq<Word>, order: seq<nat>, k: nat, words: seq<Word>, edges: seq<Edge>,
                        edgeCount: seq<nat>, patternsAt: seq<seq<nat>>)
    requires k <= |ps| == |order|
  {
    && EdgesSpell(words, edges)
    && |edgeCount| == |patternsAt| >= |words|
    && CountsRight(edges, edgeCount)
    && (forall n :: 0 <= n < |words| ==> patternsAt[n] == Selected(ps, order, k, words[n]))
    && (forall n :: |words| <= n < |patternsAt| ==> patternsAt[n] == [])
  }

  /** Where the building pass stands: the tables, and the path of the pattern read last. */
  ghost predicate Building(ps: seq<Word>, order: seq<nat>, k: nat, words: seq<Word>, edges: seq<Edge>,
                           edgeCount: seq<nat>, patternsAt: seq<seq<nat>>, path: seq<nat>, previous: Word)
    requires k <= |ps| == |order|
  {
    && words == TrieWords(ps, k) && Built(ps, order, k, words, edges, edgeCount, patternsAt)
    && previous == (if k == 0 then [] else ps[k - 1])
    && |path| == |previous| + 1 && PathSpells(words, path, previous)
  }

  /** One more node of a path spells one more byte. */
  lemma NodeSpells(words: seq<Word>, edges: seq<Edge>, path: seq<nat>, pattern: Word, i: nat)
    requires i < |pattern| && EdgesSpell(words, edges) && |path| == i + 1 && PathSpells(words, path, pattern)
    ensures EdgesSpell(words + [pattern[..i + 1]], edges + [Edge(path[i], pattern[i], |edges| + 1)])
    ensures PathSpells(words + [pattern[..i + 1]], path + [|edges| + 1], pattern)
  {
    assert pattern[..i + 1] == pattern[..i] + [pattern[i]];
  }

  /** Appends the nodes of `pattern` beyond its first `common` bytes. */
  method ExtendPath(pattern: Word, common: nat, ghost words: seq<Word>, edges0: seq<Edge>, path0: seq<nat>,
                    edgeCount: array<nat>)
    returns (edges: seq<Edge>, path: seq<nat>)
    requires common <= |pattern| && EdgesSpell(words, edges0)
    requires |path0| == common + 1 && PathSpells(words, path0, pattern)
    requires |words| + |pattern| - common <= edgeCount.Length
    requires CountsRight(edges0, edgeCount[..])
    modifies edgeCount
    ensures EdgesSpell(words + FreshWords(pattern, common), edges)
    ensures |path| == |pattern| + 1 && PathSpells(words + FreshWords(pattern, common), path, pattern)
    ensures CountsRight(edges, edgeCount[..])
  {
    edges, path := edges0, path0;
    var parent := path[common];
    var nextNode := |edges| + 1;
    ghost var added, known := FreshWords(pattern, common), words;
    for i := common to |pattern|
      invariant known == words + added[..i - common] && EdgesSpell(known, edges)
      invariant |path| == i + 1 && PathSpells(known, path, pattern)
      invariant parent == path[i] && nextNode == |edges| + 1
      invariant CountsRight(edges, edgeCount[..])
    {
      var child := nextNode;
      nextNode := nextNode + 1;
      NodeSpells(known, edges, path, pattern, i);
      known := known + [pattern[..i + 1]];
      CountNext(edges, edgeCount[..], Edge(parent, pattern[i], child));
      edges := edges + [Edge(parent, pattern[i], child)];
      edgeCount[parent] := edgeCount[parent] + 1;
      path := path + [child];
      parent := child;
    }
    assert added[..|pattern| - common] == added;
  }

  method AddPattern(ghost ps: seq<Word>, order: seq<nat>, k: nat, previous: Word, pattern: Word,
                    ghost words: seq<Word>, edges0: seq<Edge>, path0: seq<nat>,
                    edgeCount: array<nat>, patternsAt: array<seq<nat>>)
    returns (edges: seq<Edge>, path: seq<nat>, ghost words': seq<Word>)
    requires SortedWords(ps) && k < |ps| == |order|
    requires pattern == ps[k] && |TrieWords(ps, |ps|)| <= edgeCount.Length
    requires Building(ps, order, k, words, edges0, edgeCount[..], patternsAt[..], path0, previous)
    modifies edgeCount, patternsAt
    ensures Building(ps, order, k + 1, words', edges, edgeCount[..], patternsAt[..], path, pattern)
  {
    var common := CommonPrefix(previous, pattern);
    words' := words + FreshWords(pattern, common);
    path := path0[..common + 1];
    CommonPath(ps, k, words, path0, previous, common, edgeCount.Length);
    ghost var before := patternsAt[..];
    edges, path := ExtendPath(pattern, common, words, edges0, path, edgeCount);
    assert patternsAt[..] == before;
    var node := path[|pattern|];
    patternsAt[node] := patternsAt[node] + [order[k]];
    PatternAdded(ps, order, k, words, words', edges, edgeCount[..], before, patternsAt[..], path);
  }

  /** The path of the common prefix, and room for the nodes beyond it. */
  lemma CommonPath(ps: seq<Word>, k: nat, words: seq<Word>, path: seq<nat>, previous: Word, common: nat, room: nat)
    requires k < |ps| && |TrieWords(ps, |ps|)| <= room && words == TrieWords(ps, k)
    requires previous == (if k == 0 then [] else ps[k - 1]) && |path| == |previous| + 1
    requires PathSpells(words, path, previous)
    requires common == Common(previous, ps[k])
    ensures common <= |ps[k]| && common < |path| && PathSpells(words, path[..common + 1], ps[k])
    ensures TrieWords(ps, k + 1) == words + FreshWords(ps[k], common)
    ensures |words| + |ps[k]| - common <= room
  {
    CommonExact(previous, ps[k], common);
    CommonPathSpells(words, path, previous, ps[k], common);
    TrieWordsGrow(ps, k + 1, |ps|);
  }

  lemma CommonPathSpells(words: seq<Word>, path: seq<nat>, previous: Word, p: Word, common: nat)
    requires common == Common(previous, p) && common < |path| && PathSpells(words, path, previous)
    ensures PathSpells(words, path[..common + 1], p)
  {
    PathOfCommon(words, path[..common + 1], previous, p, common);
  }

  /** After one more pattern, with its id attached to its node. */
  lemma PatternAdded(ps: seq<Word>, order: seq<nat>, k: nat, words: seq<Word>, words': seq<Word>, edges: seq<Edge>,
                     edgeCount: seq<nat>, before: seq<seq<nat>>, after: seq<seq<nat>>, path: seq<nat>)
    requires SortedWords(ps) && k < |ps| == |order|
    requires words == TrieWords(ps, k) && words' == TrieWords(ps, k + 1) && words <= words'
    requires EdgesSpell(words', edges) && CountsRight(edges, edgeCount) && |edgeCount| == |before| >= |words'|
    requires |path| == |ps[k]| + 1 && PathSpells(words', path, ps[k])
    requires forall n :: 0 <= n < |words| ==> before[n] == Selected(ps, order, k, words[n])
    requires forall n :: |words| <= n < |before| ==> before[n] == []
    requires var node := path[|ps[k]|]; after == before[node := before[node] + [order[k]]]
    ensures Building(ps, order, k + 1, words', edges, edgeCount, after, path, ps[k])
  {
    var node := path[|ps[k]|];
    assert words'[node] == ps[k][..|ps[k]|] == ps[k];
    AttachPattern(ps, order, k, words, words', node, before, after);
  }

  method NewTables(stateCount: nat) returns (edgeCount: array<nat>, patternsAt: array<seq<nat>>)
    ensures fresh(edgeCount) && fresh(patternsAt)
    ensures edgeCount.Length == patternsAt.Length == stateCount
    ensures forall n :: 0 <= n < stateCount ==> edgeCount[n] == 0 && patternsAt[n] == []
  {
    edgeCount := new nat[stateCount](_ => 0);
    patternsAt := new seq<nat>[stateCount](_ => []);
  }

  lemma BuiltNothing(ps: seq<Word>, order: seq<nat>, edgeCount: seq<nat>, patternsAt: seq<seq<nat>>)
    requires |ps| == |order| && |edgeCount| == |patternsAt| == |TrieWords(ps, |ps|)|
    requires forall n :: 0 <= n < |edgeCount| ==> edgeCount[n] == 0 && patternsAt[n] == []
    ensures Building(ps, order, 0, [[]], [], edgeCount, patternsAt, [0], [])
  {
    TrieWordsGrow(ps, 0, |ps|);
  }

  /** Second pass: numbers the nodes, records the edges and attaches each pattern to its node.
      The two passes agree on the number of states, so the source's panic is unreachable. */
  method BuildEdges(patterns: seq<Word>, order: seq<nat>, stateCount: nat, ghost ps: seq<Word>)
    returns (edges: seq<Edge>, edgeCount: array<nat>, patternsAt: array<seq<nat>>, ghost words: seq<Word>)
    requires |ps| == |order| && SortedWords(ps)
    requires forall k :: 0 <= k < |order| ==> order[k] < |patterns| && ps[k] == patterns[order[k]]
    requires stateCount == |TrieWords(ps, |ps|)|
    ensures fresh(edgeCount) && fresh(patternsAt)
    ensures |edges| + 1 == stateCount == edgeCount.Length == patternsAt.Length
    ensures words == TrieWords(ps, |ps|)
    ensures Built(ps, order, |order|, words, edges, edgeCount[..], patternsAt[..])
  {
    edgeCount, patternsAt := NewTables(stateCount);
    BuiltNothing(ps, order, edgeCount[..], patternsAt[..]);
    edges, words := FillTables(patterns, order, ps, edgeCount, patternsAt);
    var nextNode := |edges| + 1;
    assert nextNode == stateCount;
  }

  method FillTables(patterns: seq<Word>, order: seq<nat>, ghost ps: seq<Word>, edgeCount: array<nat>,
                    patternsAt: array<seq<nat>>)
    returns (edges: seq<Edge>, ghost words: seq<Word>)
    requires |ps| == |order| && SortedWords(ps)
    requires forall k :: 0 <= k < |order| ==> order[k] < |patterns| && ps[k] == patterns[order[k]]
    requires edgeCount.Length == patternsAt.Length == |TrieWords(ps, |ps|)|
    requires Building(ps, order, 0, [[]], [], edgeCount[..], patternsAt[..], [0], [])
    modifies edgeCount, patternsAt
    ensures |edges| + 1 == |words| && words == TrieWords(ps, |ps|)
    ensures Built(ps, order, |order|, words, edges, edgeCount[..], patternsAt[..])
  {
    edges := [];
    var path: seq<nat> := [0];
    var previous: Word := [];
    words := [[]];
    for k := 0 to |order|
      invariant Building(ps, order, k, words, edges, edgeCount[..], patternsAt[..], path, previous)
    {
      var pattern := patterns[order[k]];
      edges, path, words := AddPattern(ps, order, k, previous, pattern, words, edges, path, edgeCount, patternsAt);
      previous := pattern;
    }
  }

  lemma PathOfCommon(words: seq<Word>, path: seq<nat>, prev: Word, p: Word, common: nat)
    requires common == Common(prev, p) && |path| == common + 1 && PathSpells(words, path, prev)
    ensures PathSpells(words, path, p)
  {
    CommonExact(prev, p, common);
    forall j | 0 <= j < |path| ensures words[path[j]] == p[..j] {
      assert p[..common][..j] == p[..j];
      assert prev[..j] == p[..j];
    }
  }

  lemma AttachPattern(ps: seq<Word>, order: seq<nat>, k: nat, words: seq<Word>, words': seq<Word>,
                      node: nat, before: seq<seq<nat>>, after: seq<seq<nat>>)
    requires SortedWords(ps) && k < |ps| == |order|
    requires words == TrieWords(ps, k) && words' == TrieWords(ps, k + 1) && words <= words'
    requires node < |words'| <= |before| && words'[node] == ps[k]
    requires forall n :: 0 <= n < |words| ==> before[n] == Selected(ps, order, k, words[n])
    requires forall n :: |words| <= n < |before| ==> before[n] == []
    requires after == before[node := before[node] + [order[k]]]
    ensures forall n :: 0 <= n < |words'| ==> after[n] == Selected(ps, order, k + 1, words'[n])
  {
    TrieWordsExact(ps, k);
    TrieWordsExact(ps, k + 1);
    forall n | 0 <= n < |words'|
      ensures after[n] == Selected(ps, order, k + 1, words'[n])
    {
      if n >= |words| {
        assert words'[n] !in words by {
          assert forall m :: 0 <= m < |words| ==> words'[m] == words[m];
        }
        SelectedFresh(ps, order, k, words'[n]);
      }
      assert before[n] == Selected(ps, order, k, words'[n]);
      assert n != node ==> words'[n] != words'[node];
    }
  }

  // ---------------------------------------------------------------------------------------
  // Sorting the edges and addressing each node's children by a range

  predicate EdgeLess(a: Edge, b: Edge) {
    a.parent < b.parent || (a.parent == b.parent && a.symbol < b.symbol)
  }

  predicate EdgeLeq(a: Edge, b: Edge) {
    !EdgeLess(b, a)
  }

  ghost predicate SortedEdges(edges: seq<Edge>) {
    forall i, j :: 0 <= i < j < |edges| ==> EdgeLeq(edges[i], edges[j])
  }

  lemma {:induction false} CountParentConcat(a: seq<Edge>, b: seq<Edge>, node: nat)
    ensures CountParent(a + b, node) == CountParent(a, node) + CountParent(b, node)
    decreases |b|
  {
    if b == [] {
      assert a + b == a;
    } else {
      assert (a + b)[..|a + b| - 1] == a + b[..|b| - 1];
      CountParentConcat(a, b[..|b| - 1], node);
    }
  }

  method InsertEdge(sorted: seq<Edge>, e: Edge) returns (r: seq<Edge>)
    requires SortedEdges(sorted) && Distinct(sorted) && e !in sorted
    ensures SortedEdges(r) && Distinct(r)
    ensures forall x :: x in r <==> x in sorted || x == e
    ensures forall n :: CountParent(r, n) == CountParent(sorted + [e], n)
  {
    var k := |sorted|;
    while k > 0 && EdgeLess(e, sorted[k - 1])
      invariant 0 <= k <= |sorted|
      invariant forall j :: k <= j < |sorted| ==> EdgeLeq(e, sorted[j])
    {
      k := k - 1;
    }
    assert forall j :: 0 <= j < k - 1 ==> EdgeLeq(sorted[j], sorted[k - 1]);
    r := sorted[..k] + [e] + sorted[k..];
    InsertedMembers(sorted, k, e);
    InsertedSorted(sorted, k, e);
    forall n: nat ensures CountParent(r, n) == CountParent(sorted + [e], n) {
      assert sorted == sorted[..k] + sorted[k..];
      CountInserted(sorted[..k], sorted[k..], e, n);
    }
  }

  lemma InsertedMembers<T>(s: seq<T>, k: nat, e: T)
    requires k <= |s|
    ensures forall x :: x in s[..k] + [e] + s[k..] <==> x in s || x == e
  {
    assert s == s[..k] + s[k..];
  }

  lemma InsertedSorted(s: seq<Edge>, k: nat, e: Edge)
    requires k <= |s| && SortedEdges(s) && Distinct(s) && e !in s
    requires forall j :: 0 <= j < k ==> EdgeLeq(s[j], e)
    requires forall j :: k <= j < |s| ==> EdgeLeq(e, s[j])
    ensures SortedEdges(s[..k] + [e] + s[k..]) && Distinct(s[..k] + [e] + s[k..])
  {
    var r := s[..k] + [e] + s[k..];
    assert forall i :: 0 <= i < |r| ==> r[i] == if i < k then s[i] else if i == k then e else s[i - 1];
  }

  lemma CountInserted(a: seq<Edge>, b: seq<Edge>, e: Edge, n: nat)
    ensures CountParent(a + [e] + b, n) == CountParent(a + b + [e], n)
  {
    CountParentConcat(a + [e], b, n);
    CountParentConcat(a, [e], n);
    CountParentConcat(a, b, n);
    CountParentConcat(a + b, [e], n);
  }

  method SortEdges(edges: seq<Edge>) returns (r: seq<Edge>)
    requires Distinct(edges)
    ensures SortedEdges(r) && Distinct(r)
    ensures forall x :: x in r <==> x in edges
    ensures forall n :: CountParent(r, n) == CountParent(edges, n)
  {
    r := [];
    for i := 0 to |edges|
      invariant SortedEdges(r) && Distinct(r)
      invariant forall x :: x in r <==> x in edges[..i]
      invariant forall n :: CountParent(r, n) == CountParent(edges[..i], n)
    {
      assert edges[..i + 1] == edges[..i] + [edges[i]];
      forall n: nat ensures CountParent(r + [edges[i]], n) == CountParent(edges[..i + 1], n) {
        CountParentConcat(r, [edges[i]], n);
        CountParentConcat(edges[..i], [edges[i]], n);
      }
      r := InsertEdge(r, edges[i]);
    }
    assert edges[..|edges|] == edges;
  }

  /** In a sorted list that starts with an edge of `node`, exactly the first `CountParent` edges
      belong to `node`. */
  lemma {:induction false} CountIsRun(edges: seq<Edge>, node: nat)
    requires SortedEdges(edges)
    requires edges == [] || edges[0].parent == node
    ensures CountParent(edges, node) <= |edges|
    ensures forall i :: 0 <= i < |edges| ==> (edges[i].parent == node <==> i < CountParent(edges, node))
  {
    if edges != [] {
      var n := |edges| - 1;
      CountIsRun(edges[..n], node);
      if edges[n].parent == node {
        assert forall i :: 0 <= i < n ==> EdgeLeq(edges[0], edges[i]) && EdgeLeq(edges[i], edges[n]);
        assert forall i :: 0 <= i < n ==> edges[..n][i].parent == node;
        if n > 0 { assert edges[..n][n - 1].parent == node; }
      }
    }
  }

  lemma {:induction false} CountNone(edges: seq<Edge>, node: nat)
    requires forall i :: 0 <= i < |edges| ==> edges[i].parent != node
    ensures CountParent(edges, node) == 0
  {
    if edges != [] {
      CountNone(edges[..|edges| - 1], node);
    }
  }

  /** The range `start[n] .. start[n] + count[n]` of `edges` holds the edges of `n`, all of them
      and no others. */
  ghost predicate RangesExact(edges: seq<Edge>, start: seq<nat>, count: seq<nat>) {
    && |start| == |count|
    && forall n :: 0 <= n < |start| ==>
         && start[n] + count[n] <= |edges|
         && forall i :: 0 <= i < |edges| ==>
              (edges[i].parent == n <==> start[n] <= i < start[n] + count[n])
  }

  /** Where the run of `node` starts among the first `i` sorted edges; 0 while there is none. */
  ghost predicate StartsAt(edges: seq<Edge>, i: nat, node: nat, at: nat)
    requires i <= |edges|
  {
    if forall j :: 0 <= j < i ==> edges[j].parent != node then at == 0
    else at < i && edges[at].parent == node && forall j :: 0 <= j < at ==> edges[j].parent != node
  }

  method EdgeRanges(edges: seq<Edge>, count: seq<nat>) returns (start: array<nat>)
    requires SortedEdges(edges)
    requires forall i :: 0 <= i < |edges| ==> edges[i].parent < |count|
    requires forall n :: 0 <= n < |count| ==> count[n] == CountParent(edges, n)
    ensures fresh(start) && RangesExact(edges, start[..], count)
  {
    start := new nat[|count|](_ => 0);
    for i := 0 to |edges|
      invariant start.Length == |count|
      invariant forall n :: 0 <= n < |count| ==> StartsAt(edges, i, n, start[n])
    {
      ghost var before := start[..];
      if i == 0 || edges[i].parent != edges[i - 1].parent {
        start[edges[i].parent] := i;
      }
      forall n | 0 <= n < |count| ensures StartsAt(edges, i + 1, n, start[n]) {
        StartStep(edges, i, n, before[n], start[n]);
      }
    }
    forall n | 0 <= n < |count|
      ensures start[n] + count[n] <= |edges|
      ensures forall i :: 0 <= i < |edges| ==>
                (edges[i].parent == n <==> start[n] <= i < start[n] + count[n])
    {
      RangeOf(edges, n, start[n]);
    }
  }

  lemma StartStep(edges: seq<Edge>, i: nat, n: nat, before: nat, after: nat)
    requires SortedEdges(edges) && i < |edges| && StartsAt(edges, i, n, before)
    requires after == if edges[i].parent == n && (i == 0 || edges[i].parent != edges[i - 1].parent)
                      then i else before
    ensures StartsAt(edges, i + 1, n, after)
  {
    if i > 0 && edges[i].parent == n && edges[i - 1].parent != n {
      assert forall j :: 0 <= j < i - 1 ==> EdgeLeq(edges[j], edges[i - 1]);
      assert EdgeLeq(edges[i - 1], edges[i]);
    }
  }

  lemma RangeOf(edges: seq<Edge>, n: nat, at: nat)
    requires SortedEdges(edges) && StartsAt(edges, |edges|, n, at)
    ensures at + CountParent(edges, n) <= |edges|
    ensures forall i :: 0 <= i < |edges| ==>
              (edges[i].parent == n <==> at <= i < at + CountParent(edges, n))
  {
    if forall j :: 0 <= j < |edges| ==> edges[j].parent != n {
      CountNone(edges, n);
    } else {
      RunOf(edges, n, at);
    }
  }

  lemma RunOf(edges: seq<Edge>, n: nat, at: nat)
    requires SortedEdges(edges) && at < |edges| && edges[at].parent == n
    requires forall j :: 0 <= j < at ==> edges[j].parent != n
    ensures at + CountParent(edges, n) <= |edges|
    ensures forall i :: 0 <= i < |edges| ==>
              (edges[i].parent == n <==> at <= i < at + CountParent(edges, n))
  {
    var front, tail := edges[..at], edges[at..];
    CountTail(edges, n, at);
    TailSorted(edges, at);
    CountIsRun(tail, n);
    forall i | 0 <= i < |edges| ensures edges[i].parent == n <==> at <= i < at + CountParent(edges, n) {
      assert i >= at ==> edges[i] == tail[i - at];
    }
  }

  lemma CountTail(edges: seq<Edge>, n: nat, at: nat)
    requires at <= |edges| && forall j :: 0 <= j < at ==> edges[j].parent != n
    ensures CountParent(edges, n) == CountParent(edges[at..], n)
  {
    assert edges == edges[..at] + edges[at..];
    CountParentConcat(edges[..at], edges[at..], n);
    CountNone(edges[..at], n);
  }

  lemma TailSorted(edges: seq<Edge>, at: nat)
    requires SortedEdges(edges) && at <= |edges|
    ensures SortedEdges(edges[at..])
  {
  }
}
