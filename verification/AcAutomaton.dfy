/** What the tables of the automaton mean, and why visiting the trie breadth-first fills them
    correctly. */
module AcAutomaton {
  import opened Bytes
  import opened AcSpec
  import opened AcTrie

  // ---------------------------------------------------------------------------------------
  // The compact alphabet

  ghost predicate InAlphabet(patterns: seq<Word>, b: byte) {
    exists p :: p in patterns && b in p
  }

  /** Bytes of the patterns have symbols of their own. */
  ghost predicate SymbolsSeparate(patterns: seq<Word>, symbols: seq<nat>, stride: nat) {
    && |symbols| == 256
    && (forall b: byte :: symbols[b] < stride)
    && forall b: byte, c: byte :: InAlphabet(patterns, b) && symbols[b] == symbols[c] ==> b == c
  }

  method PresentBytes(patterns: seq<Word>) returns (present: array<bool>)
    ensures fresh(present) && present.Length == 256
    ensures forall b: byte :: present[b] <==> InAlphabet(patterns, b)
  {
    present := new bool[256](_ => false);
    for id := 0 to |patterns|
      invariant forall b: byte :: present[b] <==> InAlphabet(patterns[..id], b)
    {
      var pattern := patterns[id];
      assert patterns[..id + 1] == patterns[..id] + [pattern];
      for k := 0 to |pattern|
        invariant forall b: byte :: present[b] <==> InAlphabet(patterns[..id], b) || b in pattern[..k]
      {
        assert pattern[..k + 1] == pattern[..k] + [pattern[k]];
        present[pattern[k]] := true;
      }
      assert pattern[..|pattern|] == pattern;
      forall b: byte
        ensures InAlphabet(patterns[..id + 1], b) <==> InAlphabet(patterns[..id], b) || b in pattern
      {
        if b in pattern { assert pattern in patterns[..id + 1]; }
        if InAlphabet(patterns[..id], b) {
          var p :| p in patterns[..id] && b in p;
          assert p in patterns[..id + 1];
        }
      }
    }
    assert patterns[..|patterns|] == patterns;
  }

  method CompactAlphabet(patterns: seq<Word>) returns (symbols: seq<nat>, stride: nat)
    ensures SymbolsSeparate(patterns, symbols, stride)
  {
    var present := PresentBytes(patterns);
    var alphabet: seq<byte> := [];
    for i := 0 to 256
      invariant |alphabet| <= i
      invariant forall j :: 0 <= j < |alphabet| ==> alphabet[j] < i && present[alphabet[j]]
      invariant forall j, k :: 0 <= j < k < |alphabet| ==> alphabet[j] < alphabet[k]
      invariant forall b: byte :: b < i && present[b] ==> b in alphabet
      invariant |alphabet| == i ==> forall b: byte :: b < i ==> present[b]
    {
      if present[i] {
        alphabet := alphabet + [i];
      }
    }
    if |alphabet| == 256 {
      symbols := seq(256, i requires 0 <= i => i);
      stride := |alphabet|;
    } else {
      symbols := AssignSymbols(alphabet);
      stride := |alphabet| + 1;
    }
  }

  method AssignSymbols(alphabet: seq<byte>) returns (symbols: seq<nat>)
    requires forall j, k :: 0 <= j < k < |alphabet| ==> alphabet[j] < alphabet[k]
    ensures |symbols| == 256
    ensures forall j :: 0 <= j < |alphabet| ==> symbols[alphabet[j]] == j
    ensures forall b: byte :: b !in alphabet ==> symbols[b] == |alphabet|
  {
    var unknown := |alphabet|;
    symbols := seq(256, i => unknown);
    for i := 0 to |alphabet|
      invariant |symbols| == 256
      invariant forall j :: 0 <= j < i ==> symbols[alphabet[j]] == j
      invariant forall b: byte :: b !in alphabet[..i] ==> symbols[b] == unknown
    {
      assert alphabet[..i + 1] == alphabet[..i] + [alphabet[i]];
      symbols := symbols[alphabet[i] := i];
    }
    assert alphabet[..|alphabet|] == alphabet;
  }

  // ---------------------------------------------------------------------------------------
  // What the tables mean

  ghost function WordSet(words: seq<Word>): set<Word> {
    set w | w in words
  }

  /** `words` numbers the prefixes of the patterns, the root first. */
  ghost predicate TrieOf(patterns: seq<Word>, words: seq<Word>) {
    && |words| >= 1
    && words[0] == []
    && Distinct(words)
    && forall w :: w in words <==> IsPrefixOfSome(patterns, |patterns|, w)
  }

  lemma TrieOfClosed(patterns: seq<Word>, words: seq<Word>)
    requires TrieOf(patterns, words)
    ensures PrefixClosed(WordSet(words))
    ensures forall p :: p in patterns ==> p in WordSet(words)
  {
    assert words[0] in words;
    forall w, k | w in WordSet(words) && 0 <= k <= |w| ensures w[..k] in WordSet(words) {
      if w[..k] != [] {
        var i :| 0 <= i < |patterns| && w <= patterns[i];
        assert w[..k] <= patterns[i];
      }
    }
    forall p | p in patterns ensures p in WordSet(words) {
      assert p <= p;
    }
  }

  /** Node `t` stands for the longest suffix of `s` in the trie. */
  ghost predicate StandsFor(words: seq<Word>, t: int, s: Word)
    requires [] in WordSet(words)
  {
    0 <= t < |words| && words[t] == Longest(WordSet(words), s)
  }

  lemma StandsForShorter(words: seq<Word>, t: int, s: Word)
    requires [] in WordSet(words) && StandsFor(words, t, s)
    ensures |words[t]| <= |s|
  {
    LongestIsSuffix(WordSet(words), s);
  }

  /** A dictionary link leads to the longest pattern among the suffixes of `s`; -1 says none. */
  ghost predicate DictFor(patterns: seq<Word>, words: seq<Word>, link: int, s: Word) {
    var w := NearestPattern(patterns, s);
    if w == [] then link == -1 else 0 < link < |words| && words[link] == w
  }

  ghost predicate LinksRight(patterns: seq<Word>, words: seq<Word>, failure: int, dict: int, w: Word)
    requires [] in WordSet(words) && w != []
  {
    StandsFor(words, failure, w[1..]) && DictFor(patterns, words, dict, w[1..])
  }

  // ---------------------------------------------------------------------------------------
  // Breadth-first order

  ghost function ParentWord(w: Word): Word
    requires w != []
  {
    w[..|w| - 1]
  }

  ghost predicate NodeIds(words: seq<Word>, queue: seq<nat>) {
    forall i :: 0 <= i < |queue| ==> 0 < queue[i] < |words| && words[queue[i]] != []
  }

  /** The parent of `c` is the root or one of the first `head` nodes of the queue. */
  ghost predicate Discovered(words: seq<Word>, queue: seq<nat>, head: nat, c: nat)
    requires head <= |queue| && NodeIds(words, queue) && 0 < c < |words|
  {
    |words[c]| <= 1 || exists i :: 0 <= i < head && words[queue[i]] == ParentWord(words[c])
  }

  /** The queue holds the root's children and the children of its first `head` nodes, each once,
      by increasing depth. */
  ghost predicate BreadthFirst(words: seq<Word>, queue: seq<nat>, head: nat) {
    && head <= |queue|
    && NodeIds(words, queue)
    && Distinct(queue)
    && (forall c :: 0 < c < |words| ==> (c in queue <==> Discovered(words, queue, head, c)))
    && (forall i, j :: 0 <= i < j < |queue| ==> |words[queue[i]]| <= |words[queue[j]]|)
    && (head < |queue| ==> forall i :: 0 <= i < |queue| ==> |words[queue[i]]| <= |words[queue[head]]| + 1)
  }

  /** Everything shallower than the head has been visited, everything as deep is queued. */
  lemma {:induction false} ShallowVisited(patterns: seq<Word>, words: seq<Word>, queue: seq<nat>, head: nat, m: nat)
    requires TrieOf(patterns, words) && BreadthFirst(words, queue, head)
    requires 0 < m < |words| && (head < |queue| ==> |words[m]| <= |words[queue[head]]|)
    ensures m in queue
    ensures head < |queue| && |words[m]| < |words[queue[head]]| ==> m in queue[..head]
    decreases |words[m]|
  {
    assert words[m] != words[0];
    if |words[m]| > 1 {
      var w := ParentWord(words[m]);
      TrieOfClosed(patterns, words);
      assert words[m] in WordSet(words);
      assert w in words;
      var q :| 0 <= q < |words| && words[q] == w;
      ShallowVisited(patterns, words, queue, head, q);
      var i :| 0 <= i < head && queue[i] == q by {
        if head == |queue| { assert queue[..head] == queue; }
      }
      assert words[queue[i]] == ParentWord(words[m]);
    }
    assert Discovered(words, queue, head, m);
    assert m in queue;
    var k :| 0 <= k < |queue| && queue[k] == m;
    if k < head { assert queue[..head][k] == m; }
  }

  /** `children` lists the nodes one byte below `node`, each once. */
  ghost predicate ChildrenOf(words: seq<Word>, node: nat, children: seq<nat>)
    requires node < |words|
  {
    && (forall i :: 0 <= i < |children| ==> 0 < children[i] < |words|)
    && Distinct(children)
    && (forall c :: 0 < c < |words| ==>
          (c in children <==> words[c] != [] && ParentWord(words[c]) == words[node]))
  }

  lemma RootQueued(patterns: seq<Word>, words: seq<Word>, children: seq<nat>)
    requires TrieOf(patterns, words) && ChildrenOf(words, 0, children)
    ensures BreadthFirst(words, children, 0)
  {
    forall i | 0 <= i < |children| ensures |words[children[i]]| == 1 {
      assert children[i] in children;
    }
    forall c | 0 < c < |words| ensures c in children <==> Discovered(words, children, 0, c) {
      assert words[c] != words[0];
    }
  }

  lemma HeadVisited(patterns: seq<Word>, words: seq<Word>, queue: seq<nat>, head: nat, children: seq<nat>)
    requires TrieOf(patterns, words) && BreadthFirst(words, queue, head) && head < |queue|
    requires ChildrenOf(words, queue[head], children)
    ensures BreadthFirst(words, queue + children, head + 1)
  {
    var node, q := queue[head], queue + children;
    forall i | 0 <= i < |children|
      ensures |words[children[i]]| == |words[node]| + 1 && children[i] !in queue
    {
      var c := children[i];
      assert c in children;
      forall k | 0 <= k < head ensures words[queue[k]] != ParentWord(words[c]) {
        assert queue[k] != queue[head];
      }
    }
    forall c | 0 < c < |words| ensures c in q <==> Discovered(words, q, head + 1, c) {
      assert words[c] != words[0];
      if c in queue && |words[c]| > 1 {
        var k :| 0 <= k < head && words[queue[k]] == ParentWord(words[c]);
        assert words[q[k]] == ParentWord(words[c]);
      } else if c in children {
        assert words[q[head]] == ParentWord(words[c]);
      }
      if Discovered(words, q, head + 1, c) && |words[c]| > 1 {
        var k :| 0 <= k < head + 1 && words[q[k]] == ParentWord(words[c]);
        assert q[k] == queue[k];
      }
    }
  }

  // ---------------------------------------------------------------------------------------
  // One state's transitions and links, from those of its failure state

  /** Without a child on `b`, a state moves where its failure state moves. */
  lemma CopiedMove(patterns: seq<Word>, words: seq<Word>, w: Word, b: byte, f: int, t: int)
    requires TrieOf(patterns, words) && [] in WordSet(words) && w != []
    requires StandsFor(words, f, w[1..]) && StandsFor(words, t, words[f] + [b])
    ensures StandsFor(words, t, w[1..] + [b])
    ensures w + [b] !in words ==> StandsFor(words, t, w + [b])
  {
    TrieOfClosed(patterns, words);
    LongestStep(WordSet(words), w[1..], b);
    if w + [b] !in words {
      LongestMove(WordSet(words), w, b);
    }
  }

  /** The links of a child, from the failure state its parent's failure state moves to. */
  lemma ChildLinks(patterns: seq<Word>, words: seq<Word>, w: Word, b: byte, cf: int, ids: seq<nat>, cfDict: int,
                   dict: int)
    requires TrieOf(patterns, words) && [] in WordSet(words) && w != []
    requires StandsFor(words, cf, w[1..] + [b])
    requires ids == if words[cf] == [] then [] else IdsOf(patterns, words[cf])
    requires if words[cf] == [] then cfDict == -1 else DictFor(patterns, words, cfDict, words[cf][1..])
    requires dict == if |ids| > 0 then cf else cfDict
    ensures LinksRight(patterns, words, cf, dict, w + [b])
  {
    TrieOfClosed(patterns, words);
    assert (w + [b])[1..] == w[1..] + [b];
    NearestLongest(patterns, WordSet(words), w[1..] + [b]);
    assert words[cf] != [] ==> cf != 0;
  }

  lemma WordStandsForItself(words: seq<Word>, n: nat)
    requires [] in WordSet(words) && n < |words|
    ensures StandsFor(words, n, words[n])
  {
    assert words[n] in WordSet(words);
  }

  /** The dictionary link of a state whose failure state is `cf`. */
  ghost function DictThrough(outputs: seq<seq<nat>>, links: seq<int>, cf: nat): int
    requires cf < |links| == |outputs|
  {
    if |outputs[cf]| > 0 then cf else links[cf]
  }

  // ---------------------------------------------------------------------------------------
  // Edges

  ghost function Children(edges: seq<Edge>): seq<nat> {
    seq(|edges|, i requires 0 <= i < |edges| => edges[i].child)
  }

  /** `edges` are the edges below `node`. */
  ghost predicate EdgesBelow(words: seq<Word>, node: nat, edges: seq<Edge>)
    requires node < |words|
  {
    && (forall k :: 0 <= k < |edges| ==> EdgeSpells(words, edges[k]) && edges[k].parent == node)
    && ChildrenOf(words, node, Children(edges))
  }

  /** The edge list has one edge per node but the root, grouped into one range per parent. */
  ghost predicate EdgeTable(words: seq<Word>, edges: seq<Edge>, start: seq<nat>, count: seq<nat>) {
    && |start| == |count| == |words|
    && RangesExact(edges, start, count)
    && (forall i :: 0 <= i < |edges| ==> EdgeSpells(words, edges[i]))
    && (forall i, j :: 0 <= i < j < |edges| ==> edges[i].child != edges[j].child)
    && (forall c :: 0 < c < |words| ==> HasEdgeTo(edges, c))
  }

  ghost predicate HasEdgeTo(edges: seq<Edge>, c: nat) {
    exists i :: 0 <= i < |edges| && edges[i].child == c
  }

  ghost predicate EdgeSpells(words: seq<Word>, e: Edge) {
    && e.parent < |words|
    && 0 < e.child < |words|
    && words[e.child] == words[e.parent] + [e.symbol]
  }

  lemma RangeMember(words: seq<Word>, edges: seq<Edge>, start: seq<nat>, count: seq<nat>, node: nat, c: nat)
    requires EdgeTable(words, edges, start, count) && node < |words| && Distinct(words) && 0 < c < |words|
    ensures (exists i :: start[node] <= i < start[node] + count[node] && edges[i].child == c) <==>
            words[c] != [] && ParentWord(words[c]) == words[node]
  {
    assert HasEdgeTo(edges, c);
    var i :| 0 <= i < |edges| && edges[i].child == c;
    assert EdgeSpells(words, edges[i]);
    assert ParentWord(words[c]) == words[edges[i].parent];
  }

  lemma RangeChildren(words: seq<Word>, edges: seq<Edge>, start: seq<nat>, count: seq<nat>, node: nat, c: nat)
    requires EdgeTable(words, edges, start, count) && node < |words| && Distinct(words) && 0 < c < |words|
    ensures c in Children(edges[start[node]..start[node] + count[node]]) <==>
            words[c] != [] && ParentWord(words[c]) == words[node]
  {
    var lo, children := start[node], Children(edges[start[node]..start[node] + count[node]]);
    RangeMember(words, edges, start, count, node, c);
    if i :| lo <= i < lo + count[node] && edges[i].child == c {
      assert children[i - lo] == c;
    }
  }

  /** The range of a node holds the edges below it. */
  lemma RangeBelow(words: seq<Word>, edges: seq<Edge>, start: seq<nat>, count: seq<nat>, node: nat)
    requires EdgeTable(words, edges, start, count) && node < |words| && Distinct(words)
    ensures EdgesBelow(words, node, edges[start[node]..start[node] + count[node]])
  {
    var lo := start[node];
    var own := edges[lo..lo + count[node]];
    var children := Children(own);
    assert forall i :: 0 <= i < |own| ==> own[i] == edges[lo + i];
    forall c | 0 < c < |words|
      ensures c in children <==> words[c] != [] && ParentWord(words[c]) == words[node]
    {
      RangeChildren(words, edges, start, count, node, c);
    }
    RangeDistinct(edges, lo, own);
  }

  lemma RangeDistinct(edges: seq<Edge>, lo: nat, own: seq<Edge>)
    requires lo + |own| <= |edges| && own == edges[lo..lo + |own|]
    requires forall i, j :: 0 <= i < j < |edges| ==> edges[i].child != edges[j].child
    ensures forall i, j :: 0 <= i < j < |own| ==> Children(own)[i] != Children(own)[j]
  {
  }

  /** Range `n` of the edge list holds the edges below node `n`. */
  ghost predicate RangeRight(words: seq<Word>, edges: seq<Edge>, start: seq<nat>, count: seq<nat>, n: nat)
    requires n < |words| == |start| == |count|
  {
    start[n] + count[n] <= |edges| && EdgesBelow(words, n, edges[start[n]..start[n] + count[n]])
  }

  /** What the builder hands to the breadth-first pass. */
  ghost predicate RangesRight(words: seq<Word>, edges: seq<Edge>, start: seq<nat>, count: seq<nat>) {
    && |start| == |count| == |words| > 0
    && (forall n :: 0 <= n < |words| ==> RangeRight(words, edges, start, count, n))
    && count[0] <= |edges| && EdgesBelow(words, 0, edges[..count[0]])
  }

  lemma HeadRange(words: seq<Word>, queue: seq<nat>, head: nat, edges: seq<Edge>, start: seq<nat>, count: seq<nat>)
    requires BreadthFirst(words, queue, head) && head < |queue| && RangesRight(words, edges, start, count)
    ensures |queue| <= |words| && queue[head] < |words| && RangeRight(words, edges, start, count, queue[head])
  {
    DistinctBound(queue, |words|);
  }

  lemma TableRanges(words: seq<Word>, edges: seq<Edge>, start: seq<nat>, count: seq<nat>)
    requires EdgeTable(words, edges, start, count) && |words| > 0 && SortedEdges(edges) && Distinct(words)
    ensures RangesRight(words, edges, start, count)
  {
    forall n | 0 <= n < |words| ensures RangeRight(words, edges, start, count, n) {
      RangeBelow(words, edges, start, count, n);
    }
    RangeBelow(words, edges, start, count, 0);
    RootRangeFirst(words, edges, start, count);
  }

  /** The root's edges come first, so a prefix of the list holds them. */
  lemma RootRangeFirst(words: seq<Word>, edges: seq<Edge>, start: seq<nat>, count: seq<nat>)
    requires EdgeTable(words, edges, start, count) && |words| > 0 && SortedEdges(edges)
    ensures count[0] <= |edges| && edges[..count[0]] == edges[start[0]..start[0] + count[0]]
  {
    if count[0] > 0 {
      assert edges[start[0]].parent == 0;
      assert start[0] == 0 || EdgeLeq(edges[0], edges[start[0]]);
      assert edges[0].parent == 0;
    }
  }

  /** Sorting the built edges and addressing them by range yields an edge table. */
  lemma BuiltIsTable(words: seq<Word>, built: seq<Edge>, edges: seq<Edge>, start: seq<nat>, count: seq<nat>)
    requires EdgesSpell(words, built) && Distinct(edges) && |start| == |count| == |words|
    requires forall e :: e in edges <==> e in built
    requires RangesExact(edges, start, count)
    ensures EdgeTable(words, edges, start, count)
  {
    forall i | 0 <= i < |edges| ensures EdgeSpells(words, edges[i]) && edges[i] == built[edges[i].child - 1] {
      assert edges[i] in built;
      var k :| 0 <= k < |built| && built[k] == edges[i];
    }
    forall i, j | 0 <= i < j < |edges| ensures edges[i].child != edges[j].child {
      assert edges[i] != edges[j];
    }
    forall c | 0 < c < |words| ensures HasEdgeTo(edges, c) {
      assert built[c - 1] in edges;
    }
  }

  /** The edge below `node` on byte `b`, or -1; no other edge shares its symbol. */
  lemma EdgeOn(patterns: seq<Word>, words: seq<Word>, symbols: seq<nat>, stride: nat, node: nat, edges: seq<Edge>,
               b: byte)
    returns (k: int)
    requires TrieOf(patterns, words) && SymbolsSeparate(patterns, symbols, stride)
    requires node < |words| && EdgesBelow(words, node, edges)
    ensures k < |edges| && forall j :: 0 <= j < |edges| ==> (symbols[edges[j].symbol] == symbols[b] <==> j == k)
    ensures k >= 0 ==> words[edges[k].child] == words[node] + [b]
    ensures k < 0 ==> words[node] + [b] !in words
  {
    k := -1;
    if words[node] + [b] in words {
      var c :| 0 <= c < |words| && words[c] == words[node] + [b];
      assert ParentWord(words[c]) == words[node];
      assert c in Children(edges);
      k :| 0 <= k < |edges| && edges[k].child == c;
      assert EdgeSpells(words, edges[k]);
      assert edges[k].symbol == words[c][|words[node]|] == b;
    }
    forall j | 0 <= j < |edges| ensures symbols[edges[j].symbol] == symbols[b] <==> j == k {
      EdgeInAlphabet(patterns, words, edges[j]);
      OneEdgePerByte(words, node, edges, b, j, k);
    }
  }

  lemma OneEdgePerByte(words: seq<Word>, node: nat, edges: seq<Edge>, b: byte, j: nat, k: int)
    requires node < |words| && EdgesBelow(words, node, edges) && Distinct(words)
    requires j < |edges| && k < |edges|
    requires if k >= 0 then edges[k].symbol == b else words[node] + [b] !in words
    ensures edges[j].symbol == b <==> j == k
  {
    assert EdgeSpells(words, edges[j]) && words[edges[j].child] in words;
    if k >= 0 && k != j {
      assert EdgeSpells(words, edges[k]);
      assert Children(edges)[j] != Children(edges)[k];
    }
  }

  lemma EdgeInAlphabet(patterns: seq<Word>, words: seq<Word>, e: Edge)
    requires TrieOf(patterns, words) && EdgeSpells(words, e)
    ensures InAlphabet(patterns, e.symbol)
  {
    var w := words[e.child];
    assert w in words && w != [];
    var i :| 0 <= i < |patterns| && w <= patterns[i];
    assert w[|w| - 1] == e.symbol == patterns[i][|w| - 1];
    assert patterns[i] in patterns && e.symbol in patterns[i];
  }

  // ---------------------------------------------------------------------------------------
  // Batches of in-place writes

  /** `s` after writing `vals[k]` at `at[k]` for the first `n` positions, in order. */
  ghost function Put<T>(s: seq<T>, at: seq<nat>, vals: seq<T>, n: nat): (r: seq<T>)
    requires n <= |at| == |vals| && forall k :: 0 <= k < |at| ==> at[k] < |s|
    ensures |r| == |s|
  {
    if n == 0 then s else Put(s, at, vals, n - 1)[at[n - 1] := vals[n - 1]]
  }

  /** Position `i` of a batch that writes it only at step `k`, or never when `k` is negative. */
  lemma {:induction false} PutAt<T>(s: seq<T>, at: seq<nat>, vals: seq<T>, n: nat, i: nat, k: int)
    requires n <= |at| == |vals| && (forall j :: 0 <= j < |at| ==> at[j] < |s|) && i < |s| && k < n
    requires forall j :: 0 <= j < n ==> (at[j] == i <==> j == k)
    ensures Put(s, at, vals, n)[i] == if k >= 0 then vals[k] else s[i]
  {
    if n > 0 && k != n - 1 {
      PutAt(s, at, vals, n - 1, i, k);
    }
  }

  lemma DistinctApart<T>(a: seq<T>, b: seq<T>)
    requires Distinct(a + b)
    ensures forall i :: 0 <= i < |a| ==> a[i] !in b
  {
    forall i, k | 0 <= i < |a| && 0 <= k < |b| ensures a[i] != b[k] {
      assert (a + b)[i] == a[i] && (a + b)[|a| + k] == b[k];
    }
  }

  /** The table columns of the edges. */
  ghost function Slots(symbols: seq<nat>, edges: seq<Edge>): seq<nat>
    requires |symbols| == 256
  {
    seq(|edges|, k requires 0 <= k < |edges| => symbols[edges[k].symbol])
  }

  // ---------------------------------------------------------------------------------------
  // The automaton over a trie

  /** The trie an automaton is built over, with its compact alphabet. */
  datatype Trie = Trie(patterns: seq<Word>, words: seq<Word>, symbols: seq<nat>, stride: nat) {

    ghost predicate Ok() {
      && TrieOf(patterns, words)
      && [] in WordSet(words)
      && SymbolsSeparate(patterns, symbols, stride)
    }

    /** Every node lists the ids of the patterns that end there. */
    ghost predicate OutputsRight(outputs: seq<seq<nat>>) {
      && |outputs| == |words|
      && forall n :: 0 <= n < |words| ==>
                       outputs[n] == if words[n] == [] then [] else IdsOf(patterns, words[n])
    }

    /** `row` answers every byte with the state the automaton must move to from node `n`. */
    ghost predicate RowRight(row: seq<nat>, n: nat)
      requires Ok()
    {
      && n < |words| && |row| == stride
      && forall b: byte :: StandsFor(words, row[symbols[b]], words[n] + [b])
    }

    ghost predicate LinkRight(failure: seq<nat>, dict: seq<int>, n: nat)
      requires Ok()
    {
      && 0 < n < |words| && n < |failure| && n < |dict|
      && words[n] != []
      && LinksRight(patterns, words, failure[n], dict[n], words[n])
    }

    /** What is settled once the first `head` queued nodes have been visited. */
    ghost predicate Settled(queue: seq<nat>, head: nat, failure: seq<nat>, dict: seq<int>, rows: seq<seq<nat>>)
      requires Ok()
    {
      && BreadthFirst(words, queue, head)
      && |failure| == |dict| == |rows| == |words|
      && dict[0] == -1
      && RowRight(rows[0], 0)
      && (forall i :: 0 <= i < head ==> RowRight(rows[queue[i]], queue[i]))
      && (forall i :: 0 <= i < |queue| ==> LinkRight(failure, dict, queue[i]))
    }

    /** The failure state of the head is the root or has been visited. */
    lemma FailureVisited(queue: seq<nat>, head: nat, failure: seq<nat>, dict: seq<int>, rows: seq<seq<nat>>)
      requires Ok() && head < |queue| && Settled(queue, head, failure, dict, rows)
      ensures failure[queue[head]] < |words| && failure[queue[head]] != queue[head]
      ensures StandsFor(words, failure[queue[head]], words[queue[head]][1..])
      ensures RowRight(rows[failure[queue[head]]], failure[queue[head]])
    {
      var f := failure[queue[head]];
      assert LinkRight(failure, dict, queue[head]);
      StandsForShorter(words, f, words[queue[head]][1..]);
      if f != 0 {
        ShallowVisited(patterns, words, queue, head, f);
        var i :| 0 <= i < head && queue[i] == f;
      }
    }

    // Rows

    /** The row of a visited node: the row of its failure state, overwritten by its children. */
    ghost function Visited(row: seq<nat>, edges: seq<Edge>): seq<nat>
      requires |symbols| == 256 && |row| == stride && forall b: byte :: symbols[b] < stride
    {
      Put(row, Slots(symbols, edges), Children(edges), |edges|)
    }

    lemma VisitedAt(row: seq<nat>, node: nat, edges: seq<Edge>, b: byte) returns (k: int)
      requires Ok() && |row| == stride && node < |words| && EdgesBelow(words, node, edges)
      ensures if k < 0 then words[node] + [b] !in words && Visited(row, edges)[symbols[b]] == row[symbols[b]]
              else k < |edges| && words[edges[k].child] == words[node] + [b]
                   && Visited(row, edges)[symbols[b]] == edges[k].child
    {
      k := EdgeOn(patterns, words, symbols, stride, node, edges, b);
      PutAt(row, Slots(symbols, edges), Children(edges), |edges|, symbols[b], k);
    }

    lemma RowVisited(row: seq<nat>, node: nat, failureState: nat, edges: seq<Edge>)
      requires Ok() && 0 < node < |words| && words[node] != [] && EdgesBelow(words, node, edges)
      requires StandsFor(words, failureState, words[node][1..]) && RowRight(row, failureState)
      ensures RowRight(Visited(row, edges), node)
    {
      var after := Visited(row, edges);
      forall b: byte ensures StandsFor(words, after[symbols[b]], words[node] + [b]) {
        RowVisitedAt(row, node, failureState, edges, b);
      }
    }

    lemma RowVisitedAt(row: seq<nat>, node: nat, failureState: nat, edges: seq<Edge>, b: byte)
      requires Ok() && 0 < node < |words| && words[node] != [] && EdgesBelow(words, node, edges)
      requires StandsFor(words, failureState, words[node][1..]) && RowRight(row, failureState)
      ensures StandsFor(words, Visited(row, edges)[symbols[b]], words[node] + [b])
    {
      var k := VisitedAt(row, node, edges, b);
      if k >= 0 {
        WordStandsForItself(words, edges[k].child);
      } else {
        CopiedMove(patterns, words, words[node], b, failureState, row[symbols[b]]);
      }
    }

    lemma RootRow(row: seq<nat>, edges: seq<Edge>)
      requires Ok() && EdgesBelow(words, 0, edges)
      requires |row| == stride && forall i :: 0 <= i < |row| ==> row[i] == 0
      ensures RowRight(Visited(row, edges), 0)
    {
      var after := Visited(row, edges);
      forall b: byte ensures StandsFor(words, after[symbols[b]], words[0] + [b]) {
        var k := VisitedAt(row, 0, edges, b);
        if k >= 0 {
          WordStandsForItself(words, edges[k].child);
        } else {
          assert words[0] + [b] == [b] && [b][1..] == [];
        }
      }
    }

    // Links

    /** A child's links are right once its failure state is the one its parent's failure state
        moves to, because that state is queued already. */
    lemma ChildLinked(queue: seq<nat>, head: nat, failureState: nat, edge: Edge, cf: nat,
                      outputs: seq<seq<nat>>, links: seq<int>)
      requires Ok() && OutputsRight(outputs) && head < |queue| && BreadthFirst(words, queue, head)
      requires EdgeSpells(words, edge) && edge.parent == queue[head] && |links| == |words|
      requires words[queue[head]] != [] && StandsFor(words, failureState, words[queue[head]][1..])
      requires StandsFor(words, cf, words[failureState] + [edge.symbol])
      requires links[0] == -1
      requires forall i :: 0 <= i < |queue| ==> DictFor(patterns, words, links[queue[i]], words[queue[i]][1..])
      ensures LinksRight(patterns, words, cf, DictThrough(outputs, links, cf), words[edge.child])
    {
      var w, b := words[queue[head]], edge.symbol;
      CopiedMove(patterns, words, w, b, failureState, cf);
      StandsForShorter(words, cf, w[1..] + [b]);
      if cf != 0 {
        ShallowVisited(patterns, words, queue, head, cf);
        var i :| 0 <= i < |queue| && queue[i] == cf;
      }
      ChildLinks(patterns, words, w, b, cf, outputs[cf], links[cf], DictThrough(outputs, links, cf));
    }

    /** `moves` are the states the failure state moves to on the edges, `links` the dictionary
        links that follow from them. */
    ghost predicate Planned(row: seq<nat>, edges: seq<Edge>, outputs: seq<seq<nat>>, dict: seq<int>,
                            moves: seq<nat>, links: seq<int>)
      requires |symbols| == 256 && |row| == stride && forall b: byte :: symbols[b] < stride
    {
      && |moves| == |links| == |edges| && |outputs| == |dict| == |words|
      && (forall k :: 0 <= k < |edges| ==> 0 < edges[k].child < |words|)
      && (forall k :: 0 <= k < |edges| ==> moves[k] < |words| && moves[k] == row[symbols[edges[k].symbol]])
      && (forall k :: 0 <= k < |edges| ==> links[k] == DictThrough(outputs, dict, moves[k]))
      && (forall j, k :: 0 <= j < |edges| && 0 <= k < |edges| ==> edges[j].child != moves[k])
    }

    /** The writes of a visit can be planned: no state it reads through is one of the children. */
    lemma Plan(node: nat, failureState: nat, row: seq<nat>, edges: seq<Edge>, outputs: seq<seq<nat>>, dict: seq<int>)
      returns (moves: seq<nat>, links: seq<int>)
      requires Ok() && 0 < node < |words| && words[node] != [] && EdgesBelow(words, node, edges)
      requires StandsFor(words, failureState, words[node][1..]) && RowRight(row, failureState)
      requires |outputs| == |dict| == |words|
      ensures Planned(row, edges, outputs, dict, moves, links)
      ensures forall k :: 0 <= k < |edges| ==> StandsFor(words, moves[k], words[failureState] + [edges[k].symbol])
    {
      moves := seq(|edges|, k requires 0 <= k < |edges| => row[symbols[edges[k].symbol]]);
      forall k | 0 <= k < |edges|
        ensures StandsFor(words, moves[k], words[failureState] + [edges[k].symbol])
        ensures |words[moves[k]]| <= |words[node]|
      {
        StandsForShorter(words, moves[k], words[failureState] + [edges[k].symbol]);
        StandsForShorter(words, failureState, words[node][1..]);
      }
      links := seq(|edges|, k requires 0 <= k < |edges| => DictThrough(outputs, dict, moves[k]));
      forall j, k | 0 <= j < |edges| && 0 <= k < |edges| ensures edges[j].child != moves[k] {
        assert EdgeSpells(words, edges[j]);
      }
    }

    /** The visit of the head on the links: only its children's links change. */
    ghost predicate LinksVisited(outputs: seq<seq<nat>>, edges: seq<Edge>, moves: seq<nat>,
                                 failure: seq<nat>, dict: seq<int>, failure': seq<nat>, dict': seq<int>)
    {
      && |failure| == |dict| == |failure'| == |dict'| == |outputs| == |words| && |moves| == |edges|
      && (forall k :: 0 <= k < |edges| ==> edges[k].child < |words| && moves[k] < |words|)
      && (forall k :: 0 <= k < |edges| ==> failure'[edges[k].child] == moves[k])
      && (forall k :: 0 <= k < |edges| ==> dict'[edges[k].child] == DictThrough(outputs, dict, moves[k]))
      && (forall n :: 0 <= n < |words| && n !in Children(edges) ==> failure'[n] == failure[n] && dict'[n] == dict[n])
    }

    lemma LinksWritten(outputs: seq<seq<nat>>, edges: seq<Edge>, moves: seq<nat>, links: seq<int>,
                       failure: seq<nat>, dict: seq<int>, failure': seq<nat>, dict': seq<int>)
      requires |failure| == |dict| == |outputs| == |words| && |moves| == |links| == |edges|
      requires forall k :: 0 <= k < |edges| ==> edges[k].child < |words| && moves[k] < |words|
      requires Distinct(Children(edges))
      requires forall k :: 0 <= k < |edges| ==> links[k] == DictThrough(outputs, dict, moves[k])
      requires failure' == Put(failure, Children(edges), moves, |edges|)
      requires dict' == Put(dict, Children(edges), links, |edges|)
      ensures LinksVisited(outputs, edges, moves, failure, dict, failure', dict')
    {
      var kids := Children(edges);
      forall k | 0 <= k < |edges|
        ensures failure'[edges[k].child] == moves[k] && dict'[edges[k].child] == links[k]
      {
        PutAt(failure, kids, moves, |edges|, kids[k], k);
        PutAt(dict, kids, links, |edges|, kids[k], k);
      }
      forall n | 0 <= n < |words| && n !in kids ensures failure'[n] == failure[n] && dict'[n] == dict[n] {
        PutAt(failure, kids, moves, |edges|, n, -1);
        PutAt(dict, kids, links, |edges|, n, -1);
      }
    }

    lemma LinksKept(queue: seq<nat>, edges: seq<Edge>, moves: seq<nat>, outputs: seq<seq<nat>>,
                    failure: seq<nat>, dict: seq<int>, failure': seq<nat>, dict': seq<int>)
      requires Ok() && NodeIds(words, queue + Children(edges)) && Distinct(queue + Children(edges))
      requires LinksVisited(outputs, edges, moves, failure, dict, failure', dict')
      requires dict[0] == -1 && forall i :: 0 <= i < |queue| ==> LinkRight(failure, dict, queue[i])
      ensures dict'[0] == -1
      ensures forall i :: 0 <= i < |queue| ==> LinkRight(failure', dict', queue[i])
    {
      DistinctApart(queue, Children(edges));
      forall k | 0 <= k < |edges| ensures edges[k].child != 0 {
        assert (queue + Children(edges))[|queue| + k] == edges[k].child;
      }
      forall i | 0 <= i < |queue| ensures LinkRight(failure', dict', queue[i]) {
        assert LinkRight(failure, dict, queue[i]);
      }
    }

    lemma ChildrenLinked(queue: seq<nat>, head: nat, failureState: nat, edges: seq<Edge>, moves: seq<nat>,
                         outputs: seq<seq<nat>>, failure: seq<nat>, dict: seq<int>, failure': seq<nat>, dict': seq<int>)
      requires Ok() && OutputsRight(outputs) && head < |queue| && BreadthFirst(words, queue, head)
      requires forall k :: 0 <= k < |edges| ==> EdgeSpells(words, edges[k]) && edges[k].parent == queue[head]
      requires failureState < |words| && StandsFor(words, failureState, words[queue[head]][1..])
      requires LinksVisited(outputs, edges, moves, failure, dict, failure', dict')
      requires forall k :: 0 <= k < |edges| ==> StandsFor(words, moves[k], words[failureState] + [edges[k].symbol])
      requires dict[0] == -1 && forall i :: 0 <= i < |queue| ==> LinkRight(failure, dict, queue[i])
      ensures forall k :: 0 <= k < |edges| ==> LinkRight(failure', dict', edges[k].child)
    {
      forall i | 0 <= i < |queue| ensures DictFor(patterns, words, dict[queue[i]], words[queue[i]][1..]) {
        assert LinkRight(failure, dict, queue[i]);
      }
      forall k | 0 <= k < |edges| ensures LinkRight(failure', dict', edges[k].child) {
        ChildLinked(queue, head, failureState, edges[k], moves[k], outputs, dict);
      }
    }

    lemma LinksOfBoth(queue: seq<nat>, edges: seq<Edge>, failure: seq<nat>, dict: seq<int>)
      requires Ok()
      requires forall i :: 0 <= i < |queue| ==> LinkRight(failure, dict, queue[i])
      requires forall k :: 0 <= k < |edges| ==> LinkRight(failure, dict, edges[k].child)
      ensures var q := queue + Children(edges); forall i :: 0 <= i < |q| ==> LinkRight(failure, dict, q[i])
    {
      var q := queue + Children(edges);
      forall i | 0 <= i < |q| ensures LinkRight(failure, dict, q[i]) {
        if i >= |queue| { assert q[i] == edges[i - |queue|].child; }
      }
    }

    // The breadth-first loop

    lemma SettledRows(queue: seq<nat>, head: nat, edges: seq<Edge>, failure: seq<nat>, dict: seq<int>,
                      rows: seq<seq<nat>>, rows': seq<seq<nat>>)
      requires Ok() && head < |queue| && Settled(queue, head, failure, dict, rows)
      requires EdgesBelow(words, queue[head], edges) && failure[queue[head]] < |words|
      requires |rows[failure[queue[head]]]| == stride
      requires rows' == rows[queue[head] := Visited(rows[failure[queue[head]]], edges)]
      ensures RowRight(rows'[0], 0)
      ensures forall i :: 0 <= i < head + 1 ==> RowRight(rows'[queue[i]], queue[i])
    {
      var node, f := queue[head], failure[queue[head]];
      FailureVisited(queue, head, failure, dict, rows);
      RowVisited(rows[f], node, f, edges);
    }

    lemma SettledLinks(queue: seq<nat>, head: nat, edges: seq<Edge>, moves: seq<nat>, outputs: seq<seq<nat>>,
                       failure: seq<nat>, dict: seq<int>, rows: seq<seq<nat>>, failure': seq<nat>, dict': seq<int>)
      requires Ok() && OutputsRight(outputs) && head < |queue| && Settled(queue, head, failure, dict, rows)
      requires BreadthFirst(words, queue + Children(edges), head + 1)
      requires forall k :: 0 <= k < |edges| ==> EdgeSpells(words, edges[k]) && edges[k].parent == queue[head]
      requires failure[queue[head]] < |words|
      requires LinksVisited(outputs, edges, moves, failure, dict, failure', dict')
      requires forall k :: 0 <= k < |edges| ==>
                 StandsFor(words, moves[k], words[failure[queue[head]]] + [edges[k].symbol])
      ensures dict'[0] == -1
      ensures var q := queue + Children(edges); forall i :: 0 <= i < |q| ==> LinkRight(failure', dict', q[i])
    {
      assert LinkRight(failure, dict, queue[head]);
      LinksKept(queue, edges, moves, outputs, failure, dict, failure', dict');
      ChildrenLinked(queue, head, failure[queue[head]], edges, moves, outputs, failure, dict, failure', dict');
      LinksOfBoth(queue, edges, failure', dict');
    }

    /** One turn of the breadth-first loop keeps the invariant. */
    lemma SettledNext(queue: seq<nat>, head: nat, edges: seq<Edge>, moves: seq<nat>, outputs: seq<seq<nat>>,
                      failure: seq<nat>, dict: seq<int>, rows: seq<seq<nat>>,
                      failure': seq<nat>, dict': seq<int>, rows': seq<seq<nat>>)
      requires Ok() && OutputsRight(outputs) && head < |queue| && Settled(queue, head, failure, dict, rows)
      requires EdgesBelow(words, queue[head], edges)
      requires failure[queue[head]] < |words| && |rows[failure[queue[head]]]| == stride
      requires rows' == rows[queue[head] := Visited(rows[failure[queue[head]]], edges)]
      requires LinksVisited(outputs, edges, moves, failure, dict, failure', dict')
      requires forall k :: 0 <= k < |edges| ==>
                 StandsFor(words, moves[k], words[failure[queue[head]]] + [edges[k].symbol])
      ensures Settled(queue + Children(edges), head + 1, failure', dict', rows')
    {
      HeadVisited(patterns, words, queue, head, Children(edges));
      SettledRows(queue, head, edges, failure, dict, rows, rows');
      SettledLinks(queue, head, edges, moves, outputs, failure, dict, rows, failure', dict');
      assert forall i :: 0 <= i < |queue| ==> (queue + Children(edges))[i] == queue[i];
    }

    /** Before the first visit: the root's row holds its children, whose links are trivial. */
    lemma RootSettled(edges: seq<Edge>, failure: seq<nat>, dict: seq<int>, rows: seq<seq<nat>>, rows': seq<seq<nat>>)
      requires Ok() && EdgesBelow(words, 0, edges)
      requires |failure| == |dict| == |rows| == |words|
      requires forall n :: 0 <= n < |words| ==> failure[n] == 0 && dict[n] == -1
      requires |rows[0]| == stride && forall i :: 0 <= i < stride ==> rows[0][i] == 0
      requires rows' == rows[0 := Visited(rows[0], edges)]
      ensures Settled(Children(edges), 0, failure, dict, rows')
    {
      RootQueued(patterns, words, Children(edges));
      RootRow(rows[0], edges);
      var kids := Children(edges);
      forall i | 0 <= i < |kids| ensures LinkRight(failure, dict, kids[i]) {
        RootChildLinked(failure, dict, edges[i]);
      }
    }

    lemma RootChildLinked(failure: seq<nat>, dict: seq<int>, e: Edge)
      requires Ok() && EdgeSpells(words, e) && e.parent == 0 && |failure| == |dict| == |words|
      requires failure[e.child] == 0 && dict[e.child] == -1
      ensures LinkRight(failure, dict, e.child)
    {
      assert words[e.child] == [e.symbol];
      assert words[e.child][1..] == [];
    }

    /** The finished tables. */
    ghost predicate Finished(outputs: seq<seq<nat>>, dict: seq<int>, rows: seq<seq<nat>>) {
      && Ok()
      && OutputsRight(outputs)
      && |rows| == |dict| == |words|
      && (forall n :: 0 <= n < |words| ==> RowRight(rows[n], n))
      && dict[0] == -1
      && forall n :: 0 < n < |words| ==> DictRight(dict[n], n)
    }

    ghost predicate DictRight(link: int, n: nat) {
      && 0 < n < |words| && words[n] != []
      && DictFor(patterns, words, link, words[n][1..])
    }

    /** When the queue is exhausted every row and every link is right. */
    lemma AllSettled(queue: seq<nat>, outputs: seq<seq<nat>>, failure: seq<nat>, dict: seq<int>, rows: seq<seq<nat>>)
      requires Ok() && OutputsRight(outputs) && Settled(queue, |queue|, failure, dict, rows)
      ensures Finished(outputs, dict, rows)
    {
      forall n | 0 < n < |words| ensures RowRight(rows[n], n) && DictRight(dict[n], n) {
        ShallowVisited(patterns, words, queue, |queue|, n);
        var i :| 0 <= i < |queue| && queue[i] == n;
        assert LinkRight(failure, dict, queue[i]);
      }
    }

    // Walking the finished automaton

    /** Reading one byte more: the new state stands for the longer input. */
    lemma Moved(row: seq<nat>, state: nat, s: Word, b: byte)
      requires Ok() && RowRight(row, state) && StandsFor(words, state, s)
      ensures StandsFor(words, row[symbols[b]], s + [b])
    {
      TrieOfClosed(patterns, words);
      LongestStep(WordSet(words), s, b);
    }

    /** What is still to be reported when the link cursor stands at `s`. */
    ghost function Remaining(s: int, end: nat): seq<Hit>
      requires s < |words|
    {
      if s <= 0 then [] else SuffixHits(patterns, words[s], end)
    }

    /** At a state, its own patterns come first and the dictionary link leads to all the rest. */
    lemma ChainStep(outputs: seq<seq<nat>>, dict: seq<int>, s: int, end: nat)
      requires OutputsRight(outputs) && 0 < s < |words| == |dict| && DictRight(dict[s], s)
      ensures -1 <= dict[s] < |words| && (dict[s] > 0 ==> |words[dict[s]]| < |words[s]|)
      ensures Remaining(s, end) == HitsAt(outputs[s], end) + Remaining(dict[s], end)
    {
      SuffixHitsNearest(patterns, words[s][1..], end);
    }

    /** The hits a state reports are the hits its input ends with. */
    lemma StateHits(state: nat, s: Word, end: nat)
      requires Ok() && StandsFor(words, state, s)
      ensures Remaining(state, end) == SuffixHits(patterns, s, end)
    {
      TrieOfClosed(patterns, words);
      SuffixHitsLongest(patterns, WordSet(words), s, end);
      assert words[state] == [] <==> state == 0;
    }

    lemma RootStandsForEmpty()
      requires Ok()
      ensures StandsFor(words, 0, [])
    {
    }
  }
}
