/** The matcher: in-place construction of the dense automaton, and the walks over it. */
module AcMatcher {
  import opened Bytes
  import opened AcSpec
  import opened AcTrie
  import opened AcAutomaton
  import opened AcTable

  /** A frozen automaton over a fixed pattern list. */
  class Matcher {
    ghost const trie: Trie
    const numPatterns: nat
    const patternsAt: array<seq<nat>>
    const failure: array<nat>
    const dictLink: array<int>
    const symbols: seq<nat>
    const table: Table

    ghost predicate Sized()
      reads table, table.cells
    {
      && symbols == trie.symbols && table.stride == trie.stride && table.count == |trie.words|
      && |symbols| == 256 && (forall b: byte :: symbols[b] < table.stride)
      && patternsAt.Length == failure.Length == dictLink.Length == |trie.words|
      && numPatterns == |trie.patterns|
      && table.cells != failure
      && table.Valid()
    }

    ghost predicate Settled(queue: seq<nat>, head: nat)
      requires trie.Ok()
      reads failure, dictLink, table
    {
      trie.Settled(queue, head, failure[..], dictLink[..], table.rows)
    }

    /** One child: its transition, and its links through the state its failure state moves to. */
    method AddChild(node: nat, failureState: nat, edge: Edge)
      requires Sized() && node < |trie.words| && failureState < |trie.words| && node != failureState
      requires 0 < edge.child < |trie.words|
      modifies failure, dictLink, table`rows, table.cells
      ensures Sized()
      ensures table.rows == SetCell(old(table.rows), node, symbols[edge.symbol], edge.child)
      ensures var cf := old(table.rows)[failureState][symbols[edge.symbol]];
              && cf < |trie.words|
              && failure[..] == old(failure[..])[edge.child := cf]
              && dictLink[..] == old(dictLink[..])[edge.child := DictThrough(patternsAt[..], old(dictLink[..]), cf)]
    {
      var symbol := symbols[edge.symbol];
      table.SetTransition(node, symbol, edge.child);
      var childFailure := table.Transition(failureState, symbol);
      failure[edge.child] := childFailure;
      if |patternsAt[childFailure]| > 0 {
        dictLink[edge.child] := childFailure;
      } else {
        dictLink[edge.child] := dictLink[childFailure];
      }
    }

    /** The body of the breadth-first loop for one node, as three batches of writes. */
    method FillAndLink(node: nat, failureState: nat, edges: seq<Edge>, ghost moves: seq<nat>, ghost links: seq<int>)
      returns (children: seq<nat>)
      requires Sized() && node < |trie.words| && failureState < |trie.words| && node != failureState
      requires trie.Planned(table.rows[failureState], edges, patternsAt[..], dictLink[..], moves, links)
      modifies failure, dictLink, table`rows, table.cells
      ensures Sized() && children == Children(edges)
      ensures table.rows == old(table.rows)[node := trie.Visited(old(table.rows)[failureState], edges)]
      ensures failure[..] == Put(old(failure[..]), children, moves, |edges|)
      ensures dictLink[..] == Put(old(dictLink[..]), children, links, |edges|)
    {
      ghost var rows0, failure0, dict0, outputs := table.rows, failure[..], dictLink[..], patternsAt[..];
      ghost var slots, kids := Slots(symbols, edges), Children(edges);
      table.CopyRow(node, failureState);
      children := [];
      for i := 0 to |edges|
        invariant Sized() && |children| == i && children <= kids
        invariant table.rows == rows0[node := Put(rows0[failureState], slots, kids, i)]
        invariant failure[..] == Put(failure0, kids, moves, i)
        invariant dictLink[..] == Put(dict0, kids, links, i)
      {
        PutAt(dict0, kids, links, i, moves[i], -1);
        AddChild(node, failureState, edges[i]);
        children := children + [edges[i].child];
      }
    }

    /** Visits the head of the queue: fills its row and links its children. */
    method VisitNode(queue: seq<nat>, head: nat, edges: seq<Edge>) returns (children: seq<nat>)
      requires Sized() && trie.Ok() && trie.OutputsRight(patternsAt[..])
      requires head < |queue| && Settled(queue, head)
      requires EdgesBelow(trie.words, queue[head], edges)
      modifies failure, dictLink, table`rows, table.cells
      ensures Sized() && children == Children(edges)
      ensures Settled(queue + children, head + 1)
    {
      var node := queue[head];
      ghost var failure0, dict0, rows0 := failure[..], dictLink[..], table.rows;
      trie.FailureVisited(queue, head, failure0, dict0, rows0);
      ghost var moves, links := trie.Plan(node, failure[node], table.rows[failure[node]], edges, patternsAt[..], dict0);
      children := FillAndLink(node, failure[node], edges, moves, links);
      trie.LinksWritten(patternsAt[..], edges, moves, links, failure0, dict0, failure[..], dictLink[..]);
      trie.SettledNext(queue, head, edges, moves, patternsAt[..], failure0, dict0, rows0,
                       failure[..], dictLink[..], table.rows);
    }

    /** Puts the root's children into its row and into the queue. */
    method FillRoot(rootEdges: seq<Edge>) returns (queue: seq<nat>)
      requires Sized() && 0 < |trie.words| && forall k :: 0 <= k < |rootEdges| ==> 0 < rootEdges[k].child < |trie.words|
      modifies table`rows, table.cells
      ensures Sized() && queue == Children(rootEdges)
      ensures table.rows == old(table.rows)[0 := trie.Visited(old(table.rows)[0], rootEdges)]
    {
      queue := [];
      ghost var rows0, slots, kids := table.rows, Slots(symbols, rootEdges), Children(rootEdges);
      for i := 0 to |rootEdges|
        invariant Sized() && |queue| == i && queue <= kids
        invariant table.rows == rows0[0 := Put(rows0[0], slots, kids, i)]
      {
        table.SetTransition(0, symbols[rootEdges[i].symbol], rootEdges[i].child);
        queue := queue + [rootEdges[i].child];
      }
    }

    method StartQueue(rootEdges: seq<Edge>) returns (queue: seq<nat>)
      requires Sized() && trie.Ok() && EdgesBelow(trie.words, 0, rootEdges)
      requires forall n :: 0 <= n < |trie.words| ==> failure[n] == 0 && dictLink[n] == -1
      requires forall c :: 0 <= c < table.stride ==> table.rows[0][c] == 0
      modifies table`rows, table.cells
      ensures Sized() && queue == Children(rootEdges)
      ensures Settled(queue, 0)
    {
      assert forall k :: 0 <= k < |rootEdges| ==> EdgeSpells(trie.words, rootEdges[k]);
      ghost var rows0 := table.rows;
      queue := FillRoot(rootEdges);
      trie.RootSettled(rootEdges, failure[..], dictLink[..], rows0, table.rows);
    }

    /** One turn of the breadth-first loop. */
    method VisitNext(queue: seq<nat>, head: nat, edges: seq<Edge>, edgeStart: seq<nat>, edgeCount: seq<nat>)
      returns (queue': seq<nat>)
      requires Sized() && trie.Ok() && trie.OutputsRight(patternsAt[..])
      requires RangesRight(trie.words, edges, edgeStart, edgeCount)
      requires head < |queue| && Settled(queue, head)
      modifies failure, dictLink, table`rows, table.cells
      ensures Sized() && head < |queue'| && |queue| <= |trie.words|
      ensures Settled(queue', head + 1)
    {
      var node := queue[head];
      HeadRange(trie.words, queue, head, edges, edgeStart, edgeCount);
      var children := VisitNode(queue, head, edges[edgeStart[node]..edgeStart[node] + edgeCount[node]]);
      queue' := queue + children;
    }

    /** Fills the automaton breadth-first. */
    method BuildDirect(edges: seq<Edge>, edgeStart: seq<nat>, edgeCount: seq<nat>)
      requires Sized() && trie.Ok() && trie.OutputsRight(patternsAt[..])
      requires RangesRight(trie.words, edges, edgeStart, edgeCount)
      requires forall n :: 0 <= n < |trie.words| ==> failure[n] == 0 && dictLink[n] == -1
      requires forall c :: 0 <= c < table.stride ==> table.rows[0][c] == 0
      modifies failure, dictLink, table`rows, table.cells
      ensures Valid()
    {
      var queue := StartQueue(edges[..edgeCount[0]]);
      var head := 0;
      while head < |queue|
        invariant head <= |queue| && Sized() && Settled(queue, head)
        decreases |trie.words| - head
      {
        queue := VisitNext(queue, head, edges, edgeStart, edgeCount);
        head := head + 1;
      }
      trie.AllSettled(queue, patternsAt[..], failure[..], dictLink[..], table.rows);
    }

    /** The finished automaton. */
    ghost predicate Valid()
      reads patternsAt, dictLink, table, table.cells
    {
      Sized() && trie.Finished(patternsAt[..], dictLink[..], table.rows)
    }

    /** Compiles patterns into an automaton. */
    constructor (patterns: seq<Word>)
      ensures Valid() && trie.patterns == patterns
      ensures fresh(patternsAt) && fresh(failure) && fresh(dictLink) && fresh(table) && fresh(table.cells)
    {
      var syms, width := CompactAlphabet(patterns);
      var edges, edgeStart, edgeCount, outputs, words := BuildTrie(patterns);
      var stateCount := outputs.Length;
      numPatterns, patternsAt, symbols := |patterns|, outputs, syms;
      failure := new nat[stateCount](_ => 0);
      dictLink := new int[stateCount](_ => -1);
      table := new Table(stateCount, width);
      trie := Trie(patterns, words, syms, width);
      new;
      BuildDirect(edges, edgeStart, edgeCount);
    }

    /** Reports, through the dictionary links, every pattern that ends at byte `end`. */
    method VisitState(state: nat, end: nat) returns (hits: seq<Hit>)
      requires Valid() && state < |trie.words|
      ensures hits == trie.Remaining(state, end)
    {
      hits := [];
      var s: int := state;
      while s > 0
        invariant -1 <= s < |trie.words|
        invariant hits + trie.Remaining(s, end) == trie.Remaining(state, end)
        decreases if s > 0 then |trie.words[s]| else 0
      {
        assert trie.DictRight(dictLink[s], s);
        trie.ChainStep(patternsAt[..], dictLink[..], s, end);
        ghost var here, rest := HitsAt(patternsAt[s], end), trie.Remaining(dictLink[s], end);
        ConcatAssoc(hits, here, rest);
        hits := VisitIds(patternsAt[s], end, hits);
        s := dictLink[s];
        if s < 0 { break; }
      }
      assert hits == trie.Remaining(state, end);
    }

    method Step(state: nat, data: Word, i: nat) returns (state': nat)
      requires Valid() && i < |data| && StandsFor(trie.words, state, data[..i])
      ensures StandsFor(trie.words, state', data[..i + 1])
    {
      state' := table.Transition(state, symbols[data[i]]);
      assert trie.RowRight(table.rows[state], state);
      trie.Moved(table.rows[state], state, data[..i], data[i]);
      assert data[..i] + [data[i]] == data[..i + 1];
    }

    /** Walks the data and reports every pattern occurrence. */
    method VisitHits(data: Word) returns (hits: seq<Hit>)
      requires Valid()
      ensures hits == AllHits(trie.patterns, data)
    {
      var state := 0;
      hits := [];
      trie.RootStandsForEmpty();
      for i := 0 to |data|
        invariant StandsFor(trie.words, state, data[..i])
        invariant hits == AllHits(trie.patterns, data[..i])
      {
        state := Step(state, data, i);
        var here := VisitState(state, i);
        trie.StateHits(state, data[..i + 1], i);
        AllHitsStep(trie.patterns, data, i);
        hits := hits + here;
      }
      assert data[..|data|] == data;
    }

    /** The de-duplicating form of `VisitState`: marks and appends the ids not seen before. */
    method WalkState(state: nat, ghost end: nat, seen: array<bool>, out0: seq<nat>) returns (out: seq<nat>)
      requires Valid() && state < |trie.words|
      modifies seen
      ensures Marks(seen[..], out) == RecordAll(old(Marks(seen[..], out0)), trie.Remaining(state, end))
    {
      out := out0;
      var s: int := state;
      ghost var m0, all := Marks(seen[..], out0), trie.Remaining(state, end);
      ghost var done: seq<Hit> := [];
      while s > 0
        invariant -1 <= s < |trie.words|
        invariant done + trie.Remaining(s, end) == all
        invariant Marks(seen[..], out) == RecordAll(m0, done)
        decreases if s > 0 then |trie.words[s]| else 0
      {
        assert trie.DictRight(dictLink[s], s);
        trie.ChainStep(patternsAt[..], dictLink[..], s, end);
        ghost var here, rest := HitsAt(patternsAt[s], end), trie.Remaining(dictLink[s], end);
        RecordChain(m0, done, here, rest);
        out := WalkIds(patternsAt[s], end, seen, out);
        done := done + here;
        s := dictLink[s];
        if s < 0 { break; }
      }
      assert done == all;
    }

    /** Appends every pattern id that appears in the data and is not marked in `seen`, and marks it. */
    method MatchInto(data: Word, seen: array<bool>, out0: seq<nat>) returns (out: seq<nat>)
      requires Valid()
      modifies seen
      ensures Marks(seen[..], out) == RecordAll(old(Marks(seen[..], out0)), AllHits(trie.patterns, data))
    {
      out := out0;
      var state := 0;
      ghost var m0 := Marks(seen[..], out0);
      trie.RootStandsForEmpty();
      for i := 0 to |data|
        invariant StandsFor(trie.words, state, data[..i])
        invariant Marks(seen[..], out) == RecordAll(m0, AllHits(trie.patterns, data[..i]))
      {
        state := Step(state, data, i);
        out := WalkState(state, i, seen, out);
        trie.StateHits(state, data[..i + 1], i);
        AllHitsStep(trie.patterns, data, i);
        RecordAllConcat(m0, AllHits(trie.patterns, data[..i]), SuffixHits(trie.patterns, data[..i + 1], i));
      }
      assert data[..|data|] == data;
    }

    /** Every id whose nonempty pattern occurs in the data, exactly once. */
    method Match(data: Word) returns (out: seq<nat>)
      requires Valid()
      ensures Distinct(out)
      ensures forall id :: id in out <==> OccursNonempty(trie.patterns, data, id)
    {
      ghost var unseen := seq(numPatterns, _ => false);
      MatchedIds(trie.patterns, data, unseen);
      out := [];
      if |data| > 0 {
        var seen := new bool[numPatterns](_ => false);
        assert seen[..] == unseen;
        out := MatchInto(data, seen, []);
      }
    }
  }

  method VisitIds(ids: seq<nat>, end: nat, hits0: seq<Hit>) returns (hits: seq<Hit>)
    ensures hits == hits0 + HitsAt(ids, end)
  {
    hits := hits0;
    for k := 0 to |ids|
      invariant hits == hits0 + HitsAt(ids, end)[..k]
    {
      hits := hits + [Hit(ids[k], end)];
    }
    assert HitsAt(ids, end)[..|ids|] == HitsAt(ids, end);
  }

  /** The inner loop over the patterns of one node. */
  method WalkIds(ids: seq<nat>, ghost end: nat, seen: array<bool>, out0: seq<nat>) returns (out: seq<nat>)
    modifies seen
    ensures Marks(seen[..], out) == RecordAll(old(Marks(seen[..], out0)), HitsAt(ids, end))
  {
    out := out0;
    ghost var m0, hits := Marks(seen[..], out0), HitsAt(ids, end);
    for k := 0 to |ids|
      invariant Marks(seen[..], out) == RecordAll(m0, hits[..k])
    {
      assert hits[..k + 1][..k] == hits[..k];
      var id := ids[k];
      if id < seen.Length && !seen[id] {
        seen[id] := true;
        out := out + [id];
      }
    }
    assert hits[..|ids|] == hits;
  }

  /** Both passes over the sorted patterns, and the sorted edge ranges. */
  method BuildTrie(patterns: seq<Word>)
    returns (edges: seq<Edge>, edgeStart: seq<nat>, edgeCount: seq<nat>, patternsAt: array<seq<nat>>,
             ghost words: seq<Word>)
    ensures fresh(patternsAt) && patternsAt.Length == |words|
    ensures TrieOf(patterns, words) && [] in WordSet(words)
    ensures RangesRight(words, edges, edgeStart, edgeCount)
    ensures forall n :: 0 <= n < |words| ==> patternsAt[n] == if words[n] == [] then [] else IdsOf(patterns, words[n])
  {
    var order := SortedOrder(patterns);
    var stateCount := CountStates(patterns, order);
    var built, counts;
    OrderedIsSorted(patterns, order);
    built, counts, patternsAt, words := BuildEdges(patterns, order, stateCount, Ordered(patterns, order));
    BuiltTrie(patterns, order, words, built, counts[..], patternsAt[..]);
    edges, edgeStart := SortAndRange(words, built, counts);
    edgeCount := counts[..];
  }

  /** Sorts the edges and addresses every node's children by a range. */
  method SortAndRange(ghost words: seq<Word>, built: seq<Edge>, edgeCount: array<nat>)
    returns (edges: seq<Edge>, edgeStart: seq<nat>)
    requires EdgesSpell(words, built) && Distinct(words) && edgeCount.Length == |words|
    requires forall n :: 0 <= n < edgeCount.Length ==> edgeCount[n] == CountParent(built, n)
    ensures RangesRight(words, edges, edgeStart, edgeCount[..])
  {
    edges := SortEdges(built);
    assert forall i :: 0 <= i < |edges| ==> edges[i] in edges;
    var start := EdgeRanges(edges, edgeCount[..]);
    edgeStart := start[..];
    BuiltIsTable(words, built, edges, edgeStart, edgeCount[..]);
    TableRanges(words, edges, edgeStart, edgeCount[..]);
  }

  /** What the builder has attached to the nodes are the outputs of a trie of the patterns. */
  lemma BuiltTrie(patterns: seq<Word>, order: seq<nat>, words: seq<Word>, edges: seq<Edge>,
                  edgeCount: seq<nat>, patternsAt: seq<seq<nat>>)
    requires IsOrder(patterns, order) && words == TrieWords(Ordered(patterns, order), |order|)
    requires Built(Ordered(patterns, order), order, |order|, words, edges, edgeCount, patternsAt)
    requires |patternsAt| == |words|
    ensures TrieOf(patterns, words) && [] in WordSet(words)
    ensures forall n :: 0 <= n < |words| ==> patternsAt[n] == if words[n] == [] then [] else IdsOf(patterns, words[n])
  {
    WordsOfPatterns(patterns, order);
    assert words[0] in words;
    forall n | 0 <= n < |words|
      ensures patternsAt[n] == if words[n] == [] then [] else IdsOf(patterns, words[n])
    {
      SelectedIsIdsOf(patterns, order, words[n]);
    }
  }
}
