/**
 * The graph construction in loader.py: the word-to-index map, the
 * neighbour ids of one word, the adjacency list of the whole dictionary,
 * and the two files save_graph writes.
 */
module Loader {
  import opened Results
  import opened LittleEndian
  import opened Graphs
  import opened GraphFile
  import opened Words
  import opened IndexMaps
  import opened Edits
  import Finder

  // ----- construct_dictionary_index -----

  /** The loop assigning each word its position; a repeated word keeps its last one. */
  method ConstructDictionaryIndex(dictionary: seq<string>) returns (m: map<string, nat>)
    ensures m == IndexOf(dictionary)
  {
    m := map[];
    for i := 0 to |dictionary|
      invariant m == IndexOf(dictionary[..i])
    {
      IndexOfStep(dictionary, i);
      m := m[dictionary[i] := i];
    }
    assert dictionary[..|dictionary|] == dictionary;
  }

  // ----- Sets of ids and sorted(set) -----

  /** The ids of those candidates of cs that are keys of idx. */
  function Ids(idx: map<string, nat>, cs: seq<string>): set<nat> {
    if cs == [] then {}
    else
      var last := cs[|cs| - 1];
      Ids(idx, cs[..|cs| - 1]) + if last in idx then {idx[last]} else {}
  }

  /** Each entry is smaller than every later one: Normalize.StrictlySorted, for ids. */
  predicate Increasing(r: seq<nat>) {
    forall i, j :: 0 <= i < j < |r| ==> r[i] < r[j]
  }

  /** The smallest id of a non-empty set: Normalize.Least, for ids. */
  ghost function Least(s: set<nat>): (m: nat)
    requires s != {}
    ensures m in s && forall x :: x in s ==> m <= x
    decreases s
  {
    var y :| y in s;
    if s == {y} then y
    else
      var m := Least(s - {y});
      assert forall x :: x in s && x != y ==> x in s - {y};
      if y < m then y else m
  }

  /** m is the smallest id of s. */
  predicate IsLeast(s: set<nat>, m: nat) {
    m in s && forall x :: x in s ==> m <= x
  }

  lemma LeastUnique(s: set<nat>)
    ensures forall a, b :: IsLeast(s, a) && IsLeast(s, b) ==> a == b
  {
  }

  /** sorted(s) for a set of ids. */
  function SortedIds(s: set<nat>): (r: seq<nat>)
    ensures Increasing(r)
    ensures forall v :: v in r <==> v in s
    ensures |r| == |s|
    decreases s
  {
    if s == {} then []
    else
      assert IsLeast(s, Least(s));
      LeastUnique(s);
      var m :| IsLeast(s, m);
      var rest := SortedIds(s - {m});
      assert forall k :: 0 <= k < |rest| ==> rest[k] in s - {m};
      ConsIncreasing(m, rest);
      [m] + rest
  }

  /** An id below every entry of an increasing list can go in front of it. */
  lemma ConsIncreasing(m: nat, rest: seq<nat>)
    requires Increasing(rest) && forall k :: 0 <= k < |rest| ==> m < rest[k]
    ensures Increasing([m] + rest)
  {
    var r := [m] + rest;
    forall i, j | 0 <= i < j < |r| ensures r[i] < r[j] {
      assert r[j] == rest[j - 1];
      if i > 0 {
        assert r[i] == rest[i - 1];
      }
    }
  }

  /** The sorted neighbour ids get_edit_distance_one_words returns for word. */
  function Neighbours(idx: map<string, nat>, word: string): seq<nat> {
    SortedIds(Ids(idx, Deletions(word)) + Ids(idx, Substitutions(word)) + Ids(idx, Insertions(word)))
  }

  // ----- Lemmas about Ids -----

  lemma IdsSnoc(idx: map<string, nat>, cs: seq<string>, x: string)
    ensures Ids(idx, cs + [x]) == Ids(idx, cs) + if x in idx then {idx[x]} else {}
  {
    assert (cs + [x])[..|cs|] == cs;
  }

  lemma {:induction false} IdsMembers(idx: map<string, nat>, cs: seq<string>, v: nat)
    ensures v in Ids(idx, cs) <==> exists c :: c in cs && c in idx && idx[c] == v
  {
    if cs != [] {
      var init, last := cs[..|cs| - 1], cs[|cs| - 1];
      IdsMembers(idx, init, v);
      assert cs == init + [last];
    }
  }

  /** One round of a generator loop: the candidate's id is added when it is a key. */
  lemma IdStep(idx: map<string, nat>, base: set<nat>, cs: seq<string>, x: string, before: set<nat>, after: set<nat>)
    requires before == base + Ids(idx, cs)
    requires after == before + if x in idx then {idx[x]} else {}
    ensures after == base + Ids(idx, cs + [x])
  {
    IdsSnoc(idx, cs, x);
  }

  lemma {:induction false} IdsAppend(idx: map<string, nat>, a: seq<string>, b: seq<string>)
    ensures Ids(idx, a + b) == Ids(idx, a) + Ids(idx, b)
    decreases |b|
  {
    if b == [] {
      assert a + b == a;
    } else {
      var init, last := b[..|b| - 1], b[|b| - 1];
      assert a + b == (a + init) + [last];
      assert b == init + [last];
      IdsSnoc(idx, a + init, last);
      IdsSnoc(idx, init, last);
      IdsAppend(idx, a, init);
    }
  }

  // ----- What get_edit_distance_one_words promises -----

  /** The neighbour ids increase strictly and are exactly the ids of the words one edit away. */
  lemma NeighboursSpec(idx: map<string, nat>, word: string)
    ensures Increasing(Neighbours(idx, word))
    ensures forall v :: v in Neighbours(idx, word) <==> exists c :: c in idx && idx[c] == v && OneEdit(word, c)
  {
    forall v ensures v in Neighbours(idx, word) <==> exists c :: c in idx && idx[c] == v && OneEdit(word, c) {
      IdsMembers(idx, Deletions(word), v);
      IdsMembers(idx, Substitutions(word), v);
      IdsMembers(idx, Insertions(word), v);
      forall c ensures (c in Deletions(word) || c in Substitutions(word) || c in Insertions(word)) <==> OneEdit(word, c) {
        InCandidates(word, c);
      }
    }
  }

  /** With the dictionary's own index map, every neighbour is a node and no word is its own neighbour. */
  lemma NeighboursOfDictionaryWord(dictionary: seq<string>, i: nat)
    requires i < |dictionary|
    ensures var r := Neighbours(IndexOf(dictionary), dictionary[i]);
      forall k :: 0 <= k < |r| ==> r[k] < |dictionary|
    ensures IndexOf(dictionary)[dictionary[i]] !in Neighbours(IndexOf(dictionary), dictionary[i])
    ensures i !in Neighbours(IndexOf(dictionary), dictionary[i])
  {
    var idx, w := IndexOf(dictionary), dictionary[i];
    NeighboursSpec(idx, w);
    var r := Neighbours(idx, w);
    if i in r {
      // The word with id i is w itself, and one edit never gives a word back.
      var c :| c in idx && idx[c] == i && OneEdit(w, c);
      assert w == c;
      OneEditChanges(w, c);
    }
    forall k | 0 <= k < |r| ensures r[k] < |dictionary| {
      assert r[k] in r;
      var c :| c in idx && idx[c] == r[k] && OneEdit(w, c);
    }
    if idx[w] in Neighbours(idx, w) {
      var c :| c in idx && idx[c] == idx[w] && OneEdit(w, c);
      OneEditChanges(w, c);
      IndexOfInjective(dictionary, c, w);
    }
  }

  /** A strictly increasing list of ids below n has at most n entries. */
  lemma {:induction false} IncreasingBounded(r: seq<nat>, n: nat)
    requires Increasing(r) && forall k :: 0 <= k < |r| ==> r[k] < n
    ensures |r| <= n
    decreases n
  {
    if r != [] {
      var init := r[..|r| - 1];
      assert forall k :: 0 <= k < |init| ==> init[k] < r[|r| - 1] < n;
      IncreasingBounded(init, n - 1);
    }
  }

  // ----- get_edit_distance_one_words -----

  /** The closure check_and_add: add the candidate's id when the candidate is a key. */
  method CheckAndAdd(idx: map<string, nat>, found: set<nat>, candidate: string) returns (found': set<nat>)
    ensures candidate in idx ==> found' == found + {idx[candidate]}
    ensures candidate !in idx ==> found' == found
  {
    found' := found;
    if candidate in idx {
      found' := found' + {idx[candidate]};
    }
  }

  /** The deletion loop. */
  method AddDeletions(idx: map<string, nat>, word: string, found: set<nat>) returns (found': set<nat>)
    ensures found' == found + Ids(idx, Deletions(word))
  {
    found' := found;
    for i := 0 to |word|
      invariant found' == found + Ids(idx, DeletionsUpTo(word, i))
    {
      ghost var prev := found';
      found' := CheckAndAdd(idx, found', Deletion(word, i));
      IdStep(idx, found, DeletionsUpTo(word, i), Deletion(word, i), prev, found');
    }
  }

  /**
   * One round of the substitution loop over the alphabet, which skips the
   * letter already at i. Suggestions.SubstitutionStep is the same step for
   * finder.py, which collects words into a list rather than ids into a set.
   */
  lemma SubstitutionStep(idx: map<string, nat>, base: set<nat>, w: string, i: nat, j: nat, before: set<nat>, after: set<nat>)
    requires i < |w| && j < 26
    requires before == base + Ids(idx, SubstitutionsAt(w, i, j))
    requires Alphabet[j] == w[i] ==> after == before
    requires Alphabet[j] != w[i] ==> var x := Substitution(w, i, Alphabet[j]);
      after == before + if x in idx then {idx[x]} else {}
    ensures after == base + Ids(idx, SubstitutionsAt(w, i, j + 1))
  {
    if Alphabet[j] != w[i] {
      IdStep(idx, base, SubstitutionsAt(w, i, j), Substitution(w, i, Alphabet[j]), before, after);
    } else {
      assert SubstitutionsAt(w, i, j + 1) == SubstitutionsAt(w, i, j);
    }
  }

  /** One round of the insertion loop over the alphabet; Suggestions.InsertionStep is its finder.py counterpart. */
  lemma InsertionStep(idx: map<string, nat>, base: set<nat>, w: string, i: nat, j: nat, before: set<nat>, after: set<nat>)
    requires i <= |w| && j < 26
    requires before == base + Ids(idx, InsertionsAt(w, i, j))
    requires var x := Insertion(w, i, Alphabet[j]);
      after == before + if x in idx then {idx[x]} else {}
    ensures after == base + Ids(idx, InsertionsAt(w, i, j + 1))
  {
    IdStep(idx, base, InsertionsAt(w, i, j), Insertion(w, i, Alphabet[j]), before, after);
  }

  /** The substitution loops: each position, then each letter a–z other than the one there. */
  method AddSubstitutions(idx: map<string, nat>, word: string, found: set<nat>) returns (found': set<nat>)
    ensures found' == found + Ids(idx, Substitutions(word))
  {
    found' := found;
    for i := 0 to |word|
      invariant found' == found + Ids(idx, SubstitutionsUpTo(word, i))
    {
      ghost var before := found';
      for j := 0 to 26
        invariant found' == before + Ids(idx, SubstitutionsAt(word, i, j))
      {
        ghost var prev := found';
        var c := Alphabet[j];
        if c != word[i] {
          found' := CheckAndAdd(idx, found', Substitution(word, i, c));
        }
        SubstitutionStep(idx, before, word, i, j, prev, found');
      }
      IdsAppend(idx, SubstitutionsUpTo(word, i), SubstitutionsAt(word, i, 26));
    }
  }

  /** The insertion loops: each position 0 .. |word|, then each letter a–z. */
  method AddInsertions(idx: map<string, nat>, word: string, found: set<nat>) returns (found': set<nat>)
    ensures found' == found + Ids(idx, Insertions(word))
  {
    found' := found;
    for i := 0 to |word| + 1
      invariant found' == found + Ids(idx, InsertionsUpTo(word, i))
    {
      ghost var before := found';
      for j := 0 to 26
        invariant found' == before + Ids(idx, InsertionsAt(word, i, j))
      {
        ghost var prev := found';
        found' := CheckAndAdd(idx, found', Insertion(word, i, Alphabet[j]));
        InsertionStep(idx, before, word, i, j, prev, found');
      }
      IdsAppend(idx, InsertionsUpTo(word, i), InsertionsAt(word, i, 26));
    }
  }

  /** get_edit_distance_one_words: deletions, substitutions and insertions, then sorted. */
  method GetEditDistanceOneWords(word: string, idx: map<string, nat>) returns (r: seq<nat>)
    ensures r == Neighbours(idx, word)
  {
    var found: set<nat> := {};
    found := AddDeletions(idx, word, found);
    found := AddSubstitutions(idx, word, found);
    found := AddInsertions(idx, word, found);
    assert {} + Ids(idx, Deletions(word)) == Ids(idx, Deletions(word));
    r := SortedIds(found);
  }

  // ----- construct_adjacency_list -----

  /** The adjacency list of the dictionary as a graph: node i holds the neighbour ids of word i. */
  function AdjacencyGraph(dictionary: seq<string>, idx: map<string, nat>): (g: Graph)
    ensures |g| == |dictionary|
  {
    seq(|dictionary|, i requires 0 <= i < |dictionary| => Neighbours(idx, dictionary[i]))
  }

  /** The loop filling entry i with the neighbours of the i-th word. */
  method ConstructAdjacencyList(dictionary: seq<string>, idx: map<string, nat>) returns (adj: map<nat, seq<nat>>)
    ensures forall i: nat :: i in adj <==> i < |dictionary|
    ensures |adj| == |dictionary|
    ensures forall i :: 0 <= i < |dictionary| ==> adj[i] == AdjacencyGraph(dictionary, idx)[i]
  {
    ghost var g := AdjacencyGraph(dictionary, idx);
    adj := map[];
    for i := 0 to |dictionary|
      invariant forall k: nat :: k in adj <==> k < i
      invariant |adj| == i
      invariant forall k :: 0 <= k < i ==> adj[k] == g[k]
    {
      var neighbors := GetEditDistanceOneWords(dictionary[i], idx);
      AdjacencyStep(adj, g, i, neighbors, adj[i := neighbors]);
      adj := adj[i := neighbors];
    }
  }

  /** Entry i of the adjacency list is filled after entries 0 .. i - 1. */
  lemma AdjacencyStep(adj: map<nat, seq<nat>>, g: Graph, i: nat, neighbors: seq<nat>, adj': map<nat, seq<nat>>)
    requires i < |g| && neighbors == g[i] && adj' == adj[i := neighbors]
    requires forall k: nat :: k in adj <==> k < i
    requires |adj| == i
    requires forall k :: 0 <= k < i ==> adj[k] == g[k]
    ensures forall k: nat :: k in adj' <==> k < i + 1
    ensures |adj'| == i + 1
    ensures forall k :: 0 <= k < i + 1 ==> adj'[k] == g[k]
  {
  }

  /** The dictionary's graph is a valid graph without self-loops whose lists increase strictly. */
  lemma AdjacencyValid(dictionary: seq<string>)
    ensures ValidGraph(AdjacencyGraph(dictionary, IndexOf(dictionary)))
    ensures forall i :: 0 <= i < |dictionary| ==> i !in AdjacencyGraph(dictionary, IndexOf(dictionary))[i]
    ensures forall i :: 0 <= i < |dictionary| ==> Increasing(AdjacencyGraph(dictionary, IndexOf(dictionary))[i])
  {
    var idx := IndexOf(dictionary);
    var g := AdjacencyGraph(dictionary, idx);
    forall i | 0 <= i < |dictionary|
      ensures (forall k :: 0 <= k < |g[i]| ==> g[i][k] < |g|) && Increasing(g[i])
      ensures i !in g[i]
    {
      assert g[i] == Neighbours(idx, dictionary[i]);
      NeighboursOfDictionaryWord(dictionary, i);
      NeighboursSpec(idx, dictionary[i]);
    }
  }

  /**
   * For a dictionary of distinct a–z words the graph is undirected: v is a
   * neighbour of u exactly when u is a neighbour of v.
   */
  lemma AdjacencySymmetric(dictionary: seq<string>, u: nat, v: nat)
    requires Distinct(dictionary) && forall k :: 0 <= k < |dictionary| ==> Lowercase(dictionary[k])
    requires u < |dictionary| && v < |dictionary|
    ensures var g := AdjacencyGraph(dictionary, IndexOf(dictionary));
      v in g[u] <==> u in g[v]
  {
    var g := AdjacencyGraph(dictionary, IndexOf(dictionary));
    if v in g[u] {
      EdgeReversed(dictionary, u, v);
    }
    if u in g[v] {
      EdgeReversed(dictionary, v, u);
    }
  }

  lemma EdgeReversed(dictionary: seq<string>, u: nat, v: nat)
    requires Distinct(dictionary) && forall k :: 0 <= k < |dictionary| ==> Lowercase(dictionary[k])
    requires u < |dictionary| && v < |dictionary|
    requires v in AdjacencyGraph(dictionary, IndexOf(dictionary))[u]
    ensures u in AdjacencyGraph(dictionary, IndexOf(dictionary))[v]
  {
    var idx := IndexOf(dictionary);
    NeighboursSpec(idx, dictionary[u]);
    NeighboursSpec(idx, dictionary[v]);
    var c :| c in idx && idx[c] == v && OneEdit(dictionary[u], c);
    IndexOfDistinct(dictionary, v);
    IndexOfDistinct(dictionary, u);
    assert c == dictionary[v];
    OneEditSymmetric(dictionary[u], dictionary[v]);
  }

  // ----- save_graph -----

  /** The lists save_graph writes: entry i of adj, or the empty list a defaultdict yields for a missing key. */
  function ListsOf(adj: map<nat, seq<nat>>): (g: Graph)
    ensures |g| == |adj|
    ensures forall i :: 0 <= i < |g| ==> g[i] == if i in adj then adj[i] else []
  {
    seq(|adj|, i requires 0 <= i < |adj| => if i in adj then adj[i] else [])
  }

  /** The map construct_adjacency_list returns writes the dictionary's graph. */
  lemma ListsOfAdjacency(dictionary: seq<string>, idx: map<string, nat>, adj: map<nat, seq<nat>>)
    requires forall i: nat :: i in adj <==> i < |dictionary|
    requires |adj| == |dictionary|
    requires forall i :: 0 <= i < |dictionary| ==> adj[i] == Neighbours(idx, dictionary[i])
    ensures ListsOf(adj) == AdjacencyGraph(dictionary, idx)
  {
  }

  /** The first half of save_graph: words.txt holds each word on its own line. */
  method SaveWords(dictionary: seq<string>) returns (wordsText: string)
    ensures wordsText == WordsFile(dictionary)
  {
    wordsText := [];
    for i := 0 to |dictionary|
      invariant wordsText == WordsFile(dictionary[..i])
    {
      assert dictionary[..i + 1][..i] == dictionary[..i];
      wordsText := wordsText + dictionary[i] + "\n";
    }
    assert dictionary[..|dictionary|] == dictionary;
  }

  /**
   * The second half of save_graph: graph.bin holds the node count, then
   * every node's neighbour count and neighbour ids, all as little-endian
   * uint32 values.
   */
  method SaveAdjacency(adjList: map<nat, seq<nat>>) returns (graphBytes: seq<uint8>)
    requires Fits(ListsOf(adjList))
    ensures graphBytes == Encode(ListsOf(adjList))
  {
    ghost var lists := ListsOf(adjList);
    graphBytes := U32Bytes(|adjList|);
    for idx := 0 to |adjList|
      invariant graphBytes == U32Bytes(|adjList|) + EncodeLists(lists[..idx])
    {
      var neighbors := if idx in adjList then adjList[idx] else [];
      ghost var prev := graphBytes;
      graphBytes := graphBytes + U32Bytes(|neighbors|);
      graphBytes := graphBytes + EncodeIds(neighbors);
      SaveStep(lists, idx, neighbors, U32Bytes(|adjList|), prev, graphBytes);
    }
    assert lists[..|adjList|] == lists;
  }

  /** One round of the node loop: the next node's list is appended to the bytes written so far. */
  lemma SaveStep(lists: Graph, idx: nat, neighbors: seq<nat>, header: seq<uint8>, prev: seq<uint8>, next: seq<uint8>)
    requires Fits(lists) && idx < |lists| && neighbors == lists[idx]
    requires prev == header + EncodeLists(lists[..idx])
    requires next == prev + U32Bytes(|neighbors|) + EncodeIds(neighbors)
    ensures next == header + EncodeLists(lists[..idx + 1])
  {
    var done := lists[..idx];
    assert lists[..idx + 1] == done + [neighbors];
    assert ListsFit(done) && |neighbors| < U32_BOUND && IdsFit(neighbors);
    EncodeListsSnoc(done, neighbors);
    var u, e := U32Bytes(|neighbors|), EncodeIds(neighbors);
    assert EncodeList(neighbors) == u + e;
    Regroup(header, EncodeLists(done), u, e);
  }

  /** Associativity of four appends, kept out of SaveStep, where the encoding lemmas in scope make it expensive. */
  lemma Regroup(a: seq<uint8>, b: seq<uint8>, c: seq<uint8>, d: seq<uint8>)
    ensures a + b + c + d == a + (b + (c + d))
  {
  }

  /** save_graph: the two files written for the dictionary and its adjacency list. */
  method SaveGraph(dictionary: seq<string>, adjList: map<nat, seq<nat>>) returns (wordsText: string, graphBytes: seq<uint8>)
    requires Fits(ListsOf(adjList))
    ensures wordsText == WordsFile(dictionary)
    ensures graphBytes == Encode(ListsOf(adjList))
  {
    wordsText := SaveWords(dictionary);
    graphBytes := SaveAdjacency(adjList);
  }

  // ----- From loader.py to finder.cpp -----

  /** For fewer than 2^32 words the dictionary's graph can be written: every count and id fits a uint32 field. */
  lemma AdjacencyFits(dictionary: seq<string>)
    requires |dictionary| < U32_BOUND
    ensures Fits(AdjacencyGraph(dictionary, IndexOf(dictionary)))
    ensures ValidGraph(AdjacencyGraph(dictionary, IndexOf(dictionary)))
  {
    var g := AdjacencyGraph(dictionary, IndexOf(dictionary));
    AdjacencyValid(dictionary);
    forall i | 0 <= i < |g| ensures |g[i]| < U32_BOUND && IdsFit(g[i]) {
      IncreasingBounded(g[i], |dictionary|);
    }
  }

  /**
   * The files written for a dictionary of at most 2^32 - 1 words, each a
   * non-empty run without whitespace, are what FindPath needs: the word
   * list reads back as the dictionary, the graph decodes, its ids are
   * nodes, and there is one node per word.
   */
  lemma SavedFilesAgree(dictionary: seq<string>)
    requires |dictionary| < U32_BOUND
    requires forall k :: 0 <= k < |dictionary| ==> IsWord(dictionary[k])
    ensures var g := AdjacencyGraph(dictionary, IndexOf(dictionary));
      && Fits(g)
      && Decode(Encode(g)) == Ok(g)
      && Tokens(WordsFile(dictionary)) == dictionary
      && Finder.FilesAgree(WordsFile(dictionary), Encode(g))
  {
    var g := AdjacencyGraph(dictionary, IndexOf(dictionary));
    AdjacencyFits(dictionary);
    DecodeEncode(g, []);
    assert Encode(g) + [] == Encode(g);
    WordsFileRoundTrip(dictionary);
  }
}
