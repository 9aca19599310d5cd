/**
 * FindPath in finder.cpp: load the word list and the graph, map the two
 * words to their node ids, search, and translate the ids of the path back
 * to words. The two files are passed in as their contents.
 */
module Finder {
  import opened Results
  import opened Graphs
  import opened Search
  import opened Words
  import opened IndexMaps
  import opened LittleEndian
  import opened GraphFile

  /**
   * path is what a word ladder query returns, ids the node ids behind it:
   * path[k] is the word of node ids[k]; the ids are empty when a word is
   * not in the list, and otherwise form a shortest path between the two
   * words' nodes, which exists exactly when the words differ and the end
   * node is reachable.
   */
  ghost predicate Answer(words: seq<string>, g: Graph, start: string, end: string, path: seq<string>, ids: seq<nat>) {
    && |path| == |ids|
    && (forall k :: 0 <= k < |ids| ==> ids[k] < |words| && path[k] == words[ids[k]])
    && if start in words && end in words then
         var s, e := IndexOf(words)[start], IndexOf(words)[end];
         && (ids != [] <==> start != end && Reachable(g, s, e))
         && (ids != [] ==> ShortestPath(g, ids, s, e))
       else ids == []
  }

  /** What the input files must satisfy for the lookups the source leaves unchecked: ids within the graph, one word per node. */
  ghost predicate FilesAgree(wordsText: string, graphBytes: seq<uint8>) {
    Decode(graphBytes).Ok? ==>
      ValidGraph(Decode(graphBytes).value) && |Decode(graphBytes).value| == |Tokens(wordsText)|
  }

  // ----- Lemmas -----

  /** A non-empty answer runs from the start word to the end word, each step along an edge. */
  lemma AnswerIsLadder(words: seq<string>, g: Graph, start: string, end: string, path: seq<string>, ids: seq<nat>)
    requires Answer(words, g, start, end, path, ids)
    ensures path != [] ==> path[0] == start && path[|path| - 1] == end
    ensures forall k :: 0 <= k < |path| - 1 ==> ids[k + 1] in g[ids[k]]
  {
  }

  /** Asking for a ladder from a word to itself gives the empty answer. */
  lemma SameWordIsEmpty(words: seq<string>, g: Graph, w: string, path: seq<string>, ids: seq<nat>)
    requires Answer(words, g, w, w, path, ids)
    ensures path == []
  {
  }

  // ----- finder.cpp: FindPath -----

  /** The part of FindPath after loading: index map, endpoint check, search and translation. */
  method PathBetween(words: seq<string>, adjacencyList: Graph, start: string, end: string)
    returns (path: seq<string>, ghost ids: seq<nat>)
    requires ValidGraph(adjacencyList) && |adjacencyList| == |words|
    ensures Answer(words, adjacencyList, start, end, path, ids)
  {
    var wordToIndex: map<string, nat> := map[];
    for i := 0 to |words|
      invariant wordToIndex == IndexOf(words[..i])
    {
      IndexOfStep(words, i);
      wordToIndex := wordToIndex[words[i] := i];
    }
    assert words[..|words|] == words;

    if start !in wordToIndex || end !in wordToIndex {
      return [], [];
    }
    var startIndex := wordToIndex[start];
    var endIndex := wordToIndex[end];

    var pathIndices := Bfs(startIndex, endIndex, adjacencyList);

    path := [];
    for k := 0 to |pathIndices|
      invariant |path| == k
      invariant forall m :: 0 <= m < k ==> path[m] == words[pathIndices[m]]
    {
      path := path + [words[pathIndices[k]]];
    }
    ids := pathIndices;
  }

  /**
   * FindPath over the contents of words.txt and graph.bin. A graph file that
   * ends early is reported as Malformed; nothing else can fail.
   */
  method FindPath(wordsText: string, graphBytes: seq<uint8>, start: string, end: string)
    returns (r: Result<seq<string>>, ghost ids: seq<nat>)
    requires FilesAgree(wordsText, graphBytes)
    ensures r.Err? <==> Decode(graphBytes).Err?
    ensures r.Ok? ==> Answer(Tokens(wordsText), Decode(graphBytes).value, start, end, r.value, ids)
  {
    var words := LoadWords(wordsText);
    var loaded := LoadAdjacencyList(graphBytes);
    match loaded {
      case Err(e) =>
        return Err(e), [];
      case Ok(adjacencyList) =>
        var path;
        path, ids := PathBetween(words, adjacencyList, start, end);
        return Ok(path), ids;
    }
  }
}
