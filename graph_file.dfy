/**
 * The binary graph file: a little-endian uint32 node count, then for each
 * node a uint32 neighbour count followed by that many uint32 neighbour ids.
 * save_graph in loader.py writes it and LoadAdjacencyList in finder.cpp
 * reads it; Encode and Decode below are the two directions, and the lemmas
 * show that each undoes the other.
 */
module GraphFile {
  import opened Results
  import opened Graphs
  import opened LittleEndian

  /** Every id in ids fits a uint32 field. */
  ghost predicate IdsFit(ids: seq<nat>) {
    forall k :: 0 <= k < |ids| ==> ids[k] < U32_BOUND
  }

  /** Every list of g can be written: its length and its ids fit uint32 fields. */
  ghost predicate ListsFit(g: Graph) {
    forall i :: 0 <= i < |g| ==> |g[i]| < U32_BOUND && IdsFit(g[i])
  }

  /** The whole graph can be written, node count included. */
  ghost predicate Fits(g: Graph) {
    |g| < U32_BOUND && ListsFit(g)
  }

  /** Sum of the neighbour counts. */
  function Degrees(g: Graph): nat {
    if g == [] then 0 else |g[0]| + Degrees(g[1..])
  }

  function EncodeIds(ids: seq<nat>): (b: seq<uint8>)
    requires IdsFit(ids)
    ensures |b| == 4 * |ids|
  {
    if ids == [] then [] else U32Bytes(ids[0]) + EncodeIds(ids[1..])
  }

  /** One node's record: its neighbour count, then its neighbour ids. */
  function EncodeList(ids: seq<nat>): (b: seq<uint8>)
    requires |ids| < U32_BOUND && IdsFit(ids)
    ensures |b| == 4 * (1 + |ids|)
  {
    U32Bytes(|ids|) + EncodeIds(ids)
  }

  function EncodeLists(g: Graph): (b: seq<uint8>)
    requires ListsFit(g)
    ensures |b| == 4 * (|g| + Degrees(g))
  {
    if g == [] then [] else EncodeList(g[0]) + EncodeLists(g[1..])
  }

  /** The file contents save_graph writes for the lists g. */
  function Encode(g: Graph): seq<uint8>
    requires Fits(g)
  {
    U32Bytes(|g|) + EncodeLists(g)
  }

  /** The k uint32 values at the front of b. */
  function DecodeIds(b: seq<uint8>, k: nat): (ids: seq<nat>)
    requires 4 * k <= |b|
    ensures |ids| == k
    decreases k
  {
    if k == 0 then [] else [U32At(b, 0)] + DecodeIds(b[4..], k - 1)
  }

  /**
   * Reads one node record from the front of b: its neighbour ids and the
   * bytes after the record, or None when b ends before the record does.
   */
  function DecodeList(b: seq<uint8>): (r: Option<(seq<nat>, seq<uint8>)>)
    ensures r.Some? ==> |r.value.1| < |b|
  {
    if |b| < 4 then None
    else
      var k := U32At(b, 0);
      if |b| < 4 + 4 * k then None
      else Some((DecodeIds(b[4..], k), b[4 + 4 * k..]))
  }

  /**
   * Reads count node records from the front of b: the lists read and the
   * bytes left after them, or None when b ends before a record does.
   */
  function DecodeLists(b: seq<uint8>, count: nat): (r: Option<(Graph, seq<uint8>)>)
    ensures r.Some? ==> |r.value.0| == count && |r.value.1| <= |b|
    decreases count
  {
    if count == 0 then Some(([], b))
    else
      match DecodeList(b)
      case None => None
      case Some(first) =>
        match DecodeLists(first.1, count - 1)
        case None => None
        case Some(others) => Some(([first.0] + others.0, others.1))
  }

  /** The adjacency lists stored in b, or Malformed when b is shorter than the structure it declares. */
  function Decode(b: seq<uint8>): Result<Graph> {
    if |b| < 4 then Err(Malformed)
    else
      match DecodeLists(b[4..], U32At(b, 0))
      case None => Err(Malformed)
      case Some(r) => Ok(r.0)
  }

  /** The lists pre followed by what r read, if r read anything. */
  function Prepend(pre: Graph, r: Option<(Graph, seq<uint8>)>): Option<(Graph, seq<uint8>)> {
    match r
    case None => None
    case Some(x) => Some((pre + x.0, x.1))
  }

  // ----- Lemmas -----

  /** The bytes left after reading one record are the end of the input. */
  lemma DecodeListRest(b: seq<uint8>)
    ensures DecodeList(b).Some? ==> DecodeList(b).value.1 == b[|b| - |DecodeList(b).value.1|..]
  {
  }

  /** The bytes left after reading count records are the end of the input. */
  lemma {:induction false} DecodeListsRest(b: seq<uint8>, count: nat)
    ensures DecodeLists(b, count).Some? ==> DecodeLists(b, count).value.1 == b[|b| - |DecodeLists(b, count).value.1|..]
    decreases count
  {
    if count > 0 && DecodeLists(b, count).Some? {
      var first := DecodeList(b).value;
      DecodeListRest(b);
      DecodeListsRest(first.1, count - 1);
      var rest := DecodeLists(first.1, count - 1).value.1;
      assert first.1[|first.1| - |rest|..] == b[|b| - |rest|..];
    }
  }

  /** The ids read are the little-endian values of consecutive four-byte groups. */
  lemma {:induction false} DecodeIdsAt(b: seq<uint8>, k: nat, j: nat)
    requires 4 * k <= |b| && j < k
    ensures DecodeIds(b, k)[j] == U32At(b, 4 * j)
    decreases k
  {
    if j > 0 {
      DecodeIdsAt(b[4..], k - 1, j - 1);
    }
  }

  lemma {:induction false} DecodeEncodedIds(ids: seq<nat>, rest: seq<uint8>)
    requires IdsFit(ids)
    ensures DecodeIds(EncodeIds(ids) + rest, |ids|) == ids
    decreases |ids|
  {
    if ids != [] {
      var b := EncodeIds(ids) + rest;
      assert b == U32Bytes(ids[0]) + (EncodeIds(ids[1..]) + rest);
      U32RoundTrip(ids[0], EncodeIds(ids[1..]) + rest);
      assert b[4..] == EncodeIds(ids[1..]) + rest;
      DecodeEncodedIds(ids[1..], rest);
    }
  }

  lemma {:induction false} EncodeDecodedIds(b: seq<uint8>, k: nat)
    requires 4 * k <= |b|
    ensures IdsFit(DecodeIds(b, k))
    ensures EncodeIds(DecodeIds(b, k)) == b[..4 * k]
    decreases k
  {
    if k > 0 {
      EncodeDecodedIds(b[4..], k - 1);
      U32BytesOfRead(b);
      var ids := DecodeIds(b, k);
      assert ids[1..] == DecodeIds(b[4..], k - 1);
      assert b[..4 * k] == b[..4] + b[4..][..4 * (k - 1)];
    }
  }

  /** Reading the record written for ids gives back ids and whatever followed it. */
  lemma DecodeEncodedList(ids: seq<nat>, rest: seq<uint8>)
    requires |ids| < U32_BOUND && IdsFit(ids)
    ensures DecodeList(EncodeList(ids) + rest) == Some((ids, rest))
  {
    var b := EncodeList(ids) + rest;
    assert b == U32Bytes(|ids|) + (EncodeIds(ids) + rest);
    U32RoundTrip(|ids|, EncodeIds(ids) + rest);
    assert b[4..] == EncodeIds(ids) + rest;
    DecodeEncodedIds(ids, rest);
  }

  /** Whatever DecodeList reads can be written, and writing it reproduces exactly the bytes it consumed. */
  lemma EncodeDecodedList(b: seq<uint8>)
    requires DecodeList(b).Some?
    ensures var (ids, rest) := DecodeList(b).value;
      |ids| < U32_BOUND && IdsFit(ids) && EncodeList(ids) + rest == b
  {
    var k := U32At(b, 0);
    EncodeDecodedIds(b[4..], k);
    U32BytesOfRead(b);
    assert b == b[..4] + b[4..][..4 * k] + b[4 + 4 * k..];
  }

  /** Reading the records written for g gives back g and whatever followed them. */
  lemma {:induction false} DecodeEncodedLists(g: Graph, rest: seq<uint8>)
    requires ListsFit(g)
    ensures DecodeLists(EncodeLists(g) + rest, |g|) == Some((g, rest))
    decreases |g|
  {
    if g != [] {
      var b := EncodeLists(g) + rest;
      var after := EncodeLists(g[1..]) + rest;
      assert b == EncodeList(g[0]) + after;
      DecodeEncodedList(g[0], after);
      assert DecodeList(b) == Some((g[0], after));
      DecodeEncodedLists(g[1..], rest);
      assert [g[0]] + g[1..] == g;
      assert DecodeLists(b, |g|) == Some(([g[0]] + g[1..], rest));
    } else {
      assert EncodeLists(g) + rest == rest;
    }
  }

  /** Whatever DecodeLists reads can be written, and writing it reproduces exactly the bytes it consumed. */
  lemma {:induction false} EncodeDecodedLists(b: seq<uint8>, count: nat)
    requires DecodeLists(b, count).Some?
    ensures var (g, rest) := DecodeLists(b, count).value;
      ListsFit(g) && EncodeLists(g) + rest == b
    decreases count
  {
    if count > 0 {
      var first := DecodeList(b).value;
      var others := DecodeLists(first.1, count - 1).value;
      EncodeDecodedList(b);
      EncodeDecodedLists(first.1, count - 1);
      assert EncodeList(first.0) + first.1 == b;
      ConsLists(first.0, others.0, others.1, b);
      assert DecodeLists(b, count).value == ([first.0] + others.0, others.1);
    } else {
      assert EncodeLists([]) + b == b;
    }
  }

  /** Writing a list in front of others writes its record in front of theirs. */
  lemma ConsLists(x: seq<nat>, tail: Graph, rest: seq<uint8>, b: seq<uint8>)
    requires |x| < U32_BOUND && IdsFit(x) && ListsFit(tail)
    requires EncodeList(x) + (EncodeLists(tail) + rest) == b
    ensures ListsFit([x] + tail) && EncodeLists([x] + tail) + rest == b
  {
    var g := [x] + tail;
    assert g[0] == x && g[1..] == tail;
    assert EncodeLists(g) == EncodeList(x) + EncodeLists(tail);
  }

  /** Round trip: decoding a written graph, with any bytes after it, gives the graph back. */
  lemma DecodeEncode(g: Graph, trailing: seq<uint8>)
    requires Fits(g)
    ensures Decode(Encode(g) + trailing) == Ok(g)
  {
    var b := Encode(g) + trailing;
    assert b == U32Bytes(|g|) + (EncodeLists(g) + trailing);
    U32RoundTrip(|g|, EncodeLists(g) + trailing);
    assert b[4..] == EncodeLists(g) + trailing;
    DecodeEncodedLists(g, trailing);
  }

  /**
   * What the decoder accepts is a written graph: its header is the number of
   * lists, and writing the lists again reproduces the prefix of b that was
   * read; the bytes after it are ignored.
   */
  lemma EncodeDecode(b: seq<uint8>)
    requires Decode(b).Ok?
    ensures var g := Decode(b).value;
      Fits(g) && |g| == U32At(b, 0) && Encode(g) <= b
  {
    var n := U32At(b, 0);
    var r := DecodeLists(b[4..], n).value;
    assert Decode(b).value == r.0;
    EncodeDecodedLists(b[4..], n);
    U32BytesOfRead(b);
    assert b == U32Bytes(n) + (EncodeLists(r.0) + r.1) by {
      assert b == b[..4] + b[4..];
    }
    assert b == (U32Bytes(n) + EncodeLists(r.0)) + r.1;
  }

  /** Bytes appended after a readable file change nothing. */
  lemma TrailingBytesIgnored(b: seq<uint8>, trailing: seq<uint8>)
    requires Decode(b).Ok?
    ensures Decode(b + trailing) == Decode(b)
  {
    var g := Decode(b).value;
    EncodeDecode(b);
    var n := |Encode(g)|;
    assert b + trailing == Encode(g) + (b[n..] + trailing);
    DecodeEncode(g, b[n..] + trailing);
  }

  /** The decoder fails exactly when no written graph is a prefix of b. */
  lemma MalformedExactly(b: seq<uint8>)
    ensures Decode(b).Err? <==> !exists g :: Fits(g) && Encode(g) <= b
  {
    if Decode(b).Ok? {
      EncodeDecode(b);
    } else {
      forall g | Fits(g) && Encode(g) <= b ensures false {
        assert Encode(g) + b[|Encode(g)|..] == b;
        DecodeEncode(g, b[|Encode(g)|..]);
      }
    }
  }

  /** Writing one more list appends its record. */
  lemma {:induction false} EncodeListsSnoc(g: Graph, x: seq<nat>)
    requires ListsFit(g) && |x| < U32_BOUND && IdsFit(x)
    ensures ListsFit(g + [x])
    ensures EncodeLists(g + [x]) == EncodeLists(g) + EncodeList(x)
    decreases |g|
  {
    if g == [] {
      assert [] + [x] == [x];
      assert [x][1..] == [];
    } else {
      assert (g + [x])[0] == g[0];
      assert (g + [x])[1..] == g[1..] + [x];
      EncodeListsSnoc(g[1..], x);
    }
  }

  /** The file for g holds 4 * (1 + |g| + the sum of the neighbour counts) bytes. */
  lemma EncodedSize(g: Graph)
    requires Fits(g)
    ensures |Encode(g)| == 4 * (1 + |g| + Degrees(g))
  {
  }

  /** Prepending no lists changes nothing. */
  lemma PrependNothing(r: Option<(Graph, seq<uint8>)>)
    ensures Prepend([], r) == r
  {
    match r {
      case None =>
      case Some(x) => assert [] + x.0 == x.0;
    }
  }

  /** Reading one more record moves it from the lists still to read to the lists already read. */
  lemma PrependList(pre: Graph, b: seq<uint8>, count: nat, x: seq<nat>, after: seq<uint8>)
    requires count > 0 && DecodeList(b) == Some((x, after))
    ensures Prepend(pre, DecodeLists(b, count)) == Prepend(pre + [x], DecodeLists(after, count - 1))
  {
    match DecodeLists(after, count - 1) {
      case None =>
      case Some(others) => assert pre + ([x] + others.0) == (pre + [x]) + others.0;
    }
  }

  // ----- finder.cpp: LoadAdjacencyList -----

  /**
   * LoadAdjacencyList over the file's bytes. The vector of nodeCount lists is
   * allocated first and list i is filled in the i-th round; a short read
   * (left unchecked in the source) is reported as Malformed.
   */
  method LoadAdjacencyList(bytes: seq<uint8>) returns (r: Result<Graph>)
    ensures r == Decode(bytes)
  {
    if |bytes| < 4 {
      return Err(Malformed);
    }
    var nodeCount := U32At(bytes, 0);
    var stream := bytes[4..];  // the bytes not yet read
    var adjacencyList := new seq<nat>[nodeCount];
    PrependNothing(DecodeLists(stream, nodeCount));
    for i := 0 to nodeCount
      invariant DecodeLists(bytes[4..], nodeCount) == Prepend(adjacencyList[..i], DecodeLists(stream, nodeCount - i))
    {
      if |stream| < 4 {
        return Err(Malformed);
      }
      var neighborCount := U32At(stream, 0);
      if |stream| < 4 + 4 * neighborCount {
        return Err(Malformed);
      }
      var neighbors := DecodeIds(stream[4..], neighborCount);
      ghost var pre := adjacencyList[..i];
      var after := stream[4 + 4 * neighborCount..];
      assert DecodeList(stream) == Some((neighbors, after));
      PrependList(pre, stream, nodeCount - i, neighbors, after);
      adjacencyList[i] := neighbors;
      assert adjacencyList[..i + 1] == pre + [neighbors];
      stream := after;
    }
    assert adjacencyList[..nodeCount] == adjacencyList[..];
    assert adjacencyList[..] + [] == adjacencyList[..];
    r := Ok(adjacencyList[..]);
  }
}
