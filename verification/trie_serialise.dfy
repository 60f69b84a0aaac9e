/**
 A serialiser for abstract tries: each record is followed by the records of its children,
 and child offsets are padded to ten groups so that a record's size does not depend on them.
 Lookups in its output give back exactly the trie.
 */
module TrieSerialise {
  import opened Machine
  import opened Memory
  import opened CStrings
  import opened Leb128
  import opened TrieWalk
  import opened TrieEncoding

  const OFFSET_WIDTH: nat := 10

  function EdgesSize(edges: seq<Branch>): nat {
    if edges == [] then 0 else |edges[0].name| + 1 + OFFSET_WIDTH + EdgesSize(edges[1..])
  }

  function RecordSize(n: Node): nat {
    Width(|n.payload|) + |n.payload| + 1 + EdgesSize(n.edges)
  }

  /** The bytes a node and everything below it take. */
  function TotalSize(n: Node): nat
    decreases n, 1
  {
    RecordSize(n) + ChildrenSize(n.edges)
  }

  function ChildrenSize(edges: seq<Branch>): nat
    decreases edges, 0
  {
    if edges == [] then 0 else TotalSize(edges[0].child) + ChildrenSize(edges[1..])
  }

  /** The edges, for children stored one after the other from offset `at` on. */
  function EdgeBytes(edges: seq<Branch>, at: nat): (s: seq<u8>)
    requires at + ChildrenSize(edges) < TWO64
    ensures |s| == EdgesSize(edges)
    decreases |edges|
  {
    if edges == [] then []
    else
      OffsetFits(at);
      edges[0].name + [0] + Encode(at, OFFSET_WIDTH) + EdgeBytes(edges[1..], at + TotalSize(edges[0].child))
  }

  function HeaderBytes(n: Node): (s: seq<u8>)
    requires |n.edges| < 0x100
    ensures |s| == Width(|n.payload|) + |n.payload| + 1
  {
    Encode(|n.payload|, Width(|n.payload|)) + n.payload + [|n.edges|]
  }

  /** The bytes of a whole trie whose root is stored at offset `at`. */
  function Serialise(n: Node, at: nat): (s: seq<u8>)
    requires WellFormed(n) && at + TotalSize(n) < TWO64
    ensures |s| == TotalSize(n)
    decreases n, 1
  {
    HeaderBytes(n) + EdgeBytes(n.edges, at + RecordSize(n)) + SerialiseChildren(n.edges, at + RecordSize(n))
  }

  function SerialiseChildren(edges: seq<Branch>, at: nat): (s: seq<u8>)
    requires (forall i :: 0 <= i < |edges| ==> GoodBranch(edges[i])) && at + ChildrenSize(edges) < TWO64
    ensures |s| == ChildrenSize(edges)
    decreases edges, 0
  {
    if edges == [] then []
    else
      assert GoodBranch(edges[0]);
      Serialise(edges[0].child, at) + SerialiseChildren(edges[1..], at + TotalSize(edges[0].child))
  }

  lemma OffsetFits(v: nat)
    requires v < TWO64
    ensures v < Weight(OFFSET_WIDTH)
  {
    WeightTable();
  }

  /** `part` is stored in the window at `at`. */
  ghost predicate StoredAt(w: Window, at: nat, part: seq<u8>) {
    at + |part| <= |w.bytes| && w.bytes[at..at + |part|] == part
  }

  lemma StoredParts(w: Window, at: nat, a: seq<u8>, b: seq<u8>)
    requires StoredAt(w, at, a + b)
    ensures StoredAt(w, at, a) && StoredAt(w, at + |a|, b)
  {
    SliceOfSlice(w.bytes, at, a + b, 0, |a|);
    SliceOfSlice(w.bytes, at, a + b, |a|, |a| + |b|);
    assert (a + b)[0..|a|] == a && (a + b)[|a|..|a| + |b|] == b;
  }

  /** A number stored in the window is decoded from there. */
  lemma StoredNumber(w: Window, at: nat, v: u64, width: nat)
    requires 1 <= width <= 10 && v < Weight(width) && StoredAt(w, at, Encode(v, width))
    ensures Decode(w.bytes[at..]) == Ok(Uleb(v, width))
  {
    hide Decode, Encode, Weight;
    DecodeEncode(v, width, w.bytes[at + width..]);
    assert w.bytes[at..] == w.bytes[at..at + width] + w.bytes[at + width..];
  }

  lemma StoredHeader(w: Window, at: nat, n: Node)
    requires w.Valid() && |n.edges| < 0x100 && StoredAt(w, at, HeaderBytes(n))
    ensures HasHeader(w, at, n) && EdgesAt(w, at) == at + |HeaderBytes(n)|
    ensures at + |n.payload| < |w.bytes| && Decode(w.bytes[at..]) == Ok(Uleb(|n.payload|, Width(|n.payload|)))
  {
    hide Decode, Encode, Width;
    var width := Width(|n.payload|);
    StoredParts(w, at, Encode(|n.payload|, width) + n.payload, [|n.edges|]);
    StoredParts(w, at, Encode(|n.payload|, width), n.payload);
    WidthOfU64(|n.payload|);
    StoredNumber(w, at, |n.payload|, width);
    assert w.bytes[at + width + |n.payload|] == [|n.edges|][0];
  }

  /** One serialised edge is a stored edge. */
  lemma StoredEdge(w: Window, pos: nat, name: seq<u8>, child: u64, rest: seq<u8>)
    requires child < Weight(OFFSET_WIDTH) && StoredAt(w, pos, name + [0] + Encode(child, OFFSET_WIDTH) + rest)
    ensures StoresEdge(w, pos, name) && BranchAt(w, pos, |name|).value.value == child
    ensures AfterEdge(w, pos, name) == pos + |name| + 1 + OFFSET_WIDTH
    ensures StoredAt(w, pos + |name| + 1 + OFFSET_WIDTH, rest)
  {
    hide Decode, Encode;
    StoredParts(w, pos, name + [0] + Encode(child, OFFSET_WIDTH), rest);
    StoredParts(w, pos, name + [0], Encode(child, OFFSET_WIDTH));
    StoredParts(w, pos, name, [0]);
    StoredNumber(w, pos + |name| + 1, child, OFFSET_WIDTH);
    assert w.bytes[pos + |name|] == [0][0];
  }

  /** The three parts of a serialised trie. */
  lemma SerialisedParts(w: Window, at: nat, n: Node)
    requires w.Valid() && WellFormed(n) && at + TotalSize(n) < TWO64 && StoredAt(w, at, Serialise(n, at))
    ensures HasHeader(w, at, n)
    ensures at + |n.payload| < |w.bytes| && Decode(w.bytes[at..]) == Ok(Uleb(|n.payload|, Width(|n.payload|)))
    ensures var children := at + RecordSize(n);
            && 0 < children && children + ChildrenSize(n.edges) < TWO64
            && (forall i :: 0 <= i < |n.edges| ==> GoodBranch(n.edges[i]))
            && StoredAt(w, EdgesAt(w, at), EdgeBytes(n.edges, children))
            && StoredAt(w, children, SerialiseChildren(n.edges, children))
  {
    hide *;
    SerialiseUnfolds(n, at);
    var children := at + RecordSize(n);
    var header, edges := HeaderBytes(n), EdgeBytes(n.edges, children);
    StoredParts(w, at, header + edges, SerialiseChildren(n.edges, children));
    StoredParts(w, at, header, edges);
    StoredHeader(w, at, n);
  }

  lemma SerialiseUnfolds(n: Node, at: nat)
    requires WellFormed(n) && at + TotalSize(n) < TWO64
    ensures |n.edges| < 0x100 && (forall i :: 0 <= i < |n.edges| ==> GoodBranch(n.edges[i]))
    ensures var children := at + RecordSize(n);
            && 0 < children && children + ChildrenSize(n.edges) < TWO64
            && children == at + |HeaderBytes(n)| + |EdgeBytes(n.edges, children)|
            && Serialise(n, at) == HeaderBytes(n) + EdgeBytes(n.edges, children) + SerialiseChildren(n.edges, children)
  {
    hide HeaderBytes, EdgeBytes, SerialiseChildren, GoodBranch;
  }

  /** The parts of a serialised list of edges and of the tries behind them. */
  lemma SerialisedEdgeParts(w: Window, pos: nat, edges: seq<Branch>, at: nat)
    requires edges != [] && (forall i :: 0 <= i < |edges| ==> GoodBranch(edges[i])) && at + ChildrenSize(edges) < TWO64
    requires StoredAt(w, pos, EdgeBytes(edges, at)) && StoredAt(w, at, SerialiseChildren(edges, at))
    ensures var child := edges[0].child;
            var next := at + TotalSize(child);
            && WellFormed(child) && next <= at + ChildrenSize(edges)
            && (forall i :: 0 <= i < |edges[1..]| ==> GoodBranch(edges[1..][i]))
            && next + ChildrenSize(edges[1..]) == at + ChildrenSize(edges)
            && StoresEdge(w, pos, edges[0].name) && BranchAt(w, pos, |edges[0].name|).value.value == at
            && StoredAt(w, at, Serialise(child, at))
            && StoredAt(w, AfterEdge(w, pos, edges[0].name), EdgeBytes(edges[1..], next))
            && StoredAt(w, next, SerialiseChildren(edges[1..], next))
  {
    hide StoredAt, Encode, StoresEdge, AfterEdge, BranchAt, WellFormed, TotalSize, Serialise;
    assert GoodBranch(edges[0]);
    var child := edges[0].child;
    OffsetFits(at);
    StoredEdge(w, pos, edges[0].name, at, EdgeBytes(edges[1..], at + TotalSize(child)));
    StoredParts(w, at, Serialise(child, at), SerialiseChildren(edges[1..], at + TotalSize(child)));
  }

  lemma StoredInside(w: Window, at: nat, part: seq<u8>)
    requires StoredAt(w, at, part)
    ensures at <= |w.bytes|
  {
  }

  lemma RepresentsIs(w: Window, o: nat, n: Node)
    requires HasHeader(w, o, n) && RepresentsEdges(w, EdgesAt(w, o), n.edges)
    ensures Represents(w, o, n)
  {
  }

  lemma RepresentsEdgesIs(w: Window, pos: nat, edges: seq<Branch>)
    requires if edges == [] then pos <= |w.bytes|
             else
               && StoresEdge(w, pos, edges[0].name)
               && 0 < BranchAt(w, pos, |edges[0].name|).value.value
               && Represents(w, BranchAt(w, pos, |edges[0].name|).value.value, edges[0].child)
               && RepresentsEdges(w, AfterEdge(w, pos, edges[0].name), edges[1..])
    ensures RepresentsEdges(w, pos, edges)
  {
  }

  /** Serialised bytes, wherever they are stored, represent the trie they were made from. */
  lemma {:induction false} SerialisedRepresents(w: Window, at: nat, n: Node)
    requires w.Valid() && WellFormed(n) && at + TotalSize(n) < TWO64 && StoredAt(w, at, Serialise(n, at))
    ensures Represents(w, at, n)
    decreases n, 1
  {
    hide *;
    SerialisedParts(w, at, n);
    SerialisedEdgesRepresent(w, EdgesAt(w, at), n.edges, at + RecordSize(n));
    RepresentsIs(w, at, n);
  }

  lemma {:induction false} SerialisedEdgesRepresent(w: Window, pos: nat, edges: seq<Branch>, at: nat)
    requires w.Valid() && (forall i :: 0 <= i < |edges| ==> GoodBranch(edges[i])) && 0 < at
              && at + ChildrenSize(edges) < TWO64
    requires StoredAt(w, pos, EdgeBytes(edges, at)) && StoredAt(w, at, SerialiseChildren(edges, at))
    ensures RepresentsEdges(w, pos, edges)
    decreases edges, 0
  {
    hide *;
    if edges == [] {
      StoredInside(w, pos, EdgeBytes(edges, at));
    } else {
      SerialisedEdgeParts(w, pos, edges, at);
      SerialisedRepresents(w, at, edges[0].child);
      SerialisedEdgesRepresent(w, AfterEdge(w, pos, edges[0].name), edges[1..], at + TotalSize(edges[0].child));
    }
    RepresentsEdgesIs(w, pos, edges);
  }

  // ---------------------------------------------------------------------------
  //  Round trip
  // ---------------------------------------------------------------------------

  /** The serialised children are where the edges say. */
  lemma {:induction false} SerialisedChildAt(w: Window, pos: nat, edges: seq<Branch>, at: nat, k: nat)
    requires w.Valid() && (forall i :: 0 <= i < |edges| ==> GoodBranch(edges[i])) && 0 < at
              && at + ChildrenSize(edges) < TWO64
    requires StoredAt(w, pos, EdgeBytes(edges, at)) && StoredAt(w, at, SerialiseChildren(edges, at))
    requires RepresentsEdges(w, pos, edges) && k < |edges|
    ensures var c, child := ChildAt(w, pos, edges, k), edges[k].child;
            WellFormed(child) && c + TotalSize(child) <= at + ChildrenSize(edges) && StoredAt(w, c, Serialise(child, c))
    decreases k
  {
    hide *;
    SerialisedEdgeParts(w, pos, edges, at);
    FirstOfEdges(w, pos, edges, []);
    ChildAtUnfolds(w, pos, edges, k);
    if k > 0 {
      SerialisedChildAt(w, AfterEdge(w, pos, edges[0].name), edges[1..], at + TotalSize(edges[0].child), k - 1);
    }
  }

  lemma ChildAtUnfolds(w: Window, pos: nat, edges: seq<Branch>, k: nat)
    requires RepresentsEdges(w, pos, edges) && k < |edges|
    ensures StoresEdge(w, pos, edges[0].name) && RepresentsEdges(w, AfterEdge(w, pos, edges[0].name), edges[1..])
    ensures ChildAt(w, pos, edges, k) == if k == 0 then BranchAt(w, pos, |edges[0].name|).value.value
                                         else ChildAt(w, AfterEdge(w, pos, edges[0].name), edges[1..], k - 1)
  {
    hide BranchAt, Represents;
  }

  /** The serialised edges end where their bytes end. */
  lemma {:induction false} SerialisedEdgesEnd(w: Window, pos: nat, edges: seq<Branch>, at: nat)
    requires w.Valid() && (forall i :: 0 <= i < |edges| ==> GoodBranch(edges[i])) && 0 < at
              && at + ChildrenSize(edges) < TWO64
    requires StoredAt(w, pos, EdgeBytes(edges, at)) && StoredAt(w, at, SerialiseChildren(edges, at))
    requires RepresentsEdges(w, pos, edges)
    ensures EndOfEdges(w, pos, edges) == pos + EdgesSize(edges)
    decreases |edges|
  {
    hide *;
    EdgesSizeUnfolds(w, pos, edges);
    if edges != [] {
      SerialisedEdgeParts(w, pos, edges, at);
      SerialisedEdgeLength(w, pos, edges, at);
      FirstOfEdges(w, pos, edges, []);
      SerialisedEdgesEnd(w, AfterEdge(w, pos, edges[0].name), edges[1..], at + TotalSize(edges[0].child));
    }
  }

  lemma EdgesSizeUnfolds(w: Window, pos: nat, edges: seq<Branch>)
    requires RepresentsEdges(w, pos, edges)
    ensures edges == [] ==> EdgesSize(edges) == 0 && EndOfEdges(w, pos, edges) == pos
    ensures edges != [] ==> EdgesSize(edges) == |edges[0].name| + 1 + OFFSET_WIDTH + EdgesSize(edges[1..])
  {
    hide StoresEdge, BranchAt, Represents;
  }

  lemma SerialisedEdgeLength(w: Window, pos: nat, edges: seq<Branch>, at: nat)
    requires edges != [] && at + ChildrenSize(edges) < TWO64 && StoredAt(w, pos, EdgeBytes(edges, at))
    requires StoresEdge(w, pos, edges[0].name)
    ensures AfterEdge(w, pos, edges[0].name) == pos + |edges[0].name| + 1 + OFFSET_WIDTH
  {
    hide StoredAt, Encode, StoresEdge, AfterEdge, BranchAt, TotalSize;
    OffsetFits(at);
    StoredEdge(w, pos, edges[0].name, at, EdgeBytes(edges[1..], at + TotalSize(edges[0].child)));
  }

  /** A symbol leaves a serialised trie at a record that ends inside the trie's own bytes. */
  lemma {:induction false} LeavesInside(w: Window, at: nat, n: Node, symbol: seq<u8>)
    requires w.Valid() && WellFormed(n) && at + TotalSize(n) < TWO64 && StoredAt(w, at, Serialise(n, at))
    requires Represents(w, at, n)
    ensures LeavesAt(w, at, n, symbol) <= at + TotalSize(n)
    decreases n
  {
    var children, pos, k := at + RecordSize(n), EdgesAt(w, at), EdgeFor(n.edges, symbol);
    SerialisedParts(w, at, n);
    StoredHeaderEnds(w, at, n);
    if k < |n.edges| {
      SerialisedChildAt(w, pos, n.edges, children, k);
      var c, child, rest := ChildAt(w, pos, n.edges, k), n.edges[k].child, symbol[|n.edges[k].name|..];
      hide StoredAt, WellFormed, GoodBranch, Serialise, EdgesAt, RepresentsEdges, HasHeader, RecordSize,
        ChildAt, EdgeFor;
      LeavesInside(w, c, child, rest);
    } else {
      SerialisedEdgesEnd(w, pos, n.edges, children);
      hide StoredAt, WellFormed, GoodBranch, Serialise, EdgesAt, RepresentsEdges, HasHeader, EdgeFor;
    }
  }

  lemma StoredHeaderEnds(w: Window, at: nat, n: Node)
    requires w.Valid() && WellFormed(n) && at + TotalSize(n) < TWO64 && StoredAt(w, at, Serialise(n, at))
    ensures EdgesAt(w, at) + EdgesSize(n.edges) == at + RecordSize(n)
  {
    hide HeaderBytes, EdgeBytes, SerialiseChildren, EdgesAt, HasHeader, GoodBranch;
    var children := at + RecordSize(n);
    StoredParts(w, at, HeaderBytes(n) + EdgeBytes(n.edges, children), SerialiseChildren(n.edges, children));
    StoredParts(w, at, HeaderBytes(n), EdgeBytes(n.edges, children));
    StoredHeader(w, at, n);
  }

  /**
   Round trip: looking a symbol up in a serialised trie gives exactly what the trie exports for it, and with
   at least one byte of padding behind the trie every other symbol is reported as MK_ENOT_FOUND.
   */
  lemma SerialiseRoundTrip(n: Node, start: u64, padding: seq<u8>, symbol: seq<u8>, payload: seq<u8>)
    requires WellFormed(n) && start + TotalSize(n) + |padding| < TWO64
    ensures var w := Window(start, Serialise(n, 0) + padding);
            && Ends(w, symbol)
            && (Exports(n, symbol, payload) <==>
                  Lookup(w, symbol).Hit? && HoldsPayload(w, Lookup(w, symbol).offset, payload))
            && (padding != [] && Find(n, symbol).None? ==> Lookup(w, symbol) == Miss(ENotFound))
  {
    hide Serialise, WellFormed, Exports, Find, Represents, LeavesAt;
    var w := Window(start, Serialise(n, 0) + padding);
    assert StoredAt(w, 0, Serialise(n, 0));
    SerialisedRepresents(w, 0, n);
    LookupComplete(w, n, symbol, payload);
    if Find(n, symbol).None? {
      AbsentSymbolError(w, n, symbol);
      LeavesInside(w, 0, n, symbol);
    }
  }
}
