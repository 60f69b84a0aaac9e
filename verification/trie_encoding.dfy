/**
 Exports tries as abstract values: what it means that bytes represent one, and that a lookup
 in such bytes is a lookup in the abstract trie.
 */
module TrieEncoding {
  import opened Machine
  import opened Memory
  import opened CStrings
  import opened Leb128
  import opened Iteration
  import opened TrieWalk
  import opened TriePaths

  // ---------------------------------------------------------------------------
  //  Abstract tries
  // ---------------------------------------------------------------------------

  /** A node with its export information (empty if it exports nothing) and its outgoing edges. */
  datatype Node = Node(payload: seq<u8>, edges: seq<Branch>)

  datatype Branch = Branch(name: seq<u8>, child: Node)

  /** No two of these edges could be taken for the same symbol. */
  ghost predicate PrefixFree(edges: seq<Branch>) {
    forall i, j :: 0 <= i < |edges| && 0 <= j < |edges| && i != j ==> !(edges[i].name <= edges[j].name)
  }

  ghost predicate WellFormed(n: Node) {
    && |n.edges| < 0x100
    && PrefixFree(n.edges)
    && forall i :: 0 <= i < |n.edges| ==> GoodBranch(n.edges[i])
  }

  ghost predicate GoodBranch(e: Branch) {
    e.name != [] && NulFree(e.name) && WellFormed(e.child)
  }

  /** The map a trie stands for: some path spells the symbol and ends at a node with this export information. */
  ghost predicate Exports(n: Node, symbol: seq<u8>, payload: seq<u8>) {
    || (symbol == [] && payload == n.payload && payload != [])
    || exists i :: 0 <= i < |n.edges| && n.edges[i].name <= symbol
                   && Exports(n.edges[i].child, symbol[|n.edges[i].name|..], payload)
  }

  /** The first edge whose name the symbol starts with, or |edges|. */
  function EdgeFor(edges: seq<Branch>, symbol: seq<u8>): (k: nat)
    ensures k <= |edges|
    ensures forall i :: 0 <= i < k ==> !(edges[i].name <= symbol)
    ensures k < |edges| ==> edges[k].name <= symbol
  {
    if edges == [] || edges[0].name <= symbol then 0 else 1 + EdgeFor(edges[1..], symbol)
  }

  /** A search that commits to the first matching edge. */
  function Find(n: Node, symbol: seq<u8>): Option<seq<u8>> {
    if symbol == [] && n.payload != [] then Some(n.payload)
    else
      var k := EdgeFor(n.edges, symbol);
      if k < |n.edges| then Find(n.edges[k].child, symbol[|n.edges[k].name|..]) else None
  }

  /** Prefixes of one sequence are prefixes of each other. */
  lemma PrefixesCompare(a: seq<u8>, b: seq<u8>, s: seq<u8>)
    requires a <= s && b <= s
    ensures a <= b || b <= a
  {
    assert forall i :: 0 <= i < |a| ==> a[i] == s[i];
    assert forall i :: 0 <= i < |b| ==> b[i] == s[i];
  }

  /** Committing to the first matching edge never loses a symbol and never finds a wrong one. */
  lemma {:induction false} FindIsExports(n: Node, symbol: seq<u8>, payload: seq<u8>)
    requires WellFormed(n)
    ensures Find(n, symbol) == Some(payload) <==> Exports(n, symbol, payload)
    decreases n
  {
    var k := EdgeFor(n.edges, symbol);
    forall i | 0 <= i < |n.edges| && n.edges[i].name <= symbol ensures i == k && symbol != [] {
      assert GoodBranch(n.edges[i]);
      PrefixesCompare(n.edges[i].name, n.edges[k].name, symbol);
    }
    if k < |n.edges| {
      assert GoodBranch(n.edges[k]);
      FindIsExports(n.edges[k].child, symbol[|n.edges[k].name|..], payload);
    }
  }

  // ---------------------------------------------------------------------------
  //  Bytes that represent a trie
  // ---------------------------------------------------------------------------

  /** The child offset stored behind a label that starts at `pos` and has this length. */
  ghost function BranchAt(w: Window, pos: nat, length: nat): Result<Uleb>
    requires pos + length + 1 <= |w.bytes|
  {
    Decode(w.bytes[pos + length + 1..])
  }

  /**
   The record at `o` stores the node, with any valid encoding of its sizes and offsets and any placement
   of its children.
   */
  ghost predicate Represents(w: Window, o: nat, n: Node)
    decreases n
  {
    && HasHeader(w, o, n)
    && RepresentsEdges(w, EdgesAt(w, o), n.edges)
  }

  ghost predicate HasHeader(w: Window, o: nat, n: Node) {
    && o < |w.bytes|
    && Decode(w.bytes[o..]).Ok?
    && var terminal := Decode(w.bytes[o..]).value;
    && terminal.value == |n.payload|
    && var info := o + terminal.size;
    && info + |n.payload| < |w.bytes|
    && w.bytes[info..info + |n.payload|] == n.payload
    && w.bytes[info + |n.payload|] == |n.edges|
  }

  /** Where the edges of the record at `o` start. */
  ghost function EdgesAt(w: Window, o: nat): nat {
    if o < |w.bytes| && Decode(w.bytes[o..]).Ok?
    then o + Decode(w.bytes[o..]).value.size + Decode(w.bytes[o..]).value.value + 1
    else 0
  }

  ghost predicate RepresentsEdges(w: Window, pos: nat, edges: seq<Branch>)
    decreases edges
  {
    if edges == [] then pos <= |w.bytes|
    else
      && StoresEdge(w, pos, edges[0].name)
      && 0 < BranchAt(w, pos, |edges[0].name|).value.value
      && Represents(w, BranchAt(w, pos, |edges[0].name|).value.value, edges[0].child)
      && RepresentsEdges(w, AfterEdge(w, pos, edges[0].name), edges[1..])
  }

  /** A label, its NUL and a decodable offset are stored at `pos`. */
  ghost predicate StoresEdge(w: Window, pos: nat, name: seq<u8>) {
    && pos + |name| + 1 < |w.bytes|
    && w.bytes[pos..pos + |name|] == name && w.bytes[pos + |name|] == 0
    && BranchAt(w, pos, |name|).Ok?
  }

  ghost function AfterEdge(w: Window, pos: nat, name: seq<u8>): nat
    requires StoresEdge(w, pos, name)
  {
    pos + |name| + 1 + BranchAt(w, pos, |name|).value.size
  }

  /** Where a list of stored edges ends. */
  ghost function EndOfEdges(w: Window, pos: nat, edges: seq<Branch>): (end: nat)
    requires RepresentsEdges(w, pos, edges)
    ensures pos <= end <= |w.bytes|
    decreases |edges|
  {
    if edges == [] then pos else EndOfEdges(w, AfterEdge(w, pos, edges[0].name), edges[1..])
  }

  /** The offset of the child behind the edge that is taken. */
  ghost function ChildAt(w: Window, pos: nat, edges: seq<Branch>, k: nat): (o: u64)
    requires RepresentsEdges(w, pos, edges) && k < |edges|
    ensures 0 < o && Represents(w, o, edges[k].child)
    decreases k
  {
    if k == 0 then BranchAt(w, pos, |edges[0].name|).value.value
    else ChildAt(w, AfterEdge(w, pos, edges[0].name), edges[1..], k - 1)
  }

  // ---------------------------------------------------------------------------
  //  Lookup in bytes is lookup in the trie
  // ---------------------------------------------------------------------------

  /** The walk reads a stored edge as it is. */
  lemma StoredEdgeIsRead(w: Window, pos: nat, name: seq<u8>)
    requires w.Valid() && StoresEdge(w, pos, name) && NulFree(name)
    ensures ReadEdge(w, pos) == Ok(RawEdge(name, BranchAt(w, pos, |name|).value.value, AfterEdge(w, pos, name)))
  {
    hide Decode, NulIndex;
    var n := pos + |name|;
    forall i | pos <= i < n ensures w.bytes[i] != 0 {
      assert w.bytes[i] == w.bytes[pos..n][i - pos];
    }
    NulIndexIs(w.bytes, pos, n);
  }

  /** One turn of the loop over stored edges. */
  lemma FollowStoredEdge(w: Window, pos: nat, edges: seq<Branch>, symbol: seq<u8>)
    requires w.Valid() && pos < |w.bytes| && edges != [] && StoresEdge(w, pos, edges[0].name) && NulFree(edges[0].name)
    requires 0 < BranchAt(w, pos, |edges[0].name|).value.value
    ensures var next := AfterEdge(w, pos, edges[0].name);
            FollowEdges(w, pos, |edges|, symbol)
            == if edges[0].name <= symbol
              then Descend(BranchAt(w, pos, |edges[0].name|).value.value, symbol[|edges[0].name|..])
               else if next < |w.bytes| then FollowEdges(w, next, |edges| - 1, symbol)
               else Failed(EOutOfRange)
  {
    hide ReadEdge, StoresEdge, BranchAt, AfterEdge;
    StoredEdgeIsRead(w, pos, edges[0].name);
  }

  lemma NoStoredEdges(w: Window, pos: nat, symbol: seq<u8>)
    requires pos < |w.bytes|
    ensures EdgeFor([], symbol) == 0 && FollowEdges(w, pos, 0, symbol) == NoChild
  {
  }

  lemma NameIsNulFree(e: Branch)
    requires GoodBranch(e)
    ensures NulFree(e.name)
  {
  }

  lemma FirstOffsetIsPositive(w: Window, pos: nat, edges: seq<Branch>)
    requires edges != [] && RepresentsEdges(w, pos, edges)
    ensures 0 < BranchAt(w, pos, |edges[0].name|).value.value
  {
    hide Represents, BranchAt;
  }

  /** How the functions on a list of stored edges unfold. */
  lemma FirstOfEdges(w: Window, pos: nat, edges: seq<Branch>, symbol: seq<u8>)
    requires edges != [] && RepresentsEdges(w, pos, edges)
    ensures StoresEdge(w, pos, edges[0].name)
    ensures var next, k := AfterEdge(w, pos, edges[0].name), EdgeFor(edges[1..], symbol);
            && RepresentsEdges(w, next, edges[1..])
            && next <= |w.bytes|
            && EndOfEdges(w, pos, edges) == EndOfEdges(w, next, edges[1..])
            && ChildAt(w, pos, edges, 0) == BranchAt(w, pos, |edges[0].name|).value.value
            && EdgeFor(edges, symbol) == (if edges[0].name <= symbol then 0 else k + 1)
            && (k < |edges| - 1 ==>
                  edges[k + 1] == edges[1..][k] && ChildAt(w, pos, edges, k + 1) == ChildAt(w, next, edges[1..], k))
            && (next == |w.bytes| ==> edges[1..] == [] && EndOfEdges(w, pos, edges) == |w.bytes|)
            && (edges[1..] == [] ==> EndOfEdges(w, pos, edges) == next)
  {
    hide Represents, BranchAt;
    var next := AfterEdge(w, pos, edges[0].name);
    assert RepresentsEdges(w, next, edges[1..]);
  }

  /** The loop over the edges takes the edge the search takes; past the last edge it fails if the trie ends there. */
  lemma {:induction false} FollowStoredEdges(w: Window, pos: nat, edges: seq<Branch>, symbol: seq<u8>)
    requires w.Valid() && pos < |w.bytes| && RepresentsEdges(w, pos, edges)
    requires forall i :: 0 <= i < |edges| ==> GoodBranch(edges[i])
    ensures var k := EdgeFor(edges, symbol);
            k < |edges| ==>
              FollowEdges(w, pos, |edges|, symbol) == Descend(ChildAt(w, pos, edges, k), symbol[|edges[k].name|..])
    ensures EdgeFor(edges, symbol) == |edges| ==>
              FollowEdges(w, pos, |edges|, symbol)
              == if edges == [] || EndOfEdges(w, pos, edges) < |w.bytes| then NoChild else Failed(EOutOfRange)
    decreases |edges|
  {
    hide *;
    if edges == [] {
      NoStoredEdges(w, pos, symbol);
    } else {
      NameIsNulFree(edges[0]);
      FirstOfEdges(w, pos, edges, symbol);
      FirstOffsetIsPositive(w, pos, edges);
      FollowStoredEdge(w, pos, edges, symbol);
      var next := AfterEdge(w, pos, edges[0].name);
      if !(edges[0].name <= symbol) && next < |w.bytes| {
        FollowStoredEdges(w, next, edges[1..], symbol);
      }
    }
  }

  /** The payload a terminal record holds. */
  ghost predicate HoldsPayload(w: Window, o: nat, payload: seq<u8>) {
    && payload != [] && o < |w.bytes| && Decode(w.bytes[o..]).Ok?
    && var terminal := Decode(w.bytes[o..]).value;
    && terminal.value == |payload|
    && o + terminal.size + |payload| <= |w.bytes|
    && w.bytes[o + terminal.size..o + terminal.size + |payload|] == payload
  }

  /**
   How a lookup in a represented trie ends: at the exporting node, or at the node where the symbol leaves
   the trie.
   */
  ghost function End(w: Window, o: nat, n: Node, symbol: seq<u8>): Outcome
    requires Represents(w, o, n)
    decreases n
  {
    var k := EdgeFor(n.edges, symbol);
    if symbol == [] && n.payload != [] then Hit(o)
    else if k < |n.edges|
      then End(w, ChildAt(w, EdgesAt(w, o), n.edges, k), n.edges[k].child, symbol[|n.edges[k].name|..])
    else if EndOfEdges(w, EdgesAt(w, o), n.edges) == |w.bytes| then Miss(EOutOfRange)
    else Miss(ENotFound)
  }

  lemma HeaderIsRead(w: Window, o: nat, n: Node)
    requires w.Valid() && HasHeader(w, o, n)
    ensures var terminal := Decode(w.bytes[o..]).value;
            ReadEdgeList(w, o, terminal) == if EdgesAt(w, o) < |w.bytes| then Ok(EdgeList(EdgesAt(w, o), |n.edges|))
                                            else Err(EOutOfRange)
    ensures EdgesAt(w, o) <= |w.bytes|
  {
    hide Decode;
  }

  /** The visit of a represented node. */
  lemma RepresentedVisit(w: Window, o: nat, n: Node, symbol: seq<u8>)
    requires w.Valid() && Represents(w, o, n) && WellFormed(n)
    ensures o < |w.bytes|
    ensures var k := EdgeFor(n.edges, symbol);
            VisitNode(w, o, symbol)
            == if symbol == [] && n.payload != [] then Found
               else if k < |n.edges| then Descend(ChildAt(w, EdgesAt(w, o), n.edges, k), symbol[|n.edges[k].name|..])
               else if EndOfEdges(w, EdgesAt(w, o), n.edges) == |w.bytes| then Failed(EOutOfRange)
               else NoChild
  {
    HeaderIsRead(w, o, n);
    var pos := EdgesAt(w, o);
    if n.edges != [] {
      assert StoresEdge(w, pos, n.edges[0].name);
    }
    if pos < |w.bytes| {
      FollowStoredEdges(w, pos, n.edges, symbol);
    }
    hide Decode, FollowEdges, ReadEdgeList, RepresentsEdges, EndOfEdges, EdgesAt, ChildAt, WellFormed;
  }

  lemma BranchIsGood(n: Node, k: nat)
    requires WellFormed(n) && k < |n.edges|
    ensures n.edges[k].name != [] && WellFormed(n.edges[k].child)
  {
    assert GoodBranch(n.edges[k]);
  }

  /** One step of the lookup in a represented trie. */
  lemma RepresentedStep(w: Window, o: nat, n: Node, symbol: seq<u8>)
    requires w.Valid() && Represents(w, o, n) && WellFormed(n)
    ensures var step := Visitor(w)(State(o, symbol));
            match step
            case Done(end) => End(w, o, n, symbol) == end
            case Next(t) =>
              var k := EdgeFor(n.edges, symbol);
              && k < |n.edges| && WellFormed(n.edges[k].child) && Represents(w, t.offset, n.edges[k].child)
              && |t.rest| < |symbol|
              && End(w, o, n, symbol) == End(w, t.offset, n.edges[k].child, t.rest)
  {
    hide VisitNode, RepresentsEdges, EdgesAt, HasHeader, EdgeFor, WellFormed, GoodBranch, ChildAt, EndOfEdges;
    RepresentedVisit(w, o, n, symbol);
    var k := EdgeFor(n.edges, symbol);
    if k < |n.edges| {
      BranchIsGood(n, k);
    }
  }

  /** The lookup of a symbol ends as the abstract trie says, after following at most |symbol| edges. */
  lemma {:induction false} RepresentedRun(w: Window, o: nat, n: Node, symbol: seq<u8>)
    requires w.Valid() && Represents(w, o, n) && WellFormed(n)
    ensures Run(Visitor(w), State(o, symbol), |symbol|) == Some(End(w, o, n, symbol))
    decreases |symbol|
  {
    hide *;
    var f, s := Visitor(w), State(o, symbol);
    RepresentedStep(w, o, n, symbol);
    RunUnfolds(f, s, |symbol|);
    if f(s).Next? {
      var t := f(s).state;
      RepresentedRun(w, t.offset, n.edges[EdgeFor(n.edges, symbol)].child, t.rest);
      MoreFuel(f, t, |t.rest|, |symbol| - 1);
    }
  }

  /** The abstract search and the end of the lookup agree, and a hit holds the payload that is found. */
  lemma {:induction false} EndIsFind(w: Window, o: nat, n: Node, symbol: seq<u8>)
    requires Represents(w, o, n) && WellFormed(n)
    ensures match Find(n, symbol)
            case Some(payload) => End(w, o, n, symbol).Hit? && HoldsPayload(w, End(w, o, n, symbol).offset, payload)
            case None => End(w, o, n, symbol).Miss?
    decreases n
  {
    hide RepresentsEdges, EdgesAt, Decode;
    var k := EdgeFor(n.edges, symbol);
    if !(symbol == [] && n.payload != []) && k < |n.edges| {
      assert GoodBranch(n.edges[k]);
      EndIsFind(w, ChildAt(w, EdgesAt(w, o), n.edges, k), n.edges[k].child, symbol[|n.edges[k].name|..]);
    }
  }

  /** The end of the lookup, from the root. */
  lemma LookupIsEnd(w: Window, n: Node, symbol: seq<u8>)
    requires w.Valid() && Represents(w, 0, n) && WellFormed(n)
    ensures Ends(w, symbol) && Lookup(w, symbol) == End(w, 0, n, symbol)
  {
    hide Represents, WellFormed, End, VisitNext;
    RepresentedRun(w, 0, n, symbol);
    FinalIs(Visitor(w), State(0, symbol), |symbol|);
  }

  /**
   Completeness of lookups: in any bytes that represent a well-formed trie, every lookup ends, it succeeds
   iff the trie exports the symbol, and then it reports a record with exactly the exported information.
   */
  lemma LookupComplete(w: Window, n: Node, symbol: seq<u8>, payload: seq<u8>)
    requires w.Valid() && Represents(w, 0, n) && WellFormed(n)
    ensures Ends(w, symbol)
    ensures Exports(n, symbol, payload) <==>
              Lookup(w, symbol).Hit? && HoldsPayload(w, Lookup(w, symbol).offset, payload)
    ensures Lookup(w, symbol).Hit? <==> Find(n, symbol).Some?
  {
    hide Represents, WellFormed, Decode, Ends, Lookup, End, Find, Exports;
    LookupIsEnd(w, n, symbol);
    EndIsFind(w, 0, n, symbol);
    FindIsExports(n, symbol, payload);
    if Find(n, symbol).Some? && HoldsPayload(w, End(w, 0, n, symbol).offset, payload) {
      assert payload == Find(n, symbol).value;
    }
  }

  /**
   A symbol that is not exported is reported as MK_ENOT_FOUND, as documented, iff the record where it
   leaves the trie does not end with the trie's last byte; otherwise the error is MK_EOUT_OF_RANGE.
   */
  lemma AbsentSymbolError(w: Window, n: Node, symbol: seq<u8>)
    requires w.Valid() && Represents(w, 0, n) && WellFormed(n) && Find(n, symbol).None?
    ensures Ends(w, symbol)
    ensures Lookup(w, symbol) == Miss(if LeavesAt(w, 0, n, symbol) == |w.bytes| then EOutOfRange else ENotFound)
  {
    hide *;
    LookupIsEnd(w, n, symbol);
    EndIsLeave(w, 0, n, symbol);
  }

  /** Where the record ends at which a symbol leaves the trie. */
  ghost function LeavesAt(w: Window, o: nat, n: Node, symbol: seq<u8>): nat
    requires Represents(w, o, n)
    decreases n
  {
    var k := EdgeFor(n.edges, symbol);
    if k < |n.edges|
      then LeavesAt(w, ChildAt(w, EdgesAt(w, o), n.edges, k), n.edges[k].child, symbol[|n.edges[k].name|..])
    else EndOfEdges(w, EdgesAt(w, o), n.edges)
  }

  lemma {:induction false} EndIsLeave(w: Window, o: nat, n: Node, symbol: seq<u8>)
    requires Represents(w, o, n) && Find(n, symbol).None?
    ensures End(w, o, n, symbol) == Miss(if LeavesAt(w, o, n, symbol) == |w.bytes| then EOutOfRange else ENotFound)
    decreases n
  {
    hide RepresentsEdges, EdgesAt, Decode;
    var k := EdgeFor(n.edges, symbol);
    if k < |n.edges| {
      EndIsLeave(w, ChildAt(w, EdgesAt(w, o), n.edges, k), n.edges[k].child, symbol[|n.edges[k].name|..]);
    }
  }

  // ---------------------------------------------------------------------------
  //  Labels that can be met
  // ---------------------------------------------------------------------------

  /** Among stored edges, the decoded ones are the branches of the node. */
  lemma {:induction false} DecodedEdgeIsBranch(w: Window, pos: nat, edges: seq<Branch>, e: Edge) returns (k: nat)
    requires w.Valid() && RepresentsEdges(w, pos, edges) && EdgeAmong(w, pos, |edges|, e)
    requires forall i :: 0 <= i < |edges| ==> GoodBranch(edges[i])
    ensures k < |edges| && e.name == edges[k].name && Represents(w, e.child, edges[k].child)
    decreases |edges|
  {
    hide *;
    EdgeAmongUnfolds(w, pos, |edges|, e);
    NameIsNulFree(edges[0]);
    FirstOfEdges(w, pos, edges, []);
    StoredEdgeIsRead(w, pos, edges[0].name);
    if e == Edge(ReadEdge(w, pos).value.name, ReadEdge(w, pos).value.child) {
      k := 0;
    } else {
      k := DecodedEdgeIsBranch(w, AfterEdge(w, pos, edges[0].name), edges[1..], e);
      k := k + 1;
    }
  }

  lemma EdgeAmongUnfolds(w: Window, pos: nat, count: nat, e: Edge)
    requires EdgeAmong(w, pos, count, e)
    ensures count > 0 && pos < |w.bytes| && ReadEdge(w, pos).Ok?
    ensures var raw := ReadEdge(w, pos).value;
            e == Edge(raw.name, raw.child) || EdgeAmong(w, raw.end, count - 1, e)
  {
    hide ReadEdge;
  }

  /** An edge decoded from a represented record leads to the record of a child, under that child's name. */
  lemma EdgeOfRecord(w: Window, o: nat, n: Node, e: Edge) returns (k: nat)
    requires w.Valid() && Represents(w, o, n) && WellFormed(n) && HasEdge(w, o, e)
    ensures k < |n.edges| && e.name == n.edges[k].name != []
    ensures WellFormed(n.edges[k].child) && Represents(w, e.child, n.edges[k].child)
  {
    hide Decode, ReadEdgeList, EdgeAmong, GoodBranch, RepresentsEdges;
    HeaderIsRead(w, o, n);
    k := DecodedEdgeIsBranch(w, EdgesAt(w, o), n.edges, e);
    BranchIsGood(n, k);
  }

  /** A path from a represented record stays on represented records. */
  lemma {:induction false} PathStaysInTrie(w: Window, o: nat, n: Node, path: seq<Edge>, last: nat) returns (m: Node)
    requires w.Valid() && Represents(w, o, n) && WellFormed(n) && IsPath(w, o, path, last)
    ensures Represents(w, last, m) && WellFormed(m)
    decreases |path|
  {
    hide Represents, WellFormed, HasEdge;
    if path == [] {
      m := n;
    } else {
      var k := EdgeOfRecord(w, o, n, path[0]);
      m := PathStaysInTrie(w, path[0].child, n.edges[k].child, path[1..], last);
    }
  }

  /** However a well-formed trie is stored, no empty label can be reached from its root. */
  lemma WellFormedHasNoEmptyLabels(w: Window, o: nat, n: Node)
    requires w.Valid() && Represents(w, o, n) && WellFormed(n)
    ensures NoEmptyLabels(w, o)
  {
    hide Represents, WellFormed, HasEdge, IsPath;
    forall path, last, e | IsPath(w, o, path, last) && HasEdge(w, last, e) ensures e.name != [] {
      var m := PathStaysInTrie(w, o, n, path, last);
      var k := EdgeOfRecord(w, last, m, e);
    }
  }
}
