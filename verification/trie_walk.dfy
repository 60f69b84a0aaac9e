/**
 What one lookup in an exports trie does, as functions of the trie's bytes.

 A node record at offset o is: the terminal size (ULEB128), that many bytes of export
 information, a child count byte, and for each child a NUL-terminated label followed by
 the child's offset from the start of the trie (ULEB128).

 Every function here reads only `Window.bytes`, so whatever a lookup computes is decided
 by the bytes of the trie alone.
 */
module TrieWalk {
  import opened Machine
  import opened CStrings
  import opened Leb128
  import opened Iteration

  /** The bytes of a trie and the target address of the first of them. */
  datatype Window = Window(start: u64, bytes: seq<u8>) {
    ghost predicate Valid() {
      start + |bytes| < TWO64
    }
  }

  /** How the visit of one node ends. */
  datatype Visit =
    | Found
    | Failed(error: Error)
    | NoChild
    | Descend(child: u64, rest: seq<u8>)

  /** How a whole lookup ends. */
  datatype Outcome = Hit(offset: nat) | Miss(error: Error)

  /** Moving `amount` bytes on from `pos` must land on a byte of the trie. */
  function Skip(w: Window, pos: nat, amount: nat): (r: Result<nat>)
    ensures r.Ok? <==> w.start + pos + amount < TWO64 && pos + amount < |w.bytes|
    ensures r.Ok? ==> r.value == pos + amount
    ensures w.Valid() && pos + amount <= |w.bytes| && r.Err? ==> r.error == EOutOfRange
  {
    if w.start + pos + amount >= TWO64 then Err(EOverflow)
    else if pos + amount >= |w.bytes| then Err(EOutOfRange)
    else Ok(pos + amount)
  }

  /** One stored edge: its label, the child offset and the position of the bytes after it. */
  datatype RawEdge = RawEdge(name: seq<u8>, child: u64, end: nat)

  /** Reads the edge at `pos`. Its label and the NUL must be followed by another byte of the trie. */
  function ReadEdge(w: Window, pos: nat): (r: Result<RawEdge>)
    requires pos < |w.bytes|
    ensures r.Ok? ==> pos + |r.value.name| + 2 <= r.value.end <= |w.bytes|
  {
    var n := NulIndex(w.bytes, pos);
    if Skip(w, pos, n - pos).Err? then Err(Skip(w, pos, n - pos).error)
    else if Skip(w, n, 1).Err? then Err(Skip(w, n, 1).error)
    else
      match Decode(w.bytes[n + 1..])
      case Err(e) => Err(e)
      case Ok(branch) => Ok(RawEdge(w.bytes[pos..n], branch.value, n + 1 + branch.size))
  }

  /** Tries `count` edges from `pos` on, committing to the first whose label the symbol starts with. */
  function FollowEdges(w: Window, pos: nat, count: nat, symbol: seq<u8>): (visit: Visit)
    requires pos < |w.bytes|
    ensures !visit.Found?
    decreases count
  {
    if count == 0 then NoChild
    else
      match ReadEdge(w, pos)
      case Err(e) => Failed(e)
      case Ok(edge) =>
        if edge.name <= symbol then
          if edge.child == 0 then NoChild else Descend(edge.child, symbol[|edge.name|..])
        else if Skip(w, edge.end, 0).Err? then Failed(Skip(w, edge.end, 0).error)
        else FollowEdges(w, edge.end, count - 1, symbol)
  }

  /** Where a node's edges are stored, and how many there are. */
  datatype EdgeList = EdgeList(pos: nat, count: u8)

  /** Passes over the terminal size, the export information and the child count of the node at `o`. */
  function ReadEdgeList(w: Window, o: nat, terminal: Uleb): (r: Result<EdgeList>)
    requires o < |w.bytes|
    ensures r.Ok? ==> r.value.pos == o + terminal.size + terminal.value + 1 < |w.bytes|
  {
    var info := o + terminal.size;
    var count := info + terminal.value;
    if Skip(w, o, terminal.size).Err? then Err(Skip(w, o, terminal.size).error)
    else if Skip(w, info, terminal.value).Err? then Err(Skip(w, info, terminal.value).error)
    else if Skip(w, count, 1).Err? then Err(Skip(w, count, 1).error)
    else Ok(EdgeList(count + 1, w.bytes[count]))
  }

  /** The visit of the node at `o` with `symbol` still to be spelled. */
  function VisitNode(w: Window, o: nat, symbol: seq<u8>): Visit
    requires o < |w.bytes|
  {
    match Decode(w.bytes[o..])
    case Err(e) => Failed(e)
    case Ok(terminal) =>
      if symbol == [] && terminal.value != 0 then Found
      else
        match ReadEdgeList(w, o, terminal)
        case Err(e) => Failed(e)
        case Ok(list) => FollowEdges(w, list.pos, list.count, symbol)
  }

  /** Where a lookup stands: the node to visit next and the bytes still to be spelled. */
  datatype State = State(offset: nat, rest: seq<u8>)

  /** Visits one node; an offset past the end means that there is no such node. */
  function VisitNext(w: Window, s: State): Step<State, Outcome> {
    if s.offset >= |w.bytes| then Done(Miss(ENotFound))
    else
      match VisitNode(w, s.offset, s.rest)
      case Found => Done(Hit(s.offset))
      case Failed(e) => Done(Miss(e))
      case NoChild => Done(Miss(ENotFound))
      case Descend(child, rest) => Next(State(child, rest))
  }

  function Visitor(w: Window): State -> Step<State, Outcome> {
    (s: State) => VisitNext(w, s)
  }

  /** The lookup of `symbol` comes to an end. */
  ghost predicate Ends(w: Window, symbol: seq<u8>) {
    Halts(Visitor(w), State(0, symbol))
  }

  /** The end it comes to. */
  ghost function Lookup(w: Window, symbol: seq<u8>): Outcome
    requires Ends(w, symbol)
  {
    Final(Visitor(w), State(0, symbol))
  }
}
