/**
 How a lookup goes on from one node, said in bytes and positions, and two small tries byte
 by byte.
 */
module TrieOutcomes {
  import opened Machine
  import opened Leb128
  import opened CStrings
  import opened Iteration
  import opened TrieWalk
  import opened TrieEncoding

  /** What a lookup that stands at `s` comes to without following another edge. */
  ghost predicate EndsAt(w: Window, s: State, end: Outcome) {
    Run(Visitor(w), s, 0) == Some(end)
  }

  /** A lookup that stands at `s` goes on at `t`. */
  ghost predicate GoesOnAt(w: Window, s: State, t: State) {
    Visitor(w)(s) == Next(t)
  }

  /** The terminal size at the node cannot be read; its error is reported. No node there: MK_ENOT_FOUND. */
  lemma UnreadableNode(w: Window, s: State)
    requires w.Valid()
    ensures s.offset >= |w.bytes| ==> EndsAt(w, s, Miss(ENotFound))
    ensures s.offset < |w.bytes| && Decode(w.bytes[s.offset..]).Err? ==>
              EndsAt(w, s, Miss(Decode(w.bytes[s.offset..]).error))
  {
    hide Decode;
  }

  /** With the symbol used up, any non-zero terminal size is a hit, whatever follows it. */
  lemma TerminalNode(w: Window, s: State, size: nat, value: u64)
    requires w.Valid() && s.offset < |w.bytes| && Decode(w.bytes[s.offset..]) == Ok(Uleb(value, size))
    requires s.rest == [] && value != 0
    ensures EndsAt(w, s, Hit(s.offset))
  {
    hide Decode, ReadEdgeList, FollowEdges;
  }

  /** Where the edges of a node start: behind the size, the information and the count. */
  function EdgesFrom(s: State, size: nat, value: u64): nat {
    s.offset + size + value + 1
  }

  /** Otherwise the edges decide. If the trie ends before them, so does the lookup. */
  lemma NodeWithoutRoom(w: Window, s: State, size: nat, value: u64)
    requires w.Valid() && s.offset < |w.bytes| && Decode(w.bytes[s.offset..]) == Ok(Uleb(value, size))
    requires s.rest != [] || value == 0
    requires EdgesFrom(s, size, value) >= |w.bytes|
    ensures EndsAt(w, s,
                   Miss(if s.offset + size < |w.bytes| && w.start + s.offset + size + value >= TWO64 then EOverflow
                        else EOutOfRange))
  {
    hide Decode, FollowEdges;
  }

  lemma VisitIs(w: Window, s: State, size: nat, value: u64)
    requires w.Valid() && s.offset < |w.bytes| && Decode(w.bytes[s.offset..]) == Ok(Uleb(value, size))
    requires s.rest != [] || value == 0
    requires EdgesFrom(s, size, value) < |w.bytes|
    ensures var pos := EdgesFrom(s, size, value);
            VisitNode(w, s.offset, s.rest) == FollowEdges(w, pos, w.bytes[pos - 1], s.rest)
  {
    hide Decode, FollowEdges;
  }

  /** A label of `length` bytes with its NUL and a child offset are stored at `pos`. */
  ghost predicate IsEdge(w: Window, pos: nat, length: nat, child: u64, size: nat) {
    && pos + length + 1 < |w.bytes|
    && NulFree(w.bytes[pos..pos + length]) && w.bytes[pos + length] == 0
    && Decode(w.bytes[pos + length + 1..]) == Ok(Uleb(child, size))
  }

  lemma EdgeIsRead(w: Window, pos: nat, length: nat, child: u64, size: nat)
    requires w.Valid() && IsEdge(w, pos, length, child, size)
    ensures ReadEdge(w, pos) == Ok(RawEdge(w.bytes[pos..pos + length], child, pos + length + 1 + size))
  {
    hide Decode, NulIndex;
    var n := pos + length;
    forall i | pos <= i < n ensures w.bytes[i] != 0 {
      assert w.bytes[i] == w.bytes[pos..n][i - pos];
    }
    NulIndexIs(w.bytes, pos, n);
  }

  /**
   The loop over `count` edges from `pos` on, by its first edge: a label that the rest of the symbol starts with
   is taken, where a child offset of 0 means that there is no child; any other edge is passed over, which fails
   if the trie ends behind it.
   */
  lemma EdgesInOrder(w: Window, pos: nat, count: nat, symbol: seq<u8>, length: nat, child: u64, size: nat)
    requires w.Valid() && pos < |w.bytes|
    ensures count == 0 ==> FollowEdges(w, pos, count, symbol) == NoChild
    ensures count > 0 && IsEdge(w, pos, length, child, size) ==>
              var name, behind := w.bytes[pos..pos + length], pos + length + 1 + size;
              FollowEdges(w, pos, count, symbol)
              == if name <= symbol then if child == 0 then NoChild else Descend(child, symbol[length..])
                 else if behind >= |w.bytes| then Failed(EOutOfRange)
                 else FollowEdges(w, behind, count - 1, symbol)
  {
    hide ReadEdge, IsEdge, Decode;
    if count > 0 && IsEdge(w, pos, length, child, size) {
      EdgeIsRead(w, pos, length, child, size);
      EdgeFitsBytes(w, pos, length, child, size);
    }
  }

  lemma EdgeFitsBytes(w: Window, pos: nat, length: nat, child: u64, size: nat)
    requires IsEdge(w, pos, length, child, size)
    ensures pos + length + 1 + size <= |w.bytes|
  {
  }

  /**
   A label without a NUL, or with its NUL as the last byte, is out of range; an unreadable child
   offset fails as such.
   */
  lemma BrokenEdge(w: Window, pos: nat, count: nat, symbol: seq<u8>)
    requires w.Valid() && pos < |w.bytes| && count > 0
    ensures NulIndex(w.bytes, pos) + 1 >= |w.bytes| ==> FollowEdges(w, pos, count, symbol) == Failed(EOutOfRange)
    ensures var n := NulIndex(w.bytes, pos);
            n + 1 < |w.bytes| && Decode(w.bytes[n + 1..]).Err? ==>
              FollowEdges(w, pos, count, symbol) == Failed(Decode(w.bytes[n + 1..]).error)
  {
    hide Decode, NulIndex;
  }

  /** What the loop over the edges means for the lookup. */
  lemma EdgesDecide(w: Window, s: State, size: nat, value: u64)
    requires w.Valid() && s.offset < |w.bytes| && Decode(w.bytes[s.offset..]) == Ok(Uleb(value, size))
    requires s.rest != [] || value == 0
    requires EdgesFrom(s, size, value) < |w.bytes|
    ensures var pos := EdgesFrom(s, size, value);
            var visit := FollowEdges(w, pos, w.bytes[pos - 1], s.rest);
            && (visit.Failed? ==> EndsAt(w, s, Miss(visit.error)))
            && (visit.NoChild? ==> EndsAt(w, s, Miss(ENotFound)))
            && (visit.Descend? ==> GoesOnAt(w, s, State(visit.child, visit.rest)))
  {
    hide Decode, FollowEdges, ReadEdgeList, VisitNode;
    VisitIs(w, s, size, value);
  }

  // ---------------------------------------------------------------------------
  //  Two tries, byte by byte
  // ---------------------------------------------------------------------------

  /** A lookup goes on where the next node says. */
  lemma LookupGoesOn(w: Window, symbol: seq<u8>, t: State, end: Outcome)
    requires GoesOnAt(w, State(0, symbol), t) && EndsAt(w, t, end)
    ensures Ends(w, symbol) && Lookup(w, symbol) == end
  {
    hide VisitNext;
    RunUnfolds(Visitor(w), State(0, symbol), 1);
    FinalIs(Visitor(w), State(0, symbol), 1);
  }

  lemma LookupEndsAtOnce(w: Window, symbol: seq<u8>, end: Outcome)
    requires EndsAt(w, State(0, symbol), end)
    ensures Ends(w, symbol) && Lookup(w, symbol) == end
  {
    hide VisitNext;
    FinalIs(Visitor(w), State(0, symbol), 0);
  }

  /**
   The root has one edge, "_" to offset 5; the record there has two bytes of information, 0 and 16, and no edges.
   A byte of padding follows.
   */
  const SMALL_TRIE: seq<u8> := [0, 1, 95, 0, 5, 2, 0, 16, 0, 0]

  lemma SmallTrie(start: u64)
    requires start + 10 < TWO64
    ensures var w := Window(start, SMALL_TRIE);
            && Ends(w, [95]) && Lookup(w, [95]) == Hit(5) && HoldsPayload(w, 5, [0, 16])
            && Ends(w, []) && Lookup(w, []) == Miss(ENotFound)
            && Ends(w, [95, 97]) && Lookup(w, [95, 97]) == Miss(ENotFound)
  {
    var w := Window(start, SMALL_TRIE);
    assert w.Valid() by { SmallTrieLength(); }
    hide *;
    SmallTrieFrom(w, []);
    SmallTrieFrom(w, [95]);
    SmallTrieFrom(w, [95, 97]);
    assert [95][1..] == [] && [95, 97][1..] == [97];
    LookupEndsAtOnce(w, [], Miss(ENotFound));
    LookupGoesOn(w, [95], State(5, []), Hit(5));
    LookupGoesOn(w, [95, 97], State(5, [97]), Miss(ENotFound));
    SmallTrieHolds(w);
  }

  /** Every lookup in the small trie: the root asks for "_", the record behind it for the end of the symbol. */
  lemma SmallTrieFrom(w: Window, symbol: seq<u8>)
    requires w.Valid() && w.bytes == SMALL_TRIE
    ensures [95] <= symbol ==>
              && GoesOnAt(w, State(0, symbol), State(5, symbol[1..]))
              && EndsAt(w, State(5, symbol[1..]), if symbol == [95] then Hit(5) else Miss(ENotFound))
    ensures !([95] <= symbol) ==> EndsAt(w, State(0, symbol), Miss(ENotFound))
  {
    SmallTrieNumbers(w);
    hide Decode, FollowEdges, VisitNext, SMALL_TRIE, EndsAt, GoesOnAt, IsEdge;
    EdgesInOrder(w, 2, 1, symbol, 1, 5, 1);
    EdgesInOrder(w, 5, 0, symbol, 0, 0, 0);
    EdgesDecide(w, State(0, symbol), 1, 0);
    if [95] <= symbol {
      SmallTrieLeaf(w, symbol[1..]);
    }
  }

  lemma SmallTrieLeaf(w: Window, rest: seq<u8>)
    requires w.Valid() && w.bytes == SMALL_TRIE
    ensures EndsAt(w, State(5, rest), if rest == [] then Hit(5) else Miss(ENotFound))
  {
    SmallTrieNumbers(w);
    hide Decode, FollowEdges, VisitNext, SMALL_TRIE, EndsAt, GoesOnAt, IsEdge;
    if rest == [] {
      TerminalNode(w, State(5, rest), 1, 2);
    } else {
      EdgesInOrder(w, 9, 0, rest, 0, 0, 0);
      EdgesDecide(w, State(5, rest), 1, 2);
    }
  }

  lemma SmallTrieHolds(w: Window)
    requires w.bytes == SMALL_TRIE
    ensures HoldsPayload(w, 5, [0, 16])
  {
    SmallTrieNumbers(w);
    hide Decode;
  }

  lemma SmallTrieLength()
    ensures |SMALL_TRIE| == 10
  {
  }

  lemma SmallTrieNumbers(w: Window)
    requires w.bytes == SMALL_TRIE
    ensures |w.bytes| == 10 && w.bytes[1] == 1 && w.bytes[2..3] == [95] && w.bytes[6..8] == [0, 16] && w.bytes[8] == 0
    ensures Decode(w.bytes[0..]) == Ok(Uleb(0, 1)) && Decode(w.bytes[5..]) == Ok(Uleb(2, 1))
    ensures IsEdge(w, 2, 1, 5, 1)
  {
    hide Decode;
    SingleGroup(w.bytes[0..]);
    SingleGroup(w.bytes[4..]);
    SingleGroup(w.bytes[5..]);
  }

  /** A child offset of 0 does not lead back to the root: the symbol is absent. */
  lemma ChildAtZeroIsAbsent(start: u64)
    requires start + 6 < TWO64
    ensures var w := Window(start, [0, 1, 97, 0, 0, 0]);
            Ends(w, [97]) && Lookup(w, [97]) == Miss(ENotFound)
  {
    var w := Window(start, [0, 1, 97, 0, 0, 0]);
    SingleGroup(w.bytes[0..]);
    SingleGroup(w.bytes[4..]);
    assert w.bytes[2..3] == [97] && IsEdge(w, 2, 1, 0, 1);
    hide Decode, FollowEdges, VisitNext, Ends, Lookup, IsEdge;
    EdgesInOrder(w, 2, 1, [97], 1, 0, 1);
    EdgesDecide(w, State(0, [97]), 1, 0);
    LookupEndsAtOnce(w, [97], Miss(ENotFound));
  }
}
