/**
 Soundness and termination of the trie lookup on arbitrary bytes.
 */
module TriePaths {
  import opened Core
  import opened Machine
  import opened Leb128
  import opened Iteration
  import opened TrieWalk

  // ---------------------------------------------------------------------------
  //  Paths through decoded records, defined without mentioning a lookup
  // ---------------------------------------------------------------------------

  datatype Edge = Edge(name: seq<u8>, child: nat)

  /** Among the `count` edges stored from `pos` on there is one with this label and child offset. */
  ghost predicate EdgeAmong(w: Window, pos: nat, count: nat, e: Edge)
    decreases count
  {
    && count > 0
    && pos < |w.bytes|
    && ReadEdge(w, pos).Ok?
    && var raw := ReadEdge(w, pos).value;
    && (e == Edge(raw.name, raw.child) || EdgeAmong(w, raw.end, count - 1, e))
  }

  /** The record at `o` has this edge. */
  ghost predicate HasEdge(w: Window, o: nat, e: Edge) {
    && o < |w.bytes|
    && Decode(w.bytes[o..]).Ok?
    && var list := ReadEdgeList(w, o, Decode(w.bytes[o..]).value);
    && list.Ok?
    && EdgeAmong(w, list.value.pos, list.value.count, e)
  }

  /** The record at `o` carries export information. */
  ghost predicate IsTerminal(w: Window, o: nat) {
    o < |w.bytes| && Decode(w.bytes[o..]).Ok? && Decode(w.bytes[o..]).value.value != 0
  }

  /** `path` leads from the record at `o` to the record at `last`. */
  ghost predicate IsPath(w: Window, o: nat, path: seq<Edge>, last: nat)
    decreases |path|
  {
    if path == [] then o == last
    else HasEdge(w, o, path[0]) && IsPath(w, path[0].child, path[1..], last)
  }

  /** The bytes spelled by the labels of a path. */
  ghost function Spelling(path: seq<Edge>): seq<u8> {
    if path == [] then [] else path[0].name + Spelling(path[1..])
  }

  // ---------------------------------------------------------------------------
  //  Soundness
  // ---------------------------------------------------------------------------

  /** A descent follows a decoded edge and consumes exactly its label. */
  lemma {:induction false} DescentFollowsEdge(w: Window, pos: nat, count: nat, symbol: seq<u8>) returns (e: Edge)
    requires pos < |w.bytes| && FollowEdges(w, pos, count, symbol).Descend?
    ensures EdgeAmong(w, pos, count, e)
    ensures FollowEdges(w, pos, count, symbol).child == e.child
    ensures symbol == e.name + FollowEdges(w, pos, count, symbol).rest
    decreases count
  {
    hide ReadEdge;
    var raw := ReadEdge(w, pos).value;
    if raw.name <= symbol {
      e := Edge(raw.name, raw.child);
      assert symbol == raw.name + symbol[|raw.name|..];
    } else {
      e := DescentFollowsEdge(w, raw.end, count - 1, symbol);
    }
  }

  lemma VisitFollowsEdge(w: Window, s: State) returns (e: Edge)
    requires Visitor(w)(s).Next?
    ensures s.offset < |w.bytes| && HasEdge(w, s.offset, e)
    ensures Visitor(w)(s).state.offset == e.child && s.rest == e.name + Visitor(w)(s).state.rest
  {
    hide ReadEdge, ReadEdgeList, Decode;
    var list := ReadEdgeList(w, s.offset, Decode(w.bytes[s.offset..]).value).value;
    e := DescentFollowsEdge(w, list.pos, list.count, s.rest);
  }

  lemma FoundIsTerminal(w: Window, s: State)
    requires Visitor(w)(s).Done? && Visitor(w)(s).result.Hit?
    ensures Visitor(w)(s).result.offset == s.offset && s.rest == [] && IsTerminal(w, s.offset)
  {
    hide FollowEdges;
    hide ReadEdgeList;
    var visit := VisitNode(w, s.offset, s.rest);
    assert visit.Found?;
  }

  /** Whatever the bytes, a hit is a terminal record reached by edges whose labels spell the symbol exactly. */
  lemma {:induction false} HitIsSpelled(w: Window, s: State, fuel: nat) returns (path: seq<Edge>)
    requires Run(Visitor(w), s, fuel).Some? && Run(Visitor(w), s, fuel).value.Hit?
    ensures var last := Run(Visitor(w), s, fuel).value.offset;
            IsPath(w, s.offset, path, last) && Spelling(path) == s.rest && IsTerminal(w, last)
    decreases fuel
  {
    hide VisitNext, HasEdge, IsTerminal;
    match Visitor(w)(s)
    case Done(_) =>
      FoundIsTerminal(w, s);
      path := [];
    case Next(t) =>
      var e := VisitFollowsEdge(w, s);
      var tail := HitIsSpelled(w, t, fuel - 1);
      path := [e] + tail;
      assert path[1..] == tail;
  }

  /** Soundness of lookups, on arbitrary bytes. */
  lemma LookupSound(w: Window, symbol: seq<u8>)
    requires Ends(w, symbol) && Lookup(w, symbol).Hit?
    ensures exists path :: IsPath(w, 0, path, Lookup(w, symbol).offset) && Spelling(path) == symbol
    ensures IsTerminal(w, Lookup(w, symbol).offset)
  {
    var f, s := Visitor(w), State(0, symbol);
    var fuel: nat :| Run(f, s, fuel).Some? && Final(f, s) == Run(f, s, fuel).value;
    var path := HitIsSpelled(w, s, fuel);
  }

  // ---------------------------------------------------------------------------
  //  Termination when labels are not empty
  // ---------------------------------------------------------------------------

  /** No edge that can be reached from the record at `o` has an empty label. */
  ghost predicate NoEmptyLabels(w: Window, o: nat) {
    forall path, last, e :: IsPath(w, o, path, last) && HasEdge(w, last, e) ==> e.name != []
  }

  /** What holds of all edges reachable from a record holds of those reachable from its children. */
  lemma EdgeLeadsOn(w: Window, o: nat, e: Edge)
    requires NoEmptyLabels(w, o) && HasEdge(w, o, e)
    ensures e.name != [] && NoEmptyLabels(w, e.child)
  {
    hide HasEdge;
    assert IsPath(w, o, [], o);
    forall path, last, f | IsPath(w, e.child, path, last) && HasEdge(w, last, f) ensures f.name != [] {
      assert ([e] + path)[1..] == path;
      assert IsPath(w, o, [e] + path, last);
    }
  }

  /**
   If no label met from a node on is empty, a lookup follows at most |symbol| edges from it, even if
   child offsets form cycles.
   */
  lemma {:induction false} NonEmptyLabelsTerminate(w: Window, s: State)
    requires NoEmptyLabels(w, s.offset)
    ensures Run(Visitor(w), s, |s.rest|).Some?
    decreases |s.rest|
  {
    hide VisitNext, HasEdge, NoEmptyLabels;
    var f := Visitor(w);
    RunUnfolds(f, s, |s.rest|);
    if f(s).Next? {
      var t := f(s).state;
      var e := VisitFollowsEdge(w, s);
      EdgeLeadsOn(w, s.offset, e);
      NonEmptyLabelsTerminate(w, t);
      MoreFuel(f, t, |t.rest|, |s.rest| - 1);
    }
  }

  // ---------------------------------------------------------------------------
  //  Exactly when a lookup does not terminate
  // ---------------------------------------------------------------------------

  /** The lookup comes back to a node it has visited before, with the same bytes left to spell. */
  ghost predicate RunsInCircle(w: Window, symbol: seq<u8>) {
    exists i, j :: Circles(Visitor(w), State(0, symbol), i, j)
  }

  /** The number of different states a lookup can visit. */
  ghost function StateCount(w: Window, symbol: seq<u8>): nat {
    |w.bytes| * (|symbol| + 1)
  }

  /** The bytes left to spell only ever get shorter at the front. */
  lemma {:induction false} RestIsSuffix(w: Window, s: State, i: nat, n: nat)
    requires After(Visitor(w), s, n).Some? && i <= n
    ensures After(Visitor(w), s, i).Some?
    ensures var a, b := After(Visitor(w), s, i).value.rest, After(Visitor(w), s, n).value.rest;
            |b| <= |a| && b == a[|a| - |b|..]
    decreases n - i
  {
    hide VisitNext, HasEdge;
    if i < n {
      RestIsSuffix(w, s, i + 1, n);
      EarlierMoves(Visitor(w), s, i, n);
      var e := VisitFollowsEdge(w, After(Visitor(w), s, i).value);
    }
  }

  lemma StateNumberBound(w: Window, symbol: seq<u8>, n: nat)
    requires Moves(Visitor(w), State(0, symbol), n)
    ensures var t := After(Visitor(w), State(0, symbol), n).value;
            |w.bytes| * |t.rest| + t.offset < StateCount(w, symbol)
  {
    hide VisitNext, HasEdge;
    RestIsSuffix(w, State(0, symbol), 0, n);
    var t := After(Visitor(w), State(0, symbol), n).value;
    var e := VisitFollowsEdge(w, t);
    assert |w.bytes| * |t.rest| <= |w.bytes| * |symbol|;
  }

  lemma SameNumberSameState(w: Window, symbol: seq<u8>, i: nat, j: nat)
    requires i < j && Moves(Visitor(w), State(0, symbol), i) && Moves(Visitor(w), State(0, symbol), j)
    requires var a, b := After(Visitor(w), State(0, symbol), i).value, After(Visitor(w), State(0, symbol), j).value;
             |w.bytes| * |a.rest| + a.offset == |w.bytes| * |b.rest| + b.offset
    ensures Circles(Visitor(w), State(0, symbol), i, j)
  {
    var s := State(0, symbol);
    var a, b := After(Visitor(w), s, i).value, After(Visitor(w), s, j).value;
    RestIsSuffix(w, s, i, j);
    var e := VisitFollowsEdge(w, a);
    var e' := VisitFollowsEdge(w, b);
    MixedRadix(|w.bytes|, |a.rest|, a.offset, |b.rest|, b.offset);
  }

  lemma MixedRadix(base: nat, a: nat, x: nat, b: nat, y: nat)
    requires x < base && y < base && base * a + x == base * b + y
    ensures a == b && x == y
  {
    assert base * (a - b) == base * a - base * b;
    MultiplesAreFarApart(base, a - b);
  }

  /**
   A lookup fails to terminate exactly when it comes back to a node with nothing spelled in between,
   and it is enough to watch it for as many edges as there are states.
   */
  lemma DivergesIffCircle(w: Window, symbol: seq<u8>)
    ensures !Ends(w, symbol) <==> RunsInCircle(w, symbol)
    ensures Ends(w, symbol) <==> Run(Visitor(w), State(0, symbol), StateCount(w, symbol)).Some?
  {
    hide VisitNext;
    var f, s := Visitor(w), State(0, symbol);
    var number: State -> nat := (t: State) => |w.bytes| * |t.rest| + t.offset;
    forall n | Moves(f, s, n) ensures number(After(f, s, n).value) < StateCount(w, symbol) {
      StateNumberBound(w, symbol, n);
    }
    forall i, j | i < j && Moves(f, s, i) && Moves(f, s, j)
      ensures number(After(f, s, i).value) == number(After(f, s, j).value) ==> Circles(f, s, i, j)
    {
      if number(After(f, s, i).value) == number(After(f, s, j).value) {
        SameNumberSameState(w, symbol, i, j);
      }
    }
    DivergesIffCircles(f, s, number, StateCount(w, symbol));
  }

  /** All the edges followed around a circle have empty labels. */
  lemma CirclesAreSpelledWithNothing(w: Window, symbol: seq<u8>, i: nat, j: nat, k: nat)
    requires i <= k < j && Circles(Visitor(w), State(0, symbol), i, j)
    ensures Moves(Visitor(w), State(0, symbol), k)
    ensures exists e: Edge :: e.name == []
                        && HasEdge(w, After(Visitor(w), State(0, symbol), k).value.offset, e)
                        && After(Visitor(w), State(0, symbol), k + 1)
                           == Some(State(e.child, After(Visitor(w), State(0, symbol), k).value.rest))
  {
    hide VisitNext, HasEdge;
    var f, s := Visitor(w), State(0, symbol);
    EarlierMoves(f, s, k, j);
    RestIsSuffix(w, s, i, k);
    RestIsSuffix(w, s, k, k + 1);
    RestIsSuffix(w, s, k + 1, j);
    var e := VisitFollowsEdge(w, After(f, s, k).value);
  }

  /**
   The root and the node at offset 4 each have one edge, with an empty label, to offset 4:
   no lookup in a trie that starts like this ever returns.
   */
  lemma DivergingTrie(w: Window, symbol: seq<u8>)
    requires w.Valid() && |w.bytes| > 8
    requires w.bytes[0..4] == [0, 1, 0, 4] && w.bytes[4..8] == [0, 1, 0, 4]
    ensures !Ends(w, symbol)
  {
    hide VisitNext;
    EmptyEdgeTo4(w, 0, symbol);
    EmptyEdgeTo4(w, 4, symbol);
    SelfLoopCircles(Visitor(w), State(0, symbol), State(4, symbol));
    DivergesIffCircle(w, symbol);
  }

  lemma EmptyEdgeTo4(w: Window, o: nat, symbol: seq<u8>)
    requires w.Valid() && o + 4 < |w.bytes| && w.bytes[o..o + 4] == [0, 1, 0, 4]
    ensures Visitor(w)(State(o, symbol)) == Next(State(4, symbol))
  {
    hide Decode, ReadEdge;
    var s := w.bytes;
    assert s[o..o + 4][0] == 0 && s[o..o + 4][1] == 1 && s[o..o + 4][2] == 0 && s[o..o + 4][3] == 4;
    SingleGroup(s[o..]);
    EmptyEdgeIs(w, o + 2, 4);
    assert symbol[0..] == symbol;
  }

  lemma EmptyEdgeIs(w: Window, pos: nat, child: u8)
    requires w.Valid() && pos + 1 < |w.bytes| && w.bytes[pos] == 0 && w.bytes[pos + 1] == child < 0x80
    ensures ReadEdge(w, pos) == Ok(RawEdge([], child, pos + 2))
  {
    hide Decode;
    SingleGroup(w.bytes[pos + 1..]);
  }
}
