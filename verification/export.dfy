/**
 libMachO/MachO_ABI/Exports/export.c: from the node a trie lookup returns to the bytes of
 its export information.
 */
module TrieExports {
  import opened Machine
  import opened Core
  import opened Memory
  import opened Leb128
  import opened LinkEdit
  import opened TrieWalk
  import opened TrieEncoding
  import opened TrieSerialise
  import opened ExportsTries

  /** The longest terminal size that is read, sizeof(uint64_t) bytes. */
  const MAX_GROUPS: nat := 8

  /** The terminal size at the front of the bytes from a node to the end of the segment. */
  function TerminalSize(s: seq<u8>): (r: Result<Uleb>)
    ensures r.Ok? ==> 1 <= r.value.size <= |s|
    ensures r.Err? ==> r.error != ESuccess
  {
    var groups := LastGroup(s) + 1;
    if groups <= |s| && groups <= MAX_GROUPS then Decode(s)
    else if |s| < MAX_GROUPS then Err(EInval)
    else Err(EInvalidData)
  }

  /** Where a node's export information is. */
  datatype Terminal = Terminal(data: u64, size: u64)

  /** What mk_export_init stores for the node at a host pointer. */
  function ExportAt(t: Table, node: u64): (r: Result<Terminal>)
    requires t.Valid()
    ensures r.Err? ==> r.error != ESuccess
  {
    var m, pos := t.mapping, node - t.mapping.host;
    if pos < 0 || pos >= |m.bytes| then Err(EInval)
    else
      match TerminalSize(m.bytes[pos..])
      case Err(e) => Err(e)
      case Ok(u) =>
        var start := m.target + pos + u.size;
        if u.value == 0 || pos + u.size + u.value > |m.bytes| then Err(EInval)
        else if start < t.range.location || start + u.value > t.range.location + t.range.length then Err(EInval)
        else Ok(Terminal(node + u.size, u.value))
  }

  // ---------------------------------------------------------------------------
  //  The initialiser
  // ---------------------------------------------------------------------------

  /** The first block of mk_export_init: tries ever longer windows until a whole ULEB128 fits in one. */
  method ReadTerminalSize(m: MemoryObject, node: u64) returns (err: Error, size: u64, ulebSize: nat)
    requires m.Valid()
    ensures !m.HoldsHost(node, 1) ==> err == EInval
    ensures m.HoldsHost(node, 1) ==>
              match TerminalSize(m.bytes[node - m.host..])
              case Ok(u) => err == ESuccess && size == u.value && ulebSize == u.size
              case Err(e) => err == e
  {
    hide Decode, LastGroup, GroupsValue;
    size, ulebSize := 0, 0;
    if m.VerifyLocalPointer(0, node, 1) != ESuccess {
      return EInval, size, ulebSize;
    }
    ghost var all := m.bytes[node - m.host..];
    size, ulebSize := m.Read(node), 1;
    if size <= 127 {
      OneGroup(all);
      return ESuccess, size, ulebSize;
    }
    var s := 2;
    while s <= MAX_GROUPS
      invariant 2 <= s <= MAX_GROUPS + 1
      invariant s <= LastGroup(all) + 1 && s <= |all| + 1
    {
      if m.VerifyLocalPointer(0, node, s) != ESuccess {
        return EInval, size, ulebSize;
      }
      WindowDecode(all, s);
      assert m.bytes[node - m.host..node + s - m.host] == all[..s];
      err, size, ulebSize := CopyUleb128(m, node, node + s, size, ulebSize);
      if err == ESuccess {
        return;
      }
      // Windows this short only ever fail for want of more bytes.
      assert err == EOutOfRange;
      s := s + 1;
    }
    err := EInvalidData;
  }

  lemma OneGroup(s: seq<u8>)
    requires s != [] && s[0] <= 127
    ensures TerminalSize(s) == Ok(Uleb(s[0], 1))
  {
    hide Decode;
    SingleGroup(s);
  }

  /** A window of up to eight bytes holds the whole number iff its last group is inside. */
  lemma WindowDecode(all: seq<u8>, s: nat)
    requires s <= |all| && s <= MAX_GROUPS && s <= LastGroup(all) + 1
    ensures LastGroup(all) < s ==> Decode(all[..s]).Ok? && TerminalSize(all) == Decode(all[..s])
    ensures LastGroup(all) >= s ==> Decode(all[..s]) == Err(EOutOfRange)
  {
    hide Decode, LastGroup, GroupsValue;
    var w := all[..s];
    if LastGroup(all) < s {
      LastGroupIs(w, s - 1);
      assert all[..s] == w[..s];
      DecodeLocal(w, all);
    } else {
      assert forall i :: 0 <= i < s ==> w[i] == all[i] >= 0x80;
      assert LastGroup(w) == s;
    }
  }

  class Export {
    var trie: ExportsTrie
    var terminalData: u64
    var terminalDataSize: u64
    var live: bool  // the vtable pointer is set

    constructor (unset: ExportsTrie)
      ensures !live
    {
      trie := unset;
      terminalData, terminalDataSize := 0, 0;
      live := false;
    }

    /** mk_export_init. */
    method Init(trie: ExportsTrie, node: u64) returns (err: Error)
      requires trie.Valid()
      modifies this
      ensures match ExportAt(trie.View(), node)
              case Ok(x) => err == ESuccess && live && this.trie == trie && terminalData == x.data
                && terminalDataSize == x.size
              case Err(e) => err == e && live == old(live) && this.trie == old(this.trie)
                             && terminalData == old(terminalData) && terminalDataSize == old(terminalDataSize)
    {
      hide TerminalSize;
      var m := trie.segment.mapping;
      var size, ulebSize;
      err, size, ulebSize := ReadTerminalSize(m, node);
      if err != ESuccess {
        return;
      }
      if size == 0 {
        return EInval;
      }
      var address := m.UnmapAddress(ulebSize, node, size);
      if address.Err? {
        return EInval;
      }
      if trie.range.ContainsRange(Range(address.value, size), false) != ESuccess {
        return EInval;
      }
      live := true;
      this.trie := trie;
      terminalData, terminalDataSize := node + ulebSize, size;
    }
  }

  // ---------------------------------------------------------------------------
  //  From a lookup to the export information
  // ---------------------------------------------------------------------------

  /** The terminal size of a record, read without regard to where the trie ends. */
  lemma RecordSizeIs(t: Table, o: nat)
    requires t.Valid() && t.Covered() && o < t.range.length && Decode(t.Bytes()[o..]).Ok?
    ensures var pos := t.PointerTo(o) - t.mapping.host;
            && pos == t.range.location - t.mapping.target + o
            && TerminalSize(t.mapping.bytes[pos..])
               == if Decode(t.Bytes()[o..]).value.size > MAX_GROUPS then Err(EInvalidData) else Decode(t.Bytes()[o..])
  {
    var pos := t.PointerTo(o) - t.mapping.host;
    var part, all := t.Bytes()[o..], t.mapping.bytes[pos..];
    var size := Decode(part).value.size;
    assert part == all[..|part|];
    assert all[..size] == part[..size];
    DecodeLocal(part, all);
  }

  /**
   A lookup does not check the export information of the node it returns. A node can be turned into an export
   iff its size takes at most eight groups, is not 0, and the information lies inside the trie.
   */
  lemma ExportOfRecord(t: Table, o: nat)
    requires t.Valid() && t.Covered() && o < t.range.length
    requires Decode(t.Bytes()[o..]).Ok?
    ensures var u := Decode(t.Bytes()[o..]).value;
            ExportAt(t, t.PointerTo(o))
            == if u.size > 8 then Err(EInvalidData)
               else if u.value == 0 then Err(EInval)
               else if o + u.size + u.value > t.range.length then Err(EInval)
               else Ok(Terminal(t.PointerTo(o) + u.size, u.value))
  {
    hide Decode, TerminalSize;
    RecordSizeIs(t, o);
  }

  /** A node that is not in the segment's mapping is refused. */
  lemma NoExportOutside(t: Table, node: u64)
    requires t.Valid() && !t.mapping.HoldsHost(node, 1)
    ensures ExportAt(t, node) == Err(EInval)
  {
  }

  /** The bytes an export refers to. */
  function InfoOf(t: Table, x: Terminal): seq<u8>
    requires t.mapping.host <= x.data && x.data - t.mapping.host + x.size <= |t.mapping.bytes|
  {
    t.mapping.bytes[x.data - t.mapping.host..x.data - t.mapping.host + x.size]
  }

  /** The information an export is made from is inside the trie. */
  lemma ExportIsInside(t: Table, node: u64)
    requires t.Valid() && ExportAt(t, node).Ok?
    ensures var x := ExportAt(t, node).value;
            && 0 < x.size && t.mapping.host <= x.data && x.data - t.mapping.host + x.size <= |t.mapping.bytes|
            && t.range.location <= t.mapping.target + (x.data - t.mapping.host)
            && t.mapping.target + (x.data - t.mapping.host) + x.size <= t.range.location + t.range.length
  {
    hide TerminalSize;
  }

  /** The information of the record at `o`, as bytes of the trie and as bytes of the segment. */
  lemma InfoIsPayload(t: Table, o: nat, payload: seq<u8>)
    requires t.Valid() && t.Covered() && HoldsPayload(TrieWindow(t), o, payload)
    requires Decode(t.Bytes()[o..]).value.size <= MAX_GROUPS
    ensures ExportAt(t, t.PointerTo(o)).Ok?
    ensures var x := ExportAt(t, t.PointerTo(o)).value;
            t.mapping.host <= x.data && x.data - t.mapping.host + x.size <= |t.mapping.bytes| && InfoOf(t, x) == payload
  {
    hide Decode, TerminalSize, ExportAt, Table.Bytes;
    ExportOfRecord(t, o);
    ExportIsInside(t, t.PointerTo(o));
    var size := Decode(t.Bytes()[o..]).value.size;
    BytesOfTable(t, o + size, o + size + |payload|);
  }

  /** The symbol's lookup leads to a node that can be turned into an export with this information. */
  ghost predicate ExportedAs(t: Table, name: seq<u8>, payload: seq<u8>)
    requires t.Valid() && t.Covered() && Ends(TrieWindow(t), name)
  {
    && Lookup(TrieWindow(t), name).Hit?
    && var exported := ExportAt(t, t.PointerTo(Lookup(TrieWindow(t), name).offset));
    && exported.Ok?
    && t.mapping.host <= exported.value.data
    && exported.value.data - t.mapping.host + exported.value.size <= |t.mapping.bytes|
    && InfoOf(t, exported.value) == payload
  }

  /** The terminal size of the record that is found is stored in at most eight groups. */
  ghost predicate FoundSizeIsShort(t: Table, name: seq<u8>)
    requires t.Valid() && t.Covered() && Ends(TrieWindow(t), name)
  {
    Lookup(TrieWindow(t), name).Hit? ==>
      var o := Lookup(TrieWindow(t), name).offset;
      o < t.range.length && Decode(t.Bytes()[o..]).Ok? ==> Decode(t.Bytes()[o..]).value.size <= MAX_GROUPS
  }

  /**
   From symbol to export information: in a segment that holds any bytes that represent a trie, looking a
   symbol up and making an export of the node gives exactly the information the trie has for the symbol,
   except when the terminal size of the node is stored in more than eight groups: then there is no export.
   */
  lemma ExportsAreFound(t: Table, n: Node, name: seq<u8>, payload: seq<u8>)
    requires t.Valid() && t.Covered() && Represents(TrieWindow(t), 0, n) && WellFormed(n)
    ensures Ends(TrieWindow(t), name)
    ensures ExportedAs(t, name, payload) <==> Exports(n, name, payload) && FoundSizeIsShort(t, name)
  {
    hide Decode, Represents, WellFormed, Exports, Find, Ends, Lookup, ExportAt;
    var w := TrieWindow(t);
    LookupComplete(w, n, name, payload);
    FindIsExports(n, name, payload);
    if Find(n, name).Some? {
      var found := Find(n, name).value;
      FindIsExports(n, name, found);
      LookupComplete(w, n, name, found);
      var o := Lookup(w, name).offset;
      ExportOfRecord(t, o);
      if FoundSizeIsShort(t, name) {
        InfoIsPayload(t, o, found);
      }
    }
  }

  /** In a serialised trie the terminal size of every node that is found is stored in its least width. */
  lemma {:induction false} FoundSizeIsLeast(w: Window, at: nat, n: Node, symbol: seq<u8>)
    requires w.Valid() && WellFormed(n) && at + TotalSize(n) < TWO64 && StoredAt(w, at, Serialise(n, at))
    requires Represents(w, at, n) && Find(n, symbol).Some?
    ensures var end := End(w, at, n, symbol);
            end.Hit? && end.offset < |w.bytes| && Decode(w.bytes[end.offset..]).Ok?
            && Decode(w.bytes[end.offset..]).value.size == Width(Decode(w.bytes[end.offset..]).value.value)
            && Decode(w.bytes[end.offset..]).value.value < |w.bytes|
    decreases n
  {
    var children, pos, k := at + RecordSize(n), EdgesAt(w, at), EdgeFor(n.edges, symbol);
    SerialisedParts(w, at, n);
    if !(symbol == [] && n.payload != []) {
      SerialisedChildAt(w, pos, n.edges, children, k);
      var c, child, rest := ChildAt(w, pos, n.edges, k), n.edges[k].child, symbol[|n.edges[k].name|..];
      hide StoredAt, WellFormed, GoodBranch, Serialise, EdgesAt, RepresentsEdges, HasHeader, RecordSize,
        ChildAt, EdgeFor, Decode;
      FoundSizeIsLeast(w, c, child, rest);
    }
  }

  /**
   The same for the serialiser's output in a table of up to 2^32 - 1 bytes, with no further condition: a symbol
   is exported with some information iff the lookup and mk_export_init arrive at exactly that information.
   */
  lemma SerialisedExportsAreFound(t: Table, n: Node, padding: seq<u8>, name: seq<u8>, payload: seq<u8>)
    requires t.Valid() && t.Covered() && WellFormed(n) && t.range.length <= U32_MAX
    requires TotalSize(n) < TWO64 && t.Bytes() == Serialise(n, 0) + padding
    ensures Ends(TrieWindow(t), name)
    ensures Exports(n, name, payload) <==> ExportedAs(t, name, payload)
  {
    hide Serialise, WellFormed, Exports, Find, Represents, ExportedAs, Decode, TotalSize, End, Width;
    var w := TrieWindow(t);
    assert StoredAt(w, 0, Serialise(n, 0));
    SerialisedRepresents(w, 0, n);
    LookupComplete(w, n, name, payload);
    if Lookup(w, name).Hit? {
      FoundSizeIsLeast(w, 0, n, name);
      LookupIsEnd(w, n, name);
      WidthOfU64(Decode(w.bytes[Lookup(w, name).offset..]).value.value);
    }
    ExportsAreFound(t, n, name, payload);
  }
}
