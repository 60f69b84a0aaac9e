/**
 libMachO/MachO_ABI/exports_trie.c: the exports trie object and its lookup loop.
 */
module ExportsTries {
  import opened Machine
  import opened Core
  import opened Memory
  import opened CStrings
  import opened Leb128
  import opened Iteration
  import opened TrieWalk
  import opened LoadCommands
  import opened LinkEdit
  import opened MachOImages

  /** The bytes of a command that the trie's initialiser reads. */
  function FieldsLength(kind: u32): nat {
    if kind == LC_DYLD_EXPORTS_TRIE then 16
    else if kind == LC_DYLD_INFO || kind == LC_DYLD_INFO_ONLY then 48
    else 8
  }

  /** What mk_exports_trie_init stores as the trie's range. */
  function InitRange(segment: Segment, lc: Option<LoadCommand>): Result<Range>
    requires lc.Some? ==> lc.value.Holds(8) && lc.value.Holds(FieldsLength(lc.value.Kind()))
  {
    if lc.None? || FieldsLength(lc.value.Kind()) == 8 || lc.value.image != segment.image then Err(EInval)
    else
      var at := if lc.value.Kind() == LC_DYLD_EXPORTS_TRIE then 8 else 40;
      if lc.value.Word(at + 4) == 0 then Err(ENotFound)
      else Placement(segment, lc.value.Word(at), lc.value.Word(at + 4))
  }

  /** The range mk_exports_trie_init writes, also if it then fails. */
  function WrittenRange(segment: Segment, lc: Option<LoadCommand>): Option<Range>
    requires lc.Some? ==> lc.value.Holds(8) && lc.value.Holds(FieldsLength(lc.value.Kind()))
  {
    if lc.None? || FieldsLength(lc.value.Kind()) == 8 || lc.value.image != segment.image then None
    else
      var at := if lc.value.Kind() == LC_DYLD_EXPORTS_TRIE then 8 else 40;
      if lc.value.Word(at + 4) == 0 then None
      else StoredRange(segment, lc.value.Word(at), lc.value.Word(at + 4))
  }

  /** A C string: its only NUL is its last byte, and nothing behind that may be read. */
  ghost predicate IsCString(s: seq<u8>) {
    s != [] && s[|s| - 1] == 0 && NulFree(s[..|s| - 1])
  }

  /** The bytes of a C string from index `s` up to its NUL. */
  ghost function From(symbol: seq<u8>, s: nat): seq<u8>
    requires IsCString(symbol) && s < |symbol|
  {
    symbol[s..|symbol| - 1]
  }

  /** The window a lookup works on. */
  function TrieWindow(t: Table): Window
    requires t.Valid() && t.Covered()
  {
    Window(t.range.location, t.Bytes())
  }

  /**
   The innermost loop: walks over the label at `addr`, comparing it with the symbol from `s` on until
   they differ. Every byte is read inside the trie, and no byte of the symbol behind its NUL is read.
   */
  method MatchLabel(trie: MemoryObject, addr: u64, end: u64, symbol: seq<u8>, symbolIndex: nat)
    returns (labelLength: nat, wrongEdge: bool, s: nat)
    requires trie.Valid() && IsCString(symbol) && symbolIndex < |symbol|
    requires trie.host <= addr <= end == trie.host + |trie.bytes|
    ensures labelLength == NulIndex(trie.bytes, addr - trie.host) - (addr - trie.host)
    ensures wrongEdge <==> !(trie.bytes[addr - trie.host..addr - trie.host + labelLength] <= From(symbol, symbolIndex))
    ensures !wrongEdge ==> s == symbolIndex + labelLength < |symbol|
  {
    ghost var pos := addr - trie.host;
    labelLength, wrongEdge, s := 0, false, symbolIndex;
    while addr + labelLength != end && trie.Read(addr + labelLength) != 0
      invariant pos + labelLength <= |trie.bytes|
      invariant forall i :: pos <= i < pos + labelLength ==> trie.bytes[i] != 0
      invariant !wrongEdge ==> s == symbolIndex + labelLength < |symbol|
      invariant !wrongEdge ==> forall i :: 0 <= i < labelLength ==> Same(trie.bytes, pos, symbol, symbolIndex, i)
      invariant wrongEdge ==> exists i :: 0 <= i < labelLength && Differ(trie.bytes, pos, symbol, symbolIndex, i)
      decreases |trie.bytes| - (pos + labelLength)
    {
      if !wrongEdge {
        if trie.Read(addr + labelLength) != symbol[s] {
          wrongEdge := true;
          assert Differ(trie.bytes, pos, symbol, symbolIndex, labelLength);
        }
        assert !wrongEdge ==> Same(trie.bytes, pos, symbol, symbolIndex, labelLength);
        s := s + 1;
      }
      labelLength := labelLength + 1;
    }
    NulIndexIs(trie.bytes, pos, pos + labelLength);
    PrefixOfSymbol(trie.bytes, pos, labelLength, symbol, symbolIndex);
  }

  /** The label and the symbol differ at their i-th byte, which may be the symbol's NUL. */
  ghost predicate Differ(bytes: seq<u8>, pos: nat, symbol: seq<u8>, s: nat, i: nat) {
    pos + i < |bytes| && bytes[pos + i] != 0 && s + i < |symbol| && bytes[pos + i] != symbol[s + i]
  }

  ghost predicate Same(bytes: seq<u8>, pos: nat, symbol: seq<u8>, s: nat, i: nat) {
    pos + i < |bytes| && s + i < |symbol| && bytes[pos + i] == symbol[s + i]
  }

  /** A label is a prefix of the rest of the symbol iff no byte of it differs. */
  lemma PrefixOfSymbol(bytes: seq<u8>, pos: nat, n: nat, symbol: seq<u8>, s: nat)
    requires IsCString(symbol) && s < |symbol| && pos + n <= |bytes|
    ensures (exists i :: 0 <= i < n && Differ(bytes, pos, symbol, s, i)) ==> !(bytes[pos..pos + n] <= From(symbol, s))
    ensures s + n < |symbol| && (forall i :: 0 <= i < n ==> Same(bytes, pos, symbol, s, i)) ==>
              bytes[pos..pos + n] <= From(symbol, s)
  {
    var name, rest := bytes[pos..pos + n], From(symbol, s);
    if i :| 0 <= i < n && Differ(bytes, pos, symbol, s, i) {
      assert name[i] == bytes[pos + i];
      if i < |rest| {
        assert rest[i] == symbol[s + i];
      }
    }
    if s + n < |symbol| && (forall i :: 0 <= i < n ==> Same(bytes, pos, symbol, s, i)) {
      forall i | 0 <= i < n ensures name[i] == rest[i] {
        assert Same(bytes, pos, symbol, s, i);
      }
    }
  }

  // ---------------------------------------------------------------------------
  //  The edges of one node
  // ---------------------------------------------------------------------------

  /** The trie as a window. */
  function WindowOf(trie: MemoryObject): Window {
    Window(trie.target, trie.bytes)
  }

  /** The host and the target cursor are at the same byte of the trie. */
  ghost predicate InStep(trie: MemoryObject, pos: int, addr: u64, targetAddr: u64) {
    0 <= pos < |trie.bytes| && addr == trie.host + pos && targetAddr == trie.target + pos
  }

  lemma CursorIsInside(trie: MemoryObject, addr: u64, targetAddr: u64)
    requires InStep(trie, addr - trie.host, addr, targetAddr)
    ensures 0 <= addr - trie.host < |trie.bytes|
  {
  }

  lemma SizeIsInside(trie: MemoryObject, o: nat, value: u64, size: nat)
    requires o <= |trie.bytes| && Decode(trie.bytes[o..]) == Ok(Uleb(value, size))
    ensures size <= 10 && o + size <= |trie.bytes|
  {
  }

  /** What the result of trying the edges means in the terms of the lookup. */
  ghost predicate BranchIs(visit: Visit, symbol: seq<u8>, err: Error, branchOffset: u64, s: nat)
    requires IsCString(symbol)
  {
    match visit
    case Found => false
    case Failed(e) => err == e && err != ESuccess
    case NoChild => err == ESuccess && branchOffset == 0
    case Descend(child, rest) =>
      err == ESuccess && branchOffset == child != 0 && s < |symbol| && From(symbol, s) == rest
  }

  /** A range check on the target cursor is a skip in the window. */
  lemma SkipIsRangeCheck(w: Window, pos: nat, amount: u64)
    requires w.Valid() && pos <= |w.bytes|
    ensures var check := Range(w.start, |w.bytes|).ContainsAddress(amount, w.start + pos);
            match Skip(w, pos, amount)
            case Ok(next) => check == ESuccess && next == pos + amount
            case Err(e) => check == e != ESuccess
  {
  }

  lemma NoEdgesLeft(w: Window, pos: nat, name: seq<u8>)
    requires pos < |w.bytes|
    ensures FollowEdges(w, pos, 0, name) == NoChild
  {
  }

  /** The two range checks behind a label fail exactly when the edge cannot be read. */
  lemma LabelChecks(w: Window, pos: nat)
    requires w.Valid() && pos < |w.bytes|
    ensures var n := NulIndex(w.bytes, pos);
            var range := Range(w.start, |w.bytes|);
            var checkLabel := range.ContainsAddress(n - pos, w.start + pos);
            && (checkLabel == ESuccess <==> n < |w.bytes|)
            && (checkLabel != ESuccess ==> ReadEdge(w, pos) == Err(checkLabel))
    ensures var n := NulIndex(w.bytes, pos);
            var range := Range(w.start, |w.bytes|);
            n < |w.bytes| ==>
              var checkNul := range.ContainsAddress(1, w.start + n);
              && (checkNul == ESuccess <==> n + 1 < |w.bytes|)
              && (checkNul != ESuccess ==> ReadEdge(w, pos) == Err(checkNul))
  {
    hide Decode, NulIndex;
    var n := NulIndex(w.bytes, pos);
    SkipIsRangeCheck(w, pos, n - pos);
    SkipIsRangeCheck(w, n, 1);
  }

  /** Past the checks, the branch offset decides. */
  lemma ReadEdgeIs(w: Window, pos: nat)
    requires w.Valid() && pos < |w.bytes| && NulIndex(w.bytes, pos) + 1 < |w.bytes|
    ensures var n := NulIndex(w.bytes, pos);
            ReadEdge(w, pos) == match Decode(w.bytes[n + 1..])
                                case Err(e) => Err(e)
                                case Ok(branch) => Ok(RawEdge(w.bytes[pos..n], branch.value, n + 1 + branch.size))
  {
    hide Decode, NulIndex;
  }

  /** What trying the edge that was read leads to. */
  lemma FollowStep(w: Window, pos: nat, count: nat, name: seq<u8>)
    requires w.Valid() && pos < |w.bytes| && count > 0
    ensures match ReadEdge(w, pos)
            case Err(e) => FollowEdges(w, pos, count, name) == Failed(e)
            case Ok(raw) =>
              if raw.name <= name then
                FollowEdges(w, pos, count, name)
                  == if raw.child == 0 then NoChild else Descend(raw.child, name[|raw.name|..])
              else if raw.end < |w.bytes| then
                FollowEdges(w, pos, count, name) == FollowEdges(w, raw.end, count - 1, name)
              else FollowEdges(w, pos, count, name) == Failed(EOutOfRange)
  {
    hide ReadEdge;
  }

  /** The part of the loop body that walks over the label and its NUL. */
  method PassLabel(trie: MemoryObject, range: Range, addr: u64, targetAddr: u64, end: u64, symbol: seq<u8>,
    symbolIndex: nat)
    returns (err: Error, wrongEdge: bool, s: nat, branchAddr: u64, branchTargetAddr: u64)
    requires trie.Valid() && range == Range(trie.target, |trie.bytes|) && end == trie.host + |trie.bytes|
    requires InStep(trie, addr - trie.host, addr, targetAddr)
    requires IsCString(symbol) && symbolIndex < |symbol|
    ensures var pos := addr - trie.host;
            var n := NulIndex(trie.bytes, pos);
            && (err == ESuccess <==> n + 1 < |trie.bytes|)
            && (err != ESuccess ==> ReadEdge(WindowOf(trie), pos) == Err(err))
            && (err == ESuccess ==> InStep(trie, n + 1, branchAddr, branchTargetAddr))
            && (wrongEdge <==> !(trie.bytes[pos..n] <= From(symbol, symbolIndex)))
            && (!wrongEdge ==> s == symbolIndex + (n - pos) < |symbol|)
  {
    hide NulIndex, From, IsCString, Range.ContainsAddress, ReadEdge;
    branchAddr, branchTargetAddr := addr, targetAddr;
    LabelChecks(WindowOf(trie), addr - trie.host);
    var cOff: u64;
    cOff, wrongEdge, s := MatchLabel(trie, addr, end, symbol, symbolIndex);
    err := range.ContainsAddress(cOff, branchTargetAddr);
    if err != ESuccess {
      return;
    }
    branchTargetAddr, branchAddr := branchTargetAddr + cOff, branchAddr + cOff;
    err := range.ContainsAddress(1, branchTargetAddr);
    if err != ESuccess {
      return;
    }
    branchTargetAddr, branchAddr := branchTargetAddr + 1, branchAddr + 1;
  }

  /** The results of reading the edge at `pos` are those of ReadEdge. */
  ghost predicate EdgeRead(trie: MemoryObject, pos: nat, symbol: seq<u8>, symbolIndex: nat, err: Error, wrongEdge: bool,
                           branchOffset: u64, size: nat, s: nat, branchAddr: u64, branchTargetAddr: u64)
    requires pos < |trie.bytes| && IsCString(symbol) && symbolIndex < |symbol|
  {
    match ReadEdge(WindowOf(trie), pos)
    case Err(e) => err == e != ESuccess
    case Ok(raw) =>
      && err == ESuccess && branchOffset == raw.child
      && InStep(trie, pos + |raw.name| + 1, branchAddr, branchTargetAddr) && pos + |raw.name| + 1 + size == raw.end
      && (wrongEdge <==> !(raw.name <= From(symbol, symbolIndex)))
      && (!wrongEdge ==> s == symbolIndex + |raw.name| < |symbol|)
  }

  /** The part of the loop body that reads one edge. */
  method ReadOneEdge(trie: MemoryObject, range: Range, addr: u64, targetAddr: u64, end: u64, symbol: seq<u8>,
    symbolIndex: nat)
    returns (err: Error, wrongEdge: bool, branchOffset: u64, size: nat, s: nat, branchAddr: u64, branchTargetAddr: u64)
    requires trie.Valid() && range == Range(trie.target, |trie.bytes|) && end == trie.host + |trie.bytes|
    requires InStep(trie, addr - trie.host, addr, targetAddr)
    requires IsCString(symbol) && symbolIndex < |symbol|
    ensures EdgeRead(trie, addr - trie.host, symbol, symbolIndex,
                     err, wrongEdge, branchOffset, size, s, branchAddr, branchTargetAddr)
  {
    hide *;
    CursorIsInside(trie, addr, targetAddr);
    ghost var pos: nat := addr - trie.host;
    branchOffset, size := 0, 0;
    err, wrongEdge, s, branchAddr, branchTargetAddr :=
      PassLabel(trie, range, addr, targetAddr, end, symbol, symbolIndex);
    if err != ESuccess {
      EdgeNotRead(trie, pos, symbol, symbolIndex, err, wrongEdge, branchOffset, size, s, branchAddr, branchTargetAddr);
      return;
    }
    LabelPassed(trie, NulIndex(trie.bytes, pos) + 1, branchAddr, branchTargetAddr);
    err, branchOffset, size := CopyUleb128(trie, branchAddr, end, branchOffset, size);
    EdgeIsRead(trie, pos, symbol, symbolIndex, err, wrongEdge, branchOffset, size, s, branchAddr, branchTargetAddr);
  }

  lemma EdgeNotRead(trie: MemoryObject, pos: nat, symbol: seq<u8>, symbolIndex: nat, err: Error, wrongEdge: bool,
                    branchOffset: u64, size: nat, s: nat, branchAddr: u64, branchTargetAddr: u64)
    requires pos < |trie.bytes| && IsCString(symbol) && symbolIndex < |symbol|
    requires err != ESuccess && ReadEdge(WindowOf(trie), pos) == Err(err)
    ensures EdgeRead(trie, pos, symbol, symbolIndex, err, wrongEdge, branchOffset, size, s, branchAddr,
              branchTargetAddr)
  {
    hide ReadEdge;
  }

  lemma LabelPassed(trie: MemoryObject, pos: nat, branchAddr: u64, branchTargetAddr: u64)
    requires InStep(trie, pos, branchAddr, branchTargetAddr)
    ensures trie.host <= branchAddr <= trie.host + |trie.bytes| && branchAddr - trie.host == pos
    ensures trie.bytes[branchAddr - trie.host..|trie.bytes|] == trie.bytes[pos..]
  {
  }

  lemma EdgeIsRead(trie: MemoryObject, pos: nat, symbol: seq<u8>, symbolIndex: nat, err: Error, wrongEdge: bool,
                   branchOffset: u64, size: nat, s: nat, branchAddr: u64, branchTargetAddr: u64)
    requires trie.Valid() && pos < |trie.bytes| && IsCString(symbol) && symbolIndex < |symbol|
    requires var n := NulIndex(trie.bytes, pos);
             && n + 1 < |trie.bytes| && InStep(trie, n + 1, branchAddr, branchTargetAddr)
             && (wrongEdge <==> !(trie.bytes[pos..n] <= From(symbol, symbolIndex)))
             && (!wrongEdge ==> s == symbolIndex + (n - pos) < |symbol|)
             && match Decode(trie.bytes[n + 1..])
                case Ok(u) => err == ESuccess && branchOffset == u.value && size == u.size
                case Err(e) => err == e
    ensures EdgeRead(trie, pos, symbol, symbolIndex, err, wrongEdge, branchOffset, size, s, branchAddr,
              branchTargetAddr)
  {
    hide Decode, NulIndex, ReadEdge, From, IsCString;
    ReadEdgeIs(WindowOf(trie), pos);
  }

  /**
   The body of the loop over a node's children. It either fails, or takes this edge, or (when
   `wrongEdge`) moves both cursors to the next one.
   */
  method TryEdge(trie: MemoryObject, range: Range, addr: u64, targetAddr: u64, end: u64,
                 symbol: seq<u8>, symbolIndex: nat, ghost count: nat)
    returns (err: Error, wrongEdge: bool, branchOffset: u64, s: nat, nextAddr: u64, nextTargetAddr: u64)
    requires trie.Valid() && range == Range(trie.target, |trie.bytes|) && end == trie.host + |trie.bytes|
    requires InStep(trie, addr - trie.host, addr, targetAddr)
    requires IsCString(symbol) && symbolIndex < |symbol| && count > 0
    ensures var w, name := WindowOf(trie), From(symbol, symbolIndex);
            if err == ESuccess && wrongEdge then
              && InStep(trie, nextAddr - trie.host, nextAddr, nextTargetAddr)
              && FollowEdges(w, addr - trie.host, count, name) == FollowEdges(w, nextAddr - trie.host, count - 1, name)
            else BranchIs(FollowEdges(w, addr - trie.host, count, name), symbol, err, branchOffset, s)
  {
    hide ReadEdge, FollowEdges, IsCString;
    FollowStep(WindowOf(trie), addr - trie.host, count, From(symbol, symbolIndex));
    var size;
    err, wrongEdge, branchOffset, size, s, nextAddr, nextTargetAddr :=
      ReadOneEdge(trie, range, addr, targetAddr, end, symbol, symbolIndex);
    if err == ESuccess && wrongEdge {
      err := range.ContainsAddress(size, nextTargetAddr);
      if err == ESuccess {
        nextTargetAddr, nextAddr := nextTargetAddr + size, nextAddr + size;
        branchOffset := 0;
      }
    }
  }

  /** The loop over the children of a node, from the first edge on. */
  method FollowBranch(trie: MemoryObject, range: Range, firstAddr: u64, firstTargetAddr: u64, end: u64,
                      children: u8, symbol: seq<u8>, symbolIndex: nat)
    returns (err: Error, branchOffset: u64, s: nat)
    requires trie.Valid() && range == Range(trie.target, |trie.bytes|) && end == trie.host + |trie.bytes|
    requires InStep(trie, firstAddr - trie.host, firstAddr, firstTargetAddr)
    requires IsCString(symbol) && symbolIndex < |symbol|
    ensures BranchIs(FollowEdges(WindowOf(trie), firstAddr - trie.host, children, From(symbol, symbolIndex)),
                     symbol, err, branchOffset, s)
  {
    hide FollowEdges, From;
    ghost var w, name := WindowOf(trie), From(symbol, symbolIndex);
    var childCount: u8, addr: u64, targetAddr: u64 := children, firstAddr, firstTargetAddr;
    branchOffset, err, s := 0, ESuccess, symbolIndex;
    while childCount > 0
      invariant InStep(trie, addr - trie.host, addr, targetAddr)
      invariant branchOffset == 0 && err == ESuccess
      invariant FollowEdges(w, addr - trie.host, childCount, name)
                == FollowEdges(w, firstAddr - trie.host, children, name)
      decreases childCount
    {
      var wrongEdge, next;
      err, wrongEdge, branchOffset, next, addr, targetAddr :=
        TryEdge(trie, range, addr, targetAddr, end, symbol, symbolIndex, childCount);
      if err != ESuccess {
        return;
      }
      if !wrongEdge {
        s := next;
        return;
      }
      branchOffset := 0;
      childCount := childCount - 1;
    }
    NoEdgesLeft(w, addr - trie.host, name);
  }

  // ---------------------------------------------------------------------------
  //  One node
  // ---------------------------------------------------------------------------

  /** The three range checks between the terminal size and the edges fail exactly when the edges cannot be reached. */
  lemma HeaderChecks(w: Window, o: nat, terminal: Uleb)
    requires w.Valid() && o < |w.bytes| && o + terminal.size <= |w.bytes|
    ensures var range := Range(w.start, |w.bytes|);
            var info := o + terminal.size;
            var count := info + terminal.value;
            && (range.ContainsAddress(terminal.size, w.start + o) == ESuccess <==> info < |w.bytes|)
            && (info >= |w.bytes| ==>
              ReadEdgeList(w, o, terminal) == Err(range.ContainsAddress(terminal.size, w.start + o)))
            && (info < |w.bytes| ==>
                  && (range.ContainsAddress(terminal.value, w.start + info) == ESuccess <==> count < |w.bytes|)
                  && (count >= |w.bytes| ==>
                    ReadEdgeList(w, o, terminal) == Err(range.ContainsAddress(terminal.value, w.start + info)))
                  && (count < |w.bytes| ==>
                        && (range.ContainsAddress(1, w.start + count) == ESuccess <==> count + 1 < |w.bytes|)
                        && ReadEdgeList(w, o, terminal)
                          == if count + 1 < |w.bytes| then Ok(EdgeList(count + 1, w.bytes[count]))
                                                           else Err(range.ContainsAddress(1, w.start + count))))
  {
    SkipIsRangeCheck(w, o, terminal.size);
    if o + terminal.size < |w.bytes| {
      SkipIsRangeCheck(w, o + terminal.size, terminal.value);
      if o + terminal.size + terminal.value < |w.bytes| {
        SkipIsRangeCheck(w, o + terminal.size + terminal.value, 1);
      }
    }
  }

  /** Passes over the terminal size, the export information and the child count. */
  method PassHeader(trie: MemoryObject, range: Range, addr: u64, targetAddr: u64, terminalSize: u64, ulebSize: nat)
    returns (err: Error, childCount: u8, edgesAddr: u64, edgesTargetAddr: u64)
    requires trie.Valid() && range == Range(trie.target, |trie.bytes|)
    requires InStep(trie, addr - trie.host, addr, targetAddr)
    requires ulebSize <= 10 && addr - trie.host + ulebSize <= |trie.bytes|
    ensures match ReadEdgeList(WindowOf(trie), addr - trie.host, Uleb(terminalSize, ulebSize))
            case Err(e) => err == e != ESuccess
            case Ok(list) =>
              err == ESuccess && childCount == list.count && InStep(trie, list.pos, edgesAddr, edgesTargetAddr)
  {
    hide ReadEdgeList, Range.ContainsAddress;
    HeaderChecks(WindowOf(trie), addr - trie.host, Uleb(terminalSize, ulebSize));
    childCount, edgesAddr, edgesTargetAddr := 0, addr, targetAddr;
    err := range.ContainsAddress(ulebSize, edgesTargetAddr);
    if err != ESuccess {
      return;
    }
    edgesTargetAddr, edgesAddr := edgesTargetAddr + ulebSize, edgesAddr + ulebSize;
    err := range.ContainsAddress(terminalSize, edgesTargetAddr);
    if err != ESuccess {
      return;
    }
    edgesTargetAddr, edgesAddr := edgesTargetAddr + terminalSize, edgesAddr + terminalSize;
    childCount := trie.Read(edgesAddr);
    err := range.ContainsAddress(1, edgesTargetAddr);
    if err != ESuccess {
      return;
    }
    edgesTargetAddr, edgesAddr := edgesTargetAddr + 1, edgesAddr + 1;
  }

  /** The results of visiting a node are those of VisitNode. */
  ghost predicate NodeVisited(w: Window, o: nat, symbol: seq<u8>, symbolIndex: nat, err: Error, found: bool,
    branchOffset: u64, s: nat)
    requires o < |w.bytes| && IsCString(symbol) && symbolIndex < |symbol|
  {
    var visit := VisitNode(w, o, From(symbol, symbolIndex));
    if found then err == ESuccess && visit == Found else BranchIs(visit, symbol, err, branchOffset, s)
  }

  /** The visit of one node, from the terminal size to the edge that is taken. */
  method VisitOneNode(trie: MemoryObject, range: Range, addr: u64, targetAddr: u64, end: u64, symbol: seq<u8>,
    symbolIndex: nat)
    returns (err: Error, found: bool, branchOffset: u64, s: nat)
    requires trie.Valid() && range == Range(trie.target, |trie.bytes|) && end == trie.host + |trie.bytes|
    requires InStep(trie, addr - trie.host, addr, targetAddr)
    requires IsCString(symbol) && symbolIndex < |symbol|
    ensures NodeVisited(WindowOf(trie), addr - trie.host, symbol, symbolIndex, err, found, branchOffset, s)
  {
    hide *;
    CursorIsInside(trie, addr, targetAddr);
    ghost var o: nat := addr - trie.host;
    LabelPassed(trie, o, addr, targetAddr);
    found, branchOffset, s := false, 0, symbolIndex;
    var terminalSize, ulebSize;
    err, terminalSize, ulebSize := CopyUleb128(trie, addr, end, 0, 0);
    if err != ESuccess {
      BadTerminalSize(trie, o, symbol, symbolIndex, err, branchOffset, s);
      return;
    }
    if symbol[symbolIndex] == 0 && terminalSize != 0 {
      NodeIsFound(trie, o, symbol, symbolIndex, terminalSize, ulebSize, branchOffset, s);
      return ESuccess, true, branchOffset, s;
    }
    err, branchOffset, s := VisitEdges(trie, range, addr, targetAddr, end, symbol, symbolIndex, terminalSize, ulebSize);
  }

  /** The part of the visit behind the terminal size. */
  method VisitEdges(trie: MemoryObject, range: Range, addr: u64, targetAddr: u64, end: u64, symbol: seq<u8>,
                    symbolIndex: nat, terminalSize: u64, ulebSize: nat)
    returns (err: Error, branchOffset: u64, s: nat)
    requires trie.Valid() && range == Range(trie.target, |trie.bytes|) && end == trie.host + |trie.bytes|
    requires InStep(trie, addr - trie.host, addr, targetAddr)
    requires IsCString(symbol) && symbolIndex < |symbol| && (symbol[symbolIndex] != 0 || terminalSize == 0)
    requires Decode(trie.bytes[addr - trie.host..]) == Ok(Uleb(terminalSize, ulebSize))
    ensures NodeVisited(WindowOf(trie), addr - trie.host, symbol, symbolIndex, err, false, branchOffset, s)
  {
    hide *;
    CursorIsInside(trie, addr, targetAddr);
    ghost var o: nat := addr - trie.host;
    SizeIsInside(trie, o, terminalSize, ulebSize);
    branchOffset, s := 0, symbolIndex;
    var childCount, edgesAddr, edgesTargetAddr;
    err, childCount, edgesAddr, edgesTargetAddr := PassHeader(trie, range, addr, targetAddr, terminalSize, ulebSize);
    if err != ESuccess {
      NodeHasNoEdges(trie, o, symbol, symbolIndex, terminalSize, ulebSize, err, branchOffset, s);
      return;
    }
    EdgesReached(trie, o, terminalSize, ulebSize, childCount, edgesAddr, edgesTargetAddr);
    err, branchOffset, s := FollowBranch(trie, range, edgesAddr, edgesTargetAddr, end, childCount, symbol, symbolIndex);
    NodeHasEdges(trie, o, symbol, symbolIndex, terminalSize, ulebSize, err, branchOffset, s);
  }

  lemma BadTerminalSize(trie: MemoryObject, o: nat, symbol: seq<u8>, symbolIndex: nat, err: Error, b: u64, s: nat)
    requires o < |trie.bytes| && IsCString(symbol) && symbolIndex < |symbol|
    requires Decode(trie.bytes[o..]) == Err(err)
    ensures NodeVisited(WindowOf(trie), o, symbol, symbolIndex, err, false, b, s)
  {
    hide Decode;
  }

  lemma NodeIsFound(trie: MemoryObject, o: nat, symbol: seq<u8>, symbolIndex: nat, terminalSize: u64,
    ulebSize: nat, b: u64, s: nat)
    requires o < |trie.bytes| && IsCString(symbol) && symbolIndex < |symbol|
    requires Decode(trie.bytes[o..]) == Ok(Uleb(terminalSize, ulebSize)) && symbol[symbolIndex] == 0
              && terminalSize != 0
    ensures NodeVisited(WindowOf(trie), o, symbol, symbolIndex, ESuccess, true, b, s)
  {
    AtNul(symbol, symbolIndex);
    hide Decode, FollowEdges, ReadEdgeList;
  }

  lemma NodeHasNoEdges(trie: MemoryObject, o: nat, symbol: seq<u8>, symbolIndex: nat, terminalSize: u64, ulebSize: nat,
                       err: Error, b: u64, s: nat)
    requires o < |trie.bytes| && IsCString(symbol) && symbolIndex < |symbol|
    requires Decode(trie.bytes[o..]) == Ok(Uleb(terminalSize, ulebSize))
              && (symbol[symbolIndex] != 0 || terminalSize == 0)
    requires ReadEdgeList(WindowOf(trie), o, Uleb(terminalSize, ulebSize)) == Err(err) && err != ESuccess
    ensures NodeVisited(WindowOf(trie), o, symbol, symbolIndex, err, false, b, s)
  {
    AtNul(symbol, symbolIndex);
    hide Decode, FollowEdges, ReadEdgeList;
  }

  lemma EdgesReached(trie: MemoryObject, o: nat, terminalSize: u64, ulebSize: nat, count: u8, edgesAddr: u64,
    edgesTargetAddr: u64)
    requires o < |trie.bytes|
    requires var list := ReadEdgeList(WindowOf(trie), o, Uleb(terminalSize, ulebSize));
             list.Ok? && count == list.value.count && InStep(trie, list.value.pos, edgesAddr, edgesTargetAddr)
    ensures InStep(trie, edgesAddr - trie.host, edgesAddr, edgesTargetAddr)
    ensures edgesAddr - trie.host == ReadEdgeList(WindowOf(trie), o, Uleb(terminalSize, ulebSize)).value.pos
  {
    hide ReadEdgeList;
  }

  lemma NodeHasEdges(trie: MemoryObject, o: nat, symbol: seq<u8>, symbolIndex: nat, terminalSize: u64, ulebSize: nat,
                     err: Error, b: u64, s: nat)
    requires o < |trie.bytes| && IsCString(symbol) && symbolIndex < |symbol|
    requires Decode(trie.bytes[o..]) == Ok(Uleb(terminalSize, ulebSize))
              && (symbol[symbolIndex] != 0 || terminalSize == 0)
    requires ReadEdgeList(WindowOf(trie), o, Uleb(terminalSize, ulebSize)).Ok?
    requires var list := ReadEdgeList(WindowOf(trie), o, Uleb(terminalSize, ulebSize)).value;
             BranchIs(FollowEdges(WindowOf(trie), list.pos, list.count, From(symbol, symbolIndex)), symbol, err, b, s)
    ensures NodeVisited(WindowOf(trie), o, symbol, symbolIndex, err, false, b, s)
  {
    AtNul(symbol, symbolIndex);
    hide Decode, FollowEdges, ReadEdgeList;
  }

  lemma CStringIsNotEmpty(symbol: seq<u8>)
    requires IsCString(symbol)
    ensures 0 < |symbol|
  {
  }

  lemma AtNul(symbol: seq<u8>, s: nat)
    requires IsCString(symbol) && s < |symbol|
    ensures symbol[s] == 0 <==> From(symbol, s) == []
  {
    if s < |symbol| - 1 {
      assert symbol[..|symbol| - 1][s] != 0;
    }
  }

  // ---------------------------------------------------------------------------
  //  The outer loop
  // ---------------------------------------------------------------------------

  /** From offset `o`, with `rest` to spell, `fuel` more edges lead to the end of the lookup of `name`. */
  ghost predicate StillRuns(t: Table, name: seq<u8>, o: nat, rest: seq<u8>, fuel: nat) {
    && t.Valid() && t.Covered() && Ends(TrieWindow(t), name)
    && Run(Visitor(TrieWindow(t)), State(o, rest), fuel) == Some(Lookup(TrieWindow(t), name))
  }

  ghost function EnoughFuel(t: Table, name: seq<u8>): (fuel: nat)
    requires t.Valid() && (t.Covered() ==> Ends(TrieWindow(t), name))
    ensures t.Covered() ==> StillRuns(t, name, 0, name, fuel)
  {
    if t.Covered() then
      var f, start := Visitor(TrieWindow(t)), State(0, name);
      var fuel: nat :| Run(f, start, fuel).Some?;
      FinalIs(f, start, fuel);
      fuel
    else 0
  }

  /** Mapping the rest of the trie succeeds iff all of it is mapped, and puts both cursors on the node. */
  lemma NodeLocation(t: Table, o: u64)
    requires t.Valid() && o < t.range.length
    ensures t.mapping.Valid()
    ensures Stored(Difference(t.range.length, o), t.range.length) == (ESuccess, t.range.length - o)
    ensures match t.mapping.RemapAddress(o, t.range.location, t.range.length - o)
            case Err(e) => !t.Covered() && e == EOutOfRange
            case Ok(p) =>
              && t.Covered()
              && var trie := t.Part();
              && trie.Valid()
              && p == t.PointerTo(o) && p + (t.range.length - o) == trie.host + |trie.bytes| < 0x1_0000_0000_0000_0000
              && p - trie.host == o && t.range.location + o < 0x1_0000_0000_0000_0000
              && InStep(trie, o, p, t.range.location + o)
              && t.range == Range(trie.target, |trie.bytes|) && WindowOf(trie) == TrieWindow(t)
  {
  }

  /** The body of the outer loop: maps the rest of the trie from `offset` on and visits the node there. */
  method VisitAt(t: Table, offset: u64, symbol: seq<u8>, symbolIndex: nat)
    returns (err: Error, found: bool, branchOffset: u64, s: nat, targetAddr: u64, addr: u64)
    requires t.Valid() && offset < t.range.length && IsCString(symbol) && symbolIndex < |symbol|
    ensures !t.Covered() ==> err == EOutOfRange
    ensures t.Covered() ==>
              && |t.Bytes()| == t.range.length
              && targetAddr == t.range.location + offset && addr == t.PointerTo(offset)
              && NodeVisited(TrieWindow(t), offset, symbol, symbolIndex, err, found, branchOffset, s)
  {
    hide *;
    NodeLocation(t, offset);
    found, branchOffset, s, addr := false, 0, symbolIndex, 0;
    targetAddr := t.range.location;
    var targetSize: u64 := t.range.length;
    err, targetSize := AddressSubtract(targetSize, offset, targetSize);
    if err != ESuccess {
      return;
    }
    var mapped := t.mapping.RemapAddress(offset, targetAddr, targetSize);
    if mapped.Err? {
      err := mapped.error;
      return;
    }
    addr := mapped.value;
    var end := addr + targetSize;
    targetAddr := targetAddr + offset;
    err, found, branchOffset, s := VisitOneNode(t.Part(), t.range, addr, targetAddr, end, symbol, symbolIndex);
  }

  /** What the visit of a node means for the lookup. */
  lemma RunStep(t: Table, symbol: seq<u8>, o: nat, s: nat, fuel: nat, err: Error, found: bool,
    branchOffset: u64, next: nat)
    requires IsCString(symbol) && s < |symbol|
    requires StillRuns(t, From(symbol, 0), o, From(symbol, s), fuel) && o < t.range.length
    requires NodeVisited(TrieWindow(t), o, symbol, s, err, found, branchOffset, next)
    ensures var end := Lookup(TrieWindow(t), From(symbol, 0));
            if err != ESuccess then end == Miss(err)
            else if found then end == Hit(o)
            else if branchOffset == 0 then end == Miss(ENotFound)
            else
              && fuel > 0 && next < |symbol|
              && StillRuns(t, From(symbol, 0), branchOffset, From(symbol, next), fuel - 1)
  {
    hide VisitNode, From, Table.Bytes, Lookup;
  }

  lemma RunEnds(t: Table, name: seq<u8>, o: nat, rest: seq<u8>, fuel: nat)
    requires StillRuns(t, name, o, rest, fuel) && o >= t.range.length
    ensures Lookup(TrieWindow(t), name) == Miss(ENotFound)
  {
    hide VisitNode, Lookup;
  }

  // ---------------------------------------------------------------------------
  //  The trie object
  // ---------------------------------------------------------------------------

  class ExportsTrie {
    var segment: Segment
    var range: Range
    var live: bool  // the vtable pointer is set

    constructor (unset: Segment)
      ensures !live
    {
      segment := unset;
      range := Range(0, 0);
      live := false;
    }

    ghost predicate Valid()
      reads this
    {
      live && segment.Valid() && View().Valid()
    }

    function View(): Table
      reads this
    {
      Table(range, segment.mapping)
    }

    lemma ViewIsValid()
      requires Valid()
      ensures View().Valid() && View().mapping == segment.mapping && View().range == range
    {
    }

    /** mk_exports_trie_init. */
    method Init(segment: Segment, lc: Option<LoadCommand>) returns (err: Error)
      requires segment.Valid()
      requires lc.Some? ==> lc.value.Holds(8) && lc.value.Holds(FieldsLength(lc.value.Kind()))
      modifies this
      ensures match InitRange(segment, lc)
              case Ok(r) => err == ESuccess && Valid() && this.segment == segment && range == r
              case Err(e) => err == e && live == old(live)
      ensures this.segment == if WrittenRange(segment, lc).Some? then segment else old(this.segment)
      ensures range == if WrittenRange(segment, lc).Some? then WrittenRange(segment, lc).value else old(range)
      ensures lc.None? || lc.value.Kind() !in {0x8000_0033, 0x22, 0x8000_0022} || lc.value.image != segment.image ==>
                err == EInval
    {
      hide Placement, Read32, Range.ContainsRange;
      if lc.None? {
        return EInval;
      }
      var trieoff, triesize;
      if lc.value.Kind() == LC_DYLD_EXPORTS_TRIE {
        trieoff, triesize := lc.value.Word(8), lc.value.Word(12);
      } else if lc.value.Kind() == LC_DYLD_INFO {
        trieoff, triesize := lc.value.Word(40), lc.value.Word(44);
      } else if lc.value.Kind() == LC_DYLD_INFO_ONLY {
        trieoff, triesize := lc.value.Word(40), lc.value.Word(44);
      } else {
        return EInval;
      }
      if lc.value.image != segment.image {
        return EInval;
      }
      if triesize == 0 {
        return ENotFound;
      }
      var stored;
      err, stored := PlaceInSegment(segment, trieoff, triesize);
      if stored.Some? {
        this.segment, range := segment, stored.value;
      }
      if err != ESuccess {
        return;
      }
      PlacementIsExact(segment, trieoff, triesize);
      live := true;
    }

    /**
     mk_exports_trie_get_terminal_node_for_symbol. The C function returns iff the lookup ends, which
     is the second precondition; DivergesIffCircle says exactly when that is.
     */
    method GetTerminalNodeForSymbol(symbol: seq<u8>, priorTarget: u64, priorNode: u64)
      returns (err: Error, targetAddress: u64, node: u64)
      requires Valid() && IsCString(symbol)
      requires View().Covered() ==> Ends(TrieWindow(View()), From(symbol, 0))
      ensures View().Covered() ==>
                match Lookup(TrieWindow(View()), From(symbol, 0))
                case Hit(o) => err == ESuccess && targetAddress == range.location + o && node == View().PointerTo(o)
                case Miss(e) => err == e != ESuccess && targetAddress == priorTarget && node == priorNode
      ensures !View().Covered() ==>
                err == (if range.length == 0 then ENotFound else EOutOfRange) && targetAddress == priorTarget
                  && node == priorNode
    {
      hide *;
      ViewIsValid();
      var t := View();
      CStringIsNotEmpty(symbol);
      ghost var fuel: nat := EnoughFuel(t, From(symbol, 0));
      targetAddress, node := priorTarget, priorNode;
      var currentOffset: u64, s: nat := 0, 0;
      while currentOffset < range.length
        invariant s < |symbol| && targetAddress == priorTarget && node == priorNode
        invariant currentOffset != 0 ==> t.Covered()
        invariant t.Covered() ==> StillRuns(t, From(symbol, 0), currentOffset, From(symbol, s), fuel)
        decreases fuel
      {
        var found, branchOffset, next, targetAddr, addr;
        err, found, branchOffset, next, targetAddr, addr := VisitAt(t, currentOffset, symbol, s);
        if t.Covered() {
          RunStep(t, symbol, currentOffset, s, fuel, err, found, branchOffset, next);
        }
        if err != ESuccess {
          return;
        }
        if found {
          return ESuccess, targetAddr, addr;
        }
        if branchOffset == 0 {
          return ENotFound, targetAddress, node;
        }
        currentOffset, s, fuel := branchOffset, next, fuel - 1;
      }
      if t.Covered() {
        RunEnds(t, From(symbol, 0), currentOffset, From(symbol, s), fuel);
      }
      err := ENotFound;
    }
  }
}
