/**
 Inputs on which the library does something else than its documentation says, or reads outside
 a mapping, next to the exact conditions under which it does not.
 */
module Departures {
  import opened Machine
  import opened Core
  import opened Memory
  import opened Leb128
  import opened CStrings
  import opened Iteration
  import opened LoadCommands
  import opened CommandLists
  import opened CommandSearch
  import opened TableSelection
  import opened ImageBytes
  import opened LinkEdit
  import opened TrieWalk
  import opened TriePaths
  import opened MachOImages
  import opened FixedTables
  import S = StringTables

  // ---------------------------------------------------------------------------
  //  Images as bytes
  // ---------------------------------------------------------------------------

  /** A load command: type, size, and what follows them. */
  function Command(kind: u32, body: seq<u8>): (c: seq<u8>)
    requires LC_MIN + |body| < TWO32
    ensures |c| == LC_MIN + |body|
  {
    Write32(kind) + Write32(LC_MIN + |body|) + body
  }

  /** A 32-bit Mach-O header that announces `size` bytes of commands, followed by some bytes. */
  function Image(target: u64, host: u64, ncmds: u32, size: u32, area: seq<u8>): Header {
    Header(MemoryObject(target, host,
      [0xCE, 0xFA, 0xED, 0xFE] + Zeros(12) + Write32(ncmds) + Write32(size) + Zeros(4) + area), 28)
  }

  lemma ImageFields(target: u64, host: u64, ncmds: u32, size: u32, area: seq<u8>)
    ensures var h := Image(target, host, ncmds, size, area);
            && |h.mapping.bytes| == 28 + |area| && h.mapping.bytes[28..] == area
            && h.mapping.bytes[0..4] == [0xCE, 0xFA, 0xED, 0xFE]
            && h.Ncmds() == ncmds && h.Sizeofcmds() == size && !h.Is64Bit()
  {
    hide Read32, Write32;
    var magic, b := [0xCE, 0xFA, 0xED, 0xFE], Image(target, host, ncmds, size, area).mapping.bytes;
    assert b == (magic + Zeros(12)) + Write32(ncmds) + b[20..];
    assert b == (magic + Zeros(12) + Write32(ncmds)) + Write32(size) + b[24..];
    Read32Of(magic + Zeros(12), ncmds, b[20..]);
    Read32Of(magic + Zeros(12) + Write32(ncmds), size, b[24..]);
    MagicIs(b);
  }

  lemma CommandFields(kind: u32, body: seq<u8>)
    requires LC_MIN + |body| < TWO32
    ensures IsCommand(Command(kind, body)) && Read32(Command(kind, body), 0) == kind
  {
    hide Read32, Write32;
    var c := Command(kind, body);
    assert c == [] + Write32(kind) + c[4..];
    assert c == Write32(kind) + Write32(LC_MIN + |body|) + body;
    Read32Of([], kind, c[4..]);
    Read32Of(Write32(kind), LC_MIN + |body|, body);
  }

  /** The image made of these commands. */
  function Packed(target: u64, host: u64, cs: seq<seq<u8>>): Header
    requires |cs| < TWO32 && |CommandLists.Joined(cs)| < TWO32
  {
    Image(target, host, |cs|, |CommandLists.Joined(cs)|, CommandLists.Joined(cs))
  }

  lemma PackedIsImage(target: u64, host: u64, cs: seq<seq<u8>>)
    requires |cs| < TWO32 && |CommandLists.Joined(cs)| < TWO32
    requires target + 28 + |CommandLists.Joined(cs)| < TWO64 && host + 28 + |CommandLists.Joined(cs)| < TWO64
    requires forall k :: 0 <= k < |cs| ==> IsCommand(cs[k])
    ensures IsImageOf(Packed(target, host, cs), false, cs)
    ensures Packed(target, host, cs).mapping.target == target && Packed(target, host, cs).mapping.host == host
  {
    hide Read32, Write32, CommandLists.Joined, Image;
    ImageFields(target, host, |cs|, |CommandLists.Joined(cs)|, CommandLists.Joined(cs));
    ImagePlace(target, host, |cs|, |CommandLists.Joined(cs)|, CommandLists.Joined(cs));
  }

  lemma ImagePlace(target: u64, host: u64, ncmds: u32, size: u32, area: seq<u8>)
    ensures var h := Image(target, host, ncmds, size, area);
            h.size == 28 && h.mapping.target == target && h.mapping.host == host
  {
  }

  // ---------------------------------------------------------------------------
  //  Load commands
  // ---------------------------------------------------------------------------

  /** A command of size 0 is returned for ever. */
  lemma EmptyCommandStalls(target: u64, host: u64, n: nat)
    requires target + 36 < TWO64 && host + 36 < TWO64
    ensures var h := Image(target, host, 1, 8, Write32(LC_SYMTAB) + Write32(0));
            h.Valid() && h.Nth(n) == Some(h.PointerTo(28))
  {
    hide Read32, Write32, Header.Nth;
    var area := Write32(LC_SYMTAB) + Write32(0);
    var h := Image(target, host, 1, 8, area);
    ImageFields(target, host, 1, 8, area);
    Read32Of(Write32(LC_SYMTAB), 0, []);
    assert area == Write32(LC_SYMTAB) + Write32(0) + [];
    AreaWord(h, area, 4);
    IterationListsCommands(h, n);
  }

  /** A word of the bytes behind the header. */
  lemma AreaWord(h: Header, area: seq<u8>, k: nat)
    requires 28 <= |h.mapping.bytes| && h.mapping.bytes[28..] == area && k + 4 <= |area|
    ensures Read32(h.mapping.bytes, 28 + k) == Read32(area, k)
  {
    assert h.mapping.bytes[28 + k..28 + k + 4] == area[k..k + 4];
    Read32Agrees(h.mapping.bytes, 28 + k, area, k);
  }

  /** The last command may reach past the announced area: 8 bytes announced, one 16-byte command. */
  lemma LastCommandOverruns(target: u64, host: u64)
    requires target + 44 < TWO64 && host + 44 < TWO64
    ensures var h := Image(target, host, 1, 8, Command(LC_SYMTAB, Zeros(8)));
            && h.Valid() && h.Commands() == [28]
            && 28 + h.CommandSize(28) == 44 > AreaEnd(h) == 36
  {
    hide Read32, Write32;
    var c := Command(LC_SYMTAB, Zeros(8));
    var h := Image(target, host, 1, 8, c);
    ImageFields(target, host, 1, 8, c);
    CommandFields(LC_SYMTAB, Zeros(8));
    AreaWord(h, c, 4);
    assert h.CommandsFrom(44) == [];
  }

  /**
   `*target_address` of mk_macho_last_command_type is documented to be the address of the command returned.
   It is iff the image's very last command has the type.
   */
  lemma LastTargetIsTheMatch(h: Header, kind: u32, prior: u64)
    requires h.Valid() && Matches(h, kind) != []
    ensures var s, m := h.Commands(), Matches(h, kind);
            && s != []
            && (TargetBefore(h, s, |s|, prior) == h.TargetOf(m[|m| - 1]) <==> h.IsKind(s[|s| - 1], kind))
  {
    hide Read32, Header.IsKind, Header.Commands, Matches;
    var s, m := h.Commands(), Matches(h, kind);
    LastMatchIsListed(h, kind);
    var last, found := s[|s| - 1], m[|m| - 1];
    CommandsIncrease(h);
    var i :| 0 <= i < |s| && s[i] == found;
    IncreasingBounds(s, i);
    assert h.Accepts(last) && h.Accepts(found);
    SelectedIsExtreme(h, kind, found);
    assert IsListed(h, last, kind) <==> h.IsKind(last, kind);
    assert h.TargetOf(last) == h.TargetOf(found) <==> last == found;
  }

  lemma LastMatchIsListed(h: Header, kind: u32)
    requires h.Valid() && Matches(h, kind) != []
    ensures var m := Matches(h, kind);
            && m[|m| - 1] in h.Commands() && h.IsKind(m[|m| - 1], kind) && LastOf(h, kind) == Some(m[|m| - 1])
  {
    hide Header.IsKind, Header.Commands;
  }

  /** The commands of an image with two commands, and those of one type. */
  lemma TwoCommands(target: u64, host: u64, first: seq<u8>, second: seq<u8>, kind: u32)
    requires IsCommand(first) && IsCommand(second) && |first| + |second| < TWO32
    requires target + 28 + |first| + |second| < TWO64 && host + 28 + |first| + |second| < TWO64
    ensures var cs := [first, second];
            && |CommandLists.Joined(cs)| == |first| + |second|
            && var h := Packed(target, host, cs);
            && h.Valid() && h.mapping.target == target && h.mapping.host == host
            && h.Commands() == [28, 28 + |first|] && 28 + |first| <= |h.mapping.bytes|
            && Matches(h, kind) == (if Read32(first, 0) == kind then [28] else [])
                                 + (if Read32(second, 0) == kind then [28 + |first|] else [])
  {
    hide *;
    var cs := [first, second];
    TwoParts(first, second);
    var h := Packed(target, host, cs);
    PackedIsImage(target, host, cs);
    ImageHeader(h, false, cs);
    PackedImage(h, false, cs);
    PackedKind(h, false, cs, 0);
    PackedKind(h, false, cs, 1);
    MatchesOfTwo(h, kind, 28, 28 + |first|);
  }

  lemma TwoParts(first: seq<u8>, second: seq<u8>)
    ensures var cs := [first, second];
            |cs| < TWO32 && |CommandLists.Joined(cs)| == |first| + |second| && Starts(cs, 28) == [28, 28 + |first|]
  {
    assert [first, second][1..] == [second] && [second][1..] == [];
    assert CommandLists.Joined([second]) == second;
    assert Starts([second], 28 + |first|) == [28 + |first|];
  }

  lemma MatchesOfTwo(h: Header, kind: u32, p: nat, q: nat)
    requires h.Valid() && h.Commands() == [p, q]
    requires p + LC_MIN <= |h.mapping.bytes| && q + LC_MIN <= |h.mapping.bytes|
    ensures Matches(h, kind)
              == (if h.CommandType(p) == kind then [p] else []) + (if h.CommandType(q) == kind then [q] else [])
  {
    hide Read32, Header.Commands;
    assert [p, q][1..] == [q] && [q][1..] == [];
    assert OfType(h, [q], kind) == if h.IsKind(q, kind) then [q] else [];
  }

  /** An image with a symbol table command before another command: the address that is left is the other command's. */
  lemma LastTargetIsNotTheMatch(target: u64, host: u64, prior: u64)
    requires target + 132 < TWO64 && host + 132 < TWO64
    ensures var cs := [Command(LC_SYMTAB, Zeros(16)), Command(LC_DYSYMTAB, Zeros(72))];
            && |CommandLists.Joined(cs)| == 104
            && var h := Packed(target, host, cs);
            && h.Valid() && h.Commands() == [28, 52] && Matches(h, LC_SYMTAB) == [28]
            && TargetBefore(h, h.Commands(), 2, prior) == target + 52 != h.TargetOf(28)
  {
    hide Read32, Command, Header.Commands, Packed, IsImageOf;
    var first, second := Command(LC_SYMTAB, Zeros(16)), Command(LC_DYSYMTAB, Zeros(72));
    CommandFields(LC_SYMTAB, Zeros(16));
    CommandFields(LC_DYSYMTAB, Zeros(72));
    TwoCommands(target, host, first, second, LC_SYMTAB);
  }

  /** An image with two LC_DYSYMTAB commands: the symbol table takes the first, the indirect symbol table the last. */
  lemma SymbolTablesDisagree(target: u64, host: u64)
    requires target + 188 < TWO64 && host + 188 < TWO64
    ensures var cs := [Command(LC_DYSYMTAB, Zeros(72)), Command(LC_DYSYMTAB, Zeros(72))];
            && |CommandLists.Joined(cs)| == 160
            && var h := Packed(target, host, cs);
            && h.Valid() && FirstOf(h, LC_DYSYMTAB) == Some(28) && LastOf(h, LC_DYSYMTAB) == Some(108)
  {
    hide Read32, Command, Header.Commands, Packed, IsImageOf, Matches;
    CommandFields(LC_DYSYMTAB, Zeros(72));
    TwoCommands(target, host, Command(LC_DYSYMTAB, Zeros(72)), Command(LC_DYSYMTAB, Zeros(72)), LC_DYSYMTAB);
  }

  // ---------------------------------------------------------------------------
  //  Reads outside a mapping
  // ---------------------------------------------------------------------------

  /**
   The getters read a command's fields without a look at 'cmdsize'. The first `length` bytes are mapped iff they
   end before the mapping does; a command that is as long as they are is always far enough from its end.
   */
  lemma LongCommandHoldsItsFields(image: MachOImage, h: Header, lc: u64, length: nat)
    requires h.Valid() && HasObject(h, lc) && LC_MIN <= length
    ensures var pos := lc - h.mapping.host;
            && (LoadCommand(image, h, pos).Holds(length) <==> h.mapping.HoldsHost(lc, length))
            && (length <= h.CommandSize(pos) ==> LoadCommand(image, h, pos).Holds(length))
  {
    hide Read32, CLASS_TYPES;
  }

  /** An object can be made of the command at `pos`, but not even its first field is mapped. */
  ghost predicate LacksFields(image: MachOImage, h: Header, pos: nat)
    requires h.Valid()
  {
    HasObject(h, h.PointerTo(pos)) && !LoadCommand(image, h, pos).Holds(LC_MIN + 4)
  }

  /**
   A mapped LC_SYMTAB of 8 bytes at the end of its image: an object can be made of it, but its fields are
   not mapped.
   */
  lemma ShortCommandHasNoFields(image: MachOImage, target: u64, host: u64)
    requires target + 36 < TWO64 && host + 36 < TWO64
    ensures var h := Image(target, host, 1, 8, Command(LC_SYMTAB, []));
            h.Valid() && h.Commands() == [28] && LacksFields(image, h, 28)
  {
    hide Read32, Write32;
    var c := Command(LC_SYMTAB, []);
    var h := Image(target, host, 1, 8, c);
    ImageFields(target, host, 1, 8, c);
    CommandFields(LC_SYMTAB, []);
    AreaWord(h, c, 0);
    AreaWord(h, c, 4);
    assert h.CommandsFrom(36) == [];
  }

  /**
   mk_indirect_symbol_table_get_entry_at_index tests `addr` where it means the mapped pointer. The test never fires;
   the pointer that is then read is the error value iff the entry is not mapped.
   */
  lemma EntryTestNeverFires(e: Entries, i: nat)
    requires e.Valid() && e.stride == 4 && i < e.count
    ensures e.TargetOf(i) != U64_MAX
    ensures e.table.mapping.RemapAddress(0, e.TargetOf(i), 4).Err? <==> !e.Has(i)
  {
    EntryInside(e, i);
  }

  /** A table of two entries of which only the first is mapped. */
  lemma ShortIndirectTable(at: u64, host: u64)
    requires at + 8 < TWO64 && host + 4 < TWO64
    ensures var e := Entries(Table(Range(at, 8), MemoryObject(at, host, Zeros(4))), 4, 2);
            && e.Valid() && e.Has(0) && !e.Has(1)
            && e.TargetOf(1) == at + 4 && e.table.mapping.RemapAddress(0, at + 4, 4).Err?
  {
  }

  /**
   From a pointer into the mapped part of a table, mk_string_table_next_string stays in the mapping iff the table is
   wholly mapped or a NUL follows in the mapping.
   */
  lemma StepStaysInsideIff(t: Table, p: u64)
    requires t.Valid()
    requires t.mapping.HoldsHost(p, 1) && t.range.Holds(t.mapping.target + (p - t.mapping.host))
    ensures S.StepStaysInside(t, p) <==>
              t.Covered() || exists i :: p - t.mapping.host <= i < |t.mapping.bytes| && t.mapping.bytes[i] == 0
  {
    var pos := p - t.mapping.host;
    var n := NulIndex(t.mapping.bytes, pos);
    hide NulIndex;
    assert n < |t.mapping.bytes| ==> t.mapping.bytes[n] == 0;
  }

  /** A table of four bytes of which two are mapped, without a NUL: looking for its end leaves the mapping. */
  lemma ShortStringTable(at: u64, host: u64)
    requires at + 4 < TWO64 && host + 2 < TWO64
    ensures var t := Table(Range(at, 4), MemoryObject(at, host, [97, 98]));
            t.Valid() && !t.Covered() && !S.StepStaysInside(t, host)
  {
    StepStaysInsideIff(Table(Range(at, 4), MemoryObject(at, host, [97, 98])), host);
  }

  // ---------------------------------------------------------------------------
  //  String tables
  // ---------------------------------------------------------------------------

  /** The block of mk_string_table_enumerate_strings gets the string's own offset only in the first call. */
  lemma EnumeratedOffsetIsTheFirst(t: Table, offset: u32, i: nat)
    requires t.Valid() && t.Covered() && i < |Offsets(t.Bytes(), offset)|
    ensures var s := Offsets(t.Bytes(), offset);
            S.Calls(t, offset, s)[i].offset == offset && (S.Calls(t, offset, s)[i].offset == s[i] <==> i == 0)
  {
    hide NulIndex, Table.Bytes;
    OffsetsGrow(t.Bytes(), offset, i);
  }

  lemma {:induction false} OffsetsGrow(bytes: seq<u8>, pos: nat, i: nat)
    requires i < |Offsets(bytes, pos)|
    ensures Offsets(bytes, pos)[0] == pos
    ensures i > 0 ==> Offsets(bytes, pos)[i] > pos
    decreases i
  {
    hide NulIndex;
    if i > 0 {
      OffsetsGrow(bytes, NulIndex(bytes, pos) + 1, i - 1);
    }
  }

  /** A table of two strings: both calls get the offset the enumeration was started with. */
  lemma EnumeratedOffsetsRepeat(at: u64, host: u64)
    requires at + 4 < TWO64 && host + 4 < TWO64
    ensures var t := Table(Range(at, 4), MemoryObject(at, host, [97, 0, 98, 0]));
            && t.Valid() && t.Covered() && Offsets(t.Bytes(), 0) == [0, 2]
            && S.Calls(t, 0, Offsets(t.Bytes(), 0)) == [S.Call(host, 0, at), S.Call(host + 2, 0, at + 2)]
  {
    hide NulIndex, Offsets, S.Calls, Table.PointerTo;
    var t := Table(Range(at, 4), MemoryObject(at, host, [97, 0, 98, 0]));
    assert t.Bytes() == [97, 0, 98, 0];
    TwoStrings(t.Bytes());
    CallsOfTwo(t, 0, 0, 2);
  }

  lemma TwoStrings(b: seq<u8>)
    requires |b| == 4 && b[0] != 0 && b[1] == 0 && b[2] != 0 && b[3] == 0
    ensures Offsets(b, 0) == [0, 2]
  {
    hide *;
    NulIndexIs(b, 0, 1);
    NulIndexIs(b, 2, 3);
    OffsetsUnfold(b, 0);
    OffsetsUnfold(b, 2);
    OffsetsUnfold(b, 4);
  }

  lemma OffsetsUnfold(b: seq<u8>, pos: nat)
    ensures pos < |b| ==> Offsets(b, pos) == [pos] + Offsets(b, NulIndex(b, pos) + 1)
    ensures pos >= |b| ==> Offsets(b, pos) == []
  {
    hide NulIndex;
  }

  lemma CallsOfTwo(t: Table, offset: u32, p: nat, q: nat)
    requires t.Valid() && t.Covered() && p < t.range.length && q < t.range.length
    ensures S.Calls(t, offset, [p, q])
         == [S.Call(t.mapping.host + (t.range.location - t.mapping.target) + p, offset, t.range.location + p),
             S.Call(t.mapping.host + (t.range.location - t.mapping.target) + q, offset, t.range.location + q)]
  {
    hide Table.Bytes;
  }

  /** A table of 2^32 - 1 bytes without any NUL: stepping on from its only string leads back to it, for ever. */
  lemma WrappingTable(at: u64, host: u64, n: nat)
    requires at + U32_MAX < TWO64 && host + U32_MAX < TWO64
    ensures var t := Table(Range(at, U32_MAX), MemoryObject(at, host, seq(U32_MAX, _ => 97)));
            t.Valid() && t.Covered() && S.Nth(t, 0, n).Some?
  {
    hide S.Nth;
    var t := Table(Range(at, U32_MAX), MemoryObject(at, host, seq(U32_MAX, _ => 97)));
    assert t.Bytes()[U32_MAX - 1] == 97;
    S.WrappingNeverEnds(t, n);
  }

  // ---------------------------------------------------------------------------
  //  Exports tries and LEB128
  // ---------------------------------------------------------------------------

  /** A trie that is a single leaf: every symbol is absent, but reported as out of range instead of MK_ENOT_FOUND. */
  lemma LeafAtTheEnd(start: u64, symbol: seq<u8>)
    requires start + 2 < TWO64
    ensures var w := Window(start, [0, 0]);
            Ends(w, symbol) && Lookup(w, symbol) == Miss(EOutOfRange)
  {
    var w := Window(start, [0, 0]);
    hide Decode;
    SingleGroup(w.bytes[0..]);
    assert Visitor(w)(State(0, symbol)) == Done(Miss(EOutOfRange));
    FinalIs(Visitor(w), State(0, symbol), 0);
  }

  /** Ten groups that say 2^64, nine zeros and a two, are accepted and read as 0. */
  lemma TenthGroupIsCut()
    ensures var s := seq(9, _ => 0x80) + [2];
            GroupsValue(s) == TWO64 && Decode(s) == Ok(Uleb(0, 10))
  {
    hide GroupsValue, LastGroup;
    var zeros: seq<u8> := seq(9, _ => 0x80);
    var s := zeros + [2];
    ZeroGroups(zeros, 2);
    WeightTable();
    LastGroupIs(s, 9);
    assert s[..10] == s;
  }

  lemma {:induction false} ZeroGroups(zeros: seq<u8>, last: u8)
    requires (forall i :: 0 <= i < |zeros| ==> zeros[i] == 0x80) && last < 0x80
    ensures GroupsValue(zeros + [last]) == last * Weight(|zeros|)
  {
    hide *;
    if zeros == [] {
      OneGroupIs([] + [last]);
      WeightUnfolds(0);
    } else {
      FrontOfGroups(zeros, last);
      ZeroGroups(zeros[1..], last);
      GroupsUnfold(zeros + [last]);
      WeightUnfolds(|zeros|);
      MoveFactor(last, Weight(|zeros| - 1));
    }
  }

  lemma FrontOfGroups(zeros: seq<u8>, last: u8)
    requires zeros != [] && zeros[0] == 0x80
    ensures (zeros + [last])[0] == 0x80 && (zeros + [last])[1..] == zeros[1..] + [last]
  {
  }

  lemma MoveFactor(d: nat, w: nat)
    ensures 0x80 * (d * w) == d * (0x80 * w)
  {
  }

  // ---------------------------------------------------------------------------
  //  Slides
  // ---------------------------------------------------------------------------

  /** `addr + slide` with an error where it does not fit 64 bits, as documented. */
  function SafeSum(addr: u64, slide: int): Result<u64> {
    if addr + slide >= TWO64 then Err(EOverflow) else if addr + slide < 0 then Err(EUnderflow) else Ok(addr + slide)
  }

  /**
   Applying a slide is the documented sum unless a positive slide leads above INT64_MAX; removing one,
   unless a negative one does.
   */
  lemma SlideIsSafeSum(addr: u64, slide: i64)
    ensures Slid(addr, slide) == SafeSum(addr, slide) <==> !(slide > 0 && I64_MAX < addr + slide < TWO64)
    ensures Unslid(addr, slide) == SafeSum(addr, -(slide as int)) <==> !(slide < 0 && I64_MAX < addr - slide < TWO64)
  {
  }

  /**
   The first address of the upper half: it cannot be slid by one, and what was slid below it cannot be
   brought back.
   */
  lemma UpperHalf()
    ensures Slid(TWO63, 1) == Err(EOverflow) && SafeSum(TWO63, 1) == Ok(TWO63 + 1)
    ensures Slid(TWO63, -1) == Ok(I64_MAX) && Unslid(I64_MAX, -1) == Err(EOverflow)
  {
  }

  // ---------------------------------------------------------------------------
  //  Ranges
  // ---------------------------------------------------------------------------

  /**
   A range without addresses is included in every set of addresses, but not contained in a range that
   ends before it.
   */
  lemma EmptyRangeIsNotContained()
    ensures var outer, inner := Range(0, 1), Range(5, 0);
            (forall x :: inner.Holds(x) ==> outer.Holds(x)) && outer.ContainsRange(inner, false) == EOutOfRange
  {
  }
}
