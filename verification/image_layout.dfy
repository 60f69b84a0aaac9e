/**
 From the bytes of an image to its slide and its tables: what the initialisers make of load
 commands that are written field by field, with type numbers, sizes and positions as in
 <mach-o/loader.h> and <mach-o/nlist.h>.
 */
module ImageLayouts {
  import opened Machine
  import opened Core
  import opened Memory
  import opened LoadCommands
  import opened CommandLists
  import opened CommandSearch
  import opened Slides
  import opened LinkEdit
  import opened FixedTables
  import opened SymbolTables
  import opened TableSelection
  import opened ImageBytes
  import StringTables
  import ExportsTries

  // ---------------------------------------------------------------------------
  //  Load commands of the tables
  // ---------------------------------------------------------------------------

  /** LC_SYMTAB. */
  function Symtab(symoff: u32, nsyms: u32, stroff: u32, strsize: u32): (c: seq<u8>)
    ensures |c| == 24
  {
    Words([0x2, 24, symoff, nsyms, stroff, strsize])
  }

  /** LC_DYSYMTAB. */
  datatype DysymtabFields = DysymtabFields(
    ilocalsym: u32, nlocalsym: u32, iextdefsym: u32, nextdefsym: u32, iundefsym: u32, nundefsym: u32,
    tocoff: u32, ntoc: u32, modtaboff: u32, nmodtab: u32, extrefsymoff: u32, nextrefsyms: u32,
    indirectsymoff: u32, nindirectsyms: u32, extreloff: u32, nextrel: u32, locreloff: u32, nlocrel: u32)

  function Dysymtab(f: DysymtabFields): (c: seq<u8>)
    ensures |c| == 80
  {
    Words([0xB, 80, f.ilocalsym, f.nlocalsym, f.iextdefsym, f.nextdefsym, f.iundefsym, f.nundefsym,
           f.tocoff, f.ntoc, f.modtaboff, f.nmodtab, f.extrefsymoff, f.nextrefsyms,
           f.indirectsymoff, f.nindirectsyms, f.extreloff, f.nextrel, f.locreloff, f.nlocrel])
  }

  /** LC_DYLD_INFO and LC_DYLD_INFO_ONLY. */
  datatype DyldInfoFields = DyldInfoFields(
    rebaseOff: u32, rebaseSize: u32, bindOff: u32, bindSize: u32, weakBindOff: u32, weakBindSize: u32,
    lazyBindOff: u32, lazyBindSize: u32, exportOff: u32, exportSize: u32)

  function DyldInfo(kind: u32, f: DyldInfoFields): (c: seq<u8>)
    ensures |c| == 48
  {
    Words([kind, 48, f.rebaseOff, f.rebaseSize, f.bindOff, f.bindSize, f.weakBindOff, f.weakBindSize,
           f.lazyBindOff, f.lazyBindSize, f.exportOff, f.exportSize])
  }

  /** LC_DYLD_EXPORTS_TRIE. */
  function LinkEditData(kind: u32, dataoff: u32, datasize: u32): (c: seq<u8>)
    ensures |c| == 16
  {
    Words([kind, 16, dataoff, datasize])
  }

  lemma SymtabWords(symoff: u32, nsyms: u32, stroff: u32, strsize: u32)
    ensures var c := Symtab(symoff, nsyms, stroff, strsize);
            && Read32(c, 0) == 0x2 && Read32(c, 8) == symoff && Read32(c, 12) == nsyms
            && Read32(c, 16) == stroff && Read32(c, 20) == strsize
  {
    hide Words, Read32;
    var ws := [0x2, 24, symoff, nsyms, stroff, strsize];
    WordAt(ws, 0);
    WordAt(ws, 2);
    WordAt(ws, 3);
    WordAt(ws, 4);
    WordAt(ws, 5);
  }

  lemma DysymtabWords(f: DysymtabFields)
    ensures var c := Dysymtab(f);
            Read32(c, 0) == 0xB && Read32(c, 56) == f.indirectsymoff && Read32(c, 60) == f.nindirectsyms
  {
    hide Words, Read32;
    var ws := [0xB, 80, f.ilocalsym, f.nlocalsym, f.iextdefsym, f.nextdefsym, f.iundefsym, f.nundefsym,
               f.tocoff, f.ntoc, f.modtaboff, f.nmodtab, f.extrefsymoff, f.nextrefsyms,
               f.indirectsymoff, f.nindirectsyms, f.extreloff, f.nextrel, f.locreloff, f.nlocrel];
    WordAt(ws, 0);
    WordAt(ws, 14);
    WordAt(ws, 15);
  }

  lemma DyldInfoWords(kind: u32, f: DyldInfoFields)
    ensures var c := DyldInfo(kind, f);
            Read32(c, 0) == kind && Read32(c, 40) == f.exportOff && Read32(c, 44) == f.exportSize
  {
    hide Words, Read32;
    var ws := [kind, 48, f.rebaseOff, f.rebaseSize, f.bindOff, f.bindSize, f.weakBindOff, f.weakBindSize,
               f.lazyBindOff, f.lazyBindSize, f.exportOff, f.exportSize];
    WordAt(ws, 0);
    WordAt(ws, 10);
    WordAt(ws, 11);
  }

  lemma LinkEditDataWords(kind: u32, dataoff: u32, datasize: u32)
    ensures var c := LinkEditData(kind, dataoff, datasize);
            Read32(c, 0) == kind && Read32(c, 8) == dataoff && Read32(c, 12) == datasize
  {
    hide Words, Read32;
    var ws := [kind, 16, dataoff, datasize];
    WordAt(ws, 0);
    WordAt(ws, 2);
    WordAt(ws, 3);
  }

  // ---------------------------------------------------------------------------
  //  Where the tables are placed
  // ---------------------------------------------------------------------------

  /** The segment belongs to an image with these commands. */
  ghost predicate IsSegmentOf(s: Segment, wide: bool, cs: seq<seq<u8>>)
    reads s.image
  {
    s.Valid() && IsImageOf(s.image.header, wide, cs)
  }

  lemma SegmentIsSearchable(s: Segment, wide: bool, cs: seq<seq<u8>>)
    requires IsSegmentOf(s, wide, cs)
    ensures Searchable(s) && s.image.header.Valid() && (s.image.header.Is64Bit() <==> wide)
  {
    hide Read32, IsImageOf, Header.Commands, Header.Stalls, Header.Is64Bit, Starts;
    PackedImage(s.image.header, wide, cs);
    ImageHeader(s.image.header, wide, cs);
  }

  /** The object made of the i-th command. */
  ghost function CommandOf(s: Segment, cs: seq<seq<u8>>, i: nat): LoadCommand
    requires i < |cs|
    reads s.image
  {
    LoadCommand(s.image, s.image.header, Starts(cs, s.image.header.size)[i])
  }

  /** A word of the i-th command is read as it was written. */
  lemma CommandOfReads(s: Segment, wide: bool, cs: seq<seq<u8>>, i: nat, k: nat)
    requires IsSegmentOf(s, wide, cs) && i < |cs| && LC_MIN <= k + 4 <= |cs[i]|
    ensures var c := CommandOf(s, cs, i);
            && c.Holds(LC_MIN) && c.Holds(k + 4) && c.Holds(|cs[i]|)
            && c.Kind() == Read32(cs[i], 0) && c.Word(k) == Read32(cs[i], k)
  {
    hide Read32, IsImageOf, Starts;
    CommandPlace(s.image.header, wide, cs, i);
    CommandWord(s.image.header, wide, cs, i, 0);
    CommandWord(s.image.header, wide, cs, i, k);
  }

  /**
   The range of a table that is stored in the file at `off` with `size` bytes: as far behind the start of the
   segment as in the file and exactly as long, if it is placed at all; MK_ENOT_FOUND if the table is absent.
   */
  ghost predicate IsPlaced(r: Result<Range>, s: Segment, off: u32, size: u64, absent: bool) {
    && r == (if absent then Err(ENotFound) else Placement(s, off, size))
    && (r.Ok? ==> r.value.location - s.range.location == off - s.fileoff && r.value.length == size)
  }

  /** The last LC_SYMTAB, written from its fields, places the string table at 'stroff' with 'strsize' bytes. */
  lemma StringsFromBytes(s: Segment, wide: bool, cs: seq<seq<u8>>, i: nat,
                         symoff: u32, nsyms: u32, stroff: u32, strsize: u32)
    requires IsSegmentOf(s, wide, cs) && IsLastOf(cs, i, 0x2) && cs[i] == Symtab(symoff, nsyms, stroff, strsize)
    ensures Searchable(s) && LastIsReadable(s.image.header, LC_SYMTAB, 24)
    ensures IsPlaced(StringRange(s), s, stroff, strsize, stroff == 0)
  {
    hide Read32, IsImageOf, Starts, Symtab, IsLastOf, LastOf, Placement;
    SegmentIsSearchable(s, wide, cs);
    LastOfImage(s.image.header, wide, cs, i, 0x2);
    IsLastIs(cs, i, 0x2);
    SymtabWords(symoff, nsyms, stroff, strsize);
    CommandOfReads(s, wide, cs, i, 16);
    CommandOfReads(s, wide, cs, i, 20);
    PlacementIsExact(s, stroff, strsize);
  }

  lemma IsLastIs(cs: seq<seq<u8>>, i: nat, kind: u32)
    requires IsLastOf(cs, i, kind)
    ensures i < |cs| && LC_MIN <= |cs[i]| && Read32(cs[i], 0) == kind
  {
  }

  /** The last LC_SYMTAB places the symbol table at 'symoff' with 16 or 12 bytes a symbol, by the magic number. */
  lemma SymbolsFromBytes(s: Segment, wide: bool, cs: seq<seq<u8>>, i: nat,
                         symoff: u32, nsyms: u32, stroff: u32, strsize: u32)
    requires IsSegmentOf(s, wide, cs) && IsLastOf(cs, i, 0x2) && cs[i] == Symtab(symoff, nsyms, stroff, strsize)
    ensures Searchable(s) && LastIsReadable(s.image.header, LC_SYMTAB, 16)
    ensures IsPlaced(SymbolTableRange(s), s, symoff, nsyms as int * (if wide then 16 else 12), symoff == 0)
    ensures CommandAt(s, LastOf(s.image.header, LC_SYMTAB)) == Some(CommandOf(s, cs, i))
  {
    hide Read32, IsImageOf, Starts, Symtab, IsLastOf, LastOf, Placement, FirstOf, Header.Is64Bit;
    SegmentIsSearchable(s, wide, cs);
    LastOfImage(s.image.header, wide, cs, i, 0x2);
    IsLastIs(cs, i, 0x2);
    SymtabWords(symoff, nsyms, stroff, strsize);
    CommandOfReads(s, wide, cs, i, 8);
    CommandOfReads(s, wide, cs, i, 12);
    FirstIsFit(s.image.header, LC_DYSYMTAB);
    PlacementIsExact(s, symoff, nsyms as int * (if wide then 16 else 12));
  }

  lemma FirstIsFit(h: Header, kind: u32)
    requires h.Valid()
    ensures FirstOf(h, kind).Some? ==> h.IsKind(FirstOf(h, kind).value, kind)
  {
    hide Header.IsKind;
  }

  /** The last LC_DYSYMTAB places the indirect symbol table at 'indirectsymoff' with 4 bytes an entry. */
  lemma IndirectSymbolsFromBytes(s: Segment, wide: bool, cs: seq<seq<u8>>, i: nat, f: DysymtabFields)
    requires IsSegmentOf(s, wide, cs) && IsLastOf(cs, i, 0xB) && cs[i] == Dysymtab(f)
    ensures Searchable(s) && LastIsReadable(s.image.header, LC_DYSYMTAB, 64)
    ensures IsPlaced(IndirectTableRange(s), s, f.indirectsymoff, f.nindirectsyms as int * 4, f.indirectsymoff == 0)
    ensures CommandAt(s, LastOf(s.image.header, LC_DYSYMTAB)) == Some(CommandOf(s, cs, i))
  {
    hide Read32, IsImageOf, Starts, Dysymtab, IsLastOf, LastOf, Placement;
    SegmentIsSearchable(s, wide, cs);
    LastOfImage(s.image.header, wide, cs, i, 0xB);
    IsLastIs(cs, i, 0xB);
    DysymtabWords(f);
    CommandOfReads(s, wide, cs, i, 56);
    CommandOfReads(s, wide, cs, i, 60);
    PlacementIsExact(s, f.indirectsymoff, f.nindirectsyms as int * 4);
  }

  /** The i-th command places the exports trie: it is the preferred one, and says this interval of the file. */
  ghost predicate PlacesTrie(cs: seq<seq<u8>>, i: nat, off: u32, size: u32) {
    && i < |cs|
    && (|| (IsLastOf(cs, i, 0x8000_0033) && cs[i] == LinkEditData(0x8000_0033, off, size))
        || (HasNone(cs, 0x8000_0033) && PlacedByInfo(cs, i, off, size)))
  }

  /** It is the last LC_DYLD_INFO or, without any, the last LC_DYLD_INFO_ONLY. */
  ghost predicate PlacedByInfo(cs: seq<seq<u8>>, i: nat, off: u32, size: u32)
    requires i < |cs|
  {
    || (IsLastOf(cs, i, 0x22) && IsInfo(cs[i], 0x22, off, size))
    || (HasNone(cs, 0x22) && IsLastOf(cs, i, 0x8000_0022) && IsInfo(cs[i], 0x8000_0022, off, size))
  }

  /** The command is a dyld-info command with this interval for its exports. */
  ghost predicate IsInfo(c: seq<u8>, kind: u32, off: u32, size: u32) {
    exists f :: c == DyldInfo(kind, f) && f.exportOff == off && f.exportSize == size
  }

  /** What the initialiser makes of a preferred command, in words. */
  lemma TrieFromWords(s: Segment, wide: bool, cs: seq<seq<u8>>, i: nat, kind: u32, at: nat, off: u32, size: u32)
    requires IsSegmentOf(s, wide, cs) && i < |cs| && at + 8 <= |cs[i]|
    requires TrieCommand(s.image.header) == Some(Starts(cs, s.image.header.size)[i])
    requires if kind == LC_DYLD_EXPORTS_TRIE then at == 8
             else at == 40 && (kind == LC_DYLD_INFO || kind == LC_DYLD_INFO_ONLY)
    requires Read32(cs[i], 0) == kind && Read32(cs[i], at) == off && Read32(cs[i], at + 4) == size
    ensures Searchable(s) && TrieCommandIsReadable(s.image.header)
    ensures IsPlaced(TrieRange(s), s, off, size, size == 0)
    ensures TrieWritten(s) == if size == 0 then None else StoredRange(s, off, size)
  {
    hide Read32, IsImageOf, Starts, TrieCommand, Placement;
    PlacementIsExact(s, off, size);
    SegmentIsSearchable(s, wide, cs);
    CommandOfReads(s, wide, cs, i, at);
    CommandOfReads(s, wide, cs, i, at + 4);
  }

  /** The preferred command places the exports trie at the offset and with the size that it has for exports. */
  lemma TrieFromBytes(s: Segment, wide: bool, cs: seq<seq<u8>>, i: nat, off: u32, size: u32)
    requires IsSegmentOf(s, wide, cs) && PlacesTrie(cs, i, off, size)
    ensures Searchable(s) && TrieCommandIsReadable(s.image.header)
    ensures IsPlaced(TrieRange(s), s, off, size, size == 0)
    ensures TrieWritten(s) == if size == 0 then None else StoredRange(s, off, size)
  {
    hide *;
    var kind, at := TrieChoice(s, wide, cs, i, off, size);
    TrieFromWords(s, wide, cs, i, kind, at, off, size);
  }

  /** The command that is chosen, and where its words are. */
  lemma TrieChoice(s: Segment, wide: bool, cs: seq<seq<u8>>, i: nat, off: u32, size: u32) returns (kind: u32, at: nat)
    requires IsSegmentOf(s, wide, cs) && PlacesTrie(cs, i, off, size)
    ensures s.image.header.Valid() && i < |cs| && at + 8 <= |cs[i]|
    ensures TrieCommand(s.image.header) == Some(Starts(cs, s.image.header.size)[i])
    ensures if kind == LC_DYLD_EXPORTS_TRIE then at == 8
            else at == 40 && (kind == LC_DYLD_INFO || kind == LC_DYLD_INFO_ONLY)
    ensures Read32(cs[i], 0) == kind && Read32(cs[i], at) == off && Read32(cs[i], at + 4) == size
  {
    hide Read32, IsImageOf, Starts, LastOf, IsLastOf, HasNone, LinkEditData, DyldInfo, IsInfo;
    var h := s.image.header;
    if IsLastOf(cs, i, 0x8000_0033) && cs[i] == LinkEditData(0x8000_0033, off, size) {
      LastOfImage(h, wide, cs, i, 0x8000_0033);
      LinkEditDataWords(0x8000_0033, off, size);
      return 0x8000_0033, 8;
    }
    NoneOfImage(h, wide, cs, 0x8000_0033);
    at := 40;
    if IsLastOf(cs, i, 0x22) && IsInfo(cs[i], 0x22, off, size) {
      kind := 0x22;
    } else {
      kind := 0x8000_0022;
      NoneOfImage(h, wide, cs, 0x22);
    }
    LastOfImage(h, wide, cs, i, kind);
    InfoWords(cs[i], kind, off, size);
  }

  lemma InfoWords(c: seq<u8>, kind: u32, off: u32, size: u32)
    requires IsInfo(c, kind, off, size)
    ensures |c| == 48 && Read32(c, 0) == kind && Read32(c, 40) == off && Read32(c, 44) == size
  {
    hide Read32, DyldInfo;
    var f :| c == DyldInfo(kind, f) && f.exportOff == off && f.exportSize == size;
    DyldInfoWords(kind, f);
  }

  // ---------------------------------------------------------------------------
  //  Where the entries are
  // ---------------------------------------------------------------------------

  /** In a table of a 64-bit image symbol k is 16 * k bytes behind the start, in one of a 32-bit image 12 * k. */
  lemma SymbolAddresses(table: SymbolTable, wide: bool, cs: seq<seq<u8>>, i: nat, symoff: u32, nsyms: u32, stroff: u32,
                        strsize: u32, k: nat)
    requires table.Valid() && IsSegmentOf(table.segment, wide, cs) && i < |cs|
    requires table.symtab == Some(CommandOf(table.segment, cs, i)) && cs[i] == Symtab(symoff, nsyms, stroff, strsize)
    ensures var e, size := table.View(), if wide then 16 else 12;
            && table.Count() == e.count == nsyms && table.range.length == nsyms as int * size
            && (k < nsyms ==> e.TargetOf(k) == table.range.location + k * size)
            && (e.Has(k) <==>
                  k < nsyms
                  && table.range.location + k * size + size
                     <= table.segment.mapping.target + |table.segment.mapping.bytes|)
            && (e.Has(k) ==>
                  e.PointerTo(k) - table.segment.mapping.host
                  == table.range.location + k * size - table.segment.mapping.target)
  {
    hide Read32, IsImageOf, Starts, Symtab, Header.Is64Bit;
    SegmentIsSearchable(table.segment, wide, cs);
    SymtabWords(symoff, nsyms, stroff, strsize);
    CommandOfReads(table.segment, wide, cs, i, 12);
    if k < nsyms {
      EntryInside(table.View(), k);
    }
  }

  /** In an indirect symbol table entry k is 4 * k bytes behind the start. */
  lemma IndirectAddresses(table: IndirectSymbolTable, wide: bool, cs: seq<seq<u8>>, i: nat, f: DysymtabFields, k: nat)
    requires table.Valid() && IsSegmentOf(table.segment, wide, cs) && i < |cs|
    requires table.dysymtab == Some(CommandOf(table.segment, cs, i)) && cs[i] == Dysymtab(f)
    ensures var e := table.View();
            && table.Count() == e.count == f.nindirectsyms && table.range.length == f.nindirectsyms as int * 4
            && (k < f.nindirectsyms ==> e.TargetOf(k) == table.range.location + k * 4)
            && (e.Has(k) <==>
                  k < f.nindirectsyms
                  && table.range.location + k * 4 + 4 <= table.segment.mapping.target + |table.segment.mapping.bytes|)
  {
    hide Read32, IsImageOf, Starts, Dysymtab;
    DysymtabWords(f);
    CommandOfReads(table.segment, wide, cs, i, 60);
    if k < f.nindirectsyms {
      EntryInside(table.View(), k);
    }
  }

  /** An indirect symbol table that was written as words is read as those words. */
  lemma IndirectValues(e: Entries, values: seq<u32>, k: nat)
    requires e.Valid() && e.stride == 4 && e.table.Covered() && e.table.Bytes() == Words(values) && k < |values|
    ensures e.count == |values| && e.Has(k) && ValueAt(e, k) == values[k]
  {
    hide *;
    WordTablePlace(e, k);
    ValueIsWord(e, k);
    WordAt(values, k);
  }

  /** The k-th call of an enumeration from `first` on gets the word, the index and the address of entry `first + k`. */
  lemma IndirectCalls(e: Entries, values: seq<u32>, first: u32, k: nat)
    requires e.Valid() && e.stride == 4 && e.table.Covered() && e.table.Bytes() == Words(values)
    requires first + k < |values|
    ensures e.count == |values| && |ValueCalls(e, first, e.count)| == |values| - first
    ensures ValueCalls(e, first, e.count)[k]
         == ValueCall(values[first + k], first + k, e.table.range.location + 4 * (first + k))
  {
    hide *;
    IndirectValues(e, values, first + k);
    CallIs(e, first, k);
  }

  lemma CallIs(e: Entries, first: u32, k: nat)
    requires e.Valid() && e.stride == 4 && e.table.Covered() && first + k < e.count && e.Has(first + k)
    ensures |ValueCalls(e, first, e.count)| == e.count - first
    ensures ValueCalls(e, first, e.count)[k]
         == ValueCall(ValueAt(e, first + k), first + k, e.table.range.location + 4 * (first + k))
  {
    hide ValueAt, Entries.PointerTo;
    EntryInside(e, first + k);
  }

  lemma ValueIsWord(e: Entries, k: nat)
    requires e.Valid() && e.stride == 4 && e.table.Covered() && k < e.count && e.Has(k)
    ensures 4 * k + 4 <= |e.table.Bytes()| && ValueAt(e, k) == Read32(e.table.Bytes(), 4 * k)
  {
    hide *;
    WordTablePlace(e, k);
    ValueLocation(e, k);
    WordOfTable(e.table, 4 * k);
  }

  lemma WordOfTable(t: Table, o: nat)
    requires t.Valid() && t.Covered() && o + 4 <= t.range.length
    ensures var start := t.range.location - t.mapping.target;
            start + o + 4 <= |t.mapping.bytes| && Read32(t.mapping.bytes, start + o) == Read32(t.Bytes(), o)
  {
    hide Read32;
    BytesOfTable(t, o, o + 4);
    Read32Agrees(t.mapping.bytes, t.range.location - t.mapping.target + o, t.Bytes(), o);
  }

  lemma WordTablePlace(e: Entries, k: nat)
    requires e.Valid() && e.stride == 4 && e.table.Covered()
    ensures e.table.Valid() && |e.table.Bytes()| == e.table.range.length == 4 * e.count
    ensures k < e.count ==>
              && e.Has(k)
              && 0 <= e.table.range.location - e.table.mapping.target
              && e.PointerTo(k) - e.table.mapping.host == e.table.range.location - e.table.mapping.target + 4 * k
  {
    hide Table.Bytes;
    if k < e.count {
      CoveredHasAll(e, k);
      EntryInside(e, k);
    }
  }
}
