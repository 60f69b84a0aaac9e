/**
 libMachO/MachO_ABI/symbol_table.c and indirect_symbol_table.c: two tables of fixed-size
 entries, addressed by index, by the previous entry, and in bulk.
 */
module SymbolTables {
  import opened Machine
  import opened Core
  import opened Memory
  import opened LoadCommands
  import opened LinkEdit
  import opened FixedTables

  /** sizeof(struct nlist_64) or sizeof(struct nlist). */
  function NlistSize(h: Header): nat
    requires h.Valid()
  {
    if h.Is64Bit() then 16 else 12
  }

  /** The command's type can be read and, if it fits, so can the `length` bytes up to the last field that is read. */
  ghost predicate Readable(segment: Segment, lc: Option<LoadCommand>, kind: u32, length: nat) {
    lc.Some? ==>
      lc.value.Holds(8) && (lc.value.Kind() == kind && lc.value.image == segment.image ==> lc.value.Holds(length))
  }

  /** What the symbol table's initialiser needs of its arguments; of LC_DYSYMTAB it reads only the type. */
  ghost predicate SymbolCommandsReadable(segment: Segment, symtab: Option<LoadCommand>, dysymtab: Option<LoadCommand>) {
    && Readable(segment, symtab, LC_SYMTAB, 16) && (symtab.Some? ==> symtab.value.header.Valid())
    && (dysymtab.Some? ==> dysymtab.value.Holds(8))
  }

  /** A command that was passed must have the right type and belong to the segment's image. */
  predicate Unfit(segment: Segment, lc: Option<LoadCommand>, kind: u32, optional: bool)
    requires lc.Some? ==> lc.value.Holds(8)
  {
    if lc.None? then !optional else lc.value.Kind() != kind || lc.value.image != segment.image
  }

  /** What mk_symbol_table_init stores as the table's range. */
  function SymbolRange(segment: Segment, symtab: Option<LoadCommand>, dysymtab: Option<LoadCommand>): Result<Range>
    requires SymbolCommandsReadable(segment, symtab, dysymtab)
  {
    if Unfit(segment, symtab, LC_SYMTAB, false) || Unfit(segment, dysymtab, LC_DYSYMTAB, true) then Err(EInval)
    else if symtab.value.Word(8) == 0 then Err(ENotFound)
    else Placement(segment, symtab.value.Word(8), symtab.value.Word(12) * NlistSize(symtab.value.header))
  }

  /** What mk_indirect_symbol_table_init stores as the table's range. */
  function IndirectRange(segment: Segment, dysymtab: Option<LoadCommand>): Result<Range>
    requires Readable(segment, dysymtab, LC_DYSYMTAB, 64)
  {
    if Unfit(segment, dysymtab, LC_DYSYMTAB, false) then Err(EInval)
    else if dysymtab.value.Word(56) == 0 then Err(ENotFound)
    else Placement(segment, dysymtab.value.Word(56), dysymtab.value.Word(60) * 4)
  }

  /** The range mk_symbol_table_init writes, also if it then fails. */
  function WrittenSymbolRange(segment: Segment, symtab: Option<LoadCommand>,
    dysymtab: Option<LoadCommand>): Option<Range>
    requires SymbolCommandsReadable(segment, symtab, dysymtab)
  {
    if Unfit(segment, symtab, LC_SYMTAB, false) || Unfit(segment, dysymtab, LC_DYSYMTAB, true) then None
    else if symtab.value.Word(8) == 0 then None
    else StoredRange(segment, symtab.value.Word(8), symtab.value.Word(12) * NlistSize(symtab.value.header))
  }

  /** The range mk_indirect_symbol_table_init writes, also if it then fails. */
  function WrittenIndirectRange(segment: Segment, dysymtab: Option<LoadCommand>): Option<Range>
    requires Readable(segment, dysymtab, LC_DYSYMTAB, 64)
  {
    if Unfit(segment, dysymtab, LC_DYSYMTAB, false) || dysymtab.value.Word(56) == 0 then None
    else StoredRange(segment, dysymtab.value.Word(56), dysymtab.value.Word(60) * 4)
  }

  // ---------------------------------------------------------------------------
  //  Lemmas for the methods
  // ---------------------------------------------------------------------------

  /** The arithmetic in front of every access to entry `i`. */
  lemma EntryLocation(e: Entries, i: nat)
    requires e.Valid() && i < e.count
    ensures 0 <= i * e.stride < 0x1_0000_0000_0000_0000
    ensures e.table.mapping.Valid()
    ensures Machine.Stored(Sum(e.table.range.location, i * e.stride), 0) == (ESuccess, e.TargetOf(i))
    ensures e.TargetOf(i) == e.table.range.location + i * e.stride
    ensures e.stride < 0x1_0000_0000_0000_0000 ==>
              var mapped := e.table.mapping.RemapAddress(0, e.TargetOf(i), e.stride);
              if e.Has(i) then mapped == Ok(e.PointerTo(i)) else mapped.Err?
  {
    EntryInside(e, i);
  }

  /** The arithmetic in front of an enumeration from entry `i`. */
  lemma RestLocation(e: Entries, i: nat)
    requires e.Valid() && i < e.count
    ensures Machine.Stored(Difference(e.table.range.length, i * e.stride), 0)
              == (ESuccess, e.table.range.length - i * e.stride)
    ensures 0 <= e.table.range.length - i * e.stride
    ensures var mapped := e.table.mapping.RemapAddress(0, e.TargetOf(i), e.table.range.length - i * e.stride);
            if e.table.Covered() then mapped == Ok(e.PointerTo(i)) else mapped.Err?
  {
    EntryInside(e, i);
  }

  /** One turn of an enumeration loop. */
  lemma EnumerationStep(e: Entries, first: u32, i: u32)
    requires e.Valid() && e.table.Covered() && first <= i < e.count
    ensures Calls(e, first, i + 1) == Calls(e, first, i) + [Call(e.PointerTo(i), i, e.TargetOf(i))]
    ensures e.PointerTo(i) + e.stride
              == e.table.mapping.host + (e.table.range.location - e.table.mapping.target) + (i + 1) * e.stride
    ensures i + 1 < e.count ==> Wrap64(e.PointerTo(i) + e.stride) == e.PointerTo(i + 1)
                                && Wrap64(e.TargetOf(i) + e.stride) == e.TargetOf(i + 1)
    ensures e.table.mapping.host <= e.PointerTo(i)
              && e.PointerTo(i) + e.stride <= e.table.mapping.host + |e.table.mapping.bytes|
  {
    EntryInside(e, i);
    assert (i + 1) * e.stride == i * e.stride + e.stride;
    if i + 1 < e.count {
      EntryInside(e, i + 1);
    }
  }

  /** What a previous pointer means to mk_symbol_table_next_mach_symbol. */
  lemma PreviousEntry(e: Entries, p: u64)
    requires e.Valid() && e.table.mapping.Valid()
    ensures match e.table.mapping.UnmapAddress(0, p, 1)
            case Err(_) => NextIndex(e, Some(p)) == None
            case Ok(addr) =>
              if e.table.range.ContainsAddress(0, addr) != ESuccess then NextIndex(e, Some(p)) == None
              else
                && 0 <= addr - e.table.range.location && 0 < e.stride
                && var index := (addr - e.table.range.location) / e.stride;
                && 0 <= index && Wrap32(index) == index && Wrap32(index + 1) == index + 1
                && NextIndex(e, Some(p)) == if e.Has(index + 1) then Some(index + 1) else None
  {
    var addr := e.table.mapping.UnmapAddress(0, p, 1);
    if addr.Ok? && e.table.range.ContainsAddress(0, addr.value) == ESuccess {
      IndexBound(e, addr.value - e.table.range.location);
    }
  }

  // ---------------------------------------------------------------------------
  //  The symbol table
  // ---------------------------------------------------------------------------

  class SymbolTable {
    var segment: Segment
    var range: Range
    var symtab: Option<LoadCommand>
    var dysymtab: Option<LoadCommand>
    var live: bool  // the vtable pointer is set

    constructor (unset: Segment)
      ensures !live
    {
      segment := unset;
      range := Range(0, 0);
      symtab, dysymtab := None, None;
      live := false;
    }

    ghost predicate Valid()
      reads this
    {
      live && segment.Valid() && symtab.Some? && symtab.value.header.Valid() && symtab.value.Holds(16) && View().Valid()
    }

    function Count(): u32
      requires symtab.Some? && symtab.value.Holds(16)
      reads this
    {
      symtab.value.Word(12)
    }

    function View(): Entries
      requires symtab.Some? && symtab.value.header.Valid() && symtab.value.Holds(16)
      reads this
    {
      Entries(Table(range, segment.mapping), NlistSize(symtab.value.header), Count())
    }

    /** mk_symbol_table_init. */
    method Init(segment: Segment, symtab: Option<LoadCommand>, dysymtab: Option<LoadCommand>) returns (err: Error)
      requires segment.Valid() && SymbolCommandsReadable(segment, symtab, dysymtab)
      modifies this
      ensures match SymbolRange(segment, symtab, dysymtab)
              case Ok(r) => err == ESuccess && Valid() && this.segment == segment && range == r && this.symtab == symtab
                            && this.dysymtab == if dysymtab.Some? then dysymtab else old(this.dysymtab)
              case Err(e) => err == e && live == old(live) && this.symtab == old(this.symtab)
                             && this.dysymtab == old(this.dysymtab)
      ensures var written := WrittenSymbolRange(segment, symtab, dysymtab);
              && this.segment == (if written.Some? then segment else old(this.segment))
              && range == (if written.Some? then written.value else old(range))
      ensures symtab.None? || symtab.value.Kind() != 0x2 || symtab.value.image != segment.image ==> err == EInval
      ensures dysymtab.Some? && (dysymtab.value.Kind() != 0xB || dysymtab.value.image != segment.image) ==>
                err == EInval
    {
      hide Placement, Read32, Range.ContainsRange, Header.Is64Bit;
      if symtab.None? {
        return EInval;
      }
      if symtab.value.Kind() != LC_SYMTAB {
        return EInval;
      }
      if dysymtab.Some? && dysymtab.value.Kind() != LC_DYSYMTAB {
        return EInval;
      }
      if symtab.value.image != segment.image {
        return EInval;
      }
      if dysymtab.Some? && dysymtab.value.image != segment.image {
        return EInval;
      }
      var symoff := symtab.value.Word(8);
      var nsyms := symtab.value.Word(12);
      if symoff == 0 {
        return ENotFound;
      }
      var vmSize := nsyms * NlistSize(symtab.value.header);
      var stored;
      err, stored := PlaceInSegment(segment, symoff, vmSize);
      if stored.Some? {
        this.segment, range := segment, stored.value;
      }
      if err != ESuccess {
        return;
      }
      PlacementIsExact(segment, symoff, vmSize);
      this.symtab := symtab;
      if dysymtab.Some? {
        this.dysymtab := dysymtab;
      }
      live := true;
    }

    /** mk_symbol_table_get_mach_symbol_at_index. */
    method GetMachSymbolAtIndex(index: u32, prior: u64) returns (symbol: Option<u64>, target: u64)
      requires Valid()
      ensures View().Has(index) ==> symbol == Some(View().PointerTo(index)) && target == View().TargetOf(index)
      ensures !View().Has(index) ==> symbol == None && target == prior
    {
      hide *;
      ViewIsValid();
      var e := View();
      if index >= Count() {
        NothingPastTheEnd(e, index);
        return None, prior;
      }
      EntryLocation(e, index);
      var err, addr: u64 := ESuccess, 0;
      err, addr := AddressApplyOffset(range.location, index * e.stride, addr);
      if err != ESuccess {
        return None, prior;
      }
      var pointer := segment.mapping.RemapAddress(0, addr, e.stride);
      if pointer.Err? {
        return None, prior;
      }
      return Some(pointer.value), addr;
    }

    /** mk_symbol_table_next_mach_symbol. */
    method NextMachSymbol(previous: Option<u64>, priorIndex: u32, priorTarget: u64)
      returns (symbol: Option<u64>, index: u32, target: u64)
      requires Valid()
      ensures match NextIndex(View(), previous)
              case None => symbol == None && index == priorIndex && target == priorTarget
              case Some(i) => symbol == Some(View().PointerTo(i)) && index == i && target == View().TargetOf(i)
    {
      hide *;
      ViewIsValid();
      var e := View();
      if previous.None? {
        FirstIndex(e);
        symbol, target := GetMachSymbolAtIndex(0, priorTarget);
        index := if symbol.Some? then 0 else priorIndex;
        return;
      }
      PreviousEntry(e, previous.value);
      var addr := segment.mapping.UnmapAddress(0, previous.value, 1);
      if addr.Err? {
        return None, priorIndex, priorTarget;
      }
      if range.ContainsAddress(0, addr.value) != ESuccess {
        return None, priorIndex, priorTarget;
      }
      var offst := addr.value - range.location;
      var idx := Wrap32(offst / e.stride);
      idx := Wrap32(idx + 1);
      symbol, target := GetMachSymbolAtIndex(idx, priorTarget);
      index := if symbol.Some? then idx else priorIndex;
    }

    /** mk_symbol_table_enumerate_mach_symbols; the result lists the calls of the block. */
    method EnumerateMachSymbols(first: u32) returns (calls: seq<Call>)
      requires Valid()
      ensures calls == if first < View().count && View().table.Covered() then Calls(View(), first, View().count) else []
    {
      hide *;
      ViewIsValid();
      var e := View();
      calls := [];
      if first >= Count() {
        return;
      }
      EntryLocation(e, first);
      RestLocation(e, first);
      var err, target: u64, maxLength: u64 := ESuccess, 0, 0;
      err, target := AddressApplyOffset(range.location, first * e.stride, target);
      if err != ESuccess {
        return;
      }
      err, maxLength := AddressSubtract(range.length, first * e.stride, maxLength);
      if err != ESuccess {
        return;
      }
      var pointer := segment.mapping.RemapAddress(0, target, maxLength);
      if pointer.Err? {
        return;
      }
      var symbol: u64, index: u32 := pointer.value, first;
      NoCalls(e, first);
      var more := true;
      while more
        invariant first <= index <= e.count && calls == Calls(e, first, index)
        invariant more <==> index < e.count
        invariant more ==> symbol == e.PointerTo(index) && target == e.TargetOf(index)
        decreases e.count - index
      {
        EnumerationStep(e, first, index);
        calls := calls + [Call(symbol, index, target)];
        index := index + 1;
        symbol := Wrap64(symbol + e.stride);
        target := Wrap64(target + e.stride);
        more := index < Count();
      }
    }

    lemma ViewIsValid()
      requires Valid()
      ensures symtab.Some? && symtab.value.header.Valid() && symtab.value.Holds(16)
      ensures View().Valid() && View().table == Table(range, segment.mapping) && View().count == Count()
      ensures segment.mapping.Valid() && 0 < View().stride < 0x1_0000_0000_0000_0000
    {
    }
  }

  lemma NothingPastTheEnd(e: Entries, i: nat)
    requires i >= e.count
    ensures !e.Has(i)
  {
  }

  lemma NoCalls(e: Entries, first: u32)
    ensures Calls(e, first, first) == []
  {
  }

  // ---------------------------------------------------------------------------
  //  The indirect symbol table
  // ---------------------------------------------------------------------------

  /** One call of the indirect table's enumeration block. */
  datatype ValueCall = ValueCall(value: u32, index: u32, target: u64)

  /** The entry's value, read in host order. */
  function ValueAt(e: Entries, i: nat): u32
    requires e.Valid() && e.stride == 4 && e.Has(i)
  {
    EntryInside(e, i);
    Read32(e.table.mapping.bytes, e.PointerTo(i) - e.table.mapping.host)
  }

  class IndirectSymbolTable {
    var segment: Segment
    var range: Range
    var dysymtab: Option<LoadCommand>
    var live: bool  // the vtable pointer is set

    constructor (unset: Segment)
      ensures !live
    {
      segment := unset;
      range := Range(0, 0);
      dysymtab := None;
      live := false;
    }

    ghost predicate Valid()
      reads this
    {
      live && segment.Valid() && dysymtab.Some? && dysymtab.value.Holds(64) && View().Valid()
    }

    function Count(): u32
      requires dysymtab.Some? && dysymtab.value.Holds(64)
      reads this
    {
      dysymtab.value.Word(60)
    }

    function View(): Entries
      requires dysymtab.Some? && dysymtab.value.Holds(64)
      reads this
    {
      Entries(Table(range, segment.mapping), 4, Count())
    }

    /** mk_indirect_symbol_table_init. */
    method Init(segment: Segment, dysymtab: Option<LoadCommand>) returns (err: Error)
      requires segment.Valid() && Readable(segment, dysymtab, LC_DYSYMTAB, 64)
      modifies this
      ensures match IndirectRange(segment, dysymtab)
              case Ok(r) => err == ESuccess && Valid() && this.segment == segment && range == r
                && this.dysymtab == dysymtab
              case Err(e) => err == e && live == old(live) && this.dysymtab == old(this.dysymtab)
      ensures var written := WrittenIndirectRange(segment, dysymtab);
              && this.segment == (if written.Some? then segment else old(this.segment))
              && range == (if written.Some? then written.value else old(range))
      ensures dysymtab.None? || dysymtab.value.Kind() != 0xB || dysymtab.value.image != segment.image ==> err == EInval
    {
      hide Placement, Read32, Range.ContainsRange;
      if dysymtab.None? {
        return EInval;
      }
      if dysymtab.value.Kind() != LC_DYSYMTAB {
        return EInval;
      }
      if dysymtab.value.image != segment.image {
        return EInval;
      }
      var indirectsymoff := dysymtab.value.Word(56);
      var nindirectsyms := dysymtab.value.Word(60);
      if indirectsymoff == 0 {
        return ENotFound;
      }
      var vmSize: u64 := nindirectsyms as int * 4;
      var stored;
      err, stored := PlaceInSegment(segment, indirectsymoff, vmSize);
      if stored.Some? {
        this.segment, range := segment, stored.value;
      }
      if err != ESuccess {
        return;
      }
      PlacementIsExact(segment, indirectsymoff, vmSize);
      this.dysymtab := dysymtab;
      live := true;
    }

    /**
     mk_indirect_symbol_table_get_entry_at_index. The C code checks the wrong variable after mapping the
     entry, so an entry below the count must be mapped.
     */
    method GetEntryAtIndex(index: u32, prior: u64) returns (value: u32, target: u64)
      requires Valid() && (index < View().count ==> View().Has(index))
      ensures index < View().count ==> value == ValueAt(View(), index) && target == View().TargetOf(index)
      ensures index >= View().count ==> value == U32_MAX && target == prior
    {
      hide *;
      ViewIsValid();
      var e := View();
      if index >= Count() {
        return U32_MAX, prior;
      }
      EntryLocation(e, index);
      ValueLocation(e, index);
      var err, addr: u64 := ESuccess, 0;
      err, addr := AddressApplyOffset(range.location, index * e.stride, addr);
      if err != ESuccess {
        return U32_MAX, prior;
      }
      var entry := segment.mapping.RemapAddress(0, addr, e.stride);
      return Read32(segment.mapping.bytes, entry.value - segment.mapping.host), addr;
    }

    /** mk_indirect_symbol_table_enumerate_entries; the result lists the calls of the block. */
    method EnumerateEntries(first: u32) returns (calls: seq<ValueCall>)
      requires Valid()
      ensures first < View().count && View().table.Covered() ==> calls == ValueCalls(View(), first, View().count)
      ensures !(first < View().count && View().table.Covered()) ==> calls == []
    {
      hide *;
      ViewIsValid();
      var e := View();
      calls := [];
      if first >= Count() {
        return;
      }
      EntryLocation(e, first);
      RestLocation(e, first);
      var err, target: u64, maxLength: u64 := ESuccess, 0, 0;
      err, target := AddressApplyOffset(range.location, first * e.stride, target);
      if err != ESuccess {
        return;
      }
      err, maxLength := AddressSubtract(range.length, first * e.stride, maxLength);
      if err != ESuccess {
        return;
      }
      var pointer := segment.mapping.RemapAddress(0, target, maxLength);
      if pointer.Err? {
        return;
      }
      var entry: u64, index: u32 := pointer.value, first;
      NoValueCalls(e, first);
      var more := true;
      while more
        invariant first <= index <= e.count && calls == ValueCalls(e, first, index)
        invariant more <==> index < e.count
        invariant more ==> entry == e.PointerTo(index) && target == e.TargetOf(index)
        decreases e.count - index
      {
        ValueStep(e, first, index);
        calls := calls + [ValueCall(Read32(segment.mapping.bytes, entry - segment.mapping.host), index, target)];
        index := index + 1;
        entry := Wrap64(entry + e.stride);
        target := Wrap64(target + e.stride);
        more := index < Count();
      }
    }

    lemma ViewIsValid()
      requires Valid()
      ensures dysymtab.Some? && dysymtab.value.Holds(64)
      ensures View().Valid() && View().table == Table(range, segment.mapping) && View().count == Count()
      ensures segment.mapping.Valid() && View().stride == 4
    {
    }
  }

  /** In a mapped table every entry is mapped. */
  lemma CoveredHasAll(e: Entries, i: nat)
    requires e.Valid() && e.table.Covered() && i < e.count
    ensures e.Has(i)
  {
    EntryInside(e, i);
  }

  /** The calls for the indirect entries from `first` up to `end`. */
  ghost function ValueCalls(e: Entries, first: u32, end: u32): (r: seq<ValueCall>)
    requires e.Valid() && e.stride == 4 && e.table.Covered() && first <= end <= e.count
    ensures |r| == end - first
  {
    seq(end - first, k requires 0 <= k < end - first =>
      CoveredHasAll(e, first + k);
      ValueCall(ValueAt(e, first + k), first + k, e.TargetOf(first + k)))
  }

  lemma NoValueCalls(e: Entries, first: u32)
    requires e.Valid() && e.stride == 4 && e.table.Covered() && first <= e.count
    ensures ValueCalls(e, first, first) == []
  {
  }

  /** One turn of the enumeration loop. */
  lemma ValueStep(e: Entries, first: u32, i: u32)
    requires e.Valid() && e.stride == 4 && e.table.Covered() && first <= i < e.count
    ensures e.table.mapping.host <= e.PointerTo(i)
              && e.PointerTo(i) - e.table.mapping.host + 4 <= |e.table.mapping.bytes|
    ensures ValueCalls(e, first, i + 1)
         == ValueCalls(e, first,
           i) + [ValueCall(Read32(e.table.mapping.bytes, e.PointerTo(i) - e.table.mapping.host), i, e.TargetOf(i))]
    ensures i + 1 < e.count ==> Wrap64(e.PointerTo(i) + e.stride) == e.PointerTo(i + 1)
                                && Wrap64(e.TargetOf(i) + e.stride) == e.TargetOf(i + 1)
  {
    hide Read32, Entries.PointerTo, Entries.TargetOf, Entries.Has;
    CoveredHasAll(e, i);
    ValueLocation(e, i);
    EnumerationStep(e, first, i);
  }

  lemma ValueLocation(e: Entries, i: nat)
    requires e.Valid() && e.stride == 4 && e.Has(i)
    ensures e.table.mapping.host <= e.PointerTo(i)
              && e.PointerTo(i) - e.table.mapping.host + 4 <= |e.table.mapping.bytes|
    ensures ValueAt(e, i) == Read32(e.table.mapping.bytes, e.PointerTo(i) - e.table.mapping.host)
  {
    EntryInside(e, i);
  }
}
