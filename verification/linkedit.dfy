/**
 Tables inside the __LINKEDIT segment: where mk_exports_trie_init, mk_string_table_init,
 mk_symbol_table_init and mk_indirect_symbol_table_init place them.
 */
module LinkEdit {
  import opened Machine
  import opened Core
  import opened Memory
  import opened LoadCommands
  import opened MachOImages

  /** An initialised mk_segment_t: its slid address range, its file offset and the mapping of its bytes. */
  datatype Segment = Segment(image: MachOImage, range: Range, fileoff: u64, mapping: MemoryObject) {

    /** The mapping starts with the segment; a shared cache may map less of it than its range (segment.c:110-116). */
    ghost predicate Valid() {
      mapping.Valid() && mapping.target == range.location
    }
  }

  /** An initialised mk_load_command_t. */
  datatype LoadCommand = LoadCommand(image: MachOImage, header: Header, pos: nat) {

    /** The first `length` bytes of the command are mapped. The field getters do not check this. */
    predicate Holds(length: nat) {
      8 <= length && pos + length <= |header.mapping.bytes|
    }

    function Kind(): u32
      requires Holds(8)
    {
      header.CommandType(pos)
    }

    function Word(offset: nat): u32
      requires Holds(offset + 4)
    {
      Read32(header.mapping.bytes, pos + offset)
    }
  }

  /** A placed table: its address range and the mapping of the segment it lies in. */
  datatype Table = Table(range: Range, mapping: MemoryObject) {

    ghost predicate Valid() {
      mapping.Valid() && range.Bounded() && mapping.target <= range.location
    }

    /** The mapping is not too short for the table. */
    predicate Covered() {
      range.location + range.length <= mapping.target + |mapping.bytes|
    }

    /** The bytes of the table. */
    function Bytes(): (b: seq<u8>)
      requires Valid() && Covered()
      ensures |b| == range.length
    {
      mapping.bytes[range.location - mapping.target..range.location - mapping.target + range.length]
    }

    /** The table as a mapping of its own: reading through it is reading inside the table. */
    function Part(): (m: MemoryObject)
      requires Valid() && Covered()
      ensures m.Valid() && |m.bytes| == range.length && m.target == range.location && m.host == PointerTo(0)
    {
      MemoryObject(range.location, PointerTo(0), Bytes())
    }

    /** The host pointer to a byte of the table. */
    function PointerTo(offset: nat): (p: u64)
      ensures Valid() && range.location + offset <= mapping.target + |mapping.bytes| ==>
                p == mapping.host + (range.location - mapping.target) + offset
    {
      Wrap64(mapping.host + range.location - mapping.target + offset)
    }
  }

  /** A slice of a table is a slice of the mapping. */
  lemma BytesOfTable(t: Table, a: nat, b: nat)
    requires t.Valid() && t.Covered() && a <= b <= t.range.length
    ensures var start := t.range.location - t.mapping.target;
            t.mapping.bytes[start + a..start + b] == t.Bytes()[a..b]
  {
    SliceOfSlice(t.mapping.bytes, t.range.location - t.mapping.target, t.Bytes(), a, b);
  }

  /** The range for a table of `size` bytes stored at file offset `off`. */
  function Placement(segment: Segment, off: u32, size: u64): (r: Result<Range>)
    ensures r.Err? ==> r.error != ESuccess
  {
    var start := segment.range.location + off - segment.fileoff;
    if segment.range.location + off >= TWO64 then Err(EOverflow)
    else if start < 0 then Err(EUnderflow)
    else if segment.range.ContainsRange(Range(start, size), false) != ESuccess
    then Err(segment.range.ContainsRange(Range(start, size), false))
    else Ok(Range(start, size))
  }

  /** The range the initialisers write before they check it; None if they give up earlier. */
  function StoredRange(segment: Segment, off: u32, size: u64): Option<Range> {
    var start := segment.range.location + off - segment.fileoff;
    if segment.range.location + off >= TWO64 || start < 0 then None else Some(Range(start, size))
  }

  /** The common tail of the four initialisers. */
  method PlaceInSegment(segment: Segment, off: u32, size: u64) returns (err: Error, stored: Option<Range>)
    ensures match Placement(segment, off, size)
            case Ok(r) => err == ESuccess && stored == Some(r)
            case Err(e) => err == e
    ensures stored == StoredRange(segment, off, size)
  {
    stored := None;
    var vmAddress := segment.range.location;
    err, vmAddress := AddressApplyOffset(vmAddress, off, vmAddress);
    if err != ESuccess {
      return;
    }
    err, vmAddress := AddressSubtract(vmAddress, segment.fileoff, vmAddress);
    if err != ESuccess {
      return;
    }
    stored := Some(Range(vmAddress, size));
    err := segment.range.ContainsRange(stored.value, false);
  }

  /**
   A table is placed iff its file interval, shifted by the segment's, fits the segment; it then lies
   exactly there.
   */
  lemma PlacementIsExact(segment: Segment, off: u32, size: u64)
    ensures Placement(segment, off, size).Ok? <==>
              && segment.range.Bounded() && segment.range.location + off < TWO64
              && segment.fileoff <= off && off - segment.fileoff + size <= segment.range.length
    ensures Placement(segment, off, size) == Err(EUnderflow) <==>
              segment.range.location + off < TWO64 && segment.range.location + off < segment.fileoff
    ensures Placement(segment, off, size) == Err(EOverflow) <==>
              || segment.range.location + off >= TWO64
              || (segment.fileoff <= segment.range.location + off
                  && (!segment.range.Bounded() || segment.range.location + off - segment.fileoff + size >= TWO64))
    ensures Placement(segment, off, size).Ok? ==>
              var r := Placement(segment, off, size).value;
              && r.location - segment.range.location == off - segment.fileoff
              && r.length == size && r.Bounded()
    ensures StoredRange(segment, off, size).Some? <==>
              segment.range.location + off < TWO64 && segment.fileoff <= segment.range.location + off
    ensures StoredRange(segment, off, size).Some? ==>
              var r := StoredRange(segment, off, size).value;
              r.location == segment.range.location + off - segment.fileoff && r.length == size
  {
  }

  /**
   Two placed tables are as far apart in memory as in the file, and overlap in memory iff they overlap in
   the file.
   */
  lemma PlacementKeepsDistances(segment: Segment, off1: u32, size1: u64, off2: u32, size2: u64)
    requires Placement(segment, off1, size1).Ok? && Placement(segment, off2, size2).Ok?
    ensures var r1, r2 := Placement(segment, off1, size1).value, Placement(segment, off2, size2).value;
            && r2.location - r1.location == off2 - off1
            && ((exists x :: r1.Holds(x) && r2.Holds(x)) <==>
                (exists f :: Range(off1, size1).Holds(f) && Range(off2, size2).Holds(f)))
  {
    PlacementIsExact(segment, off1, size1);
    PlacementIsExact(segment, off2, size2);
    var r1, r2 := Placement(segment, off1, size1).value, Placement(segment, off2, size2).value;
    var d := r1.location - off1;
    if x :| r1.Holds(x) && r2.Holds(x) {
      assert Range(off1, size1).Holds(x - d) && Range(off2, size2).Holds(x - d);
    }
    if f :| Range(off1, size1).Holds(f) && Range(off2, size2).Holds(f) {
      assert r1.Holds(f + d) && r2.Holds(f + d);
    }
  }

  /** A placed table of a valid segment is a valid table. */
  lemma PlacedTableIsValid(segment: Segment, off: u32, size: u64)
    requires segment.Valid() && Placement(segment, off, size).Ok?
    ensures Table(Placement(segment, off, size).value, segment.mapping).Valid()
    ensures |segment.mapping.bytes| >= segment.range.length ==>
              Table(Placement(segment, off, size).value, segment.mapping).Covered()
  {
    PlacementIsExact(segment, off, size);
  }
}
