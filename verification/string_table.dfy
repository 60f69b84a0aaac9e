/**
 libMachO/MachO_ABI/string_table.c: looking up, stepping through and enumerating the
 NUL-terminated strings of a table.

 A pointer result of None is the C NULL. Out-parameters keep their prior value when a
 function does not write them.
 */
module StringTables {
  import opened Machine
  import opened Core
  import opened Memory
  import opened CStrings
  import opened LoadCommands
  import opened LinkEdit
  import opened MachOImages

  // ---------------------------------------------------------------------------
  //  What the functions return, in offsets
  // ---------------------------------------------------------------------------

  /** The command has the right type and belongs to the segment's image; only then are its fields read. */
  predicate Fits(segment: Segment, lc: LoadCommand)
    requires lc.Holds(8)
  {
    lc.Kind() == LC_SYMTAB && lc.image == segment.image
  }

  /** What mk_string_table_init stores as the table's range. */
  function InitRange(segment: Segment, lc: Option<LoadCommand>): Result<Range>
    requires lc.Some? ==> lc.value.Holds(8) && (Fits(segment, lc.value) ==> lc.value.Holds(24))
  {
    if lc.None? || !Fits(segment, lc.value) then Err(EInval)
    else if lc.value.Word(16) == 0 then Err(ENotFound)
    else Placement(segment, lc.value.Word(16), lc.value.Word(20))
  }

  /** The range mk_string_table_init writes, also if it then fails. */
  function WrittenRange(segment: Segment, lc: Option<LoadCommand>): Option<Range>
    requires lc.Some? ==> lc.value.Holds(8) && (Fits(segment, lc.value) ==> lc.value.Holds(24))
  {
    if lc.None? || !Fits(segment, lc.value) || lc.value.Word(16) == 0 then None
    else StoredRange(segment, lc.value.Word(16), lc.value.Word(20))
  }

  /** There is a string at `offset`: the offset is inside the table and the table is mapped. */
  predicate HasStringAt(t: Table, offset: nat) {
    offset < t.range.length && t.Covered()
  }

  /** The offset of the string after the one `previous` points into, or of the first one. */
  function NextOffset(t: Table, previous: Option<u64>): Option<u32>
    requires t.Valid()
  {
    match previous
    case None => if HasStringAt(t, 0) then Some(0) else None
    case Some(p) =>
      var o := p - t.PointerTo(0);
      if t.Covered() && 0 <= o < t.range.length && HasStringAt(t, After(t, o)) then Some(After(t, o)) else None
  }

  /** The 32-bit offset behind the NUL that ends the string at `o`. */
  function After(t: Table, o: nat): u32
    requires t.Valid() && t.Covered() && o < t.range.length
  {
    Wrap32(NulIndex(t.Bytes(), o) + 1)
  }

  /** The offset of the n-th string when stepping from the one at `start`. */
  function Nth(t: Table, start: u32, n: nat): Option<u32>
    requires t.Valid() && t.Covered()
  {
    if n == 0 then if HasStringAt(t, start) then Some(start) else None
    else
      match Nth(t, start, n - 1)
      case None => None
      case Some(o) => NextOffset(t, Some(t.PointerTo(o)))
  }

  /** The table is as large as a 32-bit size can say and its last string has no NUL. */
  predicate Wraps(t: Table)
    requires t.Valid() && t.Covered()
  {
    t.range.length == U32_MAX && !Terminated(t.Bytes())
  }

  // ---------------------------------------------------------------------------
  //  Stepping visits the strings in order
  // ---------------------------------------------------------------------------

  /**
   A step moves to the next offset of the table; only in a table that wraps does the last step lead back
   to offset 0.
   */
  lemma NextOffsetIs(t: Table, start: u32, i: nat)
    requires t.Valid() && t.Covered() && t.range.length <= U32_MAX
    requires i < |Offsets(t.Bytes(), start)|
    ensures var s := Offsets(t.Bytes(), start);
            NextOffset(t, Some(t.PointerTo(s[i])))
            == if i + 1 < |s| then Some(s[i + 1]) else if Wraps(t) then Some(0) else None
  {
    hide NulIndex, Offsets, Table.PointerTo, Table.Bytes;
    var s, b := Offsets(t.Bytes(), start), t.Bytes();
    OffsetsAreConsecutive(b, start, i);
    PointerDistance(t, s[i]);
    var n := NulIndex(b, s[i]);
    if i + 1 == |s| {
      assert n == |b| - 1 || n == |b|;
      assert n == |b| <==> !Terminated(b);
    }
  }

  /** From anywhere inside a string, its NUL included, a step leads where it leads from the start of the string. */
  lemma NextOffsetFromInside(t: Table, o: nat, d: nat)
    requires t.Valid() && t.Covered() && o + d < t.range.length && o + d <= NulIndex(t.Bytes(), o)
    ensures NextOffset(t, Some(t.PointerTo(o + d))) == NextOffset(t, Some(t.PointerTo(o)))
  {
    hide NulIndex, Table.PointerTo, Table.Bytes;
    PointerDistance(t, o);
    PointerDistance(t, o + d);
    NulIndexIs(t.Bytes(), o + d, NulIndex(t.Bytes(), o));
  }

  /** From a pointer outside the table there is no next string. */
  lemma NoNextOffsetFromOutside(t: Table, p: u64)
    requires t.Valid()
    requires t.mapping.HoldsHost(p, 1) ==> !t.range.Holds(t.mapping.target + (p - t.mapping.host))
    ensures NextOffset(t, Some(p)) == None
  {
    hide NulIndex;
  }

  lemma PointerDistance(t: Table, o: nat)
    requires t.Valid() && t.Covered() && o < t.range.length
    ensures t.PointerTo(o) - t.PointerTo(0) == o
  {
  }

  /** Stepping from any offset lists the strings from there to the end of the table, then ends. */
  lemma {:induction false} SteppingListsStrings(t: Table, start: u32, n: nat)
    requires t.Valid() && t.Covered() && t.range.length <= U32_MAX
    ensures var s := Offsets(t.Bytes(), start);
            && (n < |s| ==> Nth(t, start, n) == Some(s[n]))
            && (n >= |s| && !Wraps(t) ==> Nth(t, start, n) == None)
            && (n == |s| && Wraps(t) && s != [] ==> Nth(t, start, n) == Some(0))
    decreases n
  {
    hide NextOffset, Wraps;
    hide Offsets, Table.Bytes, Table.PointerTo;
    var s := Offsets(t.Bytes(), start);
    if n > 0 {
      SteppingListsStrings(t, start, n - 1);
      if n - 1 < |s| {
        NextOffsetIs(t, start, n - 1);
      }
    }
  }

  /** In a table that wraps, stepping never ends. */
  lemma {:induction false} WrappingNeverEnds(t: Table, n: nat)
    requires t.Valid() && t.Covered() && Wraps(t)
    ensures Nth(t, 0, n).Some?
    ensures exists i :: 0 <= i < |Offsets(t.Bytes(), 0)| && Nth(t, 0, n) == Some(Offsets(t.Bytes(), 0)[i])
    decreases n
  {
    hide Terminated;
    hide NextOffset, Offsets, Table.Bytes, Table.PointerTo;
    var s := Offsets(t.Bytes(), 0);
    if n > 0 {
      WrappingNeverEnds(t, n - 1);
      var i :| 0 <= i < |s| && Nth(t, 0, n - 1) == Some(s[i]);
      NextOffsetIs(t, 0, i);
      assert s[0] == 0;
    } else {
      assert s[0] == 0;
    }
  }

  /** Stepping through a mapped table ends, except in a table of 2^32 - 1 bytes without a final NUL. */
  lemma SteppingEndsUnlessItWraps(t: Table)
    requires t.Valid() && t.Covered() && t.range.length <= U32_MAX
    ensures (exists n :: Nth(t, 0, n).None?) <==> !Wraps(t)
  {
    hide Wraps, NextOffset, Offsets, Table.Bytes;
    if Wraps(t) {
      forall n ensures Nth(t, 0, n).Some? {
        WrappingNeverEnds(t, n);
      }
    } else {
      SteppingListsStrings(t, 0, |Offsets(t.Bytes(), 0)|);
    }
  }

  /**
   The strings met when stepping from NULL, each followed by one NUL, are exactly the bytes of a
   terminated table.
   */
  lemma SteppingSplitsTheTable(t: Table, n: nat)
    requires t.Valid() && t.Covered() && t.range.length <= U32_MAX && Terminated(t.Bytes())
    ensures Joined(Split(t.Bytes())) == t.Bytes()
    ensures n < |Split(t.Bytes())| ==> Nth(t, 0, n).Some? && Nth(t, 0, n).value < |t.Bytes()|
                                       && Split(t.Bytes())[n] == StringAt(t.Bytes(), Nth(t, 0, n).value)
    ensures n >= |Split(t.Bytes())| ==> Nth(t, 0, n) == None
  {
    hide NextOffset, Offsets, Split, Joined, StringAt, Table.Bytes, NulIndex;
    var b := t.Bytes();
    assert b[0..] == b;
    JoinedSplit(b);
    SplitAtOffsets(b, 0, n);
    SteppingListsStrings(t, 0, n);
  }

  // ---------------------------------------------------------------------------
  //  The table object
  // ---------------------------------------------------------------------------

  /** One call of an enumeration block. */
  datatype Call = Call(pointer: u64, offset: u32, target: u64)

  /** The calls for the strings at these offsets. */
  function Calls(t: Table, offset: u32, s: seq<nat>): (r: seq<Call>)
    ensures |r| == |s|
  {
    seq(|s|, i requires 0 <= i < |s| => Call(t.PointerTo(s[i]), offset, Wrap64(t.range.location + s[i])))
  }

  /** strnlen meets a NUL or its limit before the end of the mapping. */
  predicate StrNLenStaysInside(m: MemoryObject, p: u64, maxLen: nat) {
    && m.host <= p <= m.host + |m.bytes|
    && (p + maxLen <= m.host + |m.bytes| || NulIndex(m.bytes, p - m.host) < |m.bytes|)
  }

  /** strnlen. */
  function StrNLen(m: MemoryObject, p: u64, maxLen: nat): (n: nat)
    requires StrNLenStaysInside(m, p, maxLen)
    ensures n <= maxLen
  {
    Min(NulIndex(m.bytes, p - m.host) - (p - m.host), maxLen)
  }

  /** strnlen on a table stops at the NUL or the end of the table. */
  lemma StrNLenIs(t: Table, o: nat)
    requires t.Valid() && t.Covered() && o < t.range.length
    ensures var p := t.PointerTo(o);
            && t.mapping.host <= p && p + (t.range.length - o) <= t.mapping.host + |t.mapping.bytes|
            && StrNLenStaysInside(t.mapping, p, t.range.length - o)
            && StrNLen(t.mapping, p, t.range.length - o) == NulIndex(t.Bytes(), o) - o
  {
    var start := t.range.location - t.mapping.target;
    NulIndexOfSlice(t.mapping.bytes, start, t.range.length, o);
  }

  /** The first NUL of a slice is the first NUL of the whole, unless that lies behind the slice. */
  lemma NulIndexOfSlice(bytes: seq<u8>, start: nat, length: nat, o: nat)
    requires start + length <= |bytes| && o <= length
    ensures NulIndex(bytes[start..start + length], o) == Min(NulIndex(bytes, start + o) - start, length)
  {
    NulIndexIs(bytes[start..start + length], o, Min(NulIndex(bytes, start + o) - start, length));
  }

  /** The previous pointer is outside the table, or looking for the end of its string stays in the mapping. */
  ghost predicate StepStaysInside(t: Table, p: u64) {
    var pos := p - t.mapping.host;
    0 <= pos < |t.mapping.bytes| && t.range.Holds(t.mapping.target + pos) ==>
      StrNLenStaysInside(t.mapping, p, t.range.location + t.range.length - (t.mapping.target + pos))
  }

  class StringTable {
    var segment: Segment
    var range: Range
    var live: bool  // the vtable pointer is set

    constructor (unset: Segment)
      ensures !live
    {
      segment := unset;
      range := Range(0, 0);
      live := false;
    }

    ghost predicate Valid()
      reads this
    {
      live && segment.Valid() && View().Valid() && range.length <= U32_MAX
    }

    function View(): Table
      reads this
    {
      Table(range, segment.mapping)
    }

    lemma ViewIsValid()
      requires Valid()
      ensures View().Valid() && View().mapping == segment.mapping && View().range == range
      ensures segment.mapping.Valid() && range.length <= U32_MAX
    {
    }

    /** mk_string_table_init. */
    method Init(segment: Segment, lc: Option<LoadCommand>) returns (err: Error)
      requires segment.Valid()
      requires lc.Some? ==> lc.value.Holds(8) && (Fits(segment, lc.value) ==> lc.value.Holds(24))
      modifies this
      ensures match InitRange(segment, lc)
              case Ok(r) => err == ESuccess && Valid() && this.segment == segment && range == r
              case Err(e) => err == e && live == old(live)
      ensures this.segment == if WrittenRange(segment, lc).Some? then segment else old(this.segment)
      ensures range == if WrittenRange(segment, lc).Some? then WrittenRange(segment, lc).value else old(range)
      ensures lc.None? || lc.value.Kind() != 0x2 || lc.value.image != segment.image ==> err == EInval
    {
      hide Placement, Read32, Range.ContainsRange;
      if lc.None? {
        return EInval;
      }
      if lc.value.Kind() != LC_SYMTAB {
        return EInval;
      }
      if lc.value.image != segment.image {
        return EInval;
      }
      var stroff := lc.value.Word(16);
      var strsize := lc.value.Word(20);
      if stroff == 0 {
        return ENotFound;
      }
      var stored;
      err, stored := PlaceInSegment(segment, stroff, strsize);
      if stored.Some? {
        this.segment, range := segment, stored.value;
      }
      if err != ESuccess {
        return;
      }
      PlacementIsExact(segment, stroff, strsize);
      live := true;
    }

    /** mk_string_table_get_string_at_offset. */
    method GetStringAtOffset(offset: u32, prior: u64) returns (text: Option<u64>, target: u64)
      requires Valid()
      ensures HasStringAt(View(), offset) ==>
                text == Some(View().PointerTo(offset)) && target == range.location + offset
      ensures !HasStringAt(View(), offset) ==> text == None && target == prior
      ensures text.Some? <==>
                && offset < range.length
                && range.location + range.length <= segment.mapping.target + |segment.mapping.bytes|
      ensures text.Some? ==>
                text.value - segment.mapping.host == range.location - segment.mapping.target + offset
    {
      hide *;
      ViewIsValid();
      ghost var t := View();
      HasStringAtIs(t, offset);
      LocateString(t, offset);
      var addr: u64 := 0;
      var err;
      err, addr := AddressApplyOffset(range.location, offset, addr);
      if err != ESuccess {
        return None, prior;
      }
      if range.ContainsAddress(0, addr) != ESuccess {
        return None, prior;
      }
      var len := range.length - offset;
      var pointer := segment.mapping.RemapAddress(0, addr, len);
      if pointer.Err? {
        return None, prior;
      }
      return Some(pointer.value), addr;
    }

    /** mk_string_table_copy_string_at_offset: the copy is cut at `maxLen` and gets no NUL. */
    method CopyStringAtOffset(offset: u32, buffer: array<u8>, maxLen: nat) returns (copied: nat)
      requires Valid()
      requires HasStringAt(View(), offset) ==> Min(|StringAt(View().Bytes(), offset)|, maxLen) <= buffer.Length
      modifies buffer
      ensures copied == if HasStringAt(View(), offset) then Min(|StringAt(View().Bytes(), offset)|, maxLen) else 0
      ensures HasStringAt(View(), offset) ==> buffer[..copied] == StringAt(View().Bytes(), offset)[..copied]
      ensures buffer[copied..] == old(buffer[copied..])
    {
      hide *;
      ViewIsValid();
      ghost var t := View();
      var text, _ := GetStringAtOffset(offset, 0);
      if text.None? {
        return 0;
      }
      CopiedLength(t, offset, maxLen);
      var len := range.length - offset;
      var length := StrNLen(segment.mapping, text.value, len);
      copied := Min(length, maxLen);
      CopiedBytes(t, offset, copied);
      forall i | 0 <= i < copied {
        buffer[i] := segment.mapping.Read(text.value + i);
      }
    }

    /**
     mk_string_table_next_string, going on from any pointer. The C code looks for the end of the previous string
     up to the end of the table, so that a table that is not wholly mapped needs a NUL in its mapped part.
     */
    method NextString(previous: Option<u64>, priorOffset: u32, priorTarget: u64)
      returns (text: Option<u64>, offset: u32, target: u64)
      requires Valid() && (previous.Some? ==> StepStaysInside(View(), previous.value))
      ensures match NextOffset(View(), previous)
              case None => text == None && offset == priorOffset && target == priorTarget
              case Some(o) => text == Some(View().PointerTo(o)) && offset == o && target == range.location + o
    {
      hide *;
      ViewIsValid();
      ghost var t := View();
      if previous.None? {
        FirstOffset(t);
        text, target := GetStringAtOffset(0, priorTarget);
        offset := if text.Some? then 0 else priorOffset;
        return;
      }
      PreviousOffset(t, previous.value);
      var m := segment.mapping;
      var addr := m.UnmapAddress(0, previous.value, 1);
      if addr.Err? {
        return None, priorOffset, priorTarget;
      }
      if range.ContainsAddress(0, addr.value) != ESuccess {
        return None, priorOffset, priorTarget;
      }
      var offst := Wrap32(addr.value - range.location);
      var len := range.length - offst;
      offst := Wrap32(offst + StrNLen(m, previous.value, len));
      offst := Wrap32(offst + 1);
      text, target := GetStringAtOffset(offst, priorTarget);
      offset := if text.Some? then offst else priorOffset;
    }

    /**
     mk_string_table_enumerate_strings; the result lists the calls of the block. Every call gets the
     starting offset, because the loop does not update it.
     */
    method EnumerateStrings(offset: u32) returns (calls: seq<Call>)
      requires Valid()
      ensures calls
                == if HasStringAt(View(), offset) then Calls(View(), offset, Offsets(View().Bytes(), offset)) else []
    {
      hide *;
      ViewIsValid();
      ghost var t := View();
      LocateString(t, offset);
      calls := [];
      var target: u64 := 0;
      var err;
      err, target := AddressApplyOffset(range.location, offset, target);
      if err != ESuccess {
        return;
      }
      if range.ContainsAddress(0, target) != ESuccess {
        return;
      }
      var maxLength: u64 := range.length - offset;
      var pointer := segment.mapping.RemapAddress(0, target, maxLength);
      if pointer.Err? {
        return;
      }
      var text: u64 := pointer.value;
      ghost var s, i := Offsets(t.Bytes(), offset), 0;
      EnumerationStarts(t, offset, text, target, maxLength);
      var more := true;
      while more
        invariant t.Valid() && t.Covered() && i <= |s| && calls == Calls(t, offset, s[..i])
        invariant more <==> i < |s|
        invariant more ==> AtString(t, s[i], text, target, maxLength)
        decreases |s| - i
      {
        EnumerationStep(t, offset, i, text, target, maxLength);
        calls := calls + [Call(text, offset, target)];
        var len := StrNLen(segment.mapping, text, maxLength) + 1;
        target := Wrap64(target + len);
        text := Wrap64(text + len);
        maxLength := Wrap64(maxLength - len);
        i := i + 1;
        more := range.ContainsAddress(0, target) == ESuccess;
      }
      assert s[..i] == s;
    }
  }

  /** The loop variables of the enumeration describe the string at `o`. */
  ghost predicate AtString(t: Table, o: nat, pointer: u64, target: u64, maxLength: u64) {
    pointer == t.PointerTo(o) && target == t.range.location + o && maxLength == t.range.length - o
  }

  lemma HasStringAtIs(t: Table, offset: nat)
    requires t.Valid()
    ensures HasStringAt(t, offset) <==>
              offset < t.range.length && t.range.location + t.range.length <= t.mapping.target + |t.mapping.bytes|
    ensures HasStringAt(t, offset) ==>
              t.PointerTo(offset) - t.mapping.host == t.range.location - t.mapping.target + offset
  {
  }

  /** What the three tests in front of every lookup decide. */
  lemma LocateString(t: Table, offset: u32)
    requires t.Valid()
    ensures match Stored(Sum(t.range.location, offset), 0)
            case (ESuccess, addr) =>
              && addr == t.range.location + offset
              && (t.range.ContainsAddress(0, addr) == ESuccess <==> offset < t.range.length)
              && (offset < t.range.length ==>
                    match t.mapping.RemapAddress(0, addr, t.range.length - offset)
                    case Ok(p) => HasStringAt(t, offset) && t.Covered()
                      && AtString(t, offset, p, addr, t.range.length - offset)
                                  && p == t.PointerTo(offset)
                    case Err(_) => !HasStringAt(t, offset))
              && (offset >= t.range.length ==> !HasStringAt(t, offset))
            case _ => !HasStringAt(t, offset)
  {
  }

  lemma EnumerationStarts(t: Table, offset: u32, pointer: u64, target: u64, maxLength: u64)
    requires t.Valid() && HasStringAt(t, offset)
    requires AtString(t, offset, pointer, target, maxLength)
    ensures t.Covered()
    ensures var s := Offsets(t.Bytes(), offset);
            && 0 < |s| && s[0] == offset && Calls(t, offset, s[..0]) == []
            && AtString(t, s[0], pointer, target, maxLength)
  {
  }

  lemma FirstOffset(t: Table)
    requires t.Valid()
    ensures NextOffset(t, None) == if HasStringAt(t, 0) then Some(0) else None
  {
  }

  /** What a previous pointer means to mk_string_table_next_string. */
  lemma PreviousOffset(t: Table, p: u64)
    requires t.Valid() && t.range.length <= U32_MAX && StepStaysInside(t, p)
    ensures match t.mapping.UnmapAddress(0, p, 1)
            case Err(_) => NextOffset(t, Some(p)) == None
            case Ok(addr) =>
              if t.range.ContainsAddress(0, addr) != ESuccess then NextOffset(t, Some(p)) == None
              else
                var o := addr - t.range.location;
                && 0 <= o < t.range.length && Wrap32(o) == o
                && StrNLenStaysInside(t.mapping, p, t.range.length - o)
                && NextOffset(t, Some(p))
                  == (var n := Wrap32(Wrap32(o + StrNLen(t.mapping, p, t.range.length - o)) + 1);
                                              if HasStringAt(t, n) then Some(n) else None)
  {
    hide NulIndex, StrNLen, StrNLenStaysInside;
    var addr := t.mapping.UnmapAddress(0, p, 1);
    if addr.Ok? && t.range.ContainsAddress(0, addr.value) == ESuccess {
      var o := addr.value - t.range.location;
      if t.Covered() {
        assert p == t.PointerTo(o);
        StrNLenIs(t, o);
      }
    }
  }

  lemma CopiedLength(t: Table, o: nat, maxLen: nat)
    requires t.Valid() && HasStringAt(t, o)
    ensures t.Covered() && o < t.range.length
    ensures var p := t.PointerTo(o);
            && StrNLenStaysInside(t.mapping, p, t.range.length - o)
            && StrNLen(t.mapping, p, t.range.length - o) == |StringAt(t.Bytes(), o)|
            && 0 <= Min(|StringAt(t.Bytes(), o)|, maxLen) <= maxLen
            && Min(|StringAt(t.Bytes(), o)|, maxLen) <= |StringAt(t.Bytes(), o)|
  {
    StrNLenIs(t, o);
  }

  lemma CopiedBytes(t: Table, o: nat, n: nat)
    requires t.Valid() && t.Covered() && o < t.range.length && n <= |StringAt(t.Bytes(), o)|
    ensures var p := t.PointerTo(o);
            && t.mapping.host <= p && p + n <= t.mapping.host + |t.mapping.bytes| < 0x1_0000_0000_0000_0000
            && forall i :: 0 <= i < n ==> t.mapping.Read(p + i) == StringAt(t.Bytes(), o)[i]
  {
    hide NulIndex;
  }

  /** The string at an offset is followed by the next one or by the end of the table. */
  lemma EnumeratedLength(t: Table, offset: u32, i: nat)
    requires t.Valid() && t.Covered() && i < |Offsets(t.Bytes(), offset)|
    ensures var s := Offsets(t.Bytes(), offset);
            var p := t.PointerTo(s[i]);
            && StrNLenStaysInside(t.mapping, p, t.range.length - s[i])
            && var len := StrNLen(t.mapping, p, t.range.length - s[i]) + 1;
            && s[i] + len <= t.range.length + 1
            && (if i + 1 < |s| then s[i] + len == s[i + 1] else s[i] + len >= t.range.length)
  {
    hide NulIndex, StrNLen, StrNLenStaysInside, Offsets, Table.PointerTo;
    StrNLenIs(t, Offsets(t.Bytes(), offset)[i]);
    OffsetsAreConsecutive(t.Bytes(), offset, i);
  }

  /** One turn of the enumeration loop, with its wrapping arithmetic. */
  lemma EnumerationStep(t: Table, offset: u32, i: nat, pointer: u64, target: u64, maxLength: u64)
    requires t.Valid() && t.Covered() && t.range.length <= U32_MAX && i < |Offsets(t.Bytes(), offset)|
    requires AtString(t, Offsets(t.Bytes(), offset)[i], pointer, target, maxLength)
    ensures StrNLenStaysInside(t.mapping, pointer, maxLength)
    ensures var s := Offsets(t.Bytes(), offset);
            Calls(t, offset, s[..i + 1]) == Calls(t, offset, s[..i]) + [Call(pointer, offset, target)]
    ensures var s := Offsets(t.Bytes(), offset);
            var len := StrNLen(t.mapping, pointer, maxLength) + 1;
            && (t.range.ContainsAddress(0, Wrap64(target + len)) == ESuccess <==> i + 1 < |s|)
            && (i + 1 < |s| ==>
                  AtString(t, s[i + 1], Wrap64(pointer + len), Wrap64(target + len), Wrap64(maxLength - len)))
  {
    hide NulIndex, StrNLen, StrNLenStaysInside, Offsets, Table.Bytes, Calls;
    EnumeratedLength(t, offset, i);
    var s := Offsets(t.Bytes(), offset);
    CallsAppend(t, offset, s, i);
  }

  lemma CallsAppend(t: Table, offset: u32, s: seq<nat>, i: nat)
    requires i < |s|
    ensures Calls(t, offset, s[..i + 1])
         == Calls(t, offset, s[..i]) + [Call(t.PointerTo(s[i]), offset, Wrap64(t.range.location + s[i]))]
  {
    hide Table.PointerTo;
  }

  /**
   Bulk enumeration visits the same target addresses as stepping from the same offset, also past an
   unterminated last string.
   */
  lemma EnumerationAgreesWithStepping(t: Table, offset: u32, i: nat)
    requires t.Valid() && t.Covered() && t.range.length <= U32_MAX
    ensures var calls := Calls(t, offset, Offsets(t.Bytes(), offset));
            && (i < |calls| ==> Nth(t, offset, i).Some?
                                && calls[i].pointer == t.PointerTo(Nth(t, offset, i).value)
                                && calls[i].target == t.range.location + Nth(t, offset, i).value)
            && (i >= |calls| && !Wraps(t) ==> Nth(t, offset, i) == None)
  {
    hide NextOffset, Wraps, Table.PointerTo;
    SteppingListsStrings(t, offset, i);
  }
}
