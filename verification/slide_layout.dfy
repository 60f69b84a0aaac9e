/**
 From the bytes of segment commands to the slide of an image: what mk_macho_init stores for
 an image whose segment commands are written field by field, in both widths.
 */
module SlideLayouts {
  import opened Machine
  import opened Memory
  import opened LoadCommands
  import opened CommandLists
  import opened CommandSearch
  import opened Slides
  import opened ImageBytes

  /** The fields of a segment command; `rest` holds its protections, flags and sections. */
  datatype SegmentInfo = SegmentInfo(
    name: seq<u8>, vmaddr: u64, vmsize: u64, fileoff: u64, filesize: u64, rest: seq<u8>) {

    /** The command can be written with 64-bit (`wide`) or 32-bit numbers. */
    ghost predicate Fits(wide: bool) {
      && |name| == 16 && 16 <= |rest| < 0x8000_0000
      && (wide || (vmaddr < TWO32 && vmsize < TWO32 && fileoff < TWO32 && filesize < TWO32))
    }
  }

  /** LC_SEGMENT_64. */
  function Segment64(s: SegmentInfo): (c: seq<u8>)
    requires s.Fits(true)
    ensures |c| == 56 + |s.rest|
  {
    Words([0x19, 56 + |s.rest|]) + s.name
    + Write64(s.vmaddr) + Write64(s.vmsize) + Write64(s.fileoff) + Write64(s.filesize) + s.rest
  }

  /** LC_SEGMENT. */
  function Segment32(s: SegmentInfo): (c: seq<u8>)
    requires s.Fits(false)
    ensures |c| == 40 + |s.rest|
  {
    Words([0x1, 40 + |s.rest|]) + s.name
    + Write32(s.vmaddr) + Write32(s.vmsize) + Write32(s.fileoff) + Write32(s.filesize) + s.rest
  }

  lemma HeadWords(kind: u32, size: u32, body: seq<u8>)
    ensures var c := Words([kind, size]) + body;
            Read32(c, 0) == kind && Read32(c, 4) == size
  {
    hide Read32, Words;
    var head := Words([kind, size]);
    var c := head + body;
    WordAt([kind, size], 0);
    WordAt([kind, size], 1);
    assert c[0..4] == head[0..4] && c[4..8] == head[4..8];
    Read32Agrees(c, 0, head, 0);
    Read32Agrees(c, 4, head, 4);
  }

  /** Where the fields of a 64-bit command are. */
  lemma Segment64Reads(s: SegmentInfo)
    requires s.Fits(true)
    ensures var c := Segment64(s);
            && Read32(c, 0) == 0x19 && Read32(c, 4) == |c|
            && Read64(c, 24) == s.vmaddr && Read64(c, 32) == s.vmsize
            && Read64(c, 40) == s.fileoff && Read64(c, 48) == s.filesize
  {
    hide Read32, Read64, Words, Write64;
    var head := Words([0x19, 56 + |s.rest|]);
    var a, b, f, g := Write64(s.vmaddr), Write64(s.vmsize), Write64(s.fileoff), Write64(s.filesize);
    var c := Segment64(s);
    assert c == head + (s.name + a + b + f + g + s.rest);
    HeadWords(0x19, 56 + |s.rest|, s.name + a + b + f + g + s.rest);
    assert c == (head + s.name) + a + (b + f + g + s.rest);
    Read64Of(head + s.name, s.vmaddr, b + f + g + s.rest);
    assert c == (head + s.name + a) + b + (f + g + s.rest);
    Read64Of(head + s.name + a, s.vmsize, f + g + s.rest);
    assert c == (head + s.name + a + b) + f + (g + s.rest);
    Read64Of(head + s.name + a + b, s.fileoff, g + s.rest);
    Read64Of(head + s.name + a + b + f, s.filesize, s.rest);
  }

  /** Where the fields of a 32-bit command are. */
  lemma Segment32Reads(s: SegmentInfo)
    requires s.Fits(false)
    ensures var c := Segment32(s);
            && Read32(c, 0) == 0x1 && Read32(c, 4) == |c|
            && Read32(c, 24) == s.vmaddr && Read32(c, 28) == s.vmsize
            && Read32(c, 32) == s.fileoff && Read32(c, 36) == s.filesize
  {
    hide Read32, Words, Write32;
    var head := Words([0x1, 40 + |s.rest|]);
    var a, b, f, g := Write32(s.vmaddr), Write32(s.vmsize), Write32(s.fileoff), Write32(s.filesize);
    var c := Segment32(s);
    assert c == head + (s.name + a + b + f + g + s.rest);
    HeadWords(0x1, 40 + |s.rest|, s.name + a + b + f + g + s.rest);
    assert c == (head + s.name) + a + (b + f + g + s.rest);
    Read32Of(head + s.name, s.vmaddr, b + f + g + s.rest);
    assert c == (head + s.name + a) + b + (f + g + s.rest);
    Read32Of(head + s.name + a, s.vmsize, f + g + s.rest);
    assert c == (head + s.name + a + b) + f + (g + s.rest);
    Read32Of(head + s.name + a + b, s.fileoff, g + s.rest);
    Read32Of(head + s.name + a + b + f, s.filesize, s.rest);
  }

  // ---------------------------------------------------------------------------
  //  Images with segment commands among others
  // ---------------------------------------------------------------------------

  /** A load command: a segment, or any command of another type. */
  datatype Item = Segment(info: SegmentInfo) | Other(command: seq<u8>) {

    ghost predicate Good(wide: bool) {
      match this
      case Segment(s) => s.Fits(wide)
      case Other(c) => IsCommand(c) && Read32(c, 0) != (if wide then 0x19 else 0x1)
    }

    ghost function Bytes(wide: bool): seq<u8>
      requires Good(wide)
    {
      match this
      case Segment(s) => if wide then Segment64(s) else Segment32(s)
      case Other(c) => c
    }
  }

  ghost function AllBytes(wide: bool, items: seq<Item>): (cs: seq<seq<u8>>)
    requires forall i :: 0 <= i < |items| ==> items[i].Good(wide)
    ensures |cs| == |items| && forall i :: 0 <= i < |items| ==> cs[i] == items[i].Bytes(wide)
  {
    seq(|items|, i requires 0 <= i < |items| && items[i].Good(wide) => items[i].Bytes(wide))
  }

  /** The header belongs to an image with these commands. */
  ghost predicate IsImageWith(h: Header, wide: bool, items: seq<Item>) {
    (forall i :: 0 <= i < |items| ==> items[i].Good(wide)) && IsImageOf(h, wide, AllBytes(wide, items))
  }

  ghost function FieldsOf(s: SegmentInfo): SegmentFields {
    SegmentFields(s.vmaddr, s.vmsize, s.filesize)
  }

  /** The segments from the n-th item on. */
  ghost function SegmentsOf(items: seq<Item>, n: nat): seq<SegmentFields>
    requires n <= |items|
    decreases |items| - n
  {
    if n == |items| then []
    else (if items[n].Segment? then [FieldsOf(items[n].info)] else []) + SegmentsOf(items, n + 1)
  }

  /** One of the segments from the n-th item on has these fields. */
  ghost predicate IsAmong(items: seq<Item>, n: nat, f: SegmentFields) {
    exists i :: n <= i < |items| && items[i].Segment? && FieldsOf(items[i].info) == f
  }

  lemma AmongUnfolds(items: seq<Item>, n: nat, f: SegmentFields)
    requires n < |items|
    ensures IsAmong(items, n, f) <==> (items[n].Segment? && FieldsOf(items[n].info) == f) || IsAmong(items, n + 1, f)
  {
    hide FieldsOf;
  }

  lemma SegmentsUnfold(items: seq<Item>, n: nat)
    ensures SegmentsOf(items, |items|) == []
    ensures n < |items| ==>
              SegmentsOf(items, n)
              == (if items[n].Segment? then [FieldsOf(items[n].info)] else []) + SegmentsOf(items, n + 1)
  {
    hide FieldsOf;
  }

  lemma {:induction false} SegmentsOfAre(items: seq<Item>, n: nat, f: SegmentFields)
    requires n <= |items|
    ensures f in SegmentsOf(items, n) <==> IsAmong(items, n, f)
    decreases |items| - n
  {
    hide *;
    SegmentsUnfold(items, n);
    if n == |items| {
      NothingAmong(items, f);
    } else {
      AmongUnfolds(items, n, f);
      SegmentsOfAre(items, n + 1, f);
    }
  }

  lemma NothingAmong(items: seq<Item>, f: SegmentFields)
    ensures !IsAmong(items, |items|, f)
  {
  }

  /** The i-th command is a segment command with these fields, or none. */
  lemma ItemReads(h: Header, wide: bool, items: seq<Item>, i: nat)
    requires IsImageWith(h, wide, items) && i < |items|
    ensures h.Valid() && (forall k :: 0 <= k < |items| ==> items[k].Good(wide))
    ensures h.Commands() == Starts(AllBytes(wide, items), h.size) && !h.Stalls(h.Commands())
    ensures var pos := h.Commands()[i];
            && (h.IsKind(pos, SegmentKind(h)) <==> items[i].Segment?)
            && (items[i].Segment? ==>
                  pos + SegmentLength(h) <= |h.mapping.bytes| && Fields(h, pos) == FieldsOf(items[i].info))
  {
    hide Read32, Read64, Starts, Segment64, Segment32, IsImageOf;
    hide Header.Commands, Header.Stalls, Header.Is64Bit, Header.IsKind;
    var cs := AllBytes(wide, items);
    assert items[i].Good(wide);
    ImageHeader(h, wide, cs);
    PackedImage(h, wide, cs);
    PackedKind(h, wide, cs, i);
    if items[i].Segment? {
      if wide {
        Segment64Reads(items[i].info);
        CommandWord64(h, wide, cs, i, 24);
        CommandWord64(h, wide, cs, i, 32);
        CommandWord64(h, wide, cs, i, 48);
      } else {
        Segment32Reads(items[i].info);
        CommandWord(h, wide, cs, i, 24);
        CommandWord(h, wide, cs, i, 28);
        CommandWord(h, wide, cs, i, 36);
      }
    }
  }

  /** The segment commands from the n-th command on, with their fields, are the segments from the n-th item on. */
  lemma {:induction false} SegmentsFrom(h: Header, wide: bool, items: seq<Item>, n: nat)
    requires IsImageWith(h, wide, items) && n <= |items|
    ensures h.Valid() && n <= |h.Commands()|
    ensures ReadAs(h, OfType(h, h.Commands()[n..], SegmentKind(h)), SegmentsOf(items, n))
    decreases |items| - n
  {
    hide *;
    CountIs(h, wide, items);
    var s, kind := h.Commands(), SegmentKind(h);
    SegmentsUnfold(items, n);
    if n == |items| {
      NoMatches(h, s, kind);
      NothingReadAs(h);
    } else {
      ItemReads(h, wide, items, n);
      SegmentsFrom(h, wide, items, n + 1);
      MatchesFrom(h, s, kind, n);
      var later, fields := OfType(h, s[n + 1..], kind), SegmentsOf(items, n + 1);
      if items[n].Segment? {
        OneMoreReadAs(h, s[n], FieldsOf(items[n].info), later, fields);
      } else {
        assert [] + later == later && [] + fields == fields;
      }
    }
  }

  /** The commands at these positions are readable segment commands with these fields. */
  ghost predicate ReadAs(h: Header, s: seq<nat>, fields: seq<SegmentFields>) {
    && h.Valid() && |s| == |fields|
    && forall i :: 0 <= i < |s| ==> s[i] + SegmentLength(h) <= |h.mapping.bytes| && Fields(h, s[i]) == fields[i]
  }

  lemma NothingReadAs(h: Header)
    requires h.Valid()
    ensures ReadAs(h, [], [])
  {
  }

  lemma OneMoreReadAs(h: Header, pos: nat, f: SegmentFields, s: seq<nat>, fields: seq<SegmentFields>)
    requires ReadAs(h, s, fields) && pos + SegmentLength(h) <= |h.mapping.bytes| && Fields(h, pos) == f
    ensures ReadAs(h, [pos] + s, [f] + fields)
  {
    hide Fields, SegmentLength;
  }

  lemma CountIs(h: Header, wide: bool, items: seq<Item>)
    requires IsImageWith(h, wide, items)
    ensures h.Valid() && |h.Commands()| == |items| && !h.Stalls(h.Commands())
  {
    hide Header.Commands, IsImageOf, Header.Stalls, Read32;
    PackedImage(h, wide, AllBytes(wide, items));
    ImageHeader(h, wide, AllBytes(wide, items));
  }

  /** The segments of an image are those it was made of. */
  lemma SegmentsAre(h: Header, wide: bool, items: seq<Item>)
    requires IsImageWith(h, wide, items)
    ensures h.Valid() && SegmentsAreReadable(h) && !h.Stalls(h.Commands())
    ensures AllSegments(h) == SegmentsOf(items, 0)
    ensures FieldMax(h) == if wide then 0xFFFF_FFFF_FFFF_FFFF else 0xFFFF_FFFF
  {
    hide Header.Commands, IsImageOf, Header.Stalls, Fields, SegmentLength, SegmentsOf, OfType, Read32, Header.Is64Bit;
    CountIs(h, wide, items);
    ImageHeader(h, wide, AllBytes(wide, items));
    SegmentsFrom(h, wide, items, 0);
    assert h.Commands()[0..] == h.Commands();
  }

  // ---------------------------------------------------------------------------
  //  The slide
  // ---------------------------------------------------------------------------

  /** The i-th command is a segment that has an effect on the slide: it is not a zero-fill segment at address 0. */
  ghost predicate Counts(items: seq<Item>, i: nat) {
    && i < |items| && items[i].Segment?
    && !(items[i].info.vmaddr == 0 && items[i].info.vmsize != 0 && items[i].info.filesize == 0)
  }

  /** One of the three fields that are checked is all ones. */
  ghost predicate HasAllOnes(items: seq<Item>, wide: bool, i: nat) {
    && i < |items| && items[i].Segment?
    && var max := if wide then 0xFFFF_FFFF_FFFF_FFFF else 0xFFFF_FFFF;
    && (items[i].info.vmaddr == max || items[i].info.vmsize == max || items[i].info.filesize == max)
  }

  /** Each segment comes from an item. */
  lemma ItemOf(items: seq<Item>, j: nat) returns (i: nat)
    requires j < |SegmentsOf(items, 0)|
    ensures i < |items| && items[i].Segment? && FieldsOf(items[i].info) == SegmentsOf(items, 0)[j]
  {
    hide SegmentsOf, FieldsOf;
    SegmentsOfAre(items, 0, SegmentsOf(items, 0)[j]);
    i :| 0 <= i < |items| && items[i].Segment? && FieldsOf(items[i].info) == SegmentsOf(items, 0)[j];
  }

  /** Each segment item gives a segment. */
  lemma IndexOf(items: seq<Item>, i: nat) returns (j: nat)
    requires i < |items| && items[i].Segment?
    ensures j < |SegmentsOf(items, 0)| && SegmentsOf(items, 0)[j] == FieldsOf(items[i].info)
  {
    hide SegmentsOf, FieldsOf;
    SegmentsOfAre(items, 0, FieldsOf(items[i].info));
    assert IsAmong(items, 0, FieldsOf(items[i].info));
    j :| 0 <= j < |SegmentsOf(items, 0)| && SegmentsOf(items, 0)[j] == FieldsOf(items[i].info);
  }

  lemma InsaneIs(items: seq<Item>, wide: bool, max: u64)
    requires max == if wide then 0xFFFF_FFFF_FFFF_FFFF else 0xFFFF_FFFF
    ensures (forall j :: 0 <= j < |SegmentsOf(items, 0)| ==> !SegmentsOf(items, 0)[j].Insane(max))
            <==> forall i: nat :: !HasAllOnes(items, wide, i)
  {
    hide SegmentsOf;
    var t := SegmentsOf(items, 0);
    if j :| 0 <= j < |t| && t[j].Insane(max) {
      var i := ItemOf(items, j);
      assert HasAllOnes(items, wide, i);
    }
    if i: nat :| HasAllOnes(items, wide, i) {
      var j := IndexOf(items, i);
      assert t[j].Insane(max);
    }
  }

  lemma CountedIs(items: seq<Item>, limit: int)
    ensures var t := SegmentsOf(items, 0);
            (exists j :: 0 <= j < |t| && !t[j].ZeroFill() && t[j].vmaddr < limit)
            <==> exists i: nat :: Counts(items, i) && items[i].info.vmaddr < limit
  {
    hide SegmentsOf;
    var t := SegmentsOf(items, 0);
    if j :| 0 <= j < |t| && !t[j].ZeroFill() && t[j].vmaddr < limit {
      var i := ItemOf(items, j);
      assert Counts(items, i);
    }
    if i: nat :| Counts(items, i) && items[i].info.vmaddr < limit {
      var j := IndexOf(items, i);
      assert !t[j].ZeroFill() && t[j].vmaddr < limit;
    }
  }

  lemma LowestIs(items: seq<Item>, low: u64) returns (i: nat)
    requires IsLowestAddress(SegmentsOf(items, 0), low)
    ensures Counts(items, i) && items[i].info.vmaddr == low
    ensures forall k: nat :: Counts(items, k) ==> low <= items[k].info.vmaddr
  {
    hide SegmentsOf;
    var t := SegmentsOf(items, 0);
    var j :| 0 <= j < |t| && !t[j].ZeroFill() && t[j].vmaddr == low;
    i := ItemOf(items, j);
    forall k: nat | Counts(items, k) ensures low <= items[k].info.vmaddr {
      var m := IndexOf(items, k);
      assert !t[m].ZeroFill();
    }
  }

  /**
   The slide of an image, from its bytes: mk_macho_init succeeds iff no checked field of a segment is all ones,
   some segment that counts starts below 2^63, and so does the load address. The slide is then the distance of
   the load address from the lowest vmaddr of the segments that count.
   */
  lemma SlideFromBytes(h: Header, wide: bool, items: seq<Item>, address: u64)
    requires IsImageWith(h, wide, items)
    ensures h.Valid() && SegmentsAreReadable(h) && !h.Stalls(h.Commands())
    ensures DerivedSlide(AllSegments(h), FieldMax(h), address).Ok? <==>
              && address < 0x8000_0000_0000_0000
              && (forall i: nat :: !HasAllOnes(items, wide, i))
              && (exists i: nat :: Counts(items, i) && items[i].info.vmaddr < 0x8000_0000_0000_0000)
    ensures DerivedSlide(AllSegments(h), FieldMax(h), address).Ok? ==>
              exists i: nat ::
                && Counts(items, i)
                && (forall k: nat :: Counts(items, k) ==> items[i].info.vmaddr <= items[k].info.vmaddr)
                && DerivedSlide(AllSegments(h), FieldMax(h), address).value == address - items[i].info.vmaddr
  {
    hide Header.Commands, Header.Stalls, IsImageOf, IsImageWith, SegmentsOf, DerivedSlide, AllSegments;
    hide Counts, HasAllOnes;
    SegmentsAre(h, wide, items);
    var segments, max := SegmentsOf(items, 0), FieldMax(h);
    SlideIsExact(segments, max, address);
    InsaneIs(items, wide, max);
    CountedIs(items, 0x8000_0000_0000_0000);
    if DerivedSlide(segments, max, address).Ok? {
      var low: u64 :| IsLowestAddress(segments, low) && address == low + DerivedSlide(segments, max, address).value;
      var i := LowestIs(items, low);
    }
  }
}
