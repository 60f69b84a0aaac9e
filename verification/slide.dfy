/**
 libMachO/MachO_ABI/macho_image.c: the slide that mk_macho_init derives from the segments.
 */
module Slides {
  import opened Machine
  import opened Core
  import opened Memory
  import opened LoadCommands
  import opened CommandLists
  import opened CommandSearch

  // ---------------------------------------------------------------------------
  //  Segment commands
  // ---------------------------------------------------------------------------

  /** The segment command an image of this width uses. */
  function SegmentKind(h: Header): u32
    requires h.Valid()
  {
    if h.Is64Bit() then LC_SEGMENT_64 else LC_SEGMENT
  }

  /** The bytes of a segment command up to the last field that is read, 'filesize'. */
  function SegmentLength(h: Header): nat
    requires h.Valid()
  {
    if h.Is64Bit() then 56 else 40
  }

  /** vmaddr, vmsize and filesize of a segment command. */
  datatype SegmentFields = SegmentFields(vmaddr: u64, vmsize: u64, filesize: u64) {

    /** One of the fields holds the all-ones value of its width, which the getters use for errors. */
    predicate Insane(max: u64) {
      vmaddr == max || vmsize == max || filesize == max
    }

    /** A zero-fill segment at address 0, such as __PAGEZERO. */
    predicate ZeroFill() {
      vmaddr == 0 && vmsize != 0 && filesize == 0
    }
  }

  function Fields(h: Header, pos: nat): SegmentFields
    requires h.Valid() && pos + SegmentLength(h) <= |h.mapping.bytes|
  {
    var b := h.mapping.bytes;
    if h.Is64Bit() then SegmentFields(Read64(b, pos + 24), Read64(b, pos + 32), Read64(b, pos + 48))
    else SegmentFields(Read32(b, pos + 24), Read32(b, pos + 28), Read32(b, pos + 36))
  }

  function FieldMax(h: Header): u64
    requires h.Valid()
  {
    if h.Is64Bit() then U64_MAX else U32_MAX
  }

  /** The fields of the image's segments, in order. The getters read them without checking 'cmdsize'. */
  function Segments(h: Header, s: seq<nat>): (r: seq<SegmentFields>)
    requires h.Valid() && forall i :: 0 <= i < |s| ==> s[i] + SegmentLength(h) <= |h.mapping.bytes|
    ensures |r| == |s| && forall i :: 0 <= i < |s| ==> r[i] == Fields(h, s[i])
  {
    seq(|s|, i requires 0 <= i < |s| => Fields(h, s[i]))
  }

  /** The fields that are read of every segment command are in the mapping. */
  ghost predicate SegmentsAreReadable(h: Header)
    requires h.Valid()
  {
    var s := OfType(h, h.Commands(), SegmentKind(h));
    forall i :: 0 <= i < |s| ==> s[i] + SegmentLength(h) <= |h.mapping.bytes|
  }

  // ---------------------------------------------------------------------------
  //  The slide
  // ---------------------------------------------------------------------------

  /** The running minimum over the segments, or None at the first insane one. */
  function Lowest(segments: seq<SegmentFields>, low: u64, max: u64): Option<u64> {
    if segments == [] then Some(low)
    else if segments[0].Insane(max) then None
    else if segments[0].ZeroFill() then Lowest(segments[1..], low, max)
    else Lowest(segments[1..], if segments[0].vmaddr < low then segments[0].vmaddr else low, max)
  }

  function AllSegments(h: Header): seq<SegmentFields>
    requires h.Valid() && SegmentsAreReadable(h)
  {
    var s := OfType(h, h.Commands(), SegmentKind(h));
    Segments(h, s)
  }

  /** The slide mk_macho_init arrives at for an image loaded at `address`. */
  function DerivedSlide(segments: seq<SegmentFields>, max: u64, address: u64): Result<i64> {
    match Lowest(segments, U64_MAX, max)
    case None => Err(EDerived)
    case Some(low) => if SignedDifference(address, low).Ok? then SignedDifference(address, low) else Err(EDerived)
  }

  ghost predicate AnyInsane(segments: seq<SegmentFields>, max: u64) {
    exists i :: 0 <= i < |segments| && segments[i].Insane(max)
  }

  /** Every segment that counts starts at `m` or above. */
  ghost predicate NoneBelow(segments: seq<SegmentFields>, m: u64) {
    forall i :: 0 <= i < |segments| && !segments[i].ZeroFill() ==> m <= segments[i].vmaddr
  }

  /** A segment that counts starts at `m`. */
  ghost predicate StartsAt(segments: seq<SegmentFields>, m: u64) {
    exists i :: 0 <= i < |segments| && !segments[i].ZeroFill() && segments[i].vmaddr == m
  }

  /** `m` is the lowest preferred load address of a segment that counts. */
  ghost predicate IsLowestAddress(segments: seq<SegmentFields>, m: u64) {
    StartsAt(segments, m) && NoneBelow(segments, m)
  }

  /** How the three predicates unfold at the front. */
  lemma FrontAndRest(segments: seq<SegmentFields>, max: u64, m: u64)
    requires segments != []
    ensures var first, rest := segments[0], segments[1..];
            && (AnyInsane(segments, max) <==> first.Insane(max) || AnyInsane(rest, max))
            && (NoneBelow(segments, m) <==> (first.ZeroFill() || m <= first.vmaddr) && NoneBelow(rest, m))
            && (StartsAt(segments, m) <==> (!first.ZeroFill() && first.vmaddr == m) || StartsAt(rest, m))
  {
    hide SegmentFields.Insane, SegmentFields.ZeroFill;
    var rest := segments[1..];
    assert forall i :: 0 <= i < |rest| ==> rest[i] == segments[i + 1];
    assert forall i :: 0 < i < |segments| ==> segments[i] == rest[i - 1];
  }

  lemma LowestUnfolds(segments: seq<SegmentFields>, low: u64, max: u64)
    ensures segments == [] ==>
              && Lowest(segments, low, max) == Some(low)
              && !AnyInsane(segments, max) && NoneBelow(segments, low)
    ensures segments != [] && segments[0].Insane(max) ==> Lowest(segments, low, max) == None
    ensures segments != [] && !segments[0].Insane(max) ==>
              Lowest(segments, low, max) == Lowest(segments[1..], NextLow(segments[0], low), max)
    ensures segments != [] ==> NextLow(segments[0], low) <= low
    ensures segments != [] && !segments[0].ZeroFill() ==> NextLow(segments[0], low) <= segments[0].vmaddr
    ensures segments != [] ==>
              NextLow(segments[0], low) == low
              || (!segments[0].ZeroFill() && NextLow(segments[0], low) == segments[0].vmaddr)
  {
    hide SegmentFields.Insane, SegmentFields.ZeroFill;
  }

  /** The running minimum after a segment. */
  function NextLow(segment: SegmentFields, low: u64): u64 {
    if segment.ZeroFill() || segment.vmaddr >= low then low else segment.vmaddr
  }

  /** The fold computes the smaller of its start value and the lowest address, when no field is insane. */
  lemma {:induction false} LowestIsLowest(segments: seq<SegmentFields>, low: u64, max: u64)
    ensures Lowest(segments, low, max).None? <==> AnyInsane(segments, max)
    ensures match Lowest(segments, low, max)
            case None => true
            case Some(m) => m <= low && NoneBelow(segments, m) && (m == low || IsLowestAddress(segments, m))
    decreases |segments|
  {
    hide *;
    LowestUnfolds(segments, low, max);
    if segments != [] {
      LowestIsLowest(segments[1..], NextLow(segments[0], low), max);
      var lowest := Lowest(segments, low, max);
      FrontAndRest(segments, max, if lowest.Some? then lowest.value else low);
      if lowest.Some? && lowest.value != low {
        LowestAddressIs(segments, lowest.value);
        LowestAddressIs(segments[1..], lowest.value);
      }
    }
  }

  lemma LowestAddressIs(segments: seq<SegmentFields>, m: u64)
    ensures IsLowestAddress(segments, m) <==> StartsAt(segments, m) && NoneBelow(segments, m)
  {
  }

  /**
   Slide derivation, exactly: the slide exists iff no field is insane, some segment counts, and both
   addresses are below 2^63; it is then the exact distance from the lowest segment to the load address.
   */
  lemma SlideIsExact(segments: seq<SegmentFields>, max: u64, address: u64)
    ensures DerivedSlide(segments, max, address).Ok? <==>
              && (forall i :: 0 <= i < |segments| ==> !segments[i].Insane(max))
              && address < TWO63
              && (exists i :: 0 <= i < |segments| && !segments[i].ZeroFill() && segments[i].vmaddr < TWO63)
    ensures DerivedSlide(segments, max, address).Ok? ==>
              exists low: u64 :: IsLowestAddress(segments, low)
                && address == low + DerivedSlide(segments, max, address).value
  {
    LowestIsLowest(segments, U64_MAX, max);
    if DerivedSlide(segments, max, address).Ok? {
      var low := Lowest(segments, U64_MAX, max).value;
      assert IsLowestAddress(segments, low);
    }
  }

  /** Segments that do not count can be dropped without changing the slide. */
  lemma {:induction false} ZeroFillSegmentsDoNotMatter(segments: seq<SegmentFields>, k: nat, max: u64, low: u64)
    requires k < |segments| && segments[k].ZeroFill() && !segments[k].Insane(max)
    ensures Lowest(segments, low, max) == Lowest(segments[..k] + segments[k + 1..], low, max)
    decreases k
  {
    var t := segments[..k] + segments[k + 1..];
    if k == 0 {
      assert t == segments[1..];
    } else {
      assert t[1..] == segments[1..][..k - 1] + segments[1..][k..];
      if !segments[0].Insane(max) {
        var next := if segments[0].ZeroFill() || segments[0].vmaddr >= low then low else segments[0].vmaddr;
        ZeroFillSegmentsDoNotMatter(segments[1..], k - 1, max, next);
      }
    }
  }

  /**
   Applying the derived slide to the lowest segment gives the load address, and segments keep their
   distances from it.
   */
  lemma SlideMovesSegmentsTogether(segments: seq<SegmentFields>, max: u64, address: u64, low: u64, i: nat)
    requires DerivedSlide(segments, max, address).Ok? && IsLowestAddress(segments, low)
    requires i < |segments| && !segments[i].ZeroFill()
    ensures var slide := DerivedSlide(segments, max, address).value;
            && Slid(low, slide) == Ok(address)
            && (Slid(segments[i].vmaddr, slide).Ok? ==>
                  Slid(segments[i].vmaddr, slide).value - address == segments[i].vmaddr - low)
  {
    SlideIsExact(segments, max, address);
    var m: u64 :| IsLowestAddress(segments, m) && address == m + DerivedSlide(segments, max, address).value;
    assert m == low;
    LowestIsLowest(segments, U64_MAX, max);
  }
}
