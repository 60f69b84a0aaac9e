/**
 libMachO/MachO_ABI/macho_image.c: the image object and the loops that search its load commands.
 */
module MachOImages {
  import opened Machine
  import opened Core
  import opened Memory
  import opened LoadCommands
  import opened CommandLists
  import opened CommandSearch
  import opened Slides

  /** One call of mk_macho_enumerate_commands' block. */
  datatype CommandCall = CommandCall(lc: u64, index: u32, target: u64)

  /** The calls for the first `n` commands: each with its own position in the list. */
  function CommandCalls(h: Header, n: nat): (calls: seq<CommandCall>)
    requires h.Valid() && n <= |h.Commands()|
    ensures |calls| == n
  {
    var s := h.Commands();
    seq(n, i requires 0 <= i < n => CommandCall(h.PointerTo(s[i]), Wrap32(i), h.TargetOf(s[i])))
  }

  lemma NoCommandCalls(h: Header)
    requires h.Valid()
    ensures CommandCalls(h, 0) == [] && 0 <= |h.Commands()| && Wrap32(0) == 0
  {
  }

  lemma AllRemain(h: Header)
    requires h.Valid()
    ensures h.Remaining(None) == h.Commands()
  {
  }

  /** One turn of the enumeration. */
  lemma EnumerateStep(h: Header, i: nat, p: u64)
    requires h.Valid() && !h.Stalls(h.Commands()) && PointerAt(h, h.Commands(), i) == Some(p)
    ensures i < |h.Commands()| && h.mapping.host <= p && p - h.mapping.host + LC_MIN <= |h.mapping.bytes|
    ensures CommandCalls(h, i + 1) == CommandCalls(h, i) + [CommandCall(p, Wrap32(i), h.TargetOf(p - h.mapping.host))]
    ensures Wrap32(Wrap32(i) + 1) == Wrap32(i + 1)
    ensures h.NextCommand(Some(p)) == PointerAt(h, h.Commands(), i + 1)
  {
    hide Read32, Header.NextCommand, Header.Commands;
    AllRemain(h);
    RemainingOf(h, None, i);
    NextIsFirstRemaining(h, Some(p));
    assert h.Accepts(h.Commands()[i]);
  }

  /** Indices do not wrap: an image has no more commands than bytes of commands. */
  lemma CommandCallsAreIndexed(h: Header, i: nat)
    requires h.Valid() && i < |h.Commands()|
    ensures i < h.Sizeofcmds()
    ensures h.Nth(i).Some?
    ensures CommandCalls(h, |h.Commands()|)[i] == CommandCall(h.Nth(i).value, i, h.TargetOf(h.Commands()[i]))
  {
    hide Read32, Header.NextCommand, Header.Commands, Header.Nth;
    CommandsGrow(h, i);
    IterationListsCommands(h, i);
  }

  lemma {:induction false} CommandsGrow(h: Header, i: nat)
    requires h.Valid() && i < |h.Commands()|
    ensures h.size + i <= h.Commands()[i] < h.size + h.Sizeofcmds()
    decreases i
  {
    hide Read32;
    if i > 0 {
      CommandsGrow(h, i - 1);
      CommandsAreDisjoint(h, i - 1, i);
    }
  }

  class MachOImage {
    var header: Header
    var slide: i64
    var live: bool  // the vtable pointer is set

    constructor ()
      ensures !live
    {
      header := Header(MemoryObject(0, 0, []), 0);
      slide := 0;
      live := false;
    }

    /**
     mk_macho_enumerate_commands; the result lists the calls of the block. It returns iff no command of
     size 0 is met.
     */
    method EnumerateCommands() returns (calls: seq<CommandCall>)
      requires header.Valid() && !header.Stalls(header.Commands())
      ensures calls == CommandCalls(header, |header.Commands()|)
    {
      hide *;
      var h := header;
      ghost var s, i := h.Commands(), 0;
      calls := [];
      NoCommandCalls(h);
      var index := 0;
      SearchStarts(h, None, 0);
      AllRemain(h);
      var lc := h.NextCommand(None);
      while lc.Some?
        invariant i <= |s| && lc == PointerAt(h, s, i)
        invariant index == Wrap32(i) && calls == CommandCalls(h, i)
        decreases |s| - i
      {
        EnumerateStep(h, i, lc.value);
        calls := calls + [CommandCall(lc.value, index, h.TargetOf(lc.value - h.mapping.host))];
        index := Wrap32(index as int + 1);
        lc := h.NextCommand(lc);
        i := i + 1;
      }
      PointerIsMatch(h, s, i);
    }

    /**
     mk_macho_next_command_type, going on from any pointer. The C loop only returns if it meets a match or the end.
     `*target_address` is written for every command passed.
     */
    method NextCommandType(previous: Option<u64>, kind: u32, prior: u64) returns (lc: Option<u64>, target: u64)
      requires header.Valid()
      requires SearchReturns(header, header.Remaining(previous), kind)
      ensures lc == FirstMatch(header, header.Remaining(previous), kind)
      ensures target == LeftAt(header, header.Remaining(previous), kind, prior)
    {
      hide *;
      var h := header;
      ghost var rest := h.Remaining(previous);
      ghost var m := MatchIndex(h, rest, kind);
      ghost var k := 0;
      target := prior;
      SearchStarts(h, previous, prior);
      lc := h.NextCommand(previous);
      while lc.Some?
        invariant k <= |rest| && k <= m
        invariant lc == PointerAt(h, rest, k)
        invariant target == TargetBefore(h, rest, k, prior)
        decreases |rest| - k
      {
        StepPast(h, previous, k, kind, lc.value, prior);
        target := h.TargetOf(lc.value - h.mapping.host);
        if h.IsKind(lc.value - h.mapping.host, kind) {
          return;
        }
        lc := h.NextCommand(lc);
        k := k + 1;
      }
      SearchFailed(h, rest, k, kind, prior);
    }

    /** mk_macho_find_command. */
    method FindCommand(kind: u32, prior: u64) returns (lc: Option<u64>, target: u64)
      requires header.Valid()
      requires header.Stalls(header.Commands()) ==> Matches(header, kind) != []
      ensures var matches := Matches(header, kind);
              lc == if matches == [] then None else Some(header.PointerTo(matches[0]))
      ensures lc.Some? ==> target == header.TargetOf(lc.value - header.mapping.host)
    {
      hide *;
      FirstMatchIs(header, kind, prior);
      PointerIsMatch(header, Matches(header, kind), 0);
      LeftAtMatch(header, kind, 0, prior);
      FoundIsInside(header, kind);
      lc, target := NextCommandType(None, kind, prior);
    }

    /**
     mk_macho_last_command_type returns the last match. `*target_address` is left at the last command
     of the image, which need not be the match.
     */
    method LastCommandType(kind: u32, prior: u64) returns (lc: Option<u64>, target: u64)
      requires header.Valid() && !header.Stalls(header.Commands())
      ensures var matches := Matches(header, kind);
              lc == if matches == [] then None else PointerAt(header, matches, |matches| - 1)
      ensures target == TargetBefore(header, header.Commands(), |header.Commands()|, prior)
    {
      hide *;
      var h := header;
      ghost var matches, i := Matches(h, kind), 0;
      FirstMatchIs(h, kind, prior);
      lc := None;
      var next;
      next, target := NextCommandType(lc, kind, prior);
      while next.Some?
        invariant i <= |matches|
        invariant next == PointerAt(h, matches, i)
        invariant lc == if i == 0 then None else PointerAt(h, matches, i - 1)
        invariant target == LeftAfter(h, kind, i, prior)
        decreases |matches| - i
      {
        PointerIsMatch(h, matches, i);
        NextMatchIs(h, kind, i, prior);
        LeftAtMatch(h, kind, i, prior);
        lc, i := next, i + 1;
        next, target := NextCommandType(lc, kind, target);
      }
      PointerIsMatch(h, matches, i);
      LeftAtMatch(h, kind, i, prior);
    }

    /**
     mk_macho_init, given the mapped header. Segment commands that the search returns are mapped and have a class,
     so mk_load_command_init does not fail on them. The loop over the segment commands must come to an end:
     either no command of size 0 is met, or a segment with an insane field is met first.
     */
    method Init(address: u64, mapped: Header) returns (err: Error)
      requires mapped.Valid() && SegmentsAreReadable(mapped)
      requires mapped.Stalls(mapped.Commands()) ==> Lowest(AllSegments(mapped), U64_MAX, FieldMax(mapped)).None?
      modifies this
      ensures match DerivedSlide(AllSegments(mapped), FieldMax(mapped), address)
              case Ok(s) => err == ESuccess && live && header == mapped && slide == s
              case Err(_) => err == EDerived && !live && header == mapped && slide == 0
    {
      hide *;
      header, slide, live := mapped, 0, true;
      var h := mapped;
      var kind, max := SegmentKind(h), FieldMax(h);
      var low := U64_MAX;
      ghost var segments, matches, i := AllSegments(h), Matches(h, kind), 0;
      var lc: Option<u64>, target: u64 := None, 0;  // the caller does not use the target address
      SegmentsStart(h);
      FirstMatchIs(h, kind, target);
      lc, target := NextCommandType(lc, kind, target);
      while lc.Some?
        invariant header == h && live && slide == 0
        invariant i <= |matches| == |segments|
        invariant lc == PointerAt(h, matches, i)
        invariant Lowest(segments, U64_MAX, max) == Lowest(segments[i..], low, max)
        decreases |matches| - i
      {
        PointerIsMatch(h, matches, i);
        SegmentAt(h, i, lc.value);
        FoldStep(segments, i, low, max, h);
        var segment := Fields(h, lc.value - h.mapping.host);
        if segment.Insane(max) {
          NoSlide(segments, max, address);
          live := false;
          return EDerived;
        }
        if !segment.ZeroFill() && segment.vmaddr < low {
          low := segment.vmaddr;
        }
        NextMatchIs(h, kind, i, target);
        i := i + 1;
        lc, target := NextCommandType(lc, kind, target);
      }
      PointerIsMatch(h, matches, i);
      SlideOf(segments, i, low, max, address);
      var difference;
      err, difference := AddressDifference(address, low, 0);
      if err != ESuccess {
        live := false;
        return EDerived;
      }
      slide := difference;
    }
  }

  lemma FoundIsInside(h: Header, kind: u32)
    requires h.Valid()
    ensures Matches(h, kind) != [] ==> h.PointerTo(Matches(h, kind)[0]) - h.mapping.host == Matches(h, kind)[0]
  {
    hide Header.Commands, OfType;
  }

  lemma LeftAtMatch(h: Header, kind: u32, i: nat, prior: u64)
    requires h.Valid()
    ensures i < |Matches(h, kind)| ==> LeftAfter(h, kind, i, prior) == h.TargetOf(Matches(h, kind)[i])
    ensures i >= |Matches(h, kind)| ==>
              LeftAfter(h, kind, i, prior) == TargetBefore(h, h.Commands(), |h.Commands()|, prior)
  {
  }

  // ---------------------------------------------------------------------------
  //  The fold over the segments
  // ---------------------------------------------------------------------------

  lemma SegmentsStart(h: Header)
    requires h.Valid() && SegmentsAreReadable(h)
    requires h.Stalls(h.Commands()) ==> Lowest(AllSegments(h), U64_MAX, FieldMax(h)).None?
    ensures var m := Matches(h, SegmentKind(h));
            && |AllSegments(h)| == |m| && AllSegments(h)[0..] == AllSegments(h)
            && (h.Stalls(h.Commands()) ==> m != [])
  {
    hide Header.Stalls, Header.Commands;
  }

  lemma SegmentAt(h: Header, i: nat, p: u64)
    requires h.Valid() && SegmentsAreReadable(h) && i < |Matches(h, SegmentKind(h))|
    requires p == h.PointerTo(Matches(h, SegmentKind(h))[i])
    ensures h.mapping.host <= p && p - h.mapping.host + SegmentLength(h) <= |h.mapping.bytes|
    ensures i < |AllSegments(h)| && AllSegments(h)[i] == Fields(h, p - h.mapping.host)
  {
    hide Fields, OfType, Header.Commands;
  }

  lemma FoldStep(segments: seq<SegmentFields>, i: nat, low: u64, max: u64, h: Header)
    requires i < |segments| && Lowest(segments, U64_MAX, max) == Lowest(segments[i..], low, max)
    ensures segments[i].Insane(max) ==> Lowest(segments, U64_MAX, max).None?
    ensures !segments[i].Insane(max) ==>
              && (i + 1 == |segments| ==> Lowest(segments, U64_MAX, max).Some?)
              && Lowest(segments, U64_MAX, max) == Lowest(segments[i + 1..],
                   if !segments[i].ZeroFill() && segments[i].vmaddr < low then segments[i].vmaddr else low, max)
  {
    assert segments[i..][1..] == segments[i + 1..];
  }

  lemma NoSlide(segments: seq<SegmentFields>, max: u64, address: u64)
    requires Lowest(segments, U64_MAX, max).None?
    ensures DerivedSlide(segments, max, address) == Err(EDerived)
  {
  }

  lemma SlideOf(segments: seq<SegmentFields>, i: nat, low: u64, max: u64, address: u64)
    requires i == |segments| && Lowest(segments, U64_MAX, max) == Lowest(segments[i..], low, max)
    ensures match Stored(SignedDifference(address, low), 0)
            case (ESuccess, slide) => DerivedSlide(segments, max, address) == Ok(slide)
            case _ => DerivedSlide(segments, max, address) == Err(EDerived)
  {
  }
}
