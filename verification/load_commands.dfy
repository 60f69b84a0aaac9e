/**
 libMachO/MachO_ABI/macho_image.c: iteration over the load commands behind a Mach-O header.

 The header and the commands are read through one mapping, which starts at the header and
 may be longer than the commands because memory maps round up to whole pages. Positions
 are offsets into that mapping; pointers are host addresses.
 */
module LoadCommands {
  import opened Machine
  import opened Memory

  const LC_SEGMENT: u32 := 0x1
  const LC_SYMTAB: u32 := 0x2
  const LC_DYSYMTAB: u32 := 0xB
  const LC_SEGMENT_64: u32 := 0x19
  const LC_DYLD_INFO: u32 := 0x22
  const LC_DYLD_INFO_ONLY: u32 := 0x8000_0022
  const LC_DYLD_EXPORTS_TRIE: u32 := 0x8000_0033

  const MH_MAGIC_64: u32 := 0xFEED_FACF

  /** sizeof(struct load_command): the command type and the command size. */
  const LC_MIN: nat := 8

  /** The mapped header. `size` is sizeof(struct mach_header) or sizeof(struct mach_header_64). */
  datatype Header = Header(mapping: MemoryObject, size: nat) {

    /** What mk_macho_init_with_slide establishes: all of the header and the commands is mapped. */
    ghost predicate Valid() {
      && mapping.Valid()
      && size in {28, 32}
      && size <= |mapping.bytes| < 0x2_0000_0000  // a 32-bit size, rounded up to pages
      && size + Sizeofcmds() <= |mapping.bytes|
    }

    function Ncmds(): u32
      requires 28 <= size <= |mapping.bytes|
    {
      Read32(mapping.bytes, 16)
    }

    function Sizeofcmds(): u32
      requires 28 <= size <= |mapping.bytes|
    {
      Read32(mapping.bytes, 20)
    }

    function Is64Bit(): bool
      requires 28 <= size <= |mapping.bytes|
    {
      Read32(mapping.bytes, 0) == MH_MAGIC_64
    }

    function CommandType(pos: nat): u32
      requires pos + LC_MIN <= |mapping.bytes|
    {
      Read32(mapping.bytes, pos)
    }

    function CommandSize(pos: nat): u32
      requires pos + LC_MIN <= |mapping.bytes|
    {
      Read32(mapping.bytes, pos + 4)
    }

    function PointerTo(pos: nat): (p: u64)
      ensures mapping.Valid() && pos <= |mapping.bytes| ==> p == mapping.host + pos
    {
      Wrap64(mapping.host + pos)
    }

    function TargetOf(pos: nat): (address: u64)
      ensures mapping.Valid() && pos <= |mapping.bytes| ==> address == mapping.target + pos
    {
      Wrap64(mapping.target + pos)
    }

    /** The iterator accepts a command at `pos`. */
    predicate Accepts(pos: nat): (b: bool)
      requires Valid()
      ensures b ==> pos + LC_MIN <= |mapping.bytes|
    {
      && pos < size + Sizeofcmds()
      && pos + LC_MIN <= |mapping.bytes|
      && pos + CommandSize(pos) <= |mapping.bytes|
    }

    // -------------------------------------------------------------------------
    //  The iterator
    // -------------------------------------------------------------------------

    /** mk_macho_next_command: the pointer after `previous`, or the first one when there is no previous. */
    function NextCommand(previous: Option<u64>): (lc: Option<u64>)
      requires Valid()
    {
      match previous
      case None =>
        if Ncmds() == 0 then None
        else if Sizeofcmds() < LC_MIN then None
        else Checked(Wrap64(mapping.host + size))
      case Some(p) =>
        if mapping.VerifyLocalPointer(0, p, LC_MIN) != ESuccess then None
        else Checked(Wrap64(p + CommandSize(p - mapping.host)))
    }

    /** The tests both kinds of call end with. */
    function Checked(lc: u64): (r: Option<u64>)
      requires Valid()
      ensures r.Some? <==> lc >= mapping.host && Accepts(lc - mapping.host)
      ensures r.Some? ==> r.value == lc
    {
      if lc >= Wrap64(mapping.host + size + Sizeofcmds()) then None
      else if mapping.VerifyLocalPointer(0, lc, LC_MIN) != ESuccess then None
      else if mapping.VerifyLocalPointer(0, lc, CommandSize(lc - mapping.host)) != ESuccess then None
      else Some(lc)
    }

    // -------------------------------------------------------------------------
    //  The commands as a sequence
    // -------------------------------------------------------------------------

    /** The positions of the command at `pos` and of all that follow it; a command of size 0 is the last. */
    function CommandsFrom(pos: nat): (s: seq<nat>)
      requires Valid()
      ensures forall i :: 0 <= i < |s| ==> pos <= s[i] && Accepts(s[i])
      ensures if Accepts(pos) then s != [] && s[0] == pos else s == []
      decreases |mapping.bytes| - pos
    {
      if !Accepts(pos) then []
      else if CommandSize(pos) == 0 then [pos]
      else [pos] + CommandsFrom(pos + CommandSize(pos))
    }

    /** All commands of the image. */
    function Commands(): (s: seq<nat>)
      requires Valid()
      ensures forall i :: 0 <= i < |s| ==> size <= s[i] && Accepts(s[i])
    {
      if Ncmds() == 0 || Sizeofcmds() < LC_MIN then [] else CommandsFrom(size)
    }

    /** What an iteration that goes on from `previous` still returns; any pointer may be passed. */
    function Remaining(previous: Option<u64>): (s: seq<nat>)
      requires Valid()
      ensures forall i :: 0 <= i < |s| ==> Accepts(s[i])
    {
      match previous
      case None => Commands()
      case Some(p) =>
        var pos := p - mapping.host;
        if pos < 0 || pos + LC_MIN > |mapping.bytes| then [] else CommandsFrom(pos + CommandSize(pos))
    }

    /** The iteration through `s` ends in a command of size 0, which the iterator then returns for ever. */
    predicate Stalls(s: seq<nat>) {
      s != [] && s[|s| - 1] + LC_MIN <= |mapping.bytes| && CommandSize(s[|s| - 1]) == 0
    }

    /** There is a command of this type at `pos`. */
    predicate IsKind(pos: nat, kind: u32) {
      pos + LC_MIN <= |mapping.bytes| && CommandType(pos) == kind
    }

    /** The n-th pointer returned when iterating from NULL. */
    function Nth(n: nat): Option<u64>
      requires Valid()
    {
      if n == 0 then NextCommand(None)
      else
        match Nth(n - 1)
        case None => None
        case Some(p) => NextCommand(Some(p))
    }
  }

  // ---------------------------------------------------------------------------
  //  Iteration on arbitrary bytes
  // ---------------------------------------------------------------------------

  /** What one call returns, in positions: the wrapped pointer arithmetic never goes wrong. */
  lemma NextCommandIs(h: Header, previous: Option<u64>)
    requires h.Valid()
    ensures previous.None? && h.Ncmds() != 0 && h.Sizeofcmds() >= LC_MIN && h.Accepts(h.size) ==>
              h.NextCommand(previous) == Some(h.PointerTo(h.size))
    ensures previous.None? && !(h.Ncmds() != 0 && h.Sizeofcmds() >= LC_MIN && h.Accepts(h.size)) ==>
              h.NextCommand(previous) == None
    ensures previous.Some? && h.mapping.HoldsHost(previous.value, LC_MIN) ==>
              var pos := previous.value - h.mapping.host;
              var next := pos + h.CommandSize(pos);
              h.NextCommand(previous) == if h.Accepts(next) then Some(h.PointerTo(next)) else None
    ensures previous.Some? && !h.mapping.HoldsHost(previous.value, LC_MIN) ==> h.NextCommand(previous) == None
  {
    hide Read32;
  }

  /** Each command starts where the one before it ended. */
  lemma {:induction false} CommandsAreConsecutive(h: Header, pos: nat, i: nat)
    requires h.Valid() && i + 1 < |h.CommandsFrom(pos)|
    ensures var s := h.CommandsFrom(pos);
            0 < h.CommandSize(s[i]) && s[i + 1] == s[i] + h.CommandSize(s[i])
    decreases i
  {
    hide Read32;
    hide Header.Accepts;
    var next := pos + h.CommandSize(pos);
    assert h.CommandsFrom(pos) == [pos] + h.CommandsFrom(next);
    if i > 0 {
      CommandsAreConsecutive(h, next, i - 1);
    }
  }

  /** The list only ends where no further command is acceptable, or at a command of size 0. */
  lemma {:induction false} CommandsAreMaximal(h: Header, pos: nat)
    requires h.Valid() && h.CommandsFrom(pos) != []
    ensures var s := h.CommandsFrom(pos);
            !h.Stalls(s) ==> !h.Accepts(s[|s| - 1] + h.CommandSize(s[|s| - 1]))
    decreases |h.mapping.bytes| - pos
  {
    hide Read32;
    var next := pos + h.CommandSize(pos);
    if h.CommandSize(pos) != 0 && h.Accepts(next) {
      assert h.CommandsFrom(pos) == [pos] + h.CommandsFrom(next);
      CommandsAreMaximal(h, next);
    }
  }

  /** A listed command starts behind the header and inside 'sizeofcmds', and lies wholly in the mapping. */
  lemma CommandIsMapped(h: Header, i: nat)
    requires h.Valid() && i < |h.Commands()|
    ensures var pos := h.Commands()[i];
            && h.size <= pos < h.size + h.Sizeofcmds()
            && pos + LC_MIN <= |h.mapping.bytes| && pos + h.CommandSize(pos) <= |h.mapping.bytes|
            && h.mapping.HoldsHost(h.PointerTo(pos), LC_MIN)
            && h.mapping.HoldsHost(h.PointerTo(pos), h.CommandSize(pos))
  {
    hide Read32, Header.CommandsFrom;
    assert h.Accepts(h.Commands()[i]);
  }

  /** Listed commands are readable, lie inside the mapping, and do not overlap. */
  lemma CommandsAreDisjoint(h: Header, i: nat, j: nat)
    requires h.Valid() && i < j < |h.Commands()|
    ensures var s := h.Commands();
            && h.Accepts(s[i]) && h.Accepts(s[j])
            && h.size <= s[i] && s[i] < s[i] + h.CommandSize(s[i]) <= s[j]
            && s[j] + h.CommandSize(s[j]) <= |h.mapping.bytes|
            && s[i] + h.CommandSize(s[i]) < h.size + h.Sizeofcmds()
    decreases j
  {
    hide Read32;
    var s := h.Commands();
    CommandsAreConsecutive(h, h.size, j - 1);
    if i < j - 1 {
      CommandsAreDisjoint(h, i, j - 1);
    }
  }

  /** A step from a listed command, in positions. */
  lemma StepFrom(h: Header, i: nat)
    requires h.Valid() && i < |h.Commands()|
    ensures var pos := h.Commands()[i];
            && pos + LC_MIN <= |h.mapping.bytes|
            && h.NextCommand(Some(h.PointerTo(pos)))
               == if h.Accepts(pos + h.CommandSize(pos)) then Some(h.PointerTo(pos + h.CommandSize(pos))) else None
  {
    hide *;
    CommandIsMapped(h, i);
    PointerIsAt(h, h.Commands()[i]);
    NextCommandIs(h, Some(h.PointerTo(h.Commands()[i])));
  }

  lemma PointerIsAt(h: Header, pos: nat)
    requires h.Valid() && pos <= |h.mapping.bytes|
    ensures h.PointerTo(pos) - h.mapping.host == pos
  {
    hide Read32;
  }

  lemma StepInsideList(h: Header, i: nat)
    requires h.Valid() && i + 1 < |h.Commands()|
    ensures h.NextCommand(Some(h.PointerTo(h.Commands()[i]))) == Some(h.PointerTo(h.Commands()[i + 1]))
  {
    hide Read32, Header.NextCommand, Header.Accepts, Header.CommandsFrom;
    StepFrom(h, i);
    CommandsAreConsecutive(h, h.size, i);
  }

  lemma StepFromLast(h: Header)
    requires h.Valid() && h.Commands() != []
    ensures var s := h.Commands();
            h.NextCommand(Some(h.PointerTo(s[|s| - 1]))) == if h.Stalls(s) then Some(h.PointerTo(s[|s| - 1])) else None
  {
    hide Read32, Header.NextCommand, Header.Accepts, Header.CommandsFrom;
    var s := h.Commands();
    StepFrom(h, |s| - 1);
    CommandsAreMaximal(h, h.size);
    assert h.Accepts(s[|s| - 1]);
  }

  lemma FirstStep(h: Header)
    requires h.Valid()
    ensures h.NextCommand(None) == if h.Commands() == [] then None else Some(h.PointerTo(h.Commands()[0]))
    ensures !h.Stalls([])
  {
    hide Read32, Header.NextCommand;
    NextCommandIs(h, None);
  }

  lemma NthUnfolds(h: Header, n: nat)
    requires h.Valid()
    ensures h.Nth(0) == h.NextCommand(None)
    ensures n > 0 && h.Nth(n - 1).None? ==> h.Nth(n) == None
    ensures n > 0 && h.Nth(n - 1).Some? ==> h.Nth(n) == h.NextCommand(h.Nth(n - 1))
  {
    hide Header.NextCommand;
  }

  /**
   Iterating from NULL returns exactly the listed commands, and after them NULL, or the last
   command again for ever if its size is 0.
   */
  lemma {:induction false} IterationListsCommands(h: Header, n: nat)
    requires h.Valid()
    ensures var s := h.Commands();
            h.Nth(n) == if n < |s| then Some(h.PointerTo(s[n]))
                        else if h.Stalls(s) then Some(h.PointerTo(s[|s| - 1]))
                        else None
  {
    hide *;
    var s := h.Commands();
    NthUnfolds(h, n);
    FirstStep(h);
    if n > 0 {
      IterationListsCommands(h, n - 1);
      if n < |s| {
        StepInsideList(h, n - 1);
      } else if s != [] {
        StepFromLast(h);
      }
    }
  }

  /** The iteration from NULL ends iff no command of size 0 is met. */
  lemma IterationEndsIffNoEmptyCommand(h: Header)
    requires h.Valid()
    ensures (exists n :: h.Nth(n).None?) <==> forall i :: 0 <= i < |h.Commands()| ==>
              h.CommandSize(h.Commands()[i]) != 0
  {
    hide Read32;
    hide Header.Accepts;
    var s := h.Commands();
    if h.Stalls(s) {
      forall n ensures h.Nth(n).Some? {
        IterationListsCommands(h, n);
      }
    } else {
      IterationListsCommands(h, |s|);
      forall i | 0 <= i < |s| ensures h.CommandSize(s[i]) != 0 {
        if i < |s| - 1 {
          CommandsAreConsecutive(h, h.size, i);
        }
      }
    }
  }
}
