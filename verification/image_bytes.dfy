/**
 Mach-O images as their bytes: a magic number, two words of the header, and load commands
 one after the other. The statements about images name byte positions and values, so that
 they say from the outside what the header and field readers do.
 */
module ImageBytes {
  import opened Machine
  import opened Memory
  import opened LoadCommands
  import opened CommandLists
  import opened CommandSearch
  import opened TableSelection

  // ---------------------------------------------------------------------------
  //  Words
  // ---------------------------------------------------------------------------

  function Zeros(n: nat): (s: seq<u8>)
    ensures |s| == n
  {
    seq(n, _ => 0)
  }

  /** 32-bit words as bytes. */
  function Words(ws: seq<u32>): (b: seq<u8>)
    ensures |b| == 4 * |ws|
  {
    if ws == [] then [] else Write32(ws[0]) + Words(ws[1..])
  }

  lemma {:induction false} WordAt(ws: seq<u32>, k: nat)
    requires k < |ws|
    ensures Read32(Words(ws), 4 * k) == ws[k]
  {
    hide Read32, Write32;
    var b, rest := Words(ws), Words(ws[1..]);
    assert b == Write32(ws[0]) + rest;
    if k == 0 {
      assert b[0..4] == Write32(ws[0])[0..4];
      Read32Agrees(b, 0, Write32(ws[0]), 0);
    } else {
      WordAt(ws[1..], k - 1);
      assert b[4 * k..4 * k + 4] == rest[4 * (k - 1)..4 * (k - 1) + 4];
      Read32Agrees(b, 4 * k, rest, 4 * (k - 1));
    }
  }

  lemma Read32Of(prefix: seq<u8>, v: u32, suffix: seq<u8>)
    ensures Read32(prefix + Write32(v) + suffix, |prefix|) == v
  {
    hide Read32, Write32;
    var s := prefix + Write32(v) + suffix;
    assert s[|prefix|..|prefix| + 4] == Write32(v)[0..4];
    Read32Agrees(s, |prefix|, Write32(v), 0);
  }

  lemma Read64Of(prefix: seq<u8>, v: u64, suffix: seq<u8>)
    ensures Read64(prefix + Write64(v) + suffix, |prefix|) == v
  {
    hide Read64, Write64;
    var s := prefix + Write64(v) + suffix;
    assert s[|prefix|..|prefix| + 8] == Write64(v)[0..8];
    Read64Agrees(s, |prefix|, Write64(v), 0);
  }

  // ---------------------------------------------------------------------------
  //  Images
  // ---------------------------------------------------------------------------

  /**
   The mapping starts with the header of a 64-bit (`wide`) or 32-bit image and its load commands. The other
   fields of the header, and whatever follows the commands up to the end of the last page, may be anything.
   */
  ghost predicate IsImageOf(h: Header, wide: bool, cs: seq<seq<u8>>) {
    var b, area := h.mapping.bytes, Joined(cs);
    && h.mapping.Valid()
    && h.size == (if wide then 32 else 28)
    && h.size + |area| <= |b| < 0x2_0000_0000
    && b[0..4] == (if wide then [0xCF, 0xFA, 0xED, 0xFE] else [0xCE, 0xFA, 0xED, 0xFE])
    && Read32(b, 16) == |cs|
    && Read32(b, 20) == |area|
    && b[h.size..h.size + |area|] == area
    && forall k :: 0 <= k < |cs| ==> IsCommand(cs[k])
  }

  lemma MagicIs(b: seq<u8>)
    requires |b| >= 4
    ensures b[0..4] == [0xCF, 0xFA, 0xED, 0xFE] ==> Read32(b, 0) == 0xFEED_FACF
    ensures b[0..4] == [0xCE, 0xFA, 0xED, 0xFE] ==> Read32(b, 0) == 0xFEED_FACE
  {
    hide Read32;
    Read32Is(b, 0);
    var m := b[0..4];
    assert b[0] == m[0] && b[1] == m[1] && b[2] == m[2] && b[3] == m[3];
  }

  /** What the header says. */
  lemma ImageHeader(h: Header, wide: bool, cs: seq<seq<u8>>)
    requires IsImageOf(h, wide, cs)
    ensures h.Valid() && h.size == (if wide then 32 else 28) && (h.Is64Bit() <==> wide)
    ensures h.Ncmds() == |cs| && h.Sizeofcmds() == |Joined(cs)|
    ensures h.mapping.bytes[h.size..h.size + |Joined(cs)|] == Joined(cs)
    ensures forall k :: 0 <= k < |cs| ==> IsCommand(cs[k])
  {
    hide Read32, Joined, IsCommand;
    MagicIs(h.mapping.bytes);
  }

  /** An image is iterated as its commands, as many as its header says, and the iteration ends. */
  lemma PackedImage(h: Header, wide: bool, cs: seq<seq<u8>>)
    requires IsImageOf(h, wide, cs)
    ensures h.Valid() && h.Commands() == Starts(cs, h.size) && |h.Commands()| == h.Ncmds() && !h.Stalls(h.Commands())
  {
    hide *;
    ImageHeader(h, wide, cs);
    PackedCommandsRoundTrip(h, cs, 0);
    if cs == [] {
      NothingStalls(h, h.Commands());
    } else {
      PackedCommandAt(h, cs, |cs| - 1);
      LastStartStalls(h, h.Commands());
    }
  }

  lemma NothingStalls(h: Header, s: seq<nat>)
    ensures s == [] ==> !h.Stalls(s)
  {
  }

  lemma LastStartStalls(h: Header, s: seq<nat>)
    requires s != [] && s[|s| - 1] + LC_MIN <= |h.mapping.bytes| && h.CommandSize(s[|s| - 1]) > 0
    ensures !h.Stalls(s)
  {
    hide Read32;
  }

  // ---------------------------------------------------------------------------
  //  The commands of an image
  // ---------------------------------------------------------------------------

  /** Where the i-th command is. */
  lemma CommandPlace(h: Header, wide: bool, cs: seq<seq<u8>>, i: nat)
    requires IsImageOf(h, wide, cs) && i < |cs|
    ensures var pos := Starts(cs, h.size)[i];
            && h.size <= pos && LC_MIN <= |cs[i]| && pos + |cs[i]| <= |h.mapping.bytes|
            && h.mapping.bytes[pos..pos + |cs[i]|] == cs[i]
  {
    hide *;
    ImageHeader(h, wide, cs);
    PackedCommandAt(h, cs, i);
    PartAt(cs, h.size, i);
    CommandIsLong(cs[i]);
  }

  lemma CommandIsLong(c: seq<u8>)
    requires IsCommand(c)
    ensures LC_MIN <= |c| < TWO32 && Read32(c, 4) == |c|
  {
  }

  /** A word of a command is read from its place in the image. */
  lemma CommandWord(h: Header, wide: bool, cs: seq<seq<u8>>, i: nat, k: nat)
    requires IsImageOf(h, wide, cs) && i < |cs| && k + 4 <= |cs[i]|
    ensures var pos := Starts(cs, h.size)[i];
            pos + |cs[i]| <= |h.mapping.bytes| && Read32(h.mapping.bytes, pos + k) == Read32(cs[i], k)
  {
    hide *;
    CommandPlace(h, wide, cs, i);
    var pos := Starts(cs, h.size)[i];
    SliceOfSlice(h.mapping.bytes, pos, cs[i], k, k + 4);
    Read32Agrees(h.mapping.bytes, pos + k, cs[i], k);
  }

  /** The same for a 64-bit word. */
  lemma CommandWord64(h: Header, wide: bool, cs: seq<seq<u8>>, i: nat, k: nat)
    requires IsImageOf(h, wide, cs) && i < |cs| && k + 8 <= |cs[i]|
    ensures var pos := Starts(cs, h.size)[i];
            pos + |cs[i]| <= |h.mapping.bytes| && Read64(h.mapping.bytes, pos + k) == Read64(cs[i], k)
  {
    hide *;
    CommandPlace(h, wide, cs, i);
    var pos := Starts(cs, h.size)[i];
    SliceOfSlice(h.mapping.bytes, pos, cs[i], k, k + 8);
    Read64Agrees(h.mapping.bytes, pos + k, cs[i], k);
  }

  /** Each command keeps its type and size. */
  lemma PackedKind(h: Header, wide: bool, cs: seq<seq<u8>>, i: nat)
    requires IsImageOf(h, wide, cs) && i < |cs|
    ensures var pos := Starts(cs, h.size)[i];
            && pos + LC_MIN <= |h.mapping.bytes| && LC_MIN <= |cs[i]|
            && h.CommandType(pos) == Read32(cs[i], 0) && h.CommandSize(pos) == |cs[i]|
            && (forall kind: u32 :: h.IsKind(pos, kind) <==> Read32(cs[i], 0) == kind)
  {
    hide Read32, Starts, IsImageOf;
    CommandPlace(h, wide, cs, i);
    CommandWord(h, wide, cs, i, 0);
    CommandWord(h, wide, cs, i, 4);
    ImageHeader(h, wide, cs);
    CommandIsLong(cs[i]);
  }

  predicate HasType(c: seq<u8>, kind: u32) {
    LC_MIN <= |c| && Read32(c, 0) == kind
  }

  /** The i-th command is the last one of its type. */
  ghost predicate IsLastOf(cs: seq<seq<u8>>, i: nat, kind: u32) {
    i < |cs| && HasType(cs[i], kind) && forall k :: i < k < |cs| ==> !HasType(cs[k], kind)
  }

  ghost predicate HasNone(cs: seq<seq<u8>>, kind: u32) {
    forall k :: 0 <= k < |cs| ==> !HasType(cs[k], kind)
  }

  lemma StartsIncrease(h: Header, wide: bool, cs: seq<seq<u8>>, i: nat, j: nat)
    requires IsImageOf(h, wide, cs) && i < j < |cs|
    ensures Starts(cs, h.size)[i] < Starts(cs, h.size)[j]
  {
    hide *;
    PackedImage(h, wide, cs);
    CommandsIncrease(h);
    IncreasingBetween(h.Commands(), i, j);
  }

  lemma IncreasingBetween(s: seq<nat>, i: nat, j: nat)
    requires Increasing(s) && i < j < |s|
    ensures s[i] < s[j]
  {
    IncreasingOverall(s[i..], j - i);
  }

  /** The listed commands of a type are those of the image. */
  lemma ListedIs(h: Header, wide: bool, cs: seq<seq<u8>>, kind: u32, pos: nat)
    requires IsImageOf(h, wide, cs)
    ensures h.Valid()
    ensures IsListed(h, pos, kind) <==>
              exists i :: 0 <= i < |cs| && pos == Starts(cs, h.size)[i] && HasType(cs[i], kind)
  {
    hide Read32, IsImageOf, Starts, Header.Commands;
    PackedImage(h, wide, cs);
    forall i | 0 <= i < |cs| ensures h.IsKind(Starts(cs, h.size)[i], kind) <==> HasType(cs[i], kind) {
      PackedKind(h, wide, cs, i);
    }
  }

  /** The last command of a type is what a search for the last one returns. */
  lemma LastOfImage(h: Header, wide: bool, cs: seq<seq<u8>>, i: nat, kind: u32)
    requires IsImageOf(h, wide, cs) && IsLastOf(cs, i, kind)
    ensures h.Valid() && LastOf(h, kind) == Some(Starts(cs, h.size)[i])
  {
    hide Read32, IsImageOf, Starts, IsListed, HasType, LastOf;
    var pos := Starts(cs, h.size)[i];
    ListedIs(h, wide, cs, kind, pos);
    forall other: nat | IsListed(h, other, kind) ensures other <= pos {
      ListedIs(h, wide, cs, kind, other);
      var k :| 0 <= k < |cs| && other == Starts(cs, h.size)[k] && HasType(cs[k], kind);
      if k < i {
        StartsIncrease(h, wide, cs, k, i);
      }
    }
    SelectedIsExtreme(h, kind, pos);
  }

  /** Nothing is found of a type that the image does not have. */
  lemma NoneOfImage(h: Header, wide: bool, cs: seq<seq<u8>>, kind: u32)
    requires IsImageOf(h, wide, cs) && HasNone(cs, kind)
    ensures h.Valid() && LastOf(h, kind) == None && FirstOf(h, kind) == None
  {
    hide Read32, IsImageOf, Starts, IsListed, HasType, LastOf, FirstOf;
    PackedImage(h, wide, cs);
    forall other: nat ensures !IsListed(h, other, kind) {
      ListedIs(h, wide, cs, kind, other);
    }
    SelectedIsExtreme(h, kind, 0);
  }
}
