/**
 Lists of load commands: packing and unpacking them, and selecting commands by type.
 */
module CommandLists {
  import opened Machine
  import opened Memory
  import opened LoadCommands

  // ---------------------------------------------------------------------------
  //  Round trip
  // ---------------------------------------------------------------------------

  /** A load command as its own bytes: the second word is its size. */
  ghost predicate IsCommand(c: seq<u8>) {
    LC_MIN <= |c| < TWO32 && Read32(c, 4) == |c|
  }

  function Joined(parts: seq<seq<u8>>): seq<u8> {
    if parts == [] then [] else parts[0] + Joined(parts[1..])
  }

  /** Where the parts of a joined sequence start. */
  function Starts(parts: seq<seq<u8>>, base: nat): (s: seq<nat>)
    ensures |s| == |parts|
  {
    if parts == [] then [] else [base] + Starts(parts[1..], base + |parts[0]|)
  }

  lemma {:induction false} PartAt(parts: seq<seq<u8>>, base: nat, i: nat)
    requires i < |parts|
    ensures var s := Starts(parts, base);
            base <= s[i] && s[i] + |parts[i]| <= base + |Joined(parts)|
            && Joined(parts)[s[i] - base..s[i] - base + |parts[i]|] == parts[i]
    decreases i
  {
    if i > 0 {
      var n := |parts[0]|;
      PartAt(parts[1..], base + n, i - 1);
      var k := Starts(parts, base)[i] - base;
      DropFirstPart(parts[0], Joined(parts[1..]), k, |parts[i]|);
    }
  }

  lemma DropFirstPart(first: seq<u8>, rest: seq<u8>, k: nat, length: nat)
    requires |first| <= k && k + length <= |first| + |rest|
    ensures (first + rest)[k..k + length] == rest[k - |first|..k - |first| + length]
  {
  }

  /** The iterator recognises a command whose bytes are in the mapping. */
  lemma CommandIsAccepted(h: Header, pos: nat, c: seq<u8>)
    requires h.Valid() && IsCommand(c)
    requires pos + |c| <= h.size + h.Sizeofcmds() && h.mapping.bytes[pos..pos + |c|] == c
    ensures h.Accepts(pos) && h.CommandSize(pos) == |c|
  {
    assert h.mapping.bytes[pos + 4..pos + 8] == c[4..8];
    LittleEndianAgrees(h.mapping.bytes, pos + 4, c, 4, 4);
  }

  lemma {:induction false} PackedCommandsAreListed(h: Header, pos: nat, cs: seq<seq<u8>>)
    requires h.Valid() && forall i :: 0 <= i < |cs| ==> IsCommand(cs[i])
    requires pos + |Joined(cs)| == h.size + h.Sizeofcmds()
    requires h.mapping.bytes[pos..pos + |Joined(cs)|] == Joined(cs)
    ensures h.CommandsFrom(pos) == Starts(cs, pos)
    decreases |cs|
  {
    hide Read32;
    if cs != [] {
      var n := |cs[0]|;
      SliceOfSlice(h.mapping.bytes, pos, Joined(cs), 0, n);
      SliceOfSlice(h.mapping.bytes, pos, Joined(cs), n, |Joined(cs)|);
      assert Joined(cs)[0..n] == cs[0] && Joined(cs)[n..|Joined(cs)|] == Joined(cs[1..]);
      CommandIsAccepted(h, pos, cs[0]);
      PackedCommandsAreListed(h, pos + n, cs[1..]);
    }
  }

  /**
   Load-command round trip: an image whose command area is a packed list of commands is iterated
   as exactly that list, in order, and then ends.
   */
  lemma PackedCommandsRoundTrip(h: Header, cs: seq<seq<u8>>, i: nat)
    requires h.Valid() && forall k :: 0 <= k < |cs| ==> IsCommand(cs[k])
    requires h.Sizeofcmds() == |Joined(cs)| && h.mapping.bytes[h.size..h.size + |Joined(cs)|] == Joined(cs)
    requires cs != [] ==> h.Ncmds() != 0
    ensures h.Commands() == Starts(cs, h.size)
    ensures i < |cs| ==> var pos := Starts(cs, h.size)[i];
                         && pos + |cs[i]| <= |h.mapping.bytes|
                         && h.Nth(i) == Some(h.PointerTo(pos))
                         && h.mapping.bytes[pos..pos + |cs[i]|] == cs[i]
    ensures i >= |cs| ==> h.Nth(i) == None
  {
    hide Read32;
    hide Header.NextCommand;
    hide Header.Accepts;
    PackedCommandsAreListed(h, h.size, cs);
    if cs != [] {
      assert |Joined(cs)| >= |cs[0]|;
      PackedCommandAt(h, cs, if i < |cs| then i else |cs| - 1);
    }
    IterationListsCommands(h, i);
  }

  lemma PackedCommandAt(h: Header, cs: seq<seq<u8>>, k: nat)
    requires h.Valid() && k < |cs| && IsCommand(cs[k])
    requires h.Sizeofcmds() == |Joined(cs)| && h.mapping.bytes[h.size..h.size + |Joined(cs)|] == Joined(cs)
    ensures var pos := Starts(cs, h.size)[k];
            && h.Accepts(pos) && h.CommandSize(pos) == |cs[k]| > 0
            && pos + |cs[k]| <= |h.mapping.bytes| && h.mapping.bytes[pos..pos + |cs[k]|] == cs[k]
  {
    hide Read32;
    PartAt(cs, h.size, k);
    var pos := Starts(cs, h.size)[k];
    SliceOfSlice(h.mapping.bytes, h.size, Joined(cs), pos - h.size, pos - h.size + |cs[k]|);
    CommandIsAccepted(h, pos, cs[k]);
  }

  /** The bytes of the listed commands. */
  ghost function Contents(h: Header, s: seq<nat>): (parts: seq<seq<u8>>)
    requires h.Valid() && forall i :: 0 <= i < |s| ==> h.Accepts(s[i])
    ensures |parts| == |s|
  {
    if s == [] then []
    else
      assert h.Accepts(s[0]);
      [h.mapping.bytes[s[0]..s[0] + h.CommandSize(s[0])]] + Contents(h, s[1..])
  }

  /**
   On arbitrary bytes, the commands returned are one contiguous piece of the mapping, cut without gap or
   overlap.
   */
  lemma {:induction false} ListedCommandsTileTheMapping(h: Header, pos: nat)
    requires h.Valid() && pos <= |h.mapping.bytes|
    ensures var all := Joined(Contents(h, h.CommandsFrom(pos)));
            pos + |all| <= |h.mapping.bytes| && all == h.mapping.bytes[pos..pos + |all|]
    decreases |h.mapping.bytes| - pos
  {
    hide *;
    var s := h.CommandsFrom(pos);
    if s == [] {
      NoContents(h);
    } else {
      HeadCommand(h, pos);
      ContentsUnfold(h, s);
      var next := pos + h.CommandSize(pos);
      if h.CommandSize(pos) != 0 {
        ListedCommandsTileTheMapping(h, next);
        SlicesMeet(h.mapping.bytes, pos, next, next + |Joined(Contents(h, s[1..]))|);
      }
    }
  }

  lemma NoContents(h: Header)
    requires h.Valid()
    ensures Joined(Contents(h, [])) == []
  {
  }

  lemma HeadCommand(h: Header, pos: nat)
    requires h.Valid() && h.CommandsFrom(pos) != []
    ensures var s := h.CommandsFrom(pos);
            && s[0] == pos && h.Accepts(pos) && pos + LC_MIN <= |h.mapping.bytes|
            && pos + h.CommandSize(pos) <= |h.mapping.bytes|
            && s[1..] == if h.CommandSize(pos) == 0 then [] else h.CommandsFrom(pos + h.CommandSize(pos))
  {
    hide Read32;
  }

  lemma ContentsUnfold(h: Header, s: seq<nat>)
    requires h.Valid() && (forall i :: 0 <= i < |s| ==> h.Accepts(s[i])) && s != [] && h.Accepts(s[0])
    ensures s[0] + h.CommandSize(s[0]) <= |h.mapping.bytes|
    ensures Joined(Contents(h, s)) == h.mapping.bytes[s[0]..s[0] + h.CommandSize(s[0])] + Joined(Contents(h, s[1..]))
    ensures s[1..] == [] ==> Joined(Contents(h, s)) == h.mapping.bytes[s[0]..s[0] + h.CommandSize(s[0])]
  {
    hide *;
    ContentsStep(h, s);
    JoinedStep(h.mapping.bytes[s[0]..s[0] + h.CommandSize(s[0])], Contents(h, s[1..]));
    if s[1..] == [] {
      NoContents(h);
    }
  }

  lemma ContentsStep(h: Header, s: seq<nat>)
    requires h.Valid() && (forall i :: 0 <= i < |s| ==> h.Accepts(s[i])) && s != []
    ensures h.Accepts(s[0]) && s[0] + h.CommandSize(s[0]) <= |h.mapping.bytes|
    ensures Contents(h, s) == [h.mapping.bytes[s[0]..s[0] + h.CommandSize(s[0])]] + Contents(h, s[1..])
  {
    hide Read32;
  }

  lemma JoinedStep(first: seq<u8>, rest: seq<seq<u8>>)
    ensures Joined([first] + rest) == first + Joined(rest)
    ensures rest == [] ==> Joined([first] + rest) == first
  {
    assert ([first] + rest)[1..] == rest;
  }

  lemma SlicesMeet(s: seq<u8>, a: nat, b: nat, c: nat)
    requires a <= b <= c <= |s|
    ensures s[a..b] + s[b..c] == s[a..c]
  {
  }

  /** Where the area that 'sizeofcmds' announces ends. */
  function AreaEnd(h: Header): nat
    requires h.Valid()
  {
    h.size + h.Sizeofcmds()
  }

  /** Only the last command may reach past the announced area; all earlier ones end inside it. */
  lemma OnlyTheLastCommandMayOverrun(h: Header, i: nat)
    requires h.Valid() && i < |h.Commands()|
    ensures h.Commands()[i] < AreaEnd(h)
    ensures i < |h.Commands()| - 1 ==> h.Commands()[i] + h.CommandSize(h.Commands()[i]) < AreaEnd(h)
  {
    hide Read32;
    if i < |h.Commands()| - 1 {
      CommandsAreDisjoint(h, i, i + 1);
    }
  }

  /** The sum of the sizes of the listed commands. */
  function SizesSum(h: Header, s: seq<nat>): nat
    requires h.Valid() && forall i :: 0 <= i < |s| ==> h.Accepts(s[i])
  {
    if s == [] then 0 else assert h.Accepts(s[0]); h.CommandSize(s[0]) + SizesSum(h, s[1..])
  }

  /** The last command ends where the sizes of all of them lead. */
  lemma {:induction false} SizesLeadToTheEnd(h: Header, pos: nat)
    requires h.Valid() && h.CommandsFrom(pos) != []
    ensures var s := h.CommandsFrom(pos);
            && s[|s| - 1] + LC_MIN <= |h.mapping.bytes|
            && s[|s| - 1] + h.CommandSize(s[|s| - 1]) == pos + SizesSum(h, s)
    decreases |h.mapping.bytes| - pos
  {
    hide *;
    var s := h.CommandsFrom(pos);
    HeadCommand(h, pos);
    SizesSumUnfolds(h, s);
    if s[1..] != [] {
      SizesLeadToTheEnd(h, pos + h.CommandSize(pos));
    }
  }

  lemma SizesSumUnfolds(h: Header, s: seq<nat>)
    requires h.Valid() && (forall i :: 0 <= i < |s| ==> h.Accepts(s[i])) && s != [] && h.Accepts(s[0])
    ensures SizesSum(h, s) == h.CommandSize(s[0]) + SizesSum(h, s[1..])
    ensures s[1..] == [] ==> SizesSum(h, s) == h.CommandSize(s[0])
  {
    hide Header.Accepts, Read32;
  }

  /** All commands end inside the announced area iff their sizes add up to no more than 'sizeofcmds'. */
  lemma NoCommandOverrunsIff(h: Header)
    requires h.Valid()
    ensures (forall i :: 0 <= i < |h.Commands()| ==> h.Commands()[i] + h.CommandSize(h.Commands()[i]) <= AreaEnd(h))
            <==> SizesSum(h, h.Commands()) <= h.Sizeofcmds()
  {
    hide Read32, Header.Accepts, SizesSum;
    var s := h.Commands();
    if s == [] {
      NoSizes(h);
    } else {
      SizesLeadToTheEnd(h, h.size);
      forall i | 0 <= i < |s| - 1 ensures s[i] + h.CommandSize(s[i]) <= AreaEnd(h) {
        OnlyTheLastCommandMayOverrun(h, i);
      }
    }
  }

  lemma NoSizes(h: Header)
    requires h.Valid()
    ensures SizesSum(h, []) == 0
  {
  }

  // ---------------------------------------------------------------------------
  //  Selection by type
  // ---------------------------------------------------------------------------

  /** Iterating from `previous` goes on with the first of the remaining commands. */
  lemma NextIsFirstRemaining(h: Header, previous: Option<u64>)
    requires h.Valid()
    ensures var rest := h.Remaining(previous);
            h.NextCommand(previous) == if rest == [] then None else Some(h.PointerTo(rest[0]))
  {
    hide Read32;
    hide Header.NextCommand;
    NextCommandIs(h, previous);
  }

  lemma RemainingBehind(h: Header, p: u64)
    requires h.Valid() && h.mapping.host <= p && p - h.mapping.host + LC_MIN <= |h.mapping.bytes|
    ensures h.Remaining(Some(p)) == h.CommandsFrom(p - h.mapping.host + h.CommandSize(p - h.mapping.host))
  {
    hide Read32, Header.CommandsFrom, Header.Accepts;
  }

  lemma AcceptedIsInside(h: Header, pos: nat)
    requires h.Valid() && h.Accepts(pos)
    ensures pos <= pos + LC_MIN <= |h.mapping.bytes|
  {
    hide Read32;
  }

  lemma RemainingAt(h: Header, pos: nat)
    requires h.Valid() && h.Accepts(pos)
    ensures pos + LC_MIN <= |h.mapping.bytes|
    ensures h.Remaining(Some(h.PointerTo(pos))) == h.CommandsFrom(pos + h.CommandSize(pos))
  {
    hide *;
    AcceptedIsInside(h, pos);
    PointerIsAt(h, pos);
    RemainingBehind(h, h.PointerTo(pos));
  }

  lemma StallsAtTheEnd(h: Header, s: seq<nat>)
    requires s != []
    ensures |s| > 1 ==> (h.Stalls(s[1..]) <==> h.Stalls(s))
    ensures |s| == 1 && s[0] + LC_MIN <= |h.mapping.bytes| && h.CommandSize(s[0]) == 0 ==> h.Stalls(s)
  {
    hide Read32;
  }

  lemma TailAt<T>(s: seq<T>, k: nat)
    requires 0 < k < |s|
    ensures s[1..][k - 1] == s[k] && s[1..][k - 1 + 1..] == s[k + 1..]
  {
  }

  /** After the k-th remaining command the later ones remain, unless it has size 0. */
  lemma {:induction false} RemainingAfter(h: Header, pos: nat, k: nat)
    requires h.Valid() && k < |h.CommandsFrom(pos)|
    ensures var s := h.CommandsFrom(pos);
            (k < |s| - 1 || !h.Stalls(s)) ==> h.Remaining(Some(h.PointerTo(s[k]))) == s[k + 1..]
    decreases k
  {
    hide *;
    var s := h.CommandsFrom(pos);
    HeadCommand(h, pos);
    StallsAtTheEnd(h, s);
    if k == 0 {
      RemainingAt(h, pos);
    } else {
      TailAt(s, k);
      RemainingAfter(h, pos + h.CommandSize(pos), k - 1);
    }
  }

  /** The positions in `s` whose command has the given type, in order. */
  function OfType(h: Header, s: seq<nat>, kind: u32): (r: seq<nat>)
    ensures forall i :: 0 <= i < |r| ==> r[i] in s && h.IsKind(r[i], kind)
  {
    if s == [] then []
    else if h.IsKind(s[0], kind) then [s[0]] + OfType(h, s[1..], kind)
    else OfType(h, s[1..], kind)
  }

  /** The index of the first command of the given type, or |s|. */
  function MatchIndex(h: Header, s: seq<nat>, kind: u32): (k: nat)
    ensures k <= |s|
    ensures forall i :: 0 <= i < k ==> !h.IsKind(s[i], kind)
    ensures k < |s| ==> h.IsKind(s[k], kind)
  {
    if s == [] || h.IsKind(s[0], kind) then 0 else 1 + MatchIndex(h, s[1..], kind)
  }

  /** The first match heads the matches, and the others come after it. */
  lemma {:induction false} OfTypeSplitsAtMatch(h: Header, s: seq<nat>, kind: u32)
    ensures var k := MatchIndex(h, s, kind);
            OfType(h, s, kind) == if k == |s| then [] else [s[k]] + OfType(h, s[k + 1..], kind)
    decreases |s|
  {
    hide Header.IsKind;
    if s != [] {
      OfTypeSplitsAtMatch(h, s[1..], kind);
      var k := MatchIndex(h, s, kind);
      if 0 < k < |s| {
        assert s[1..][k - 1 + 1..] == s[k + 1..];
      }
    }
  }

  ghost predicate Increasing(s: seq<nat>) {
    forall i :: 0 < i < |s| ==> s[i - 1] < s[i]
  }

  lemma CommandsIncrease(h: Header)
    requires h.Valid()
    ensures Increasing(h.Commands())
  {
    hide Read32;
    hide Header.Accepts;
    var s := h.Commands();
    forall i | 0 < i < |s| ensures s[i - 1] < s[i] {
      CommandsAreConsecutive(h, h.size, i - 1);
    }
  }

  lemma {:induction false} OfTypeIncreases(h: Header, s: seq<nat>, kind: u32)
    requires Increasing(s)
    ensures var r := OfType(h, s, kind);
            Increasing(r) && (r != [] ==> s != [] && s[0] <= r[0])
    decreases |s|
  {
    hide Header.IsKind;
    if s != [] {
      var t := OfType(h, s[1..], kind);
      OfTypeIncreases(h, s[1..], kind);
      assert |s| > 1 ==> s[0] < s[1];
      assert OfType(h, s, kind) == if h.IsKind(s[0], kind) then [s[0]] + t else t;
    }
  }

  lemma {:induction false} IncreasingOverall(r: seq<nat>, j: nat)
    requires Increasing(r)
    requires 0 < j < |r|
    ensures r[0] < r[j]
  {
    if j > 1 {
      IncreasingOverall(r, j - 1);
    }
  }
}
