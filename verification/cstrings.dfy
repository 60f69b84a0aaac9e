/**
 NUL-terminated strings inside a byte sequence.
 */
module CStrings {
  import opened Machine

  /** The index of the first NUL at or after `pos`, or |bytes|. */
  function NulIndex(bytes: seq<u8>, pos: nat): (n: nat)
    requires pos <= |bytes|
    ensures pos <= n <= |bytes|
    ensures forall i :: pos <= i < n ==> bytes[i] != 0
    ensures n < |bytes| ==> bytes[n] == 0
    decreases |bytes| - pos
  {
    if pos == |bytes| || bytes[pos] == 0 then pos else NulIndex(bytes, pos + 1)
  }

  /** The first NUL is where it is. */
  lemma {:induction false} NulIndexIs(bytes: seq<u8>, pos: nat, n: nat)
    requires pos <= n <= |bytes| && (n < |bytes| ==> bytes[n] == 0)
    requires forall i :: pos <= i < n ==> bytes[i] != 0
    ensures NulIndex(bytes, pos) == n
    decreases n - pos
  {
    if pos < n {
      NulIndexIs(bytes, pos + 1, n);
    }
  }

  ghost predicate NulFree(s: seq<u8>) {
    forall i :: 0 <= i < |s| ==> s[i] != 0
  }

  // ---------------------------------------------------------------------------
  //  Splitting at NULs and joining again
  // ---------------------------------------------------------------------------

  /** Where the strings of a table start, from `pos` on. */
  function Offsets(bytes: seq<u8>, pos: nat): (s: seq<nat>)
    ensures forall i :: 0 <= i < |s| ==> pos <= s[i] < |bytes|
    ensures pos < |bytes| ==> s != [] && s[0] == pos
    decreases |bytes| - pos
  {
    if pos >= |bytes| then [] else [pos] + Offsets(bytes, NulIndex(bytes, pos) + 1)
  }

  /** What follows the first string and its NUL. */
  function AfterFirst(bytes: seq<u8>): (rest: seq<u8>)
    ensures bytes != [] ==> |rest| < |bytes|
  {
    var n := NulIndex(bytes, 0);
    if n < |bytes| then bytes[n + 1..] else []
  }

  /** The strings of a table, without their NULs. */
  function Split(bytes: seq<u8>): (parts: seq<seq<u8>>)
    decreases |bytes|
  {
    if bytes == [] then [] else [bytes[..NulIndex(bytes, 0)]] + Split(AfterFirst(bytes))
  }

  /** Strings, each followed by one NUL. */
  function Joined(parts: seq<seq<u8>>): seq<u8> {
    if parts == [] then [] else parts[0] + [0] + Joined(parts[1..])
  }

  /** The bytes end in a NUL, or are empty. */
  predicate Terminated(bytes: seq<u8>) {
    bytes == [] || bytes[|bytes| - 1] == 0
  }

  lemma CutAt(bytes: seq<u8>, n: nat)
    requires n < |bytes| && bytes[n] == 0
    ensures bytes == bytes[..n] + [0] + bytes[n + 1..]
    ensures Terminated(bytes[n + 1..]) <==> Terminated(bytes)
  {
    var rest := bytes[n + 1..];
    if rest != [] {
      assert rest[|rest| - 1] == bytes[|bytes| - 1];
    }
  }

  lemma FirstAndRest(bytes: seq<u8>)
    requires bytes != []
    ensures var n, rest := NulIndex(bytes, 0), AfterFirst(bytes);
            if n < |bytes| then bytes == bytes[..n] + [0] + rest && (Terminated(rest) <==> Terminated(bytes))
            else rest == [] && bytes[..n] == bytes && !Terminated(bytes)
  {
    var n := NulIndex(bytes, 0);
    if n < |bytes| {
      CutAt(bytes, n);
    }
  }

  /** Splitting and joining gives the bytes back; a missing final NUL is added. */
  lemma {:induction false} JoinedSplit(bytes: seq<u8>)
    ensures Joined(Split(bytes)) == bytes + (if Terminated(bytes) then [] else [0])
    decreases |bytes|
  {
    hide AfterFirst;
    if bytes != [] {
      var rest := AfterFirst(bytes);
      FirstAndRest(bytes);
      JoinedSplit(rest);
      assert Split(bytes)[1..] == Split(rest);
    }
  }

  /** Joining NUL-free strings and splitting again gives the strings back. */
  lemma {:induction false} SplitJoined(parts: seq<seq<u8>>)
    requires forall i :: 0 <= i < |parts| ==> NulFree(parts[i])
    ensures Split(Joined(parts)) == parts
    decreases |parts|
  {
    if parts != [] {
      var b, n := Joined(parts), |parts[0]|;
      assert NulFree(parts[0]);
      NulIndexIs(b, 0, n);
      assert b[n + 1..] == Joined(parts[1..]) && b[..n] == parts[0];
      SplitJoined(parts[1..]);
    }
  }

  /** Looking for a NUL from `pos` on is looking for it in the bytes from `pos` on. */
  lemma NulIndexShift(bytes: seq<u8>, pos: nat)
    requires pos <= |bytes|
    ensures NulIndex(bytes[pos..], 0) == NulIndex(bytes, pos) - pos
  {
    NulIndexIs(bytes[pos..], 0, NulIndex(bytes, pos) - pos);
  }

  /** The i-th string is stored at the i-th offset; offsets are one NUL apart until the table ends. */
  lemma {:induction false} SplitAtOffsets(bytes: seq<u8>, pos: nat, i: nat)
    requires pos <= |bytes|
    ensures |Split(bytes[pos..])| == |Offsets(bytes, pos)|
    ensures i < |Offsets(bytes, pos)| ==> Split(bytes[pos..])[i] == StringAt(bytes, Offsets(bytes, pos)[i])
    decreases |bytes| - pos
  {
    hide NulIndex, StringAt, Split;
    if pos < |bytes| {
      var n := NulIndex(bytes, pos);
      SplitStep(bytes, pos);
      assert Offsets(bytes, pos) == [pos] + Offsets(bytes, n + 1);
      if n < |bytes| {
        SplitAtOffsets(bytes, n + 1, if i == 0 then 0 else i - 1);
      }
    } else {
      SplitNothing(bytes[pos..]);
    }
  }

  lemma AfterFirstFrom(bytes: seq<u8>, pos: nat)
    requires pos < |bytes|
    ensures var n := NulIndex(bytes, pos);
            AfterFirst(bytes[pos..]) == (if n < |bytes| then bytes[n + 1..] else [])
    ensures bytes[pos..][..NulIndex(bytes[pos..], 0)] == StringAt(bytes, pos)
  {
    hide NulIndex;
    NulIndexShift(bytes, pos);
  }

  lemma SplitNothing(bytes: seq<u8>)
    requires bytes == []
    ensures Split(bytes) == []
  {
  }

  lemma SplitStep(bytes: seq<u8>, pos: nat)
    requires pos < |bytes|
    ensures var n := NulIndex(bytes, pos);
            Split(bytes[pos..]) == [StringAt(bytes, pos)] + (if n < |bytes| then Split(bytes[n + 1..]) else [])
  {
    hide NulIndex, AfterFirst, StringAt;
    AfterFirstFrom(bytes, pos);
    assert Split([]) == [];
    assert Split(bytes[pos..]) == [StringAt(bytes, pos)] + Split(AfterFirst(bytes[pos..]));
  }

  /** The string stored at an offset. */
  function StringAt(bytes: seq<u8>, offset: nat): seq<u8>
    requires offset < |bytes|
  {
    bytes[offset..NulIndex(bytes, offset)]
  }

  /** Consecutive offsets are one NUL apart; after the last one the table ends. */
  lemma {:induction false} OffsetsAreConsecutive(bytes: seq<u8>, pos: nat, i: nat)
    requires i < |Offsets(bytes, pos)|
    ensures var s := Offsets(bytes, pos);
            if i + 1 < |s| then s[i + 1] == NulIndex(bytes, s[i]) + 1 else NulIndex(bytes, s[i]) + 1 >= |bytes|
    decreases i
  {
    if i > 0 {
      OffsetsAreConsecutive(bytes, NulIndex(bytes, pos) + 1, i - 1);
    }
  }
}
