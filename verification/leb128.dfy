/**
 libMachO/MachO_ABI/MachTypes/_mach_trie.c: unsigned LEB128 (section 7.6 of DWARF Version 4).

 A number is written in groups of seven bits, least significant first; every byte but
 the last has its high bit set.
 */
module Leb128 {
  import opened Core
  import opened Machine
  import opened Memory

  /** What a successful decode stores in `*output` and `*output_len`. */
  datatype Uleb = Uleb(value: u64, size: nat)

  function Pow2(n: nat): (p: nat)
    ensures p >= 1
  {
    if n == 0 then 1 else 2 * Pow2(n - 1)
  }

  /** The weight of the group at index `i`. */
  function Weight(i: nat): (p: nat)
    ensures p >= 1
  {
    if i == 0 then 1 else 0x80 * Weight(i - 1)
  }

  /** The unbounded number a run of groups denotes. */
  function GroupsValue(s: seq<u8>): nat {
    if s == [] then 0 else s[0] % 0x80 + 0x80 * GroupsValue(s[1..])
  }

  /** The index of the first byte without the continuation bit, or |s|. */
  function LastGroup(s: seq<u8>): (k: nat)
    ensures k <= |s|
    ensures forall i :: 0 <= i < k ==> s[i] >= 0x80
    ensures k < |s| ==> s[k] < 0x80
  {
    if s == [] || s[0] < 0x80 then 0 else 1 + LastGroup(s[1..])
  }

  /**
   The decoder's result on the bytes from the read position to the end of the buffer.
   At most ten groups are accepted; bits past the 64th of the tenth group are lost.
   */
  function Decode(s: seq<u8>): (r: Result<Uleb>)
    ensures r.Ok? ==> 1 <= r.value.size <= |s| && r.value.size <= 10
    ensures r.Err? ==> r.error == (if |s| > 10 then ESize else EOutOfRange)
    ensures r.Ok? <==> LastGroup(s) < |s| && LastGroup(s) < 10
  {
    var k := LastGroup(s);
    if k < |s| && k < 10 then Ok(Uleb(Wrap64(GroupsValue(s[..k + 1])), k + 1))
    else Err(if |s| > 10 then ESize else EOutOfRange)
  }

  /** `v` in exactly `width` groups; surplus groups are zero padding. */
  function Encode(v: nat, width: nat): (s: seq<u8>)
    requires 1 <= width
    requires v < Weight(width)
    ensures |s| == width
  {
    if width == 1 then [v]
    else [0x80 + v % 0x80] + Encode(v / 0x80, width - 1)
  }

  /** The number of groups the shortest encoding of `v` needs. */
  function Width(v: nat): (w: nat)
    ensures w >= 1 && v < Weight(w)
  {
    if v < 0x80 then 1 else 1 + Width(v / 0x80)
  }

  // ---------------------------------------------------------------------------
  //  The decoder
  // ---------------------------------------------------------------------------

  /** `slice << bit` in 64 bits. */
  function ShiftedLeft(slice: u8, bit: nat): u64 {
    Wrap64(slice * Pow2(bit))
  }

  /** The 64-bit accumulator after `n` groups. */
  ghost function Accumulated(s: seq<u8>, n: nat): u64
    requires n <= |s|
  {
    Wrap64(GroupsValue(s[..n]))
  }

  /** _mk_mach_trie_copy_uleb128 over host pointers `p` and `end` of one mapping. */
  method CopyUleb128(m: MemoryObject, p: u64, end: u64, prior: u64, priorLen: nat)
    returns (err: Error, output: u64, outputLen: nat)
    requires m.Valid() && m.host <= p <= end <= m.host + |m.bytes|
    ensures match Decode(m.bytes[p - m.host..end - m.host])
            case Ok(u) => err == ESuccess && output == u.value && outputLen == u.size
            case Err(e) => err == e && output == prior && outputLen == priorLen
  {
    hide ShiftedLeft, GroupsValue, LastGroup, Weight;
    ghost var s := m.bytes[p - m.host..end - m.host];
    NothingAccumulated(s);
    output, outputLen := prior, priorLen;
    var result: u64, i, bit := 0, 0, 0;
    var more := true;
    while more
      invariant 0 <= i <= |s| && i <= 10 && bit == 7 * i
      invariant more ==> forall k :: 0 <= k < i ==> s[k] >= 0x80
      invariant !more ==> 0 < i == LastGroup(s) + 1
      invariant result == Accumulated(s, i)
      decreases |s| - i, more
    {
      if p + i >= end {
        return EOutOfRange, output, outputLen;
      }
      var byte := m.Read(p + i);
      assert byte == s[i];
      var slice := byte % 0x80;
      if bit > 63 {
        return ESize, output, outputLen;
      }
      AddGroup(s, i);
      // The result is below 1 << bit, so the C code's bitwise or is a sum (OrOfDisjoint).
      result := result + ShiftedLeft(slice, bit);
      bit := bit + 7;
      more := byte >= 0x80;
      LastGroupIs(s, i);
      i := i + 1;
    }
    return ESuccess, result, i;
  }

  lemma NothingAccumulated(s: seq<u8>)
    ensures Accumulated(s, 0) == 0
  {
  }

  // ---------------------------------------------------------------------------
  //  Arithmetic of groups
  // ---------------------------------------------------------------------------

  /** Or-ing a shifted group into a smaller accumulator is addition. */
  lemma OrOfDisjoint(acc: bv64, slice: bv64, bit: bv64)
    requires bit <= 63 && slice <= 0x7F && acc < (1 << bit)
    ensures acc | (slice << bit) == acc + (slice << bit)
  {
    assert acc & (slice << bit) == 0;
  }

  /** A shift by seven bits a group multiplies by the group's weight. */
  lemma {:induction false} ShiftIsWeight(i: nat)
    ensures Pow2(7 * i) == Weight(i)
  {
    if i > 0 {
      ShiftIsWeight(i - 1);
      var n := 7 * i - 7;
      assert Pow2(n + 4) == 2 * Pow2(n + 3) == 4 * Pow2(n + 2) == 8 * Pow2(n + 1) == 16 * Pow2(n);
      assert Pow2(n + 7) == 2 * Pow2(n + 6) == 4 * Pow2(n + 5) == 8 * Pow2(n + 4);
    }
  }

  lemma WeightTable()
    ensures Weight(8) == 0x100_0000_0000_0000 && Weight(9) == TWO63
  {
    assert Weight(3) == 0x20_0000;
    assert Weight(6) == 0x400_0000_0000;
  }

  lemma {:induction false} WeightMonotone(i: nat, j: nat)
    requires i <= j
    ensures Weight(i) <= Weight(j)
    decreases j
  {
    if i < j {
      WeightMonotone(i, j - 1);
    }
  }

  lemma {:induction false} GroupsBound(s: seq<u8>)
    ensures GroupsValue(s) < Weight(|s|)
  {
    if s != [] {
      GroupsBound(s[1..]);
    }
  }

  /** One more group adds its seven bits above the others. */
  lemma {:induction false} GroupsAppend(s: seq<u8>, n: nat)
    requires n < |s|
    ensures GroupsValue(s[..n + 1]) == GroupsValue(s[..n]) + s[n] % 0x80 * Weight(n)
    decreases n
  {
    hide GroupsValue, Weight;
    GroupsUnfold(s[..n + 1]);
    assert s[..n + 1][1..] == s[1..][..n];
    if n > 0 {
      GroupsUnfold(s[..n]);
      assert s[..n][1..] == s[1..][..n - 1];
      GroupsAppend(s[1..], n - 1);
      WeightUnfolds(n);
      var d, p := s[n] % 0x80, Weight(n - 1);
      assert 0x80 * (d * p) == d * (0x80 * p);
    } else {
      NoGroups(s[..0], s[1..][..0]);
    }
  }

  lemma NoGroups(s: seq<u8>, t: seq<u8>)
    requires s == t == []
    ensures GroupsValue(s) == GroupsValue(t) == 0 && Weight(0) == 1
  {
  }

  lemma GroupsUnfold(s: seq<u8>)
    requires s != []
    ensures GroupsValue(s) == s[0] % 0x80 + 0x80 * GroupsValue(s[1..])
  {
  }

  /** A byte without the continuation bit is a number of its own. */
  lemma SingleGroup(s: seq<u8>)
    requires s != [] && s[0] < 0x80
    ensures LastGroup(s) == 0 && Decode(s) == Ok(Uleb(s[0], 1))
  {
    hide LastGroup, GroupsValue;
    OneGroupIs(s[..1]);
    LastGroupIs(s, 0);
  }

  lemma OneGroupIs(s: seq<u8>)
    requires |s| == 1
    ensures GroupsValue(s) == s[0] % 0x80
  {
    assert s[1..] == [];
  }

  lemma WeightUnfolds(n: nat)
    ensures Weight(0) == 1
    ensures n > 0 ==> Weight(n) == 0x80 * Weight(n - 1)
  {
  }

  /** Ten groups are accumulated without the wrapped sum ever differing from the exact sum modulo 2^64. */
  lemma AccumulatorFits(acc: nat, slice: u8, n: nat)
    requires n <= 9 && slice < 0x80 && acc < Weight(n)
    ensures Wrap64(acc) == acc
    ensures acc + ShiftedLeft(slice, 7 * n) == Wrap64(acc + slice * Weight(n))
  {
    ShiftIsWeight(n);
    WeightTable();
    if n < 9 {
      WeightMonotone(n, 8);
      LowerGroup(acc, slice, Weight(n));
    } else {
      TopGroup(acc, slice);
    }
  }

  lemma AddGroup(s: seq<u8>, n: nat)
    requires n < |s| && n <= 9
    ensures Accumulated(s, n) + ShiftedLeft(s[n] % 0x80, 7 * n) == Accumulated(s, n + 1)
  {
    GroupsAppend(s, n);
    GroupsBound(s[..n]);
    AccumulatorFits(GroupsValue(s[..n]), s[n] % 0x80, n);
  }

  lemma {:induction false} LastGroupIs(s: seq<u8>, k: nat)
    requires k < |s| && forall i :: 0 <= i < k ==> s[i] >= 0x80
    ensures s[k] < 0x80 <==> LastGroup(s) == k
  {
    if k > 0 {
      LastGroupIs(s[1..], k - 1);
    }
  }

  /** The first nine groups lose nothing. */
  lemma LowerGroup(acc: nat, slice: u8, p: nat)
    requires slice < 0x80 && acc < p <= 0x100_0000_0000_0000
    ensures 0 <= slice * p && Wrap64(slice * p) == slice * p
    ensures Wrap64(acc + slice * p) == acc + slice * p && Wrap64(acc) == acc
  {
    var product := slice * p;
    assert 0 <= product <= 0x7F * p;
  }

  /** The tenth group keeps only its lowest bit. */
  lemma TopGroup(acc: u64, slice: u8)
    requires acc < 0x8000_0000_0000_0000
    ensures Wrap64(slice * 0x8000_0000_0000_0000) == (slice % 2) * 0x8000_0000_0000_0000
    ensures Wrap64(acc + slice * 0x8000_0000_0000_0000) == acc + (slice % 2) * 0x8000_0000_0000_0000
  {
    assert slice == slice / 2 * 2 + slice % 2;
  }

  // ---------------------------------------------------------------------------
  //  Round trip and precision
  // ---------------------------------------------------------------------------

  lemma {:induction false} EncodeGroups(v: nat, width: nat)
    requires 1 <= width && v < Weight(width)
    ensures GroupsValue(Encode(v, width)) == v
    decreases width
  {
    var s := Encode(v, width);
    if width == 1 {
      assert s[1..] == [];
    } else {
      EncodeGroups(v / 0x80, width - 1);
      assert s[1..] == Encode(v / 0x80, width - 1);
    }
  }

  lemma {:induction false} EncodeLast(v: nat, width: nat, rest: seq<u8>)
    requires 1 <= width && v < Weight(width)
    ensures LastGroup(Encode(v, width) + rest) == width - 1
    decreases width
  {
    var s := Encode(v, width) + rest;
    if width > 1 {
      EncodeLast(v / 0x80, width - 1, rest);
      assert s[1..] == Encode(v / 0x80, width - 1) + rest;
    }
  }

  /** Every encoding of a 64-bit number in up to ten groups, padded or not, decodes to it and consumes just itself. */
  lemma DecodeEncode(v: u64, width: nat, rest: seq<u8>)
    requires 1 <= width <= 10 && v < Weight(width)
    ensures Decode(Encode(v, width) + rest) == Ok(Uleb(v, width))
  {
    hide GroupsValue, LastGroup, Weight, Encode;
    EncodeGroups(v, width);
    EncodeLast(v, width, rest);
    assert (Encode(v, width) + rest)[..width] == Encode(v, width);
  }

  lemma WidthOfU64(v: u64)
    ensures Width(v) <= 10
    ensures v < 0x100_0000_0000_0000 ==> Width(v) <= 8
  {
    WeightTable();
    WidthIsLeast(v, 10);
    WidthIsLeast(v, 8);
  }

  lemma {:induction false} WidthIsLeast(v: nat, w: nat)
    requires 1 <= w
    ensures v < Weight(w) ==> Width(v) <= w
    decreases w
  {
    if w > 1 {
      WidthIsLeast(v / 0x80, w - 1);
    } else {
      assert Weight(1) == 0x80;
    }
  }

  /** A number is its lower groups and, above them, the number of the rest. */
  lemma {:induction false} GroupsSplit(s: seq<u8>, k: nat)
    requires k <= |s|
    ensures GroupsValue(s) == GroupsValue(s[..k]) + Weight(k) * GroupsValue(s[k..])
    decreases k
  {
    hide *;
    WeightUnfolds(k);
    if k == 0 {
      NoGroups(s[..0], []);
      assert s[0..] == s;
    } else {
      GroupsSplit(s[1..], k - 1);
      TailParts(s, k);
      GroupsUnfold(s);
      GroupsUnfold(s[..k]);
      Regroup(s[0] % 0x80, GroupsValue(s[1..][..k - 1]), Weight(k - 1), GroupsValue(s[k..]));
    }
  }

  lemma TailParts(s: seq<u8>, k: nat)
    requires 0 < k <= |s|
    ensures s[..k][1..] == s[1..][..k - 1] && s[k..] == s[1..][k - 1..] && s[..k][0] == s[0]
  {
  }

  lemma Regroup(first: nat, l: nat, weight: nat, u: nat)
    ensures first + 0x80 * (l + weight * u) == first + 0x80 * l + 0x80 * weight * u
  {
  }

  /** The k-th group is the k-th digit to the base 128: the least significant group comes first. */
  lemma GroupIsDigit(s: seq<u8>, k: nat)
    requires k < |s|
    ensures Weight(0) == 1 && Weight(k + 1) == 0x80 * Weight(k)
    ensures GroupsValue(s) / Weight(k) % 0x80 == s[k] % 0x80
  {
    hide GroupsValue, Weight;
    WeightUnfolds(k + 1);
    GroupsSplit(s, k);
    GroupsBound(s[..k]);
    QuotientIs(Weight(k), GroupsValue(s[k..]), GroupsValue(s[..k]));
    GroupsUnfold(s[k..]);
    QuotientIs(0x80, GroupsValue(s[k..][1..]), s[k] % 0x80);
  }

  /** The examples of section 7.6 of DWARF Version 4. */
  lemma DwarfExamples()
    ensures Decode([2]) == Ok(Uleb(2, 1)) && Decode([0x7F]) == Ok(Uleb(127, 1))
    ensures Decode([0x80, 1]) == Ok(Uleb(128, 2)) && Decode([0x81, 1]) == Ok(Uleb(129, 2))
    ensures Decode([0x82, 1]) == Ok(Uleb(130, 2)) && Decode([0x80 + 57, 100]) == Ok(Uleb(12857, 2))
  {
    SingleGroup([2]);
    SingleGroup([0x7F]);
    TwoGroups(0x80, 1);
    TwoGroups(0x81, 1);
    TwoGroups(0x82, 1);
    TwoGroups(0x80 + 57, 100);
    hide Decode;
  }

  lemma TwoGroups(a: u8, b: u8)
    requires a >= 0x80 > b
    ensures Decode([a, b]) == Ok(Uleb((a as int - 0x80) + 0x80 * b as int, 2))
  {
    hide GroupsValue, LastGroup;
    LastGroupIs([a, b], 1);
    assert [a, b][..2] == [a, b] && [a, b][1..] == [b];
    GroupsUnfold([a, b]);
    OneGroupIs([b]);
  }

  /** A decoded value is exact unless the encoding has a tenth group with more than one significant bit. */
  lemma DecodeIsExactUnlessTenthGroupSpills(s: seq<u8>)
    requires Decode(s).Ok?
    ensures var u := Decode(s).value;
            u.value == GroupsValue(s[..u.size]) <==> u.size < 10 || s[9] <= 1
  {
    hide GroupsValue, LastGroup, Weight;
    var n := Decode(s).value.size - 1;
    GroupsAppend(s, n);
    GroupsBound(s[..n]);
    WeightTable();
    if n < 9 {
      WeightMonotone(n, 8);
      LowerGroup(GroupsValue(s[..n]), s[n], Weight(n));
    } else {
      TopGroup(GroupsValue(s[..n]), s[n]);
    }
  }

  /** The decode depends only on the groups it consumes. */
  lemma DecodeLocal(s: seq<u8>, t: seq<u8>)
    requires Decode(s).Ok?
    requires |t| >= Decode(s).value.size && t[..Decode(s).value.size] == s[..Decode(s).value.size]
    ensures Decode(t) == Decode(s)
  {
    var k := LastGroup(s);
    assert t[k] == t[..k + 1][k] == s[k];
    assert forall i :: 0 <= i < k ==> t[i] == t[..k + 1][i] == s[i];
  }
}
