/**
 libMachO/Core/Memory/memory_object.c: a mapping of `bytes` that the target process sees
 at address `target` and this process sees at address `host`.

 A returned `Err` stands for the C sentinels UINTPTR_MAX and MK_VM_ADDRESS_INVALID.
 */
module Memory {
  import opened Core
  import opened Machine

  datatype MemoryObject = MemoryObject(target: u64, host: u64, bytes: seq<u8>) {

    /** What mk_memory_map_init_object establishes: neither interval wraps. */
    ghost predicate Valid() {
      target + |bytes| < TWO64 && host + |bytes| < TWO64
    }

    ghost predicate HoldsTarget(address: int, length: int) {
      target <= address && address + length <= target + |bytes|
    }

    ghost predicate HoldsHost(address: int, length: int) {
      host <= address && address + length <= host + |bytes|
    }

    /** The byte behind a host pointer; only pointers into the mapping may be dereferenced. */
    function Read(pointer: u64): u8
      requires host <= pointer < host + |bytes|
    {
      bytes[pointer - host]
    }

    function VerifyLocalPointer(offset: u64, address: u64, length: u64): (err: Error)
      requires Valid()
      ensures err == ESuccess <==> HoldsHost(address + offset, length)
      ensures err == EOverflow <==> address + offset + length >= TWO64
      ensures err == ESuccess || err == EOverflow || err == EOutOfRange
    {
      if U64_MAX - offset < address then EOverflow
      else if U64_MAX - length < address + offset then EOverflow
      else if address + offset < host then EOutOfRange
      else if host + |bytes| < address + offset + length then EOutOfRange
      else ESuccess
    }

    /** Translates a target address to a host pointer. */
    function RemapAddress(offset: u64, address: u64, length: u64): (r: Result<u64>)
      requires Valid()
      ensures r.Ok? <==> HoldsTarget(address + offset, length)
      ensures r.Ok? ==> HoldsHost(r.value, length) && r.value - host == address + offset - target
      ensures r.Ok? && length > 0 ==> r.value != U64_MAX  // never confused with the error sentinel
      ensures address + offset + length < TWO64 && r.Err? ==> r.error == EOutOfRange
      ensures address + offset + length >= TWO64 ==> r == Err(EOverflow)
      ensures r.Err? ==> r.error != ESuccess
    {
      if U64_MAX - offset < address then Err(EOverflow)
      else if U64_MAX - length < address + offset then Err(EOverflow)
      else if address + offset < target then Err(EOutOfRange)
      else if address + offset + length > target + |bytes| then Err(EOutOfRange)
      else Ok(host + (address + offset - target))
    }

    /** Translates a host pointer back to a target address. */
    function UnmapAddress(offset: u64, address: u64, length: u64): (r: Result<u64>)
      requires Valid()
      ensures r.Ok? <==> HoldsHost(address + offset, length)
      ensures r.Ok? ==> HoldsTarget(r.value, length) && r.value - target == address + offset - host
      ensures r.Err? ==> r.error == if address + offset + length >= TWO64 then EOverflow else EOutOfRange
    {
      // The source passes `offset` and `address` to the check in swapped order; it only adds them.
      var err := VerifyLocalPointer(address, offset, length);
      if err != ESuccess then Err(err)
      else Ok(target + (address + offset - host))
    }
  }

  /** Remapping and unmapping are inverse bijections between the two intervals. */
  lemma RemapUnmapInverse(m: MemoryObject, address: u64, pointer: u64, length: u64)
    requires m.Valid()
    ensures m.RemapAddress(0, address, length) == Ok(pointer) <==> m.UnmapAddress(0, pointer, length) == Ok(address)
  {
  }

  // ---------------------------------------------------------------------------
  //  Little-endian integers
  // ---------------------------------------------------------------------------

  /** The unsigned integer stored in the `width` bytes at `pos`, least significant byte first. */
  function LittleEndian(bytes: seq<u8>, pos: nat, width: nat): (v: nat)
    requires pos + width <= |bytes|
    decreases width
  {
    if width == 0 then 0 else bytes[pos] + 0x100 * LittleEndian(bytes, pos + 1, width - 1)
  }

  function Read32(bytes: seq<u8>, pos: nat): (v: u32)
    requires pos + 4 <= |bytes|
  {
    LittleEndian(bytes, pos, 4)
  }

  function Read64(bytes: seq<u8>, pos: nat): (v: u64)
    requires pos + 8 <= |bytes|
  {
    LittleEndianBound(bytes, pos, 8);
    LittleEndian(bytes, pos, 8)
  }

  function Base256(width: nat): nat {
    if width == 0 then 1 else 0x100 * Base256(width - 1)
  }

  lemma LittleEndianBound(bytes: seq<u8>, pos: nat, width: nat)
    requires pos + width <= |bytes|
    ensures LittleEndian(bytes, pos, width) < Base256(width)
    ensures width == 8 ==> Base256(width) == TWO64
    decreases width
  {
    if width > 0 {
      LittleEndianBound(bytes, pos + 1, width - 1);
      if width == 8 {
        assert Base256(6) == 0x1_0000_0000_0000;
      }
    }
  }

  /** A number as `width` bytes, least significant byte first. */
  function Written(v: nat, width: nat): (bytes: seq<u8>)
    requires v < Base256(width)
    ensures |bytes| == width && LittleEndian(bytes, 0, width) == v
    decreases width
  {
    if width == 0 then []
    else
      var rest := Written(v / 0x100, width - 1);
      var bytes := [v % 0x100] + rest;
      assert bytes[1..width] == rest[0..width - 1];
      LittleEndianAgrees(bytes, 1, rest, 0, width - 1);
      bytes
  }

  function Write32(v: u32): (bytes: seq<u8>)
    ensures |bytes| == 4 && Read32(bytes, 0) == v
  {
    assert Base256(4) == 0x100 * Base256(3) == TWO32;
    Written(v, 4)
  }

  function Write64(v: u64): (bytes: seq<u8>)
    ensures |bytes| == 8 && Read64(bytes, 0) == v
  {
    assert Base256(6) == 0x1_0000_0000_0000;
    assert Base256(8) == 0x100 * Base256(7) == TWO64;
    Written(v, 8)
  }

  // ---------------------------------------------------------------------------
  //  The order of the bytes
  // ---------------------------------------------------------------------------

  /** A word is its lower bytes and, above them, the word of the rest. */
  lemma {:induction false} WordSplits(bytes: seq<u8>, pos: nat, lower: nat, upper: nat)
    requires pos + lower + upper <= |bytes|
    ensures LittleEndian(bytes, pos, lower + upper)
         == LittleEndian(bytes, pos, lower) + Base256(lower) * LittleEndian(bytes, pos + lower, upper)
    decreases lower
  {
    hide *;
    Base256Unfolds(lower);
    LittleEndianUnfolds(bytes, pos, lower);
    if lower == 0 {
      assert Base256(0) * LittleEndian(bytes, pos, upper) == LittleEndian(bytes, pos, upper);
    } else {
      WordSplits(bytes, pos + 1, lower - 1, upper);
      LittleEndianUnfolds(bytes, pos, lower + upper);
      Regroup(bytes[pos], LittleEndian(bytes, pos + 1, lower - 1), Base256(lower - 1),
              LittleEndian(bytes, pos + lower, upper));
    }
  }

  lemma Regroup(first: nat, l: nat, power: nat, u: nat)
    ensures first + 0x100 * (l + power * u) == first + 0x100 * l + 0x100 * power * u
  {
  }

  lemma Base256Unfolds(k: nat)
    ensures Base256(0) == 1
    ensures k > 0 ==> Base256(k) == 0x100 * Base256(k - 1)
  {
  }

  lemma {:induction false} Base256IsPositive(k: nat)
    ensures Base256(k) > 0
  {
    if k > 0 {
      Base256IsPositive(k - 1);
    }
  }

  /** The k-th byte of a word is its k-th digit to the base 256: the least significant byte comes first. */
  lemma DigitOfWord(bytes: seq<u8>, pos: nat, width: nat, k: nat)
    requires pos + width <= |bytes| && k < width
    ensures Base256(k) > 0 && LittleEndian(bytes, pos, width) / Base256(k) % 0x100 == bytes[pos + k]
  {
    hide LittleEndian, Base256;
    var upper := LittleEndian(bytes, pos + k, width - k);
    Base256IsPositive(k);
    WordSplits(bytes, pos, k, width - k);
    LittleEndianBound(bytes, pos, k);
    QuotientIs(Base256(k), upper, LittleEndian(bytes, pos, k));
    LittleEndianUnfolds(bytes, pos + k, width - k);
    QuotientIs(0x100, LittleEndian(bytes, pos + k + 1, width - k - 1), bytes[pos + k]);
  }

  lemma LittleEndianUnfolds(bytes: seq<u8>, pos: nat, width: nat)
    requires pos + width <= |bytes|
    ensures width == 0 ==> LittleEndian(bytes, pos, width) == 0
    ensures width > 0 ==>
              LittleEndian(bytes, pos, width) == bytes[pos] + 0x100 * LittleEndian(bytes, pos + 1, width - 1)
  {
  }

  /** A 32-bit word, written out. */
  lemma Read32Is(b: seq<u8>, pos: nat)
    requires pos + 4 <= |b|
    ensures Read32(b, pos)
         == b[pos] as int + 0x100 * b[pos + 1] as int + 0x1_0000 * b[pos + 2] as int + 0x100_0000 * b[pos + 3] as int
  {
    hide LittleEndian;
    LittleEndianUnfolds(b, pos, 4);
    LittleEndianUnfolds(b, pos + 1, 3);
    LittleEndianUnfolds(b, pos + 2, 2);
    LittleEndianUnfolds(b, pos + 3, 1);
    LittleEndianUnfolds(b, pos + 4, 0);
  }

  /** A 64-bit word is two 32-bit words, the less significant one first. */
  lemma Read64Is(b: seq<u8>, pos: nat)
    requires pos + 8 <= |b|
    ensures Read64(b, pos) == Read32(b, pos) + 0x1_0000_0000 * Read32(b, pos + 4)
  {
    hide LittleEndian;
    LittleEndianUnfolds(b, pos, 8);
    LittleEndianUnfolds(b, pos + 1, 7);
    LittleEndianUnfolds(b, pos + 2, 6);
    LittleEndianUnfolds(b, pos + 3, 5);
    LittleEndianUnfolds(b, pos, 4);
    LittleEndianUnfolds(b, pos + 1, 3);
    LittleEndianUnfolds(b, pos + 2, 2);
    LittleEndianUnfolds(b, pos + 3, 1);
    LittleEndianUnfolds(b, pos + 4, 0);
  }

  lemma SliceOfSlice<T>(s: seq<T>, lo: nat, t: seq<T>, a: nat, b: nat)
    requires lo + |t| <= |s| && s[lo..lo + |t|] == t && a <= b <= |t|
    ensures s[lo + a..lo + b] == t[a..b]
  {
    forall i | 0 <= i < b - a ensures s[lo + a..lo + b][i] == t[a..b][i] {
      assert s[lo + (a + i)] == s[lo..lo + |t|][a + i];
    }
  }

  /** A word read depends only on its own bytes. */
  lemma LittleEndianAgrees(a: seq<u8>, p: nat, b: seq<u8>, q: nat, width: nat)
    requires p + width <= |a| && q + width <= |b|
    requires a[p..p + width] == b[q..q + width]
    ensures LittleEndian(a, p, width) == LittleEndian(b, q, width)
    decreases width
  {
    if width > 0 {
      assert a[p] == a[p..p + width][0] == b[q];
      assert a[p + 1..p + width] == a[p..p + width][1..];
      assert b[q + 1..q + width] == b[q..q + width][1..];
      LittleEndianAgrees(a, p + 1, b, q + 1, width - 1);
    }
  }

  lemma Read32Agrees(a: seq<u8>, p: nat, b: seq<u8>, q: nat)
    requires p + 4 <= |a| && q + 4 <= |b| && a[p..p + 4] == b[q..q + 4]
    ensures Read32(a, p) == Read32(b, q)
  {
    LittleEndianAgrees(a, p, b, q, 4);
  }

  lemma Read64Agrees(a: seq<u8>, p: nat, b: seq<u8>, q: nat)
    requires p + 8 <= |a| && q + 8 <= |b| && a[p..p + 8] == b[q..q + 8]
    ensures Read64(a, p) == Read64(b, q)
  {
    LittleEndianAgrees(a, p, b, q, 8);
  }
}
