/**
 libMachO/Core/core.c: ranges, overflow-checked arithmetic and the in-place byte swap.

 Each checked operation has two forms: a function over unbounded integers that says
 which result (or error) is right, and a method with the C code's own wrapping tests.
 */
module Core {
  import opened Machine

  // ---------------------------------------------------------------------------
  //  Exact meaning of the checked operations
  // ---------------------------------------------------------------------------

  function Sum(left: u64, right: u64): Result<u64> {
    if left + right < TWO64 then Ok(left + right) else Err(EOverflow)
  }

  function Difference(left: u64, right: u64): Result<u64> {
    if right <= left then Ok(left - right) else Err(EUnderflow)
  }

  function SignedDifference(left: u64, right: u64): Result<i64> {
    if left < TWO63 && right < TWO63 then Ok(left - right) else Err(EUnderflow)
  }

  /** A positive slide may not lift an address above INT64_MAX; a negative one may not sink it below 0. */
  function Slid(addr: u64, slide: i64): Result<u64> {
    if slide > 0 && addr + slide > I64_MAX then Err(EOverflow)
    else if addr + slide < 0 then Err(EUnderflow)
    else Ok(addr + slide)
  }

  /** Removing a slide, with the limits on the other side. */
  function Unslid(addr: u64, slide: i64): Result<u64> {
    if slide < 0 && addr - slide > I64_MAX then Err(EOverflow)
    else if addr - slide < 0 then Err(EUnderflow)
    else Ok(addr - slide)
  }

  // ---------------------------------------------------------------------------
  //  The checked operations as the C code performs them
  // ---------------------------------------------------------------------------

  method AddressApplyOffset(addr: u64, offset: u64, prior: u64) returns (err: Error, result: u64)
    ensures addr + offset < TWO64 ==> err == ESuccess && result == addr + offset
    ensures addr + offset >= TWO64 ==> err == EOverflow && result == prior
    ensures (err, result) == Stored(Sum(addr, offset), prior)
  {
    result := prior;
    if U64_MAX - offset < addr {
      return EOverflow, result;
    }
    result := Wrap64(addr + offset);
    err := ESuccess;
  }

  method AddressApplySlide(addr: u64, slide: i64, prior: u64) returns (err: Error, result: u64)
    requires slide != -TWO63  // the C negation of INT64_MIN is undefined
    ensures slide > 0 && addr + slide > 0x7FFF_FFFF_FFFF_FFFF ==> err == EOverflow && result == prior
    ensures addr + slide < 0 ==> err == EUnderflow && result == prior
    ensures addr + slide >= 0 && (slide <= 0 || addr + slide <= 0x7FFF_FFFF_FFFF_FFFF) ==>
              err == ESuccess && result == addr + slide
    ensures (err, result) == Stored(Slid(addr, slide), prior)
  {
    result := prior;
    if slide > 0 && Wrap64(I64_MAX - slide) < addr {
      return EOverflow, result;
    } else if slide < 0 && Wrap64(slide * -1) > addr {
      return EUnderflow, result;
    }
    WrapOfSum(addr, slide);
    result := Wrap64(addr + Wrap64(slide));
    err := ESuccess;
  }

  method AddressRemoveSlide(addr: u64, slide: i64, prior: u64) returns (err: Error, result: u64)
    requires slide != -TWO63  // the C negation of INT64_MIN is undefined
    ensures slide < 0 && addr - slide > 0x7FFF_FFFF_FFFF_FFFF ==> err == EOverflow && result == prior
    ensures addr - slide < 0 ==> err == EUnderflow && result == prior
    ensures addr - slide >= 0 && (slide >= 0 || addr - slide <= 0x7FFF_FFFF_FFFF_FFFF) ==>
              err == ESuccess && result == addr - slide
    ensures (err, result) == Stored(Unslid(addr, slide), prior)
  {
    result := prior;
    if slide < 0 {
      var magnitude: i64 := -1 * slide;
      if Wrap64(I64_MAX - magnitude) < addr {
        return EOverflow, result;
      }
      result := Wrap64(addr + magnitude);
    } else {
      if slide > addr {
        return EUnderflow, result;
      }
      result := Wrap64(addr - slide);
    }
    err := ESuccess;
  }

  method AddressSubtract(left: u64, right: u64, prior: u64) returns (err: Error, result: u64)
    ensures right <= left ==> err == ESuccess && result == left - right
    ensures right > left ==> err == EUnderflow && result == prior
    ensures (err, result) == Stored(Difference(left, right), prior)
  {
    result := prior;
    if right > left {
      return EUnderflow, result;
    }
    result := Wrap64(left - right);
    err := ESuccess;
  }

  /** The sign-bit tests exclude every pair whose difference would not fit a signed word. */
  method AddressDifference(left: u64, right: u64, prior: i64) returns (err: Error, result: i64)
    ensures left < TWO63 && right < TWO63 ==> err == ESuccess && result == left - right
    ensures left >= TWO63 || right >= TWO63 ==> err == EUnderflow && result == prior
    ensures (err, result) == Stored(SignedDifference(left, right), prior)
  {
    result := prior;
    if left / TWO63 == 1 {
      return EUnderflow, result;
    }
    if right / TWO63 == 1 {
      return EUnderflow, result;
    }
    if left < right {
      assert left - right == -1 * TWO64 + (left - right + TWO64);
    }
    result := AsSigned64(Wrap64(left - right));
    err := ESuccess;
  }

  /** Overflow is detected by dividing the wrapped product back. */
  method SizeMultiply(size: u64, multiplier: u64, prior: u64) returns (err: Error, result: u64)
    ensures size * multiplier < TWO64 ==> err == ESuccess && result == size * multiplier
    ensures size * multiplier >= TWO64 ==> err == EOverflow && result == prior
  {
    result := prior;
    DivisionDetectsOverflow(size, multiplier);
    var temp := Wrap64(size * multiplier);
    if size != 0 && temp / size != multiplier {
      return EOverflow, result;
    }
    result := temp;
    err := ESuccess;
  }

  method SizeAddWithMultiply(base: u64, size: u64, multiplier: u64, prior: u64) returns (err: Error, result: u64)
    ensures base + size * multiplier < TWO64 ==> err == ESuccess && result == base + size * multiplier
    ensures base + size * multiplier >= TWO64 ==> err == EOverflow && result == prior
  {
    result := prior;
    DivisionDetectsOverflow(size, multiplier);
    var temp := Wrap64(size * multiplier);
    if size != 0 && temp / size != multiplier {
      return EOverflow, result;
    }
    if U64_MAX - temp < base {
      return EOverflow, result;
    }
    result := Wrap64(base + temp);
    err := ESuccess;
  }

  // ---------------------------------------------------------------------------
  //  Why the tests are exact
  // ---------------------------------------------------------------------------

  lemma WrapOfSum(addr: u64, slide: i64)
    ensures 0 <= addr + slide < TWO64 ==> Wrap64(addr + Wrap64(slide)) == addr + slide
  {
    if slide < 0 {
      assert slide == -1 * TWO64 + (slide + TWO64);
      assert Wrap64(slide) == slide + TWO64;
      if 0 <= addr + slide < TWO64 {
        assert addr + Wrap64(slide) == 1 * TWO64 + (addr + slide);
      }
    }
  }

  /** Dividing the wrapped product by one factor gives the other back iff nothing was wrapped away. */
  lemma DivisionDetectsOverflow(size: u64, multiplier: u64)
    ensures size * multiplier >= 0
    ensures size != 0 ==> (Wrap64(size * multiplier) / size == multiplier <==> size * multiplier < TWO64)
  {
    assert size * multiplier >= 0;
    if size != 0 {
      var product := size * multiplier;
      var temp := Wrap64(product);
      if product < TWO64 {
        assert temp == product;
        QuotientOfMultiple(size, multiplier);
      } else {
        assert size * (temp / size) <= temp < product;
      }
    }
  }

  lemma QuotientOfMultiple(d: int, q: int)
    requires d > 0
    ensures d * q / d == q
  {
    MultiplesAreFarApart(d, q - d * q / d);
    assert d * (q - d * q / d) == (d * q) % d;
  }

  lemma MultiplesAreFarApart(d: int, k: int)
    requires d > 0
    ensures k >= 1 ==> d * k >= d
    ensures k <= -1 ==> d * k <= -d
  {
    if k >= 1 {
      assert d * k == d + d * (k - 1);
    } else {
      assert d * k == d * (k + 1) - d;
    }
  }

  /** Division takes a sum of a multiple and a smaller number apart. */
  lemma QuotientIs(d: nat, q: nat, r: nat)
    requires r < d
    ensures (d * q + r) / d == q && (d * q + r) % d == r
  {
    var p := (d * q + r) / d;
    MultiplesAreFarApart(d, p - q);
    assert d * q + r == d * p + (d * q + r) % d;
    assert d * (p - q) == d * p - d * q;
  }

  /** Sliding and then unsliding returns the address, unless a negative slide started above INT64_MAX. */
  lemma UnslidAfterSlid(addr: u64, slide: i64)
    requires Slid(addr, slide).Ok?
    ensures slide >= 0 || addr <= I64_MAX ==> Unslid(Slid(addr, slide).value, slide) == Ok(addr)
    ensures slide < 0 && addr > I64_MAX ==> Unslid(Slid(addr, slide).value, slide) == Err(EOverflow)
  {
  }

  /** Unsliding and then sliding returns the address, unless a positive slide started above INT64_MAX. */
  lemma SlidAfterUnslid(addr: u64, slide: i64)
    requires Unslid(addr, slide).Ok?
    ensures slide <= 0 || addr <= I64_MAX ==> Slid(Unslid(addr, slide).value, slide) == Ok(addr)
    ensures slide > 0 && addr > I64_MAX ==> Slid(Unslid(addr, slide).value, slide) == Err(EOverflow)
  {
  }

  // ---------------------------------------------------------------------------
  //  Ranges
  // ---------------------------------------------------------------------------

  /** mk_vm_range_t: the addresses from `location` up to, not including, `location + length`. */
  datatype Range = Range(location: u64, length: u64) {

    ghost predicate Bounded() {
      location + length < TWO64
    }

    ghost predicate Holds(x: int) {
      location <= x < location + length
    }

    ghost predicate Touches(x: int) {
      location <= x <= location + length
    }

    function End(): (r: u64)
      ensures Bounded() ==> r == location + length
      ensures !Bounded() ==> r == U64_MAX
    {
      if U64_MAX - length < location then U64_MAX else Wrap64(location + length)
    }

    function ContainsAddress(offset: u64, address: u64): (err: Error)
      ensures Bounded() ==> (err == ESuccess <==> Holds(address + offset))
      ensures !Bounded() ==> err == EOverflow
      ensures err == ESuccess || err == EOverflow || err == EOutOfRange
      ensures Bounded() ==> (err == EOverflow <==> address + offset >= TWO64)
    {
      if U64_MAX - offset < address then EOverflow
      else if U64_MAX - length < location then EOverflow
      else if Wrap64(address + offset) < location || Wrap64(address + offset) >= Wrap64(location + length)
        then EOutOfRange
      else ESuccess
    }

    function ContainsRange(inner: Range, partial: bool): (err: Error)
      ensures err == ESuccess || err == EOverflow || err == EOutOfRange
      ensures err == EOverflow <==> !Bounded() || !inner.Bounded()
    {
      if U64_MAX - length < location then EOverflow
      else if U64_MAX - inner.length < inner.location then EOverflow
      else if partial then
        if inner.location < location && Wrap64(inner.location + inner.length) < location then EOutOfRange
        else if inner.location > Wrap64(location + length) then EOutOfRange
        else ESuccess
      else
        if inner.location < location then EOutOfRange
        else if Wrap64(inner.location + inner.length) > Wrap64(location + length) then EOutOfRange
        else ESuccess
    }
  }

  /**
   Full containment decides inclusion of the half-open intervals; an empty inner range needs its position
   inside too.
   */
  lemma ContainsRangeDecidesInclusion(outer: Range, inner: Range)
    requires outer.Bounded() && inner.Bounded()
    ensures inner.length > 0 ==>
              (outer.ContainsRange(inner, false) == ESuccess <==> forall x :: inner.Holds(x) ==> outer.Holds(x))
    ensures inner.length == 0 ==>
              (outer.ContainsRange(inner, false) == ESuccess <==> outer.Touches(inner.location))
  {
    if inner.length > 0 && (forall x :: inner.Holds(x) ==> outer.Holds(x)) {
      assert inner.Holds(inner.location);
      assert inner.Holds(inner.location + inner.length - 1);
    }
  }

  /** Partial containment succeeds exactly when the closed intervals meet, so ranges that only touch count. */
  lemma PartialContainmentDecidesMeeting(outer: Range, inner: Range)
    requires outer.Bounded() && inner.Bounded()
    ensures outer.ContainsRange(inner, true) == ESuccess <==> exists x :: inner.Touches(x) && outer.Touches(x)
  {
    if outer.ContainsRange(inner, true) == ESuccess {
      var x := if inner.location < outer.location then outer.location else inner.location;
      assert inner.Touches(x) && outer.Touches(x);
    }
  }

  /** Containment is transitive and carries membership of an address upward. */
  lemma ContainmentCarriesMembership(a: Range, b: Range, c: Range, offset: u64, address: u64)
    requires a.ContainsRange(b, false) == ESuccess
    ensures b.ContainsRange(c, false) == ESuccess ==> a.ContainsRange(c, false) == ESuccess
    ensures b.ContainsAddress(offset, address) == ESuccess ==> a.ContainsAddress(offset, address) == ESuccess
  {
  }

  // ---------------------------------------------------------------------------
  //  Byte order
  // ---------------------------------------------------------------------------

  function Reversed<T>(s: seq<T>): (r: seq<T>)
    ensures |r| == |s|
    ensures forall i :: 0 <= i < |s| ==> r[i] == s[|s| - 1 - i]
  {
    if s == [] then [] else Reversed(s[1..]) + [s[0]]
  }

  lemma ReversedTwice<T>(s: seq<T>)
    ensures Reversed(Reversed(s)) == s
  {
  }

  /** _mk_swap: reverses the first `length` bytes of the buffer where they are. */
  method Swap(input: array<u8>, length: nat)
    requires length <= input.Length
    modifies input
    ensures input[..] == Reversed(old(input[..length])) + old(input[length..])
  {
    hide HalfSwapped, Reversed;
    ghost var was := input[..];
    var i := 0;
    NothingSwapped(was, length);
    while i < length / 2
      invariant 0 <= i <= length / 2
      invariant HalfSwapped(was, input[..], length, i)
    {
      ghost var now := input[..];
      var temp := input[i];
      input[i] := input[length - i - 1];
      input[length - i - 1] := temp;
      assert input[..] == now[i := now[length - i - 1]][length - i - 1 := now[i]];
      OneMoreSwapped(was, now, length, i);
      i := i + 1;
    }
    SwappedIsReversed(was, input[..], length, i);
  }

  /** Where the k-th byte was before the first and the last `i` of `length` bytes changed places. */
  function Origin(length: nat, i: nat, k: nat): int {
    if k < i || length - i <= k < length then length - 1 - k else k
  }

  ghost predicate HalfSwapped(was: seq<u8>, now: seq<u8>, length: nat, i: nat) {
    && 2 * i <= length <= |was| == |now|
    && (forall k :: 0 <= k < |was| ==> now[k] == was[Origin(length, i, k)])
  }

  lemma NothingSwapped(was: seq<u8>, length: nat)
    requires length <= |was|
    ensures HalfSwapped(was, was, length, 0)
  {
  }

  lemma OneMoreSwapped(was: seq<u8>, now: seq<u8>, length: nat, i: nat)
    requires HalfSwapped(was, now, length, i) && i < length / 2 && length <= |now|
    ensures HalfSwapped(was, now[i := now[length - i - 1]][length - i - 1 := now[i]], length, i + 1)
  {
    var next := now[i := now[length - i - 1]][length - i - 1 := now[i]];
    assert now[i] == was[i] && now[length - i - 1] == was[length - i - 1];
    forall k | 0 <= k < |was| ensures next[k] == was[Origin(length, i + 1, k)] {
      assert now[k] == was[Origin(length, i, k)];
    }
  }

  lemma SwappedIsReversed(was: seq<u8>, now: seq<u8>, length: nat, i: nat)
    requires HalfSwapped(was, now, length, i) && i == length / 2
    ensures now == Reversed(was[..length]) + was[length..]
  {
    hide Reversed;
    var expected := Reversed(was[..length]) + was[length..];
    forall k | 0 <= k < |was| ensures now[k] == expected[k] {
      assert now[k] == was[Origin(length, i, k)];
      if k < length {
        assert expected[k] == Reversed(was[..length])[k] == was[length - 1 - k];
        assert k < i || length - i <= k || k == length - 1 - k;
      } else {
        assert expected[k] == was[length..][k - length];
      }
    }
  }

  /** Swapping a buffer twice restores it. */
  method SwapTwice(input: array<u8>, length: nat)
    requires length <= input.Length
    modifies input
    ensures input[..] == old(input[..])
  {
    ghost var was := input[..];
    Swap(input, length);
    assert input[..length] == Reversed(was[..length]);
    assert input[length..] == was[length..];
    Swap(input, length);
    ReversedTwice(was[..length]);
    assert was == was[..length] + was[length..];
  }
}
