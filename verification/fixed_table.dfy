/**
 Tables of entries of one size: what indexing, stepping and enumerating them return.
 Both symbol_table.c and indirect_symbol_table.c are written on this pattern.
 */
module FixedTables {
  import opened Machine
  import opened Core
  import opened Memory
  import opened LinkEdit

  /** A placed table of `count` entries of `stride` bytes. */
  datatype Entries = Entries(table: Table, stride: nat, count: u32) {

    ghost predicate Valid() {
      table.Valid() && 0 < stride && table.range.length == count * stride
    }

    /** The entry exists and is mapped; a short mapping may hold only the first entries. */
    predicate Has(i: nat) {
      i < count && table.range.location + i * stride + stride <= table.mapping.target + |table.mapping.bytes|
    }

    function PointerTo(i: nat): u64 {
      table.PointerTo(i * stride)
    }

    function TargetOf(i: nat): u64 {
      Wrap64(table.range.location + i * stride)
    }
  }

  /** The distance of a host pointer from the start of the table. */
  function OffsetOf(t: Table, p: u64): int {
    p - t.mapping.host - (t.range.location - t.mapping.target)
  }

  /** The index after the entry that `previous` points into, or the first one. */
  function NextIndex(e: Entries, previous: Option<u64>): Option<u32>
    requires e.Valid()
  {
    match previous
    case None => if e.Has(0) then Some(0) else None
    case Some(p) =>
      var o := OffsetOf(e.table, p);
      if 0 <= o < e.table.range.length && p < e.table.mapping.host + |e.table.mapping.bytes| && e.Has(o / e.stride + 1)
      then Some(o / e.stride + 1) else None
  }

  /** The index of the n-th entry when stepping from NULL. */
  function Nth(e: Entries, n: nat): Option<u32>
    requires e.Valid()
  {
    if n == 0 then NextIndex(e, None)
    else
      match Nth(e, n - 1)
      case None => None
      case Some(i) => NextIndex(e, Some(e.PointerTo(i)))
  }

  /** One call of an enumeration block. */
  datatype Call = Call(pointer: u64, index: u32, target: u64)

  /** The calls for the entries from `index` up to `end`. */
  function Calls(e: Entries, index: u32, end: u32): (r: seq<Call>)
    ensures |r| == if index <= end then end - index else 0
    ensures forall k :: 0 <= k < |r| ==> r[k] == Call(e.PointerTo(index + k), index + k, e.TargetOf(index + k))
  {
    seq(if index <= end then end - index else 0, k requires 0 <= k < end - index =>
      Call(e.PointerTo(index + k), index + k, e.TargetOf(index + k)))
  }

  // ---------------------------------------------------------------------------
  //  Arithmetic of indices
  // ---------------------------------------------------------------------------

  /** Entry `i` lies inside the table, and only the entries up to it come before it. */
  lemma EntryInside(e: Entries, i: nat)
    requires e.Valid() && i < e.count
    ensures 0 <= i * e.stride && i * e.stride + e.stride <= e.table.range.length
    ensures e.TargetOf(i) == e.table.range.location + i * e.stride
    ensures e.Has(i) ==>
              e.PointerTo(i) == e.table.mapping.host + (e.table.range.location - e.table.mapping.target) + i * e.stride
                         && OffsetOf(e.table, e.PointerTo(i)) == i * e.stride
  {
    MultiplesGrow(e.stride, i + 1, e.count);
    MultiplesGrow(e.stride, 0, i);
    assert (i + 1) * e.stride == i * e.stride + e.stride;
  }

  lemma MultiplesGrow(stride: nat, a: nat, b: nat)
    ensures a <= b ==> a * stride <= b * stride
  {
    if a <= b {
      assert b * stride == a * stride + (b - a) * stride;
    }
  }

  /** Division recovers the index from any position inside an entry. */
  lemma IndexRecovered(stride: nat, i: nat, d: nat)
    requires d < stride
    ensures (i * stride + d) / stride == i
  {
    assert i * stride == stride * i;
    QuotientIs(stride, i, d);
  }

  /** An offset inside the table belongs to an entry of the table. */
  lemma IndexBound(e: Entries, o: nat)
    requires e.Valid() && o < e.table.range.length
    ensures o / e.stride < e.count
  {
    var q := o / e.stride;
    assert o == q * e.stride + o % e.stride;
    MultiplesGrow(e.stride, e.count, q);
  }

  // ---------------------------------------------------------------------------
  //  Indexing, stepping and enumerating agree
  // ---------------------------------------------------------------------------

  /** Stepping from any pointer into entry `i` leads to entry `i + 1`, if that one is in the table and mapped. */
  lemma NextOfEntry(e: Entries, i: nat, d: nat)
    requires e.Valid() && e.Has(i) && d < e.stride
    ensures e.PointerTo(i) + d < TWO64
    ensures NextIndex(e, Some(e.PointerTo(i) + d)) == if e.Has(i + 1) then Some(i + 1) else None
  {
    EntryInside(e, i);
    IndexRecovered(e.stride, i, d);
  }

  /** From a pointer outside the table, or behind the mapping, there is no next entry. */
  lemma NoNextFromOutside(e: Entries, p: u64)
    requires e.Valid()
    requires e.table.mapping.HoldsHost(p, 1) ==>
               !e.table.range.Holds(e.table.mapping.target + (p - e.table.mapping.host))
    ensures NextIndex(e, Some(p)) == None
  {
  }

  /** If an entry is mapped, so are all before it. */
  lemma HasIsDownward(e: Entries, i: nat, j: nat)
    requires e.Valid() && e.Has(j) && i <= j
    ensures e.Has(i)
  {
    MultiplesGrow(e.stride, i, j);
  }

  /** Stepping from NULL visits every mapped index exactly once, in order, and then ends. */
  lemma {:induction false} SteppingVisitsEachIndexOnce(e: Entries, n: nat)
    requires e.Valid()
    ensures Nth(e, n) == if e.Has(n) then Some(n) else None
    decreases n
  {
    hide NextIndex, Entries.PointerTo, Entries.Has;
    if n == 0 {
      FirstIndex(e);
    } else {
      SteppingVisitsEachIndexOnce(e, n - 1);
      if e.Has(n - 1) {
        NextOfEntry(e, n - 1, 0);
      } else if e.Has(n) {
        HasIsDownward(e, n - 1, n);
      }
    }
  }

  lemma FirstIndex(e: Entries)
    requires e.Valid()
    ensures NextIndex(e, None) == if e.Has(0) then Some(0) else None
  {
  }

  /**
   In a mapped table every index below the count can be stepped to, and bulk enumeration makes the calls
   that stepping makes.
   */
  lemma EnumerationAgreesWithStepping(e: Entries, index: u32, k: nat)
    requires e.Valid() && e.table.Covered() && index <= e.count
    ensures var calls := Calls(e, index, e.count);
            && |calls| == e.count - index
            && (k < |calls| ==> Nth(e, index + k) == Some(index + k)
                                && calls[k] == Call(e.PointerTo(index + k), index + k,
                                  e.table.range.location + (index + k) * e.stride))
    ensures Nth(e, e.count) == None
  {
    SteppingVisitsEachIndexOnce(e, e.count);
    if index + k < e.count {
      EntryInside(e, index + k);
      SteppingVisitsEachIndexOnce(e, index + k);
    }
  }
}
