/** Memory as a byte string, and buffers as (start, size) regions of it.

    A buffer sequence denotes the list of addresses of its bytes, region after region; its contents
    are the bytes at those addresses. Every scatter-gather operation of the library is specified
    against this flat view. */
module ByteRegions {

  type Byte = b: int | 0 <= b < 256

  datatype Region = Region(start: nat, size: nat)

  // The value of a default-constructed buffer: a null pointer and size zero.
  const EMPTY_REGION := Region(0, 0)

  predicate InBounds(bs: seq<Region>, length: nat) {
    forall k :: 0 <= k < |bs| ==> bs[k].start + bs[k].size <= length
  }

  /** Number of bytes in the first k regions. */
  function BytesBefore(bs: seq<Region>, k: nat): nat
    requires k <= |bs|
  {
    if k == 0 then 0 else BytesBefore(bs, k - 1) + bs[k - 1].size
  }

  function Total(bs: seq<Region>): nat {
    BytesBefore(bs, |bs|)
  }

  /** n consecutive addresses. */
  function Span(start: nat, n: nat): (s: seq<nat>)
    ensures |s| == n
  {
    seq(n, i requires 0 <= i => start + i)
  }

  function AddressesBefore(bs: seq<Region>, k: nat): (s: seq<nat>)
    requires k <= |bs|
    ensures |s| == BytesBefore(bs, k)
  {
    if k == 0 then [] else AddressesBefore(bs, k - 1) + Span(bs[k - 1].start, bs[k - 1].size)
  }

  /** The addresses of a buffer sequence, in order. */
  function Addresses(bs: seq<Region>): (s: seq<nat>)
    ensures |s| == Total(bs)
  {
    AddressesBefore(bs, |bs|)
  }

  predicate AllBelow(at: seq<nat>, length: nat) {
    forall i :: 0 <= i < |at| ==> at[i] < length
  }

  /** The bytes of mem at the given addresses. */
  function Gather(mem: seq<Byte>, at: seq<nat>): (s: seq<Byte>)
    requires AllBelow(at, |mem|)
    ensures |s| == |at|
  {
    seq(|at|, i requires 0 <= i < |at| => mem[at[i]])
  }

  /** The contents of a buffer sequence as one byte string. */
  function Flatten(mem: seq<Byte>, bs: seq<Region>): (s: seq<Byte>)
    requires InBounds(bs, |mem|)
    ensures |s| == Total(bs)
  {
    AddressesInBounds(bs, |bs|, |mem|);
    Gather(mem, Addresses(bs))
  }

  lemma {:induction false} BytesBeforeMonotone(bs: seq<Region>, j: nat, k: nat)
    requires j <= k <= |bs|
    ensures BytesBefore(bs, j) <= BytesBefore(bs, k)
  {
    if j < k {
      BytesBeforeMonotone(bs, j, k - 1);
    }
  }

  lemma {:induction false} AddressesInBounds(bs: seq<Region>, k: nat, length: nat)
    requires k <= |bs| && InBounds(bs, length)
    ensures AllBelow(AddressesBefore(bs, k), length)
  {
    if k != 0 {
      AddressesInBounds(bs, k - 1, length);
    }
  }

  /** The byte at an offset of region k sits at its start plus that offset. */
  lemma {:induction false} AddressAt(bs: seq<Region>, hi: nat, k: nat, offset: nat)
    requires k < hi <= |bs| && offset < bs[k].size
    ensures BytesBefore(bs, k) + offset < BytesBefore(bs, hi)
    ensures AddressesBefore(bs, hi)[BytesBefore(bs, k) + offset] == bs[k].start + offset
  {
    if k < hi - 1 {
      AddressAt(bs, hi - 1, k, offset);
    }
  }

  /** A stretch of one region is a run of consecutive addresses in the flat view. */
  lemma SliceOfRegion(bs: seq<Region>, k: nat, offset: nat, n: nat)
    requires k < |bs| && offset + n <= bs[k].size
    ensures BytesBefore(bs, k) + offset + n <= Total(bs)
    ensures Addresses(bs)[BytesBefore(bs, k) + offset..BytesBefore(bs, k) + offset + n] == Span(bs[k].start + offset, n)
  {
    BytesBeforeMonotone(bs, k + 1, |bs|);
    var first := BytesBefore(bs, k) + offset;
    var slice := Addresses(bs)[first..first + n];
    forall i | 0 <= i < n
      ensures slice[i] == bs[k].start + offset + i
    {
      AddressAt(bs, |bs|, k, offset + i);
    }
  }

  lemma TotalOfOne(b: Region)
    ensures Total([b]) == b.size && BytesBefore([b], 0) == 0
  {
    assert BytesBefore([b], 1) == BytesBefore([b], 0) + b.size;
  }
}
