/** The scatter-gather copy loops (buffer_copy in src/asio/buffer.hpp).

    Reference model: take the flat list of target addresses and the flat list of source addresses
    and write the bytes one after the other. Every overload is proved to leave exactly the memory,
    and to return exactly the count, of this byte-wise copy. */
module BufferCopy {
  import opened Basics
  import opened ByteRegions

  // ---------- the reference model ----------

  /** Copies n bytes one at a time: the i-th from address from[i] to address at[i]. */
  function ByteCopy(mem: seq<Byte>, at: seq<nat>, from: seq<nat>, n: nat): (r: seq<Byte>)
    requires n <= |at| && n <= |from| && AllBelow(at, |mem|) && AllBelow(from, |mem|)
    ensures |r| == |mem|
  {
    if n == 0 then mem else ByteCopy(mem, at, from, n - 1)[at[n - 1] := mem[from[n - 1]]]
  }

  /** The memory after copying n bytes from the source sequence to the target sequence. */
  function CopyBytes(mem: seq<Byte>, target: seq<Region>, source: seq<Region>, n: nat): (r: seq<Byte>)
    requires InBounds(target, |mem|) && InBounds(source, |mem|)
    requires n <= Total(target) && n <= Total(source)
    ensures |r| == |mem|
  {
    AddressesInBounds(target, |target|, |mem|);
    AddressesInBounds(source, |source|, |mem|);
    ByteCopy(mem, Addresses(target), Addresses(source), n)
  }

  /** memcpy cannot be used between overlapping regions, so no target byte may be a source byte. */
  ghost predicate Disjoint(target: seq<Region>, source: seq<Region>) {
    forall j, k {:trigger RegionsDisjoint(target[j], source[k])} ::
      0 <= j < |target| && 0 <= k < |source| ==> RegionsDisjoint(target[j], source[k])
  }

  ghost predicate RegionsDisjoint(a: Region, b: Region) {
    a.size == 0 || b.size == 0 || a.start + a.size <= b.start || b.start + b.size <= a.start
  }

  // ---------- facts about the reference model ----------

  lemma {:induction false} ByteCopyFrame(mem: seq<Byte>, at: seq<nat>, from: seq<nat>, n: nat, a: nat)
    requires n <= |at| && n <= |from| && AllBelow(at, |mem|) && AllBelow(from, |mem|) && a < |mem|
    requires forall i :: 0 <= i < n ==> at[i] != a
    ensures ByteCopy(mem, at, from, n)[a] == mem[a]
  {
    if n != 0 {
      ByteCopyFrame(mem, at, from, n - 1, a);
    }
  }

  lemma {:induction false} ByteCopyWrites(mem: seq<Byte>, at: seq<nat>, from: seq<nat>, n: nat, i: nat)
    requires n <= |at| && n <= |from| && AllBelow(at, |mem|) && AllBelow(from, |mem|) && i < n
    requires forall j, k :: 0 <= j < k < n ==> at[j] != at[k]
    ensures ByteCopy(mem, at, from, n)[at[i]] == mem[from[i]]
  {
    if i != n - 1 {
      ByteCopyWrites(mem, at, from, n - 1, i);
    }
  }

  lemma {:induction false} OwnerOfAddress(bs: seq<Region>, k: nat, i: nat) returns (j: nat)
    requires k <= |bs| && i < BytesBefore(bs, k)
    ensures j < k && bs[j].start <= AddressesBefore(bs, k)[i] < bs[j].start + bs[j].size
  {
    if BytesBefore(bs, k - 1) <= i {
      j := k - 1;
    } else {
      j := OwnerOfAddress(bs, k - 1, i);
    }
  }

  lemma DisjointAddresses(target: seq<Region>, source: seq<Region>, i: nat, j: nat)
    requires Disjoint(target, source)
    requires i < Total(target) && j < Total(source)
    ensures Addresses(target)[i] != Addresses(source)[j]
  {
    var a := OwnerOfAddress(target, |target|, i);
    var b := OwnerOfAddress(source, |source|, j);
    assert RegionsDisjoint(target[a], source[b]);
  }

  /** The source bytes are still there while the targets are being written. */
  lemma SourceUntouched(mem: seq<Byte>, target: seq<Region>, source: seq<Region>, n: nat, j: nat)
    requires InBounds(target, |mem|) && InBounds(source, |mem|) && Disjoint(target, source)
    requires n <= Total(target) && n <= Total(source) && j < Total(source)
    ensures Addresses(source)[j] < |mem|
    ensures CopyBytes(mem, target, source, n)[Addresses(source)[j]] == mem[Addresses(source)[j]]
  {
    AddressesInBounds(target, |target|, |mem|);
    AddressesInBounds(source, |source|, |mem|);
    forall i | 0 <= i < n
      ensures Addresses(target)[i] != Addresses(source)[j]
    {
      DisjointAddresses(target, source, i, j);
    }
    ByteCopyFrame(mem, Addresses(target), Addresses(source), n, Addresses(source)[j]);
  }

  /** An (iterator, offset) pair of the copy loops that stands n bytes into a sequence. */
  ghost predicate AtCursor(bs: seq<Region>, k: nat, offset: nat, n: nat) {
    && k <= |bs| && n == BytesBefore(bs, k) + offset
    && if k < |bs| then offset <= bs[k].size else offset == 0
  }

  lemma CursorWithinTotal(bs: seq<Region>, k: nat, offset: nat, n: nat)
    requires AtCursor(bs, k, offset, n)
    ensures n <= Total(bs) && (k == |bs| ==> n == Total(bs))
  {
    if k < |bs| {
      BytesBeforeMonotone(bs, k + 1, |bs|);
    }
  }

  lemma CursorStep(bs: seq<Region>, k: nat, offset: nat, n: nat, copied: nat)
    requires AtCursor(bs, k, offset, n) && k < |bs| && copied <= bs[k].size - offset
    ensures copied == bs[k].size - offset ==> AtCursor(bs, k + 1, 0, n + copied)
    ensures copied != bs[k].size - offset ==> AtCursor(bs, k, offset + copied, n + copied)
  {
  }

  /** One memcpy of k bytes between the next cells continues the byte-wise copy from n to n + k. */
  lemma {:induction false} CopyContinues(mem: seq<Byte>, target: seq<Region>, source: seq<Region>, n: nat,
                                         ti: nat, tOffset: nat, si: nat, sOffset: nat, k: nat)
    requires InBounds(target, |mem|) && InBounds(source, |mem|) && Disjoint(target, source)
    requires ti < |target| && tOffset + k <= target[ti].size
    requires si < |source| && sOffset + k <= source[si].size
    requires AtCursor(target, ti, tOffset, n) && AtCursor(source, si, sOffset, n)
    ensures n + k <= Total(target) && n + k <= Total(source)
    ensures CopyBytes(mem, target, source, n + k)
            == MemCopied(CopyBytes(mem, target, source, n), target[ti].start + tOffset, source[si].start + sOffset, k)
  {
    CursorWithinTotal(target, ti, tOffset + k, n + k);
    CursorWithinTotal(source, si, sOffset + k, n + k);
    if k == 0 {
      assert MemCopied(CopyBytes(mem, target, source, n), target[ti].start + tOffset, source[si].start + sOffset, 0)
          == CopyBytes(mem, target, source, n);
    } else {
      CopyContinues(mem, target, source, n, ti, tOffset, si, sOffset, k - 1);
      AddressAt(target, |target|, ti, tOffset + k - 1);
      AddressAt(source, |source|, si, sOffset + k - 1);
      SourceUntouched(mem, target, source, n, n + k - 1);
      MemCopiedStep(CopyBytes(mem, target, source, n), target[ti].start + tOffset, source[si].start + sOffset, k - 1);
    }
  }

  /** The effect of memcpy(to, from, k) on regions that do not overlap. */
  function MemCopied(mem: seq<Byte>, to: nat, from: nat, k: nat): (r: seq<Byte>)
    requires to + k <= |mem| && from + k <= |mem|
    ensures |r| == |mem|
  {
    seq(|mem|, i requires 0 <= i < |mem| => if to <= i < to + k then mem[from + (i - to)] else mem[i])
  }

  lemma MemCopiedStep(mem: seq<Byte>, to: nat, from: nat, k: nat)
    requires to + k < |mem| && from + k < |mem|
    ensures MemCopied(mem, to, from, k)[to + k := mem[from + k]] == MemCopied(mem, to, from, k + 1)
  {
  }

  // ---------- what the copy means for callers ----------

  ghost predicate PairwiseDisjoint(bs: seq<Region>) {
    forall j, k {:trigger RegionsDisjoint(bs[j], bs[k])} :: 0 <= j < k < |bs| ==> RegionsDisjoint(bs[j], bs[k])
  }

  lemma {:induction false} AddressesDistinct(bs: seq<Region>, k: nat, i: nat, j: nat)
    requires k <= |bs| && PairwiseDisjoint(bs)
    requires i < j < BytesBefore(bs, k)
    ensures AddressesBefore(bs, k)[i] != AddressesBefore(bs, k)[j]
  {
    if j < BytesBefore(bs, k - 1) {
      AddressesDistinct(bs, k - 1, i, j);
    } else if i < BytesBefore(bs, k - 1) {
      var owner := OwnerOfAddress(bs, k - 1, i);
      assert RegionsDisjoint(bs[owner], bs[k - 1]);
    }
  }

  /** With targets that do not overlap each other or the sources, the flattened target becomes the
      first n source bytes followed by its own old tail, the flattened source is unchanged, and so
      is every byte outside the targets. */
  lemma CopyFlattened(mem: seq<Byte>, target: seq<Region>, source: seq<Region>, n: nat)
    requires InBounds(target, |mem|) && InBounds(source, |mem|)
    requires Disjoint(target, source) && PairwiseDisjoint(target)
    requires n <= Total(target) && n <= Total(source)
    ensures var after := CopyBytes(mem, target, source, n);
            && Flatten(after, target) == Flatten(mem, source)[..n] + Flatten(mem, target)[n..]
            && Flatten(after, source) == Flatten(mem, source)
            && forall a :: 0 <= a < |mem| && a !in Addresses(target)[..n] ==> after[a] == mem[a]
  {
    AddressesInBounds(target, |target|, |mem|);
    AddressesInBounds(source, |source|, |mem|);
    var after := CopyBytes(mem, target, source, n);
    var at, from := Addresses(target), Addresses(source);
    forall i, j | 0 <= i < j < |at|
      ensures at[i] != at[j]
    {
      AddressesDistinct(target, |target|, i, j);
    }
    forall i | 0 <= i < |at|
      ensures after[at[i]] == if i < n then mem[from[i]] else mem[at[i]]
    {
      if i < n {
        ByteCopyWrites(mem, at, from, n, i);
      } else {
        ByteCopyFrame(mem, at, from, n, at[i]);
      }
    }
    forall j | 0 <= j < |from|
      ensures after[from[j]] == mem[from[j]]
    {
      SourceUntouched(mem, target, source, n, j);
    }
    forall a | 0 <= a < |mem| && a !in at[..n]
      ensures after[a] == mem[a]
    {
      forall i | 0 <= i < n
        ensures at[i] != a
      {
        assert at[..n][i] == at[i];
      }
      ByteCopyFrame(mem, at, from, n, a);
    }
  }

  // ---------- the operations ----------

  /** buffer + start: the region from its start-th byte on, or an empty one. */
  function Offset(b: Region, start: nat): Region {
    if start > b.size then EMPTY_REGION else Region(b.start + start, b.size - start)
  }

  /** buffer(b, max): the region cut to at most max bytes. */
  function Trim(b: Region, max: nat): Region {
    Region(b.start, if b.size < max then b.size else max)
  }

  /** buffer_size of a sequence. */
  method BufferSize(bs: seq<Region>) returns (total: nat)
    ensures total == Total(bs)
  {
    total := 0;
    for i := 0 to |bs|
      invariant total == BytesBefore(bs, i)
    {
      total := total + bs[i].size;
    }
  }

  /** One buffer to one buffer: a single memcpy. */
  method CopyBuffer(mem: array<Byte>, target: Region, source: Region) returns (n: nat)
    requires target.start + target.size <= mem.Length && source.start + source.size <= mem.Length
    requires RegionsDisjoint(target, source)
    modifies mem
    ensures n == Min(target.size, source.size)
    ensures mem[..] == MemCopied(old(mem[..]), target.start, source.start, n)
  {
    n := if target.size < source.size then target.size else source.size;
    forall i | 0 <= i < n {
      mem[target.start + i] := mem[source.start + i];
    }
  }

  method CopyBufferAtMost(mem: array<Byte>, target: Region, source: Region, max: nat) returns (n: nat)
    requires target.start + target.size <= mem.Length && source.start + source.size <= mem.Length
    requires RegionsDisjoint(target, source)
    modifies mem
    ensures n == Min(Min(target.size, source.size), max)
    ensures mem[..] == MemCopied(old(mem[..]), target.start, source.start, n)
  {
    n := CopyBuffer(mem, Trim(target, max), source);
  }

  /** The memcpy step shared by the loops, between the buffers at two cursors `total` bytes in:
      the byte-wise copy gets `copied` bytes further. */
  method CopyStep(mem: array<Byte>, targetBuffer: Region, sourceBuffer: Region, limit: Option<nat>,
                  ghost start: seq<Byte>, ghost target: seq<Region>, ghost source: seq<Region>,
                  ghost ti: nat, ghost tOffset: nat, ghost si: nat, ghost sOffset: nat, ghost total: nat)
    returns (copied: nat)
    requires |start| == mem.Length && InBounds(target, |start|) && InBounds(source, |start|)
    requires Disjoint(target, source) && ti < |target| && si < |source|
    requires AtCursor(target, ti, tOffset, total) && AtCursor(source, si, sOffset, total)
    requires targetBuffer == Offset(target[ti], tOffset) && sourceBuffer == Offset(source[si], sOffset)
    requires total <= Total(target) && total <= Total(source)
    requires mem[..] == CopyBytes(start, target, source, total)
    modifies mem
    ensures copied == if limit.Some? then Min(Min(targetBuffer.size, sourceBuffer.size), limit.value)
                      else Min(targetBuffer.size, sourceBuffer.size)
    ensures total + copied <= Total(target) && total + copied <= Total(source)
    ensures mem[..] == CopyBytes(start, target, source, total + copied)
  {
    assert RegionsDisjoint(target[ti], source[si]);
    if limit.Some? {
      copied := CopyBufferAtMost(mem, targetBuffer, sourceBuffer, limit.value);
    } else {
      copied := CopyBuffer(mem, targetBuffer, sourceBuffer);
    }
    CopyContinues(start, target, source, total, ti, tOffset, si, sOffset, copied);
  }

  /** Sequence to sequence. */
  method Copy(mem: array<Byte>, target: seq<Region>, source: seq<Region>) returns (total: nat)
    requires InBounds(target, mem.Length) && InBounds(source, mem.Length) && Disjoint(target, source)
    modifies mem
    ensures total == Min(Total(target), Total(source))
    ensures mem[..] == CopyBytes(old(mem[..]), target, source, total)
  {
    ghost var start := mem[..];
    total := 0;
    var ti: nat, tOffset: nat := 0, 0;
    var si: nat, sOffset: nat := 0, 0;
    while ti != |target| && si != |source|
      invariant AtCursor(target, ti, tOffset, total) && AtCursor(source, si, sOffset, total)
      invariant total <= Total(target) && total <= Total(source)
      invariant mem[..] == CopyBytes(start, target, source, total)
      decreases |target| - ti + |source| - si
    {
      var targetBuffer := Offset(target[ti], tOffset);
      var sourceBuffer := Offset(source[si], sOffset);
      var copied := CopyStep(mem, targetBuffer, sourceBuffer, None,
                             start, target, source, ti, tOffset, si, sOffset, total);
      CursorStep(target, ti, tOffset, total, copied);
      CursorStep(source, si, sOffset, total, copied);
      total := total + copied;
      if copied == targetBuffer.size {
        ti, tOffset := ti + 1, 0;
      } else {
        tOffset := tOffset + copied;
      }
      if copied == sourceBuffer.size {
        si, sOffset := si + 1, 0;
      } else {
        sOffset := sOffset + copied;
      }
    }
    CursorWithinTotal(target, ti, tOffset, total);
    CursorWithinTotal(source, si, sOffset, total);
  }

  /** Sequence to sequence, at most max bytes. */
  method CopyAtMost(mem: array<Byte>, target: seq<Region>, source: seq<Region>, max: nat) returns (total: nat)
    requires InBounds(target, mem.Length) && InBounds(source, mem.Length) && Disjoint(target, source)
    modifies mem
    ensures total == Min(Min(Total(target), Total(source)), max)
    ensures mem[..] == CopyBytes(old(mem[..]), target, source, total)
  {
    ghost var start := mem[..];
    total := 0;
    var ti: nat, tOffset: nat := 0, 0;
    var si: nat, sOffset: nat := 0, 0;
    while total != max && ti != |target| && si != |source|
      invariant AtCursor(target, ti, tOffset, total) && AtCursor(source, si, sOffset, total)
      invariant total <= max && total <= Total(target) && total <= Total(source)
      invariant mem[..] == CopyBytes(start, target, source, total)
      decreases |target| - ti, |source| - si, max - total
    {
      var targetBuffer := Offset(target[ti], tOffset);
      var sourceBuffer := Offset(source[si], sOffset);
      var copied := CopyStep(mem, targetBuffer, sourceBuffer, Some(max - total),
                             start, target, source, ti, tOffset, si, sOffset, total);
      CursorStep(target, ti, tOffset, total, copied);
      CursorStep(source, si, sOffset, total, copied);
      total := total + copied;
      if copied == targetBuffer.size {
        ti, tOffset := ti + 1, 0;
      } else {
        tOffset := tOffset + copied;
      }
      if copied == sourceBuffer.size {
        si, sOffset := si + 1, 0;
      } else {
        sOffset := sOffset + copied;
      }
    }
    CursorWithinTotal(target, ti, tOffset, total);
    CursorWithinTotal(source, si, sOffset, total);
  }

  /** The one-element sequence of a buffer. */
  lemma OneBuffer(b: Region) returns (one: seq<Region>)
    ensures one == [b] && |one| == 1 && one[0] == b && Total(one) == b.size
  {
    one := [b];
    TotalOfOne(b);
  }

  /** One buffer from a sequence: the target shrinks from the front. */
  method CopyToOne(mem: array<Byte>, target: Region, source: seq<Region>) returns (total: nat)
    requires InBounds([target], mem.Length) && InBounds(source, mem.Length) && Disjoint([target], source)
    modifies mem
    ensures total == Min(Total([target]), Total(source))
    ensures mem[..] == CopyBytes(old(mem[..]), [target], source, total)
  {
    ghost var start := mem[..];
    ghost var one := OneBuffer(target);
    total := 0;
    var si := 0;
    var targetBuffer := target;
    while targetBuffer.size != 0 && si != |source|
      invariant si <= |source| && total <= target.size && total <= Total(source)
      invariant targetBuffer == Offset(target, total)
      invariant targetBuffer.size != 0 ==> AtCursor(source, si, 0, total)
      invariant mem[..] == CopyBytes(start, one, source, total)
    {
      var copied := CopyStep(mem, targetBuffer, source[si], None, start, one, source, 0, total, si, 0, total);
      total := total + copied;
      targetBuffer := Offset(targetBuffer, copied);
      si := si + 1;
    }
    assert total == Min(Total(one), Total(source)) by {
      if targetBuffer.size != 0 {
        CursorWithinTotal(source, si, 0, total);
      }
    }
  }

  /** A sequence from one buffer: the source shrinks from the front. */
  method CopyFromOne(mem: array<Byte>, target: seq<Region>, source: Region) returns (total: nat)
    requires InBounds(target, mem.Length) && InBounds([source], mem.Length) && Disjoint(target, [source])
    modifies mem
    ensures total == Min(Total(target), Total([source]))
    ensures mem[..] == CopyBytes(old(mem[..]), target, [source], total)
  {
    ghost var start := mem[..];
    ghost var one := OneBuffer(source);
    total := 0;
    var ti := 0;
    var sourceBuffer := source;
    while sourceBuffer.size != 0 && ti != |target|
      invariant ti <= |target| && total <= source.size && total <= Total(target)
      invariant sourceBuffer == Offset(source, total)
      invariant sourceBuffer.size != 0 ==> AtCursor(target, ti, 0, total)
      invariant mem[..] == CopyBytes(start, target, one, total)
    {
      var copied := CopyStep(mem, target[ti], sourceBuffer, None, start, target, one, ti, 0, 0, total, total);
      total := total + copied;
      sourceBuffer := Offset(sourceBuffer, copied);
      ti := ti + 1;
    }
    assert total == Min(Total(target), Total(one)) by {
      if sourceBuffer.size != 0 {
        CursorWithinTotal(target, ti, 0, total);
      }
    }
  }

  /** Cutting a single buffer does not change which bytes are copied. */
  lemma TrimKeepsPrefix(mem: seq<Byte>, b: Region, other: seq<Region>, max: nat, n: nat)
    requires InBounds([b], |mem|) && InBounds(other, |mem|)
    requires n <= b.size && n <= max && n <= Total(other)
    ensures InBounds([Trim(b, max)], |mem|) && n <= Total([Trim(b, max)]) && n <= Total([b])
    ensures CopyBytes(mem, [Trim(b, max)], other, n) == CopyBytes(mem, [b], other, n)
    ensures CopyBytes(mem, other, [Trim(b, max)], n) == CopyBytes(mem, other, [b], n)
  {
    TotalOfOne(b);
    TotalOfOne(Trim(b, max));
    AddressesInBounds([b], 1, |mem|);
    AddressesInBounds([Trim(b, max)], 1, |mem|);
    AddressesInBounds(other, |other|, |mem|);
    forall i | 0 <= i < n
      ensures Addresses([Trim(b, max)])[i] == Addresses([b])[i]
    {
      AddressAt([b], 1, 0, i);
      AddressAt([Trim(b, max)], 1, 0, i);
    }
    ByteCopySame(mem, Addresses([Trim(b, max)]), Addresses(other), Addresses([b]), Addresses(other), n);
    ByteCopySame(mem, Addresses(other), Addresses([Trim(b, max)]), Addresses(other), Addresses([b]), n);
  }

  lemma {:induction false} ByteCopySame(mem: seq<Byte>, at: seq<nat>, from: seq<nat>, at': seq<nat>, from': seq<nat>, n: nat)
    requires n <= |at| && n <= |from| && n <= |at'| && n <= |from'|
    requires AllBelow(at, |mem|) && AllBelow(from, |mem|) && AllBelow(at', |mem|) && AllBelow(from', |mem|)
    requires forall i :: 0 <= i < n ==> at[i] == at'[i] && from[i] == from'[i]
    ensures ByteCopy(mem, at, from, n) == ByteCopy(mem, at', from', n)
  {
    if n != 0 {
      ByteCopySame(mem, at, from, at', from', n - 1);
    }
  }

  method CopyToOneAtMost(mem: array<Byte>, target: Region, source: seq<Region>, max: nat) returns (total: nat)
    requires InBounds([target], mem.Length) && InBounds(source, mem.Length) && Disjoint([target], source)
    modifies mem
    ensures total == Min(Min(Total([target]), Total(source)), max)
    ensures mem[..] == CopyBytes(old(mem[..]), [target], source, total)
  {
    ghost var start := mem[..];
    TotalOfOne(target);
    TotalOfOne(Trim(target, max));
    forall k | 0 <= k < |source|
      ensures RegionsDisjoint(Trim(target, max), source[k])
    {
      assert RegionsDisjoint([target][0], source[k]);
    }
    total := CopyToOne(mem, Trim(target, max), source);
    TrimKeepsPrefix(start, target, source, max, total);
  }

  method CopyFromOneAtMost(mem: array<Byte>, target: seq<Region>, source: Region, max: nat) returns (total: nat)
    requires InBounds(target, mem.Length) && InBounds([source], mem.Length) && Disjoint(target, [source])
    modifies mem
    ensures total == Min(Min(Total(target), Total([source])), max)
    ensures mem[..] == CopyBytes(old(mem[..]), target, [source], total)
  {
    ghost var start := mem[..];
    TotalOfOne(source);
    TotalOfOne(Trim(source, max));
    forall k | 0 <= k < |target|
      ensures RegionsDisjoint(target[k], Trim(source, max))
    {
      assert RegionsDisjoint(target[k], [source][0]);
    }
    total := CopyFromOne(mem, target, Trim(source, max));
    TrimKeepsPrefix(start, source, target, max, total);
  }
}
