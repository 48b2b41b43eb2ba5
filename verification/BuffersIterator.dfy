/** The random-access byte iterator over a buffer sequence (src/asio/buffers_iterator.hpp).

    Library assertions are modelled as a Boolean result: `ok` is false when an assertion of the
    source fails. */
module BuffersIterator {
  import opened ByteRegions

  const PTRDIFF_MAX: int := 0x7fff_ffff_ffff_ffff

  // Assignments to these types prove that no conversion or sum leaves the 64-bit range.
  type SizeT = n: int | 0 <= n <= 0xffff_ffff_ffff_ffff
  type PtrDiff = n: int | -0x8000_0000_0000_0000 <= n <= 0x7fff_ffff_ffff_ffff

  /** A cell is one byte of one non-empty buffer, or the end position. */
  predicate IsCell(bs: seq<Region>, k: nat, offset: nat) {
    || (k == |bs| && offset == 0)
    || (k < |bs| && offset < bs[k].size)
  }

  /** Flat index of a cell. */
  function FlatIndex(bs: seq<Region>, k: nat, offset: nat): nat
    requires IsCell(bs, k, offset)
  {
    BytesBefore(bs, k) + offset
  }

  lemma FlatIndexBound(bs: seq<Region>, k: nat, offset: nat)
    requires IsCell(bs, k, offset)
    ensures FlatIndex(bs, k, offset) <= Total(bs)
    ensures FlatIndex(bs, k, offset) == Total(bs) <==> k == |bs|
  {
    if k < |bs| {
      BytesBeforeMonotone(bs, k + 1, |bs|);
    }
  }

  /** The flat index orders cells lexicographically; in particular equal indices are one cell. */
  lemma FlatIndexOrder(bs: seq<Region>, k: nat, offset: nat, k': nat, offset': nat)
    requires IsCell(bs, k, offset) && IsCell(bs, k', offset')
    ensures FlatIndex(bs, k, offset) < FlatIndex(bs, k', offset') <==> k < k' || (k == k' && offset < offset')
    ensures FlatIndex(bs, k, offset) == FlatIndex(bs, k', offset') <==> k == k' && offset == offset'
  {
    if k < k' {
      BytesBeforeMonotone(bs, k + 1, k');
    } else if k' < k {
      BytesBeforeMonotone(bs, k' + 1, k);
    }
  }

  /** Every index up to the total denotes a cell, whatever empty buffers there are. */
  lemma {:induction false} EveryIndexHasACell(bs: seq<Region>, index: nat)
    requires index <= Total(bs)
    ensures exists k: nat, offset: nat :: IsCell(bs, k, offset) && FlatIndex(bs, k, offset) == index
  {
    if index == Total(bs) {
      assert IsCell(bs, |bs|, 0) && FlatIndex(bs, |bs|, 0) == index;
    } else {
      var k := FindCell(bs, |bs|, index);
      assert IsCell(bs, k, index - BytesBefore(bs, k));
      assert FlatIndex(bs, k, index - BytesBefore(bs, k)) == index;
    }
  }

  lemma {:induction false} FindCell(bs: seq<Region>, hi: nat, index: nat) returns (k: nat)
    requires hi <= |bs| && index < BytesBefore(bs, hi)
    ensures k < hi && BytesBefore(bs, k) <= index < BytesBefore(bs, k) + bs[k].size
  {
    if BytesBefore(bs, hi - 1) <= index {
      k := hi - 1;
    } else {
      k := FindCell(bs, hi - 1, index);
    }
  }

  datatype Move = Next | Previous | Advance(n: PtrDiff)

  function Displacement(m: Move): int {
    match m
    case Next => 1
    case Previous => -1
    case Advance(n) => n
  }

  function NetDisplacement(moves: seq<Move>): int {
    if moves == [] then 0 else Displacement(moves[0]) + NetDisplacement(moves[1..])
  }

  /** Every stop of the run lies between the beginning and the end. */
  predicate StaysInRange(position: int, total: nat, moves: seq<Move>)
    decreases moves
  {
    moves == [] ||
    (0 <= position + Displacement(moves[0]) <= total &&
     StaysInRange(position + Displacement(moves[0]), total, moves[1..]))
  }

  /** |n| single increments or decrements. */
  function SingleSteps(n: int): seq<Move>
    decreases if n < 0 then -n else n
  {
    if n == 0 then [] else if n > 0 then [Next] + SingleSteps(n - 1) else [Previous] + SingleSteps(n + 1)
  }

  /** One jump by n and |n| single steps have the same displacement and are defined in the same cases. */
  lemma {:induction false} JumpIsSingleSteps(position: nat, total: nat, n: int)
    requires position <= total && -PTRDIFF_MAX <= n <= PTRDIFF_MAX
    ensures NetDisplacement(SingleSteps(n)) == NetDisplacement([Advance(n)]) == n
    ensures StaysInRange(position, total, SingleSteps(n)) <==> StaysInRange(position, total, [Advance(n)])
    decreases if n < 0 then -n else n
  {
    var step := if n > 0 then 1 else -1;
    if n != 0 {
      assert SingleSteps(n)[1..] == SingleSteps(n - step);
      if 0 <= position + step <= total {
        JumpIsSingleSteps(position + step, total, n - step);
      } else {
        JumpIsSingleSteps(position, total, n - step);
      }
    }
  }

  class Iterator {
    const buffers: seq<Region>       // begin_ is index 0 of it and end_ is |buffers|
    var currentBuffer: Region        // stale at the end position
    var currentBufferPosition: SizeT
    var current: nat
    var position: SizeT

    ghost predicate Valid()
      reads this
    {
      && Total(buffers) <= PTRDIFF_MAX
      && IsCell(buffers, current, currentBufferPosition)
      && position == FlatIndex(buffers, current, currentBufferPosition)
      && (current < |buffers| ==> currentBuffer == buffers[current])
    }

    constructor Begin(buffers: seq<Region>)
      requires Total(buffers) <= PTRDIFF_MAX
      ensures Valid() && this.buffers == buffers
      ensures position == 0
    {
      this.buffers := buffers;
      currentBuffer, currentBufferPosition, position := EMPTY_REGION, 0, 0;
      current := 0;
      new;
      while current != |buffers|
        invariant current <= |buffers| && BytesBefore(buffers, current) == 0
        invariant this.buffers == buffers && position == 0 && currentBufferPosition == 0
      {
        currentBuffer := buffers[current];
        if currentBuffer.size > 0 {
          break;
        }
        current := current + 1;
      }
    }

    constructor End(buffers: seq<Region>)
      requires Total(buffers) <= PTRDIFF_MAX
      ensures Valid() && this.buffers == buffers
      ensures position == Total(buffers) && current == |buffers|
    {
      this.buffers := buffers;
      currentBuffer, currentBufferPosition, position := EMPTY_REGION, 0, 0;
      current := 0;
      new;
      while current != |buffers|
        invariant current <= |buffers| && position == BytesBefore(buffers, current)
        invariant this.buffers == buffers && currentBufferPosition == 0
      {
        BytesBeforeMonotone(buffers, current + 1, |buffers|);
        position := position + buffers[current].size;
        current := current + 1;
      }
    }

    constructor Copy(other: Iterator)
      requires other.Valid()
      ensures Valid() && buffers == other.buffers
      ensures position == other.position
    {
      buffers, currentBuffer, currentBufferPosition := other.buffers, other.currentBuffer, other.currentBufferPosition;
      current, position := other.current, other.position;
    }

    /** The byte under the iterator is the byte at its position in the concatenation. */
    method Dereference(mem: array<Byte>) returns (b: Byte)
      requires Valid() && position < Total(buffers) && InBounds(buffers, mem.Length)
      ensures b == Flatten(mem[..], buffers)[position]
    {
      FlatIndexBound(buffers, current, currentBufferPosition);
      SliceOfRegion(buffers, current, currentBufferPosition, 1);
      ghost var slice := Addresses(buffers)[position..position + 1];
      assert slice[0] == currentBuffer.start + currentBufferPosition;
      b := mem[currentBuffer.start + currentBufferPosition];
    }

    method Increment() returns (ok: bool)
      requires Valid()
      modifies this
      ensures ok <==> old(position) < Total(buffers)
      ensures ok ==> Valid() && position == old(position) + 1
    {
      FlatIndexBound(buffers, current, currentBufferPosition);
      if current == |buffers| {
        return false;
      }
      ok := true;
      position := position + 1;
      currentBufferPosition := currentBufferPosition + 1;
      if currentBufferPosition != currentBuffer.size {
        return;
      }
      current := current + 1;
      currentBufferPosition := 0;
      while current != |buffers|
        invariant current <= |buffers| && position == BytesBefore(buffers, current)
        invariant currentBufferPosition == 0 && position == old(position) + 1
      {
        currentBuffer := buffers[current];
        if currentBuffer.size > 0 {
          return;
        }
        current := current + 1;
      }
    }

    method Decrement() returns (ok: bool)
      requires Valid()
      modifies this
      ensures ok <==> old(position) > 0
      ensures ok ==> Valid() && position == old(position) - 1
    {
      if !(position > 0) {
        return false;
      }
      ok := true;
      position := position - 1;
      if currentBufferPosition != 0 {
        currentBufferPosition := currentBufferPosition - 1;
        return;
      }
      var iter: nat := current;
      while iter != 0
        invariant iter <= current <= |buffers| && BytesBefore(buffers, iter) == old(position) == position + 1
      {
        iter := iter - 1;
        var buffer := buffers[iter];
        BytesBeforeMonotone(buffers, iter + 1, |buffers|);
        if buffer.size > 0 {
          current, currentBuffer, currentBufferPosition := iter, buffer, buffer.size - 1;
          return;
        }
      }
      assert false;  // some earlier buffer is not empty
    }

    /** Moves n bytes forwards or backwards. Not callable with the one value whose negation overflows. */
    method Advance(n: PtrDiff)
      returns (ok: bool)
      requires Valid() && -PTRDIFF_MAX <= n
      modifies this
      ensures ok <==> 0 <= old(position) + n <= Total(buffers)
      ensures ok ==> Valid() && position == old(position) + n
    {
      FlatIndexBound(buffers, current, currentBufferPosition);
      if n > 0 {
        ok := AdvanceForwards(n);
      } else if n < 0 {
        ok := AdvanceBackwards(-n);
      } else {
        ok := true;
      }
    }

    method AdvanceForwards(n: PtrDiff) returns (ok: bool)
      requires Valid() && n > 0
      modifies this
      ensures ok <==> old(position) + n <= Total(buffers)
      ensures ok ==> Valid() && position == old(position) + n
    {
      var n: PtrDiff := n;
      FlatIndexBound(buffers, current, currentBufferPosition);
      if current == |buffers| {
        return false;
      }
      ghost var target := position + n;
      while true
        invariant current < |buffers| && currentBuffer == buffers[current]
        invariant currentBufferPosition <= currentBuffer.size
        invariant position == BytesBefore(buffers, current) + currentBufferPosition
        invariant 0 <= n && position + n == target
        decreases |buffers| - current
      {
        BytesBeforeMonotone(buffers, current + 1, |buffers|);
        var currentBufferBalance: PtrDiff := currentBuffer.size - currentBufferPosition;
        if currentBufferBalance > n {
          position := position + n;
          currentBufferPosition := currentBufferPosition + n;
          return true;
        }
        n := n - currentBufferBalance;
        position := position + currentBufferBalance;
        current := current + 1;
        if current == |buffers| {
          if n != 0 {
            return false;
          }
          currentBuffer, currentBufferPosition := EMPTY_REGION, 0;
          return true;
        }
        currentBuffer, currentBufferPosition := buffers[current], 0;
      }
    }

    method AdvanceBackwards(absN: SizeT) returns (ok: bool)
      requires Valid() && absN > 0
      modifies this
      ensures ok <==> old(position) - absN >= 0
      ensures ok ==> Valid() && position == old(position) - absN
    {
      var absN: SizeT := absN;
      if !(position >= absN) {
        return false;
      }
      ghost var target := position - absN;
      while true
        invariant current <= |buffers|
        invariant current < |buffers| ==> currentBuffer == buffers[current] && currentBufferPosition <= currentBuffer.size
        invariant current == |buffers| ==> currentBufferPosition == 0
        invariant position == BytesBefore(buffers, current) + currentBufferPosition
        invariant 0 < absN && position - absN == target
        decreases current
      {
        if currentBufferPosition >= absN {
          position := position - absN;
          currentBufferPosition := currentBufferPosition - absN;
          return true;
        }
        absN := absN - currentBufferPosition;
        position := position - currentBufferPosition;
        if current == 0 {
          assert false;  // the beginning is never reached with a distance left over
        }
        ghost var before := current;
        var iter: nat := current;
        while iter != 0
          invariant iter <= current == before
          invariant BytesBefore(buffers, iter) == position == BytesBefore(buffers, before)
        {
          iter := iter - 1;
          var buffer := buffers[iter];
          BytesBeforeMonotone(buffers, iter + 1, |buffers|);
          if buffer.size > 0 {
            current, currentBuffer, currentBufferPosition := iter, buffer, buffer.size;
            break;
          }
        }
        assert current < before;  // so every round finds an earlier non-empty buffer
      }
    }

    /** Difference of two iterators over one sequence: distance_to of the right one to the left one. */
    function Minus(other: Iterator): int
      reads this, other
    {
      position - other.position
    }

    predicate Equal(other: Iterator)
      reads this, other
    {
      position == other.position
    }

    predicate Less(other: Iterator)
      reads this, other
    {
      other.Minus(this) > 0
    }

    method Plus(n: PtrDiff) returns (ok: bool, r: Iterator)
      requires Valid() && -PTRDIFF_MAX <= n
      ensures fresh(r) && r.buffers == buffers
      ensures ok <==> 0 <= position + n <= Total(buffers)
      ensures ok ==> r.Valid() && r.position == position + n
    {
      r := new Iterator.Copy(this);
      ok := r.Advance(n);
    }

    /** Any run of moves: it trips an assertion exactly when some stop is out of range, and otherwise
        lands on the cell of the net displacement, so runs with equal displacement are
        interchangeable. */
    method Run(moves: seq<Move>) returns (ok: bool)
      requires Valid()
      requires forall i :: 0 <= i < |moves| && moves[i].Advance? ==> -PTRDIFF_MAX <= moves[i].n
      modifies this
      ensures ok <==> StaysInRange(old(position), Total(buffers), moves)
      ensures ok ==> Valid() && position == old(position) + NetDisplacement(moves)
    {
      ok := true;
      var i := 0;
      while i < |moves|
        invariant i <= |moves| && Valid()
        invariant position + NetDisplacement(moves[i..]) == old(position) + NetDisplacement(moves)
        invariant StaysInRange(position, Total(buffers), moves[i..]) <==> StaysInRange(old(position), Total(buffers), moves)
      {
        FlatIndexBound(buffers, current, currentBufferPosition);
        assert moves[i..][1..] == moves[i + 1..];
        match moves[i] {
          case Next => ok := Increment();
          case Previous => ok := Decrement();
          case Advance(n) => ok := Advance(n);
        }
        if !ok {
          return;
        }
        i := i + 1;
      }
    }
  }

  /** ==, < and - of two iterators over one sequence agree with the cells they are on. */
  lemma OperatorsAgreeWithCells(a: Iterator, b: Iterator)
    requires a.Valid() && b.Valid() && a.buffers == b.buffers
    ensures a.Equal(b) <==> a.current == b.current && a.currentBufferPosition == b.currentBufferPosition
    ensures a.Less(b) <==> a.current < b.current || (a.current == b.current && a.currentBufferPosition < b.currentBufferPosition)
    ensures a.position < Total(a.buffers) && a.Equal(b) ==> a.currentBuffer == b.currentBuffer
  {
    FlatIndexOrder(a.buffers, a.current, a.currentBufferPosition, b.current, b.currentBufferPosition);
    FlatIndexBound(a.buffers, a.current, a.currentBufferPosition);
  }

  /** a + (b - a) is b: the same cell, with no assertion failing. */
  method PlusDifference(a: Iterator, b: Iterator) returns (ok: bool, r: Iterator)
    requires a.Valid() && b.Valid() && a.buffers == b.buffers
    ensures ok && r.Valid() && r.Equal(b)
    ensures r.current == b.current && r.currentBufferPosition == b.currentBufferPosition
  {
    FlatIndexBound(a.buffers, a.current, a.currentBufferPosition);
    FlatIndexBound(b.buffers, b.current, b.currentBufferPosition);
    ok, r := a.Plus(b.Minus(a));
    OperatorsAgreeWithCells(r, b);
  }
}
