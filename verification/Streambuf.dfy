/** The byte queue kept in one growing array (src/asio/basic_streambuf.hpp).

    The four stream pointers are offsets into the array. A thrown length_error is the result
    `ok == false`. */
module Streambuf {
  import opened Basics
  import opened ByteRegions

  const BUFFER_DELTA: nat := 128
  const INT_MAX: nat := 0x7fff_ffff

  /** What a failed reserve leaves of the input sequence: its tail has been moved down over it by
      the get offset, while the stream pointers stay where they were. */
  function Torn(contents: seq<Byte>, gnext: nat): (r: seq<Byte>)
    ensures |r| == |contents|
  {
    if gnext < |contents| then contents[gnext..] + contents[|contents| - gnext..] else contents
  }

  /** A failed reserve preserves every input sequence of length n exactly when nothing was consumed
      before it in the array, or at least as much as is left. */
  lemma TornKeepsContents(n: nat, gnext: nat)
    ensures (forall c: seq<Byte> | |c| == n :: Torn(c, gnext) == c) <==> gnext == 0 || gnext >= n
  {
    if gnext == 0 || gnext >= n {
      forall c: seq<Byte> | |c| == n
        ensures Torn(c, gnext) == c
      {
      }
    } else {
      var c: seq<Byte> := [1] + seq(n - 1, _ => 0);
      assert Torn(c, gnext)[0] == c[gnext] != c[0];
    }
  }

  // ---------- the abstract queue ----------

  /** Operations of a client. Write is prepare(|data|), filling the prepared region with data and
      commit(count); Get is sbumpc of the standard stream buffer. */
  datatype Op = Write(data: seq<Byte>, count: nat) | Put(c: Byte) | Peek | Get | Consume(n: nat)

  datatype Outcome = Done | TooLong | Read(c: Byte) | Eof

  datatype Effect = Effect(queue: seq<Byte>, outcome: Outcome, put: seq<Byte>, taken: seq<Byte>)

  /** The operations on a queue of at most max bytes, without arrays, offsets, shifts or growth. */
  function Apply(q: seq<Byte>, max: nat, op: Op): Effect {
    match op
    case Write(data, count) =>
      if |q| + |data| > max then Effect(q, TooLong, [], [])
      else var put := data[..Min(count, |data|)]; Effect(q + put, Done, put, [])
    case Put(c) =>
      if |q| >= max then Effect(q, TooLong, [], []) else Effect(q + [c], Done, [c], [])
    case Peek =>
      if q == [] then Effect(q, Eof, [], []) else Effect(q, Read(q[0]), [], [])
    case Get =>
      if q == [] then Effect(q, Eof, [], []) else Effect(q[1..], Read(q[0]), [], [q[0]])
    case Consume(n) =>
      Effect(q[Min(n, |q|)..], Done, [], q[..Min(n, |q|)])
  }

  /** No more is committed than was prepared, and amounts fit the int they are converted to. */
  predicate AmountsFit(op: Op) {
    match op
    case Write(data, count) => count <= |data| <= INT_MAX
    case Consume(n) => n <= INT_MAX
    case _ => true
  }

  /** A run ends early when a prepare throws. */
  predicate Stops(op: Op, outcome: Outcome) {
    op.Write? && outcome.TooLong?
  }

  datatype Trace = Trace(queue: seq<Byte>, outcomes: seq<Outcome>, put: seq<Byte>, taken: seq<Byte>)

  function ApplyAll(q: seq<Byte>, max: nat, ops: seq<Op>): Trace
    decreases ops
  {
    if ops == [] then Trace(q, [], [], [])
    else
      var e := Apply(q, max, ops[0]);
      if Stops(ops[0], e.outcome) then Trace(e.queue, [e.outcome], e.put, e.taken)
      else
        var rest := ApplyAll(e.queue, max, ops[1..]);
        Trace(rest.queue, [e.outcome] + rest.outcomes, e.put + rest.put, e.taken + rest.taken)
  }

  lemma StepConserves(q: seq<Byte>, max: nat, op: Op)
    requires |q| <= max
    ensures var e := Apply(q, max, op); q + e.put == e.taken + e.queue && |e.queue| <= max
  {
  }

  /** Nothing is lost, duplicated or reordered: what was there and what was put is what was taken
      followed by what is left, and the bound is never exceeded. */
  lemma {:induction false} Conservation(q: seq<Byte>, max: nat, ops: seq<Op>)
    requires |q| <= max
    ensures var t := ApplyAll(q, max, ops); q + t.put == t.taken + t.queue && |t.queue| <= max
    decreases ops
  {
    if ops != [] {
      var e := Apply(q, max, ops[0]);
      StepConserves(q, max, ops[0]);
      if !Stops(ops[0], e.outcome) {
        Conservation(e.queue, max, ops[1..]);
        var rest := ApplyAll(e.queue, max, ops[1..]);
        Regroup(q, e.put, e.taken, e.queue, rest.put, rest.taken, rest.queue);
      }
    }
  }

  lemma Regroup(q: seq<Byte>, put: seq<Byte>, taken: seq<Byte>, mid: seq<Byte>,
                put': seq<Byte>, taken': seq<Byte>, end: seq<Byte>)
    requires q + put == taken + mid && mid + put' == taken' + end
    ensures q + (put + put') == (taken + taken') + end
  {
    calc {
      q + (put + put');
      (q + put) + put';
      taken + (mid + put');
      (taken + taken') + end;
    }
  }

  // ---------- the stream buffer ----------

  class Streambuf {
    const maxSize: nat
    var buffer: array<Byte>
    var gptr: nat
    var egptr: nat
    var pptr: nat
    var epptr: nat

    ghost predicate Valid()
      reads this
    {
      && gptr <= egptr <= pptr <= epptr <= maxSize
      && buffer.Length == Max(epptr, 1)
    }

    /** The input sequence. */
    ghost function Contents(): (s: seq<Byte>)
      requires Valid()
      reads this, buffer
      ensures |s| == Size()
    {
      buffer[gptr..pptr]
    }

    function Size(): nat
      requires Valid()
      reads this
    {
      pptr - gptr
    }

    constructor (maximumSize: nat)
      ensures Valid() && fresh(buffer) && maxSize == maximumSize
      ensures Contents() == [] && gptr == 0 && epptr == Min(maximumSize, BUFFER_DELTA)
    {
      var pend := Min(maximumSize, BUFFER_DELTA);
      maxSize := maximumSize;
      buffer := new Byte[Max(pend, 1)](_ => 0);
      gptr, egptr, pptr, epptr := 0, 0, 0, pend;
    }

    /** buffer_.resize: keeps the common prefix and fills with zeros. */
    method Resize(length: nat)
      modifies this`buffer
      ensures fresh(buffer) && buffer.Length == length
      ensures old(buffer.Length) <= length ==> buffer[..old(buffer.Length)] == old(buffer[..])
    {
      var old' := buffer;
      buffer := new Byte[length](i requires 0 <= i reads old' => if i < old'.Length then old'[i] else 0);
    }

    /** memmove of count bytes to the start of the array. */
    method MoveDown(from: nat, count: nat)
      requires from + count <= buffer.Length
      modifies buffer
      ensures buffer[..count] == old(buffer[from..from + count])
      ensures buffer[count..] == old(buffer[count..])
    {
      forall i | 0 <= i < count {
        buffer[i] := buffer[from + i];
      }
    }

    /** The second half of reserve: the array gets room for n bytes behind the first pnext. */
    method Grow(pnext: nat, pend: nat, n: nat) returns (ok: bool, pend': nat)
      requires pnext <= pend <= maxSize && buffer.Length == Max(pend, 1)
      modifies this`buffer
      ensures ok <==> pnext + n <= maxSize
      ensures ok ==> pnext + n <= pend' <= maxSize && buffer.Length == Max(pend', 1)
      ensures ok ==> buffer[..pnext] == old(buffer[..pnext]) && (buffer == old(buffer) || fresh(buffer))
      ensures !ok ==> buffer == old(buffer)
    {
      pend' := pend;
      if n > pend - pnext {
        if n <= maxSize && pnext <= maxSize - n {
          pend' := pnext + n;
          Resize(Max(pend', 1));
          assert buffer[..pnext] == buffer[..old(buffer.Length)][..pnext];
        } else {
          return false, pend';
        }
      }
      ok := true;
    }

    /** The first half of reserve: the bytes move to the start of the array, the stream pointers do not. */
    method ShiftDown() returns (pnext: nat)
      requires Valid()
      modifies buffer
      ensures pnext == Size() && buffer[..pnext] == old(Contents())
      ensures Contents() == Torn(old(Contents()), gptr)
    {
      pnext := pptr;
      if gptr > 0 {
        pnext := pnext - gptr;
        MoveDown(gptr, pnext);
        TornByMove(old(buffer[..]), buffer[..], gptr, pptr);
      }
    }

    /** Makes room for n more bytes. It fails exactly when the maximum size would be exceeded. */
    method Reserve(n: nat) returns (ok: bool)
      requires Valid()
      modifies this, buffer
      ensures Valid() && (buffer == old(buffer) || fresh(buffer))
      ensures ok <==> old(Size()) + n <= maxSize
      ensures ok ==> Contents() == old(Contents()) && n <= epptr - pptr
      ensures ok ==> gptr == 0 || gptr == old(gptr)
      ensures !ok ==> Contents() == Torn(old(Contents()), old(gptr)) && gptr == old(gptr)
    {
      if n <= epptr - pptr {
        return true;
      }
      var pnext := ShiftDown();
      var pend;
      ok, pend := Grow(pnext, epptr, n);
      if !ok {
        return;
      }
      gptr, egptr := 0, pnext;
      pptr, epptr := pnext, pend;
      assert Contents() == buffer[..pnext] == old(Contents());
    }

    /** Reserves room for n bytes and returns the region at the put pointer. */
    method Prepare(n: nat) returns (ok: bool, region: Region)
      requires Valid()
      modifies this, buffer
      ensures Valid() && (buffer == old(buffer) || fresh(buffer))
      ensures ok <==> old(Size()) + n <= maxSize
      ensures ok ==> Contents() == old(Contents()) && region == Region(pptr, n) && n <= epptr - pptr
      ensures ok ==> gptr == 0 || gptr == old(gptr)
      ensures !ok ==> Contents() == Torn(old(Contents()), old(gptr))
    {
      ok := Reserve(n);
      region := Region(pptr, n);
    }

    /** The client's write into a prepared region. */
    method Fill(region: Region, data: seq<Byte>)
      requires Valid() && region.start == pptr && region.size == |data| && pptr + |data| <= epptr
      modifies buffer
      ensures Contents() == old(Contents())
      ensures buffer[pptr..pptr + |data|] == data
    {
      forall i | 0 <= i < |data| {
        buffer[region.start + i] := data[i];
      }
    }

    /** Moves up to n bytes from the output to the input sequence. The amount is passed as an int. */
    method Commit(n: nat)
      requires Valid() && Min(n, epptr - pptr) <= INT_MAX
      modifies this
      ensures Valid() && buffer == old(buffer)
      ensures pptr == old(pptr) + Min(n, old(epptr - pptr)) && gptr == old(gptr)
      ensures Contents() == old(Contents()) + old(buffer[pptr..pptr + Min(n, epptr - pptr)])
    {
      var n := n;
      if pptr + n > epptr {
        n := epptr - pptr;
      }
      SplitSlice(buffer, gptr, pptr, pptr + n);
      pptr := pptr + n;
      egptr := pptr;
    }

    /** Drops up to n bytes from the front. The amount is passed as an int. */
    method ConsumeBytes(n: nat)
      requires Valid() && Min(n, Size()) <= INT_MAX
      modifies this
      ensures Valid() && buffer == old(buffer)
      ensures Contents() == old(Contents())[Min(n, old(Size()))..] && gptr == old(gptr) + Min(n, old(Size()))
    {
      var n := n;
      if egptr < pptr {
        egptr := pptr;
      }
      if gptr + n > pptr {
        n := pptr - gptr;
      }
      gptr := gptr + n;
    }

    method Underflow() returns (c: Option<Byte>)
      requires Valid()
      modifies this
      ensures Valid() && buffer == old(buffer) && Contents() == old(Contents())
      ensures c == if Contents() == [] then None else Some(Contents()[0])
      ensures c.Some? ==> gptr < egptr
    {
      if gptr < pptr {
        egptr := pptr;
        c := Some(buffer[gptr]);
      } else {
        c := None;
      }
    }

    /** Appends one byte, growing the array if it is full; c == None is the end-of-file value. */
    method Overflow(c: Option<Byte>) returns (ok: bool)
      requires Valid()
      modifies this, buffer
      ensures Valid() && (buffer == old(buffer) || fresh(buffer))
      ensures ok <==> c.None? || old(Size()) < maxSize
      ensures Contents() == if ok && c.Some? then old(Contents()) + [c.value] else old(Contents())
    {
      if c.None? {
        return true;
      }
      ok := true;
      if pptr == epptr {
        ok := ReserveMore();
      }
      if ok {
        buffer[pptr] := c.value;
        pptr := pptr + 1;
      }
    }

    /** The growth of a full array by a fixed amount, or up to the maximum. It fails only with the maximum
        used up, when nothing was consumed and so nothing is torn. */
    method ReserveMore() returns (ok: bool)
      requires Valid() && pptr == epptr
      modifies this, buffer
      ensures Valid() && (buffer == old(buffer) || fresh(buffer)) && Contents() == old(Contents())
      ensures ok <==> old(Size()) < maxSize
      ensures ok ==> pptr < epptr
    {
      var bufferSize := pptr - gptr;
      if bufferSize < maxSize && maxSize - bufferSize < BUFFER_DELTA {
        ok := Reserve(maxSize - bufferSize);
      } else {
        ok := Reserve(BUFFER_DELTA);
      }
    }

    // The two standard stream buffer entry points that fall back on overflow and underflow.

    method PutByte(c: Byte) returns (ok: bool)
      requires Valid()
      modifies this, buffer
      ensures Valid() && (buffer == old(buffer) || fresh(buffer))
      ensures ok <==> old(Size()) < maxSize
      ensures Contents() == if ok then old(Contents()) + [c] else old(Contents())
    {
      if pptr < epptr {
        buffer[pptr] := c;
        pptr := pptr + 1;
        ok := true;
      } else {
        ok := Overflow(Some(c));
      }
    }

    method GetByte() returns (c: Option<Byte>)
      requires Valid()
      modifies this
      ensures Valid() && buffer == old(buffer)
      ensures c == if old(Contents()) == [] then None else Some(old(Contents())[0])
      ensures Contents() == if old(Contents()) == [] then [] else old(Contents())[1..]
    {
      if gptr < egptr {
        c := Some(buffer[gptr]);
        gptr := gptr + 1;
      } else {
        c := Underflow();
        if c.Some? {
          gptr := gptr + 1;
        }
      }
    }

    /** The preferred read size, for the array's capacity (at least its length) and a caller's cap: as much
        as fits the maximum and the cap, but no more than the larger of 512 and the free capacity. */
    function ReadSizeHelper(cap: nat, capacity: nat): (n: nat)
      requires Valid() && capacity >= buffer.Length
      reads this
      ensures Size() + n <= maxSize && n <= cap && (n <= 512 || Size() + n <= capacity)
      ensures Size() + n == maxSize || n == cap || (n >= 512 && Size() + n >= capacity)
      ensures n > 0 <==> cap > 0 && Size() < maxSize
    {
      Min(Max(512, capacity - Size()), Min(cap, maxSize - Size()))
    }

    /** The overload for other specialisations of the class. */
    function ReadSizeHelperGeneric(cap: nat): (n: nat)
      requires Valid()
      reads this
      ensures Size() + n <= maxSize && n <= cap && n <= 512
      ensures Size() + n == maxSize || n == cap || n == 512
      ensures n > 0 <==> cap > 0 && Size() < maxSize
    {
      Min(512, Min(cap, maxSize - Size()))
    }

    /** prepare(read_size_helper(sb, cap)) never throws. */
    method PrepareForRead(cap: nat, capacity: nat) returns (ok: bool, region: Region)
      requires Valid() && capacity >= buffer.Length
      modifies this, buffer
      ensures ok && Valid() && Contents() == old(Contents())
    {
      ok, region := Prepare(ReadSizeHelper(cap, capacity));
    }

    /** A client's write into the prepared region and commit. */
    method FillAndCommit(region: Region, data: seq<Byte>, count: nat)
      requires Valid() && region.start == pptr && region.size == |data| && pptr + |data| <= epptr
      requires count <= |data| <= INT_MAX
      modifies this, buffer
      ensures Valid() && buffer == old(buffer) && gptr == old(gptr)
      ensures Contents() == old(Contents()) + data[..count]
    {
      Fill(region, data);
      PrefixOfSlice(buffer, pptr, count, |data|);
      assert Min(count, epptr - pptr) == count;
      Commit(count);
    }

    /** A client's prepare, fill and commit. */
    method WriteBlock(data: seq<Byte>, count: nat) returns (ok: bool)
      requires Valid() && count <= |data| <= INT_MAX
      modifies this, buffer
      ensures Valid() && (buffer == old(buffer) || fresh(buffer))
      ensures ok <==> old(Size()) + |data| <= maxSize
      ensures ok ==> Contents() == old(Contents()) + data[..count] && (gptr == 0 || gptr == old(gptr))
    {
      var region;
      ok, region := Prepare(|data|);
      if ok {
        FillAndCommit(region, data, count);
      }
    }

    method Execute(op: Op) returns (outcome: Outcome)
      requires Valid()
      requires AmountsFit(op)
      modifies this, buffer
      ensures Valid() && (buffer == old(buffer) || fresh(buffer))
      ensures var e := Apply(old(Contents()), maxSize, op);
              outcome == e.outcome && (!Stops(op, outcome) ==> Contents() == e.queue)
    {
      outcome := Done;
      match op {
        case Write(data, count) =>
          var ok := WriteBlock(data, count);
          outcome := if ok then Done else TooLong;
        case Put(c) =>
          var ok := PutByte(c);
          outcome := if ok then Done else TooLong;
        case Peek =>
          var c := Underflow();
          outcome := if c.Some? then Read(c.value) else Eof;
        case Get =>
          var c := GetByte();
          outcome := if c.Some? then Read(c.value) else Eof;
        case Consume(n) =>
          ConsumeBytes(n);
      }
    }

    /** Any run of operations gives the outcomes and the contents of the abstract queue. */
    method Run(ops: seq<Op>) returns (outcomes: seq<Outcome>)
      requires Valid()
      requires forall i :: 0 <= i < |ops| ==> AmountsFit(ops[i])
      modifies this, buffer
      ensures Valid()
      ensures var t := ApplyAll(old(Contents()), maxSize, ops);
              && outcomes == t.outcomes
              && |outcomes| <= |ops|
              && (outcomes == [] || !Stops(ops[|outcomes| - 1], outcomes[|outcomes| - 1]) ==> Contents() == t.queue)
    {
      outcomes := [];
      ghost var q := Contents();
      ghost var all := ApplyAll(q, maxSize, ops);
      var i := 0;
      while i < |ops|
        invariant i <= |ops| && |outcomes| == i && Valid() && (buffer == old(buffer) || fresh(buffer))
        invariant Contents() == q && Extends(all, outcomes, ApplyAll(q, maxSize, ops[i..]))
        invariant i > 0 ==> !Stops(ops[i - 1], outcomes[i - 1])
      {
        ghost var e := ApplyNext(q, maxSize, ops, i, outcomes, all);
        var outcome := Execute(ops[i]);
        assert outcome == e.outcome;
        outcomes := outcomes + [outcome];
        if Stops(ops[i], outcome) {
          return;
        }
        q := e.queue;
        i := i + 1;
      }
    }
  }

  /** A stream buffer whose contents a throwing prepare changes, although nothing is wrong with its use. */
  method TearsByThrowing() returns (b: Streambuf, ghost before: seq<Byte>, ok: bool)
    ensures b.Valid() && b.maxSize == 4 && before == [2, 3]
    ensures !ok && b.Contents() == [3, 3]
  {
    b := new Streambuf(4);
    ok := b.WriteBlock([1, 2, 3], 3);
    b.ConsumeBytes(1);
    before := b.Contents();
    var region;
    ok, region := b.Prepare(3);
  }

  /** `rest` is what is left of the trace `all` after the given outcomes. */
  ghost predicate Extends(all: Trace, outcomes: seq<Outcome>, rest: Trace) {
    all.outcomes == outcomes + rest.outcomes && all.queue == rest.queue
  }

  lemma ApplyNext(q: seq<Byte>, max: nat, ops: seq<Op>, i: nat, outcomes: seq<Outcome>, all: Trace) returns (e: Effect)
    requires i < |ops| && Extends(all, outcomes, ApplyAll(q, max, ops[i..]))
    ensures e == Apply(q, max, ops[i])
    ensures if Stops(ops[i], e.outcome) then all.outcomes == outcomes + [e.outcome]
            else Extends(all, outcomes + [e.outcome], ApplyAll(e.queue, max, ops[i + 1..]))
  {
    e := Apply(q, max, ops[i]);
    assert ops[i..][1..] == ops[i + 1..];
  }

  lemma SplitSlice(a: array<Byte>, lo: nat, mid: nat, hi: nat)
    requires lo <= mid <= hi <= a.Length
    ensures a[lo..hi] == a[lo..mid] + a[mid..hi]
  {
  }

  lemma PrefixOfSlice(a: array<Byte>, lo: nat, count: nat, length: nat)
    requires count <= length && lo + length <= a.Length
    ensures a[lo..lo + count] == a[lo..lo + length][..count]
  {
  }

  lemma TornByMove(before: seq<Byte>, after: seq<Byte>, gptr: nat, pptr: nat)
    requires gptr <= pptr <= |before| == |after|
    requires after[..pptr - gptr] == before[gptr..pptr]
    requires after[pptr - gptr..] == before[pptr - gptr..]
    ensures after[gptr..pptr] == Torn(before[gptr..pptr], gptr)
  {
    forall i | gptr <= i < pptr
      ensures after[i] == Torn(before[gptr..pptr], gptr)[i - gptr]
    {
      if i < pptr - gptr {
        assert after[i] == after[..pptr - gptr][i];
      } else {
        assert after[i] == after[pptr - gptr..][i - (pptr - gptr)];
      }
    }
  }
}
