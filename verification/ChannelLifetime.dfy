/** Life of a channel as a state machine (src/Channel.cpp, src/Object.hpp).

    One event loop thread runs completion handlers one after the other. Every pending timer wait, read
    and write holds a reference, the open socket holds one, and so does every ptr. The functions of this
    module say what each step does to one channel; the class in ChannelObject.dfy performs the steps in
    place and is proved against them.

    The environment follows the contracts of the library: a cancelled operation completes with an abort,
    one that was already queued cannot be cancelled (src/asio/basic_waitable_timer.hpp:206-214), an
    operation started on a closed socket fails (src/asio/detail/impl/epoll_reactor.ipp:209-214), one
    started on an open socket may be performed at once (src/asio/detail/impl/epoll_reactor.ipp:224-234),
    and no handler runs inside the call that starts its operation. */
module ChannelLifetime {
  import opened Basics

  datatype Result = Success | Aborted | Eof | Failed

  /** The pending operations of one kind: armed ones wait for the system, the others are queued with
      their result until the loop runs their handler. */
  datatype Ops = Ops(armed: nat, queued: multiset<Result>) {
    function Total(): nat {
      armed + |queued|
    }

    /** One more operation. On a closed socket it is queued as failed at once, on an open one it is queued
        with its result if it can be performed now. */
    function Start(works: bool, now: Option<Result>): Ops {
      if !works then this.(queued := queued + multiset{Failed})
      else if now.Some? then this.(queued := queued + multiset{now.value})
      else this.(armed := armed + 1)
    }

    /** All armed operations are queued as aborted. */
    function Cancel(): Ops {
      Ops(0, queued[Aborted := queued[Aborted] + armed])
    }

    function Finish(r: Result): Ops
      requires armed > 0
    {
      Ops(armed - 1, queued + multiset{r})
    }

    function Take(r: Result): Ops
      requires r in queued
    {
      this.(queued := queued - multiset{r})
    }
  }

  const NO_OPS := Ops(0, multiset{})

  /** The accept operation that created the channel. Between Accepted and its handler the socket is
      open already (src/asio/detail/reactive_socket_accept_op.hpp:59-67) but the reference for the open
      socket is not yet added. */
  datatype Accept = Waiting | Accepted | Refused | Handled

  datatype Channel = Channel(
    referenceCount: int,
    txPending: int,
    open: bool,
    waitOps: Ops,
    readOps: Ops,
    writeOps: Ops,
    handles: nat,     // ptrs to the channel outside the accept handler
    accept: Accept,
    deletions: nat,
    misused: bool)    // the channel was accessed after its deletion

  /** What user code does in a callback, or from outside through a ptr. Close carries what onError does
      if closing the socket reports an error, Send the result of a write that is performed at once. */
  datatype Act = Send(now: Option<Result>) | Close(onError: seq<Act>) | AddHandle | DropHandle

  // ---------- steps of the source ----------

  function Touch(c: Channel): Channel {
    c.(misused := c.misused || c.deletions > 0)
  }

  function AddReference(c: Channel): Channel {
    Touch(c).(referenceCount := c.referenceCount + 1)
  }

  function RemoveReference(c: Channel): Channel {
    Touch(c).(referenceCount := c.referenceCount - 1,
              deletions := c.deletions + if c.referenceCount == 1 then 1 else 0)
  }

  /** addReference, restart of the timeout timer and async_wait. */
  function RestartTimer(c: Channel): Channel {
    var c := AddReference(c);
    c.(waitOps := c.waitOps.Cancel().Start(true, None))
  }

  function SendData(c: Channel, now: Option<Result>): Channel {
    var c := AddReference(RestartTimer(c));
    c.(txPending := c.txPending + 1, writeOps := c.writeOps.Start(c.open, now))
  }

  function Receive(c: Channel, now: Option<Result>): Channel {
    var c := AddReference(RestartTimer(c));
    c.(readOps := c.readOps.Start(c.open, now))
  }

  /** timer.cancel and socket.close. */
  function CloseSocket(c: Channel): Channel {
    c.(waitOps := c.waitOps.Cancel(), readOps := c.readOps.Cancel(), writeOps := c.writeOps.Cancel(), open := false)
  }

  function Do(c: Channel, act: Act): Channel
    decreases act, 0
  {
    match act
    case Send(now) => SendData(c, now)
    case Close(onError) =>
      if Touch(c).open then RemoveReference(Perform(CloseSocket(Touch(c)), onError)) else Touch(c)
    case AddHandle => AddReference(c.(handles := c.handles + 1))
    case DropHandle => if c.handles > 0 then RemoveReference(c.(handles := c.handles - 1)) else c
  }

  function Perform(c: Channel, acts: seq<Act>): Channel
    decreases acts, 1
  {
    if acts == [] then c else Perform(Do(c, acts[0]), acts[1..])
  }

  /** The handler of a timer wait; onTimeout does acts. */
  function WaitHandler(c: Channel, r: Result, acts: seq<Act>): Channel
    requires r in c.waitOps.queued
  {
    var c := Touch(c.(waitOps := c.waitOps.Take(r)));
    RemoveReference(if r.Success? then Perform(c, acts) else c)
  }

  /** The handler of a write at its start, and after reporting an error to onError, which does acts. */
  function WriteBegun(c: Channel, r: Result): Channel
    requires r in c.writeOps.queued
  {
    Touch(c.(writeOps := c.writeOps.Take(r), txPending := c.txPending - 1))
  }

  function WriteReported(c: Channel, r: Result, acts: seq<Act>): Channel
    requires r in c.writeOps.queued
  {
    if r.Success? then WriteBegun(c, r) else Perform(WriteBegun(c, r), acts)
  }

  /** The handler of a write; onError does acts, onReadyToSend does more. */
  function WriteHandler(c: Channel, r: Result, acts: seq<Act>, more: seq<Act>): Channel
    requires r in c.writeOps.queued
  {
    var c := WriteReported(c, r, acts);
    RemoveReference(if c.txPending == 0 then Perform(c, more) else c)
  }

  /** The handler of a read up to its callback; the next read may be performed at once. */
  function ReadBegun(c: Channel, r: Result, now: Option<Result>): Channel
    requires r in c.readOps.queued
  {
    var begun := Touch(c.(readOps := c.readOps.Take(r)));
    if r.Success? then Receive(begun, now) else begun
  }

  /** The handler of a read; onData, onShutdown or onError does acts, an abort is ignored. */
  function ReadHandler(c: Channel, r: Result, now: Option<Result>, acts: seq<Act>): Channel
    requires r in c.readOps.queued
  {
    var c := ReadBegun(c, r, now);
    RemoveReference(if r.Aborted? then c else Perform(c, acts))
  }

  /** The channel's part of the accept handler; onConnect does acts. At its end the handler's own ptr is
      destroyed. */
  function AcceptHandler(c: Channel, acts: seq<Act>, now: Option<Result>): Channel {
    var done := c.(accept := Handled);
    RemoveReference(if c.accept.Accepted? then Receive(Perform(AddReference(done), acts), now) else done)
  }

  // ---------- events ----------

  datatype Event =
    | Outside(act: Act)                                    // through a ptr, between handlers
    | WaitExpires
    | ReadCompletes(result: Result)
    | WriteCompletes(result: Result)
    | AcceptCompletes(ok: bool)
    | RunWait(result: Result, acts: seq<Act>)
    | RunRead(result: Result, now: Option<Result>, acts: seq<Act>)
    | RunWrite(result: Result, acts: seq<Act>, more: seq<Act>)
    | RunAccept(acts: seq<Act>, now: Option<Result>)

  predicate Enabled(c: Channel, e: Event) {
    match e
    case Outside(_) => c.handles > 0
    case WaitExpires => c.waitOps.armed > 0
    case ReadCompletes(r) => c.readOps.armed > 0 && !r.Aborted?
    case WriteCompletes(r) => c.writeOps.armed > 0 && (r.Success? || r.Failed?)
    case AcceptCompletes(_) => c.accept.Waiting?
    case RunWait(r, _) => r in c.waitOps.queued
    case RunRead(r, _, _) => r in c.readOps.queued
    case RunWrite(r, _, _) => r in c.writeOps.queued
    case RunAccept(_, _) => c.accept.Accepted? || c.accept.Refused?
  }

  function Step(c: Channel, e: Event): Channel
    requires Enabled(c, e)
  {
    match e
    case Outside(act) => Do(c, act)
    case WaitExpires => c.(waitOps := c.waitOps.Finish(Success))
    case ReadCompletes(r) => c.(readOps := c.readOps.Finish(r))
    case WriteCompletes(r) => c.(writeOps := c.writeOps.Finish(r))
    case AcceptCompletes(ok) => c.(accept := if ok then Accepted else Refused, open := c.open || ok)
    case RunWait(r, acts) => WaitHandler(c, r, acts)
    case RunRead(r, now, acts) => ReadHandler(c, r, now, acts)
    case RunWrite(r, acts, more) => WriteHandler(c, r, acts, more)
    case RunAccept(acts, now) => AcceptHandler(c, acts, now)
  }

  /** Right after listen: the accept handler's ptr, and `keep` ptrs kept by createChannel. */
  function Created(keep: nat): Channel {
    Channel(keep + 1, 0, false, NO_OPS, NO_OPS, NO_OPS, keep, Waiting, 0, false)
  }

  // ---------- the reference count ----------

  /** Those who own a reference: ptrs, the accept handler's ptr, pending waits, reads and writes, and the
      socket while it is open and its accept handler has started. */
  function Owners(c: Channel): nat {
    c.handles + (if c.accept.Handled? then 0 else 1)
    + c.waitOps.Total() + c.readOps.Total() + c.writeOps.Total()
    + (if c.open && !c.accept.Accepted? then 1 else 0)
  }

  /** References beyond those owned: the ones held by the code that is running. */
  function Held(c: Channel): int {
    c.referenceCount - Owners(c)
  }

  /** The socket is open but the accept handler has not run. */
  predicate InGap(c: Channel) {
    c.accept.Accepted? && c.open
  }

  predicate HasClose(acts: seq<Act>) {
    exists i :: 0 <= i < |acts| && acts[i].Close?
  }

  lemma SendIsNeutral(c: Channel, now: Option<Result>)
    ensures Held(SendData(c, now)) == Held(c)
    ensures SendData(c, now).accept == c.accept && SendData(c, now).open == c.open
  {
  }

  /** The bookkeeping of every piece of user code, whatever state it starts from: it is neutral, except
      that a close in the gap takes a reference nobody added. */
  lemma {:induction false} DoKeepsHeld(c: Channel, act: Act)
    ensures Held(Do(c, act)) == Held(c) - if InGap(c) && act.Close? then 1 else 0
    ensures Do(c, act).accept == c.accept
    ensures Do(c, act).open == (c.open && !act.Close?)
    decreases act, 0
  {
    match act {
      case Send(now) => SendIsNeutral(c, now);
      case Close(onError) =>
        if c.open {
          PerformKeepsHeld(CloseSocket(Touch(c)), onError);
        }
      case _ =>
    }
  }

  lemma {:induction false} PerformKeepsHeld(c: Channel, acts: seq<Act>)
    ensures Held(Perform(c, acts)) == Held(c) - if InGap(c) && HasClose(acts) then 1 else 0
    ensures Perform(c, acts).accept == c.accept
    ensures Perform(c, acts).open == (c.open && !HasClose(acts))
    decreases acts, 1
  {
    if acts != [] {
      DoKeepsHeld(c, acts[0]);
      PerformKeepsHeld(Do(c, acts[0]), acts[1..]);
      HasCloseUnfold(acts);
    }
  }

  lemma HasCloseUnfold(acts: seq<Act>)
    requires acts != []
    ensures HasClose(acts) <==> acts[0].Close? || HasClose(acts[1..])
  {
    if HasClose(acts) && !acts[0].Close? {
      var i :| 0 <= i < |acts| && acts[i].Close?;
      assert acts[1..][i - 1].Close?;
    }
  }

  /** The channel was never accessed after deletion, `held` references are held by the running code, and
      it is deleted (once) exactly when no reference is left. */
  predicate Good(c: Channel, held: nat) {
    && Held(c) == held && !c.misused
    && c.deletions == if c.referenceCount > 0 then 0 else 1
  }

  /** User code that runs while a reference is held, in a handler. */
  lemma {:induction false} DoIsSafe(c: Channel, act: Act, held: nat)
    requires Good(c, held) && held > 0 && !(InGap(c) && act.Close?)
    ensures Good(Do(c, act), held)
    decreases act, 0
  {
    if act.Close? && c.open {
      PerformIsSafe(CloseSocket(Touch(c)), act.onError, held + 1);
    }
  }

  lemma {:induction false} PerformIsSafe(c: Channel, acts: seq<Act>, held: nat)
    requires Good(c, held) && held > 0 && !(InGap(c) && HasClose(acts))
    ensures Good(Perform(c, acts), held)
    decreases acts, 1
  {
    if acts != [] {
      HasCloseUnfold(acts);
      DoIsSafe(c, acts[0], held);
      DoKeepsHeld(c, acts[0]);
      PerformIsSafe(Do(c, acts[0]), acts[1..], held);
    }
  }

  /** The end of a handler or call: its reference is given back. */
  lemma ReleaseIsSafe(c: Channel)
    requires Good(c, 1)
    ensures Good(RemoveReference(c), 0)
  {
  }

  lemma ClosingIsSafe(c: Channel, onError: seq<Act>)
    requires Good(c, 0) && c.handles > 0 && c.open && !InGap(c)
    ensures Good(Do(c, Close(onError)), 0)
  {
    var closing := CloseSocket(Touch(c));
    assert Good(closing, 1);
    PerformIsSafe(closing, onError, 1);
    ReleaseIsSafe(Perform(closing, onError));
  }

  /** User code outside handlers: the ptr it goes through keeps the channel alive up to the call. */
  lemma OutsideIsSafe(c: Channel, act: Act)
    requires Good(c, 0) && c.handles > 0 && !(InGap(c) && act.Close?)
    ensures Good(Do(c, act), 0)
  {
    if act.Close? && c.open {
      ClosingIsSafe(c, act.onError);
    }
  }

  // ---------- shape of the pending operations ----------

  /** Facts about pending operations that hold whatever the references do. */
  predicate Shape(c: Channel) {
    && c.txPending == c.writeOps.Total()
    && (!c.open ==> c.readOps.armed == 0 && c.writeOps.armed == 0)
    && (!c.accept.Handled? ==> c.readOps.Total() == 0)
    && (c.accept.Waiting? || c.accept.Refused? ==> !c.open)
    && c.readOps.Total() <= 1
  }

  lemma {:induction false} DoKeepsShape(c: Channel, act: Act)
    requires Shape(c)
    ensures Shape(Do(c, act)) && Do(c, act).readOps.Total() == c.readOps.Total()
    decreases act, 0
  {
    if act.Close? && c.open {
      PerformKeepsShape(CloseSocket(Touch(c)), act.onError);
    }
  }

  lemma {:induction false} PerformKeepsShape(c: Channel, acts: seq<Act>)
    requires Shape(c)
    ensures Shape(Perform(c, acts)) && Perform(c, acts).readOps.Total() == c.readOps.Total()
    decreases acts, 1
  {
    if acts != [] {
      DoKeepsShape(c, acts[0]);
      PerformKeepsShape(Do(c, acts[0]), acts[1..]);
    }
  }

  // ---------- the handlers ----------

  lemma ReceiveIsNeutral(c: Channel, now: Option<Result>)
    ensures Held(Receive(c, now)) == Held(c)
    ensures Shape(c) && c.readOps.Total() == 0 && c.accept.Handled? ==> Shape(Receive(c, now))
    ensures forall held: nat :: Good(c, held) && held > 0 ==> Good(Receive(c, now), held)
  {
  }

  lemma WaitHandlerKeeps(c: Channel, r: Result, acts: seq<Act>)
    requires r in c.waitOps.queued
    ensures Held(WaitHandler(c, r, acts)) == Held(c) - if InGap(c) && r.Success? && HasClose(acts) then 1 else 0
    ensures SameGap(c, WaitHandler(c, r, acts), if r.Success? then acts else [])
    ensures Shape(c) ==> Shape(WaitHandler(c, r, acts))
    ensures Good(c, 0) && !(InGap(c) && r.Success? && HasClose(acts)) ==> Good(WaitHandler(c, r, acts), 0)
  {
    var begun, performed := Touch(c.(waitOps := c.waitOps.Take(r))), if r.Success? then acts else [];
    assert WaitHandler(c, r, acts) == RemoveReference(Perform(begun, performed));
    HandlerEnds(c, begun, performed);
  }

  /** The accept state stays, and the socket stays open unless user code closed it. */
  predicate SameGap(c: Channel, c': Channel, acts: seq<Act>) {
    c'.accept == c.accept && (c'.open <==> c.open && !HasClose(acts))
  }

  lemma ReadBegunKeeps(c: Channel, r: Result, now: Option<Result>)
    requires r in c.readOps.queued
    ensures Held(ReadBegun(c, r, now)) == Held(c) + 1
    ensures ReadBegun(c, r, now).accept == c.accept && ReadBegun(c, r, now).open == c.open
    ensures Shape(c) ==> Shape(ReadBegun(c, r, now))
    ensures Good(c, 0) ==> Good(ReadBegun(c, r, now), 1)
  {
    var begun := Touch(c.(readOps := c.readOps.Take(r)));
    ReceiveIsNeutral(begun, now);
  }

  lemma ReadHandlerKeeps(c: Channel, r: Result, now: Option<Result>, acts: seq<Act>)
    requires r in c.readOps.queued
    ensures Held(ReadHandler(c, r, now, acts)) == Held(c) - if InGap(c) && !r.Aborted? && HasClose(acts) then 1 else 0
    ensures SameGap(c, ReadHandler(c, r, now, acts), if r.Aborted? then [] else acts)
    ensures Shape(c) ==> Shape(ReadHandler(c, r, now, acts))
    ensures Good(c, 0) && !(InGap(c) && !r.Aborted? && HasClose(acts)) ==> Good(ReadHandler(c, r, now, acts), 0)
  {
    var begun, performed := ReadBegun(c, r, now), if r.Aborted? then [] else acts;
    ReadBegunKeeps(c, r, now);
    assert ReadHandler(c, r, now, acts) == RemoveReference(Perform(begun, performed));
    HandlerEnds(c, begun, performed);
  }

  /** From the start of a handler, which holds one reference, through its callbacks to its end. */
  lemma HandlerEnds(c: Channel, begun: Channel, acts: seq<Act>)
    requires Held(begun) == Held(c) + 1 && begun.accept == c.accept && begun.open == c.open
    requires Shape(c) ==> Shape(begun)
    requires Good(c, 0) ==> Good(begun, 1)
    ensures var end := RemoveReference(Perform(begun, acts));
            && Held(end) == Held(c) - (if InGap(c) && HasClose(acts) then 1 else 0)
            && SameGap(c, end, acts)
            && (Shape(c) ==> Shape(end))
            && (Good(c, 0) && !(InGap(c) && HasClose(acts)) ==> Good(end, 0))
  {
    PerformKeepsHeld(begun, acts);
    if Shape(c) {
      PerformKeepsShape(begun, acts);
    }
    if Good(c, 0) && !(InGap(c) && HasClose(acts)) {
      PerformIsSafe(begun, acts, 1);
    }
  }

  /** The callbacks of a write handler: onError after a failure, onReadyToSend if nothing is pending then. */
  function WriteActs(c: Channel, r: Result, acts: seq<Act>, more: seq<Act>): seq<Act>
    requires r in c.writeOps.queued
  {
    (if r.Success? then [] else acts) + (if WriteReported(c, r, acts).txPending == 0 then more else [])
  }

  lemma {:induction false} PerformAppend(c: Channel, a: seq<Act>, b: seq<Act>)
    ensures Perform(c, a + b) == Perform(Perform(c, a), b)
    decreases a
  {
    if a == [] {
      assert a + b == b;
    } else {
      assert (a + b)[1..] == a[1..] + b;
      PerformAppend(Do(c, a[0]), a[1..], b);
    }
  }

  lemma WriteBegunKeeps(c: Channel, r: Result)
    requires r in c.writeOps.queued
    ensures Held(WriteBegun(c, r)) == Held(c) + 1
    ensures WriteBegun(c, r).accept == c.accept && WriteBegun(c, r).open == c.open
    ensures Shape(c) ==> Shape(WriteBegun(c, r))
    ensures Good(c, 0) ==> Good(WriteBegun(c, r), 1)
  {
  }

  lemma WriteHandlerKeeps(c: Channel, r: Result, acts: seq<Act>, more: seq<Act>)
    requires r in c.writeOps.queued
    ensures Held(WriteHandler(c, r, acts, more)) == Held(c) - if InGap(c) && HasClose(WriteActs(c, r, acts, more)) then 1 else 0
    ensures SameGap(c, WriteHandler(c, r, acts, more), WriteActs(c, r, acts, more))
    ensures Shape(c) ==> Shape(WriteHandler(c, r, acts, more))
    ensures Good(c, 0) && !(InGap(c) && HasClose(WriteActs(c, r, acts, more))) ==> Good(WriteHandler(c, r, acts, more), 0)
  {
    var begun, reported := WriteBegun(c, r), WriteReported(c, r, acts);
    var first := if r.Success? then [] else acts;
    var second := if reported.txPending == 0 then more else [];
    WriteBegunKeeps(c, r);
    PerformAppend(begun, first, second);
    assert WriteHandler(c, r, acts, more) == RemoveReference(Perform(begun, first + second));
    HandlerEnds(c, begun, first + second);
  }

  lemma AcceptHandlerKeeps(c: Channel, acts: seq<Act>, now: Option<Result>)
    requires c.accept.Accepted? || c.accept.Refused?
    requires c.accept.Accepted? ==> c.open
    ensures Held(AcceptHandler(c, acts, now)) == Held(c)
    ensures AcceptHandler(c, acts, now).accept.Handled?
    ensures Shape(c) ==> Shape(AcceptHandler(c, acts, now))
    ensures Good(c, 0) && Shape(c) ==> Good(AcceptHandler(c, acts, now), 0)
  {
    if c.accept.Accepted? {
      var begun := AddReference(c.(accept := Handled));
      PerformKeepsHeld(begun, acts);
      ReceiveIsNeutral(Perform(begun, acts), now);
      if Shape(c) {
        PerformKeepsShape(begun, acts);
        if Good(c, 0) {
          PerformIsSafe(begun, acts, 1);
        }
      }
    }
  }

  // ---------- every step, every run ----------

  predicate Healthy(c: Channel) {
    Good(c, 0) && Shape(c) && (c.accept.Accepted? ==> c.open)
  }

  /** The user code that runs in an event. */
  function Performed(c: Channel, e: Event): seq<Act>
    requires Enabled(c, e)
  {
    match e
    case Outside(act) => [act]
    case RunWait(r, acts) => if r.Success? then acts else []
    case RunRead(r, _, acts) => if r.Aborted? then [] else acts
    case RunWrite(r, acts, more) => WriteActs(c, r, acts, more)
    case RunAccept(_, _) => []  // runs after the gap
    case _ => []
  }

  /** close is called after the connection was accepted but before the accept handler has run. */
  predicate ClosesEarly(c: Channel, e: Event)
    requires Enabled(c, e)
  {
    InGap(c) && HasClose(Performed(c, e))
  }

  /** What an event with user code leaves, from the facts about its handler. */
  lemma HandlerExact(c: Channel, end: Channel, acts: seq<Act>)
    requires Healthy(c) && SameGap(c, end, acts) && Shape(end)
    requires Held(end) == Held(c) - if InGap(c) && HasClose(acts) then 1 else 0
    requires !(InGap(c) && HasClose(acts)) ==> Good(end, 0)
    ensures Healthy(end) <==> !(InGap(c) && HasClose(acts))
  {
  }

  lemma OutsideExact(c: Channel, act: Act)
    requires Healthy(c) && c.handles > 0
    ensures Healthy(Do(c, act)) <==> !(InGap(c) && act.Close?)
  {
    DoKeepsHeld(c, act);
    DoKeepsShape(c, act);
    if !(InGap(c) && act.Close?) {
      OutsideIsSafe(c, act);
    }
  }

  /** Events without user code, in which the system finishes an operation. */
  lemma CompletionKeeps(c: Channel, e: Event)
    requires Healthy(c) && Enabled(c, e) && (e.WaitExpires? || e.ReadCompletes? || e.WriteCompletes? || e.AcceptCompletes?)
    ensures Healthy(Step(c, e))
  {
  }

  /** One step keeps the count equal to the number of owners, the operations in shape and the channel
      unused after its deletion exactly when it does not close in the gap. */
  lemma StepExact(c: Channel, e: Event)
    requires Healthy(c) && Enabled(c, e)
    ensures Healthy(Step(c, e)) <==> !ClosesEarly(c, e)
  {
    match e {
      case Outside(act) =>
        OutsideExact(c, act);
        HasCloseUnfold([act]);
      case RunWait(r, acts) =>
        WaitHandlerKeeps(c, r, acts);
        HandlerExact(c, WaitHandler(c, r, acts), Performed(c, e));
      case RunRead(r, now, acts) =>
        ReadHandlerKeeps(c, r, now, acts);
        HandlerExact(c, ReadHandler(c, r, now, acts), Performed(c, e));
      case RunWrite(r, acts, more) =>
        WriteHandlerKeeps(c, r, acts, more);
        HandlerExact(c, WriteHandler(c, r, acts, more), Performed(c, e));
      case RunAccept(acts, now) => AcceptHandlerKeeps(c, acts, now);
      case _ => CompletionKeeps(c, e);
    }
  }

  /** What a healthy channel's count means: it is the number of owners; the channel is deleted, once,
      exactly when there is none; and whatever can happen to it, no handler included, happens before. */
  lemma {:induction false} HealthyMeans(c: Channel, e: Event)
    requires Healthy(c)
    ensures c.referenceCount == Owners(c) && !c.misused && c.deletions <= 1
    ensures c.deletions == 1 <==> Owners(c) == 0
    ensures Enabled(c, e) ==> c.deletions == 0
  {
  }

  predicate IsRun(c: Channel, es: seq<Event>)
    decreases es
  {
    es == [] || (Enabled(c, es[0]) && IsRun(Step(c, es[0]), es[1..]))
  }

  function Final(c: Channel, es: seq<Event>): Channel
    requires IsRun(c, es)
    decreases es
  {
    if es == [] then c else Final(Step(c, es[0]), es[1..])
  }

  predicate AlwaysHealthy(c: Channel, es: seq<Event>)
    requires IsRun(c, es)
    decreases es
  {
    Healthy(c) && (es == [] || AlwaysHealthy(Step(c, es[0]), es[1..]))
  }

  predicate NeverClosesEarly(c: Channel, es: seq<Event>)
    requires IsRun(c, es)
    decreases es
  {
    es == [] || (!ClosesEarly(c, es[0]) && NeverClosesEarly(Step(c, es[0]), es[1..]))
  }

  /** Along every run the count is right at every point exactly if close is never called in the gap. */
  lemma {:induction false} RunExact(c: Channel, es: seq<Event>)
    requires Healthy(c) && IsRun(c, es)
    ensures AlwaysHealthy(c, es) <==> NeverClosesEarly(c, es)
    ensures NeverClosesEarly(c, es) ==> Healthy(Final(c, es))
    decreases es
  {
    if es != [] {
      var next := Step(c, es[0]);
      StepExact(c, es[0]);
      if Healthy(next) {
        RunExact(next, es[1..]);
      } else {
        assert !AlwaysHealthy(next, es[1..]);
      }
    }
  }

  /** A channel as listen leaves it. */
  predicate IsNew(c: Channel, keep: nat) {
    && c.referenceCount == keep + 1 && c.handles == keep && c.txPending == 0 && !c.open
    && c.waitOps.Total() == 0 && c.readOps.Total() == 0 && c.writeOps.Total() == 0
    && (c.accept.Waiting? || c.accept.Refused?) && c.deletions == 0 && !c.misused
  }

  lemma CreatedIsNew(keep: nat)
    ensures IsNew(Created(keep), keep) && Created(keep).accept.Waiting?
  {
  }

  lemma NewIsHealthy(c: Channel, keep: nat)
    requires IsNew(c, keep)
    ensures Healthy(c) && Owners(c) == keep + 1
  {
  }

  /** Why the gap matters: closing in it and then dropping the only ptr deletes the channel under the
      accept handler, which then uses it. */
  lemma {:induction false} EarlyCloseMisuses(c: Channel)
    requires Healthy(c) && InGap(c) && Owners(c) == 2 && c.handles == 1
    ensures var deleted := Do(Do(c, Close([])), DropHandle);
            deleted.deletions == 1 && Enabled(deleted, RunAccept([], None)) && Step(deleted, RunAccept([], None)).misused
  {
    var c1 := Do(c, Close([]));
    assert Perform(CloseSocket(Touch(c)), []) == CloseSocket(Touch(c));
    assert c1.referenceCount == 1 && c1.handles == 1 && c1.deletions == 0;
    var c2 := Do(c1, DropHandle);
    assert c2.deletions == 1 && c2.accept == c.accept;
    assert AddReference(c2.(accept := Handled)).misused;
  }

  /** Such a state is reached as soon as a channel whose creator kept one ptr is accepted. */
  lemma {:induction false} GapIsReached(c: Channel)
    requires Healthy(c) && c.accept.Waiting? && Owners(c) == 2 && c.handles == 1
    ensures var next := Step(c, AcceptCompletes(true));
            Healthy(next) && InGap(next) && Owners(next) == 2 && next.handles == 1
  {
  }

  // ---------- after close ----------

  /** User code that starts nothing new and takes no ptr. */
  predicate IsQuiet(act: Act) {
    match act
    case Close(onError) => forall i :: 0 <= i < |onError| ==> IsQuiet(onError[i])
    case DropHandle => true
    case _ => false
  }

  predicate AreQuiet(acts: seq<Act>) {
    forall i :: 0 <= i < |acts| ==> IsQuiet(acts[i])
  }

  predicate IsQuietEvent(e: Event) {
    match e
    case Outside(act) => IsQuiet(act)
    case WaitExpires => true
    case RunWait(_, acts) => AreQuiet(acts)
    case RunRead(_, _, acts) => AreQuiet(acts)
    case RunWrite(_, acts, more) => AreQuiet(acts) && AreQuiet(more)
    case _ => false
  }

  /** Closing once more. */
  predicate IsIdle(e: Event) {
    e.Outside? && e.act.Close?
  }

  /** A closed channel that its pending operations and ptrs keep alive. */
  predicate IsClosed(c: Channel) {
    Healthy(c) && !c.open && c.accept.Handled?
  }

  /** Steps a closed channel can still make. The successful read that was queued before the close starts
      one more wait and one more read when its handler runs. */
  function StepsLeft(c: Channel): nat {
    c.handles + c.waitOps.Total() + c.waitOps.armed + c.writeOps.Total() + c.readOps.Total()
    + 3 * c.readOps.queued[Success]
  }

  /** On a closed channel quiet code does nothing but drop ptrs. */
  predicate OnlyDrops(c: Channel, c': Channel) {
    && c'.handles <= c.handles
    && c' == c.(handles := c'.handles, referenceCount := c.referenceCount - (c.handles - c'.handles))
  }

  lemma {:induction false} QuietActsOnlyDrop(c: Channel, acts: seq<Act>, held: nat)
    requires Good(c, held) && held > 0 && !c.open && AreQuiet(acts)
    ensures OnlyDrops(c, Perform(c, acts)) && Good(Perform(c, acts), held)
    decreases acts
  {
    if acts != [] {
      assert IsQuiet(acts[0]);
      assert OnlyDrops(c, Do(c, acts[0])) && Good(Do(c, acts[0]), held);
      QuietActsOnlyDrop(Do(c, acts[0]), acts[1..], held);
    }
  }

  lemma ClosedOutside(c: Channel, act: Act)
    requires IsClosed(c) && c.handles > 0 && IsQuiet(act)
    ensures if act.Close? then Do(c, act) == c else StepsLeft(Do(c, act)) < StepsLeft(c)
  {
  }

  lemma ClosedWait(c: Channel, r: Result, acts: seq<Act>)
    requires IsClosed(c) && r in c.waitOps.queued && AreQuiet(acts)
    ensures StepsLeft(WaitHandler(c, r, acts)) < StepsLeft(c)
  {
    QuietActsOnlyDrop(Touch(c.(waitOps := c.waitOps.Take(r))), acts, 1);
  }

  lemma ClosedRead(c: Channel, r: Result, now: Option<Result>, acts: seq<Act>)
    requires IsClosed(c) && r in c.readOps.queued && AreQuiet(acts)
    ensures StepsLeft(ReadHandler(c, r, now, acts)) < StepsLeft(c)
  {
    ReadBegunKeeps(c, r, now);
    assert StepsLeft(ReadBegun(c, r, now)) < StepsLeft(c);
    QuietActsOnlyDrop(ReadBegun(c, r, now), acts, 1);
  }

  lemma ClosedWrite(c: Channel, r: Result, acts: seq<Act>, more: seq<Act>)
    requires IsClosed(c) && r in c.writeOps.queued && AreQuiet(acts) && AreQuiet(more)
    ensures StepsLeft(WriteHandler(c, r, acts, more)) < StepsLeft(c)
  {
    WriteBegunKeeps(c, r);
    QuietActsOnlyDrop(WriteBegun(c, r), acts, 1);
    QuietActsOnlyDrop(WriteReported(c, r, acts), more, 1);
  }

  lemma ClosedStep(c: Channel, e: Event)
    requires IsClosed(c) && Enabled(c, e) && IsQuietEvent(e)
    ensures IsClosed(Step(c, e))
    ensures if IsIdle(e) then Step(c, e) == c else StepsLeft(Step(c, e)) < StepsLeft(c)
  {
    StepExact(c, e);
    match e {
      case Outside(act) =>
        DoKeepsHeld(c, act);
        ClosedOutside(c, act);
      case RunWait(r, acts) =>
        WaitHandlerKeeps(c, r, acts);
        ClosedWait(c, r, acts);
      case RunRead(r, now, acts) =>
        ReadHandlerKeeps(c, r, now, acts);
        ClosedRead(c, r, now, acts);
      case RunWrite(r, acts, more) =>
        WriteHandlerKeeps(c, r, acts, more);
        ClosedWrite(c, r, acts, more);
      case _ =>
    }
  }

  /** Until it is deleted, a closed channel has a step to make. */
  lemma ClosedProgress(c: Channel) returns (e: Event)
    requires IsClosed(c) && c.deletions == 0
    ensures Enabled(c, e) && IsQuietEvent(e) && !IsIdle(e)
  {
    if c.handles > 0 {
      e := Outside(DropHandle);
    } else if c.waitOps.armed > 0 {
      e := WaitExpires;
    } else if c.waitOps.Total() > 0 {
      var r := SomeQueued(c.waitOps);
      e := RunWait(r, []);
    } else if c.readOps.Total() > 0 {
      var r := SomeQueued(c.readOps);
      e := RunRead(r, None, []);
    } else {
      var r := SomeQueued(c.writeOps);
      e := RunWrite(r, [], []);
    }
  }

  lemma SomeQueued(ops: Ops) returns (r: Result)
    requires ops.armed == 0 && ops.Total() > 0
    ensures r in ops.queued
  {
    r :| r in ops.queued;
  }

  function IdleSteps(es: seq<Event>): nat {
    if es == [] then 0 else (if IsIdle(es[0]) then 1 else 0) + IdleSteps(es[1..])
  }

  /** After close, if user code starts nothing and takes no ptr, every run is short (apart from calls of
      close), whenever the ptrs are dropped, and one that cannot go on has reached the deletion of the
      channel. */
  lemma {:induction false} ClosedRunsToDeletion(c: Channel, es: seq<Event>)
    requires IsClosed(c) && IsRun(c, es) && forall i :: 0 <= i < |es| ==> IsQuietEvent(es[i])
    ensures |es| <= StepsLeft(c) + IdleSteps(es) && IsClosed(Final(c, es))
    ensures (forall e :: Enabled(Final(c, es), e) && IsQuietEvent(e) ==> IsIdle(e)) ==> Final(c, es).deletions == 1
    decreases es
  {
    if es != [] {
      ClosedStep(c, es[0]);
      ClosedRunsToDeletion(Step(c, es[0]), es[1..]);
    } else if c.deletions == 0 {
      var e := ClosedProgress(c);
    }
  }

  /** Any callback or call that closes leaves the channel closed. */
  lemma CloseLeavesClosed(c: Channel, e: Event)
    requires Healthy(c) && Enabled(c, e) && c.accept.Handled? && HasClose(Performed(c, e))
    ensures IsClosed(Step(c, e))
  {
    StepExact(c, e);
    match e {
      case Outside(act) =>
        DoKeepsHeld(c, act);
      case RunWait(r, acts) => WaitHandlerKeeps(c, r, acts);
      case RunRead(r, now, acts) => ReadHandlerKeeps(c, r, now, acts);
      case RunWrite(r, acts, more) => WriteHandlerKeeps(c, r, acts, more);
      case _ =>
    }
  }
}
