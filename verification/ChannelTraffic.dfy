/** What a channel does for its user, beyond staying alive: what is sent is written, and a connected
    channel goes on reading (src/Channel.cpp, src/Server.cpp). */
module ChannelTraffic {
  import opened Basics
  import opened ChannelLifetime

  lemma TakeOne(ops: Ops, r: Result)
    requires r in ops.queued
    ensures ops.Take(r).Total() + 1 == ops.Total() && ops.Take(r).armed == ops.armed
  {
  }

  // ---------- single calls ----------

  /** As many operations as before, none of them waiting any more: those that did are aborted. */
  predicate IsAborted(before: Ops, after: Ops) {
    && after.armed == 0 && after.Total() == before.Total()
    && forall r: Result :: r != Aborted ==> after.queued[r] == before.queued[r]
  }

  /** One wait is armed; an earlier one is aborted. */
  predicate IsRestarted(before: Ops, after: Ops) {
    && after.armed == 1 && after.Total() == before.Total() + 1
    && forall r: Result :: r != Aborted ==> after.queued[r] == before.queued[r]
  }

  /** One operation more: failed on a closed socket, else done at once or waiting. */
  predicate IsStarted(open: bool, now: Option<Result>, before: Ops, after: Ops) {
    && after.armed == before.armed + (if open && now.None? then 1 else 0)
    && after.Total() == before.Total() + 1
    && (!open ==> after.queued[Failed] == before.queued[Failed] + 1)
    && (open && now.Some? ==> after.queued[now.value] == before.queued[now.value] + 1)
  }

  /** sendData: a write and a wait start, with a reference each; nothing else changes. */
  lemma SendStartsAWrite(c: Channel, now: Option<Result>)
    ensures var d := SendData(c, now);
            && IsStarted(c.open, now, c.writeOps, d.writeOps) && IsRestarted(c.waitOps, d.waitOps)
            && d.txPending == c.txPending + 1 && d.referenceCount == c.referenceCount + 2
            && d.readOps == c.readOps && d.open == c.open && d.handles == c.handles && d.accept == c.accept
  {
  }

  /** receive: a read and a wait start, with a reference each; nothing else changes. */
  lemma ReceiveStartsARead(c: Channel, now: Option<Result>)
    ensures var d := Receive(c, now);
            && IsStarted(c.open, now, c.readOps, d.readOps) && IsRestarted(c.waitOps, d.waitOps)
            && d.referenceCount == c.referenceCount + 2
            && d.writeOps == c.writeOps && d.txPending == c.txPending
            && d.open == c.open && d.handles == c.handles && d.accept == c.accept
  {
  }

  /** close of an open channel: the socket is closed, every pending wait, read and write is aborted, and
      one reference is released. A second close does nothing. */
  lemma CloseAborts(c: Channel)
    requires c.deletions == 0
    ensures var d := Do(c, Close([]));
            if c.open then
              && !d.open && d.referenceCount == c.referenceCount - 1
              && IsAborted(c.waitOps, d.waitOps) && IsAborted(c.readOps, d.readOps) && IsAborted(c.writeOps, d.writeOps)
            else d == c
  {
    if c.open {
      assert Perform(CloseSocket(Touch(c)), []) == CloseSocket(Touch(c));
    }
  }

  /** A waiting operation that completes is queued with its result, for its handler to run; an expired timer
      is a success. */
  lemma CompletionIsQueued(c: Channel, r: Result)
    ensures c.waitOps.armed > 0 ==>
              var d := Step(c, WaitExpires).waitOps;
              d.armed == c.waitOps.armed - 1 && d.queued == c.waitOps.queued + multiset{Success}
    ensures Enabled(c, ReadCompletes(r)) ==>
              var d := Step(c, ReadCompletes(r)).readOps;
              d.armed == c.readOps.armed - 1 && d.queued == c.readOps.queued + multiset{r}
    ensures Enabled(c, WriteCompletes(r)) ==>
              var d := Step(c, WriteCompletes(r)).writeOps;
              d.armed == c.writeOps.armed - 1 && d.queued == c.writeOps.queued + multiset{r}
  {
  }

  /** A copied ptr adds a reference. */
  lemma CopiedPtr(c: Channel)
    ensures var d := Do(c, AddHandle);
            && d.handles == c.handles + 1 && d.referenceCount == c.referenceCount + 1 && d.deletions == c.deletions
            && d.readOps == c.readOps && d.writeOps == c.writeOps && d.waitOps == c.waitOps && d.open == c.open
  {
  }

  /** A dropped one gives it back; with none there is nothing to drop. */
  lemma DroppedPtr(c: Channel)
    ensures var d := Do(c, DropHandle);
            && d.handles == (if c.handles == 0 then 0 else c.handles - 1)
            && d.referenceCount - d.handles == c.referenceCount - c.handles
            && d.deletions == c.deletions + (if c.handles > 0 && c.referenceCount == 1 then 1 else 0)
            && d.readOps == c.readOps && d.writeOps == c.writeOps && d.waitOps == c.waitOps && d.open == c.open
  {
  }

  /** The handlers of an aborted wait or read, and of a failed wait, call nobody: they only give back
      their reference. */
  lemma AbortsAreSilent(c: Channel, r: Result, now: Option<Result>, acts: seq<Act>)
    requires c.deletions == 0 && c.referenceCount > 1
    ensures r in c.waitOps.queued && !r.Success? ==>
              WaitHandler(c, r, acts) == c.(waitOps := c.waitOps.Take(r), referenceCount := c.referenceCount - 1)
    ensures Aborted in c.readOps.queued ==>
              ReadHandler(c, Aborted, now, acts) == c.(readOps := c.readOps.Take(Aborted), referenceCount := c.referenceCount - 1)
  {
  }

  /** onReadyToSend is called exactly if no write is pending after onError. */
  lemma ReadyWhenNothingPends(c: Channel, r: Result, acts: seq<Act>, more: seq<Act>)
    requires Shape(c) && r in c.writeOps.queued
    ensures WriteHandler(c, r, acts, more)
            == RemoveReference(if WriteReported(c, r, acts).writeOps.Total() == 0 then Perform(WriteReported(c, r, acts), more)
                               else WriteReported(c, r, acts))
  {
    WriteBegunKeeps(c, r);
    if !r.Success? {
      PerformKeepsShape(WriteBegun(c, r), acts);
    }
  }

  // ---------- reading ----------

  /** What user code does to a pending read: it is aborted by a close, and otherwise left alone. */
  lemma {:induction false} DoAndReads(c: Channel, act: Act)
    ensures Do(c, act).readOps == if c.open && act.Close? then c.readOps.Cancel() else c.readOps
    decreases act, 0
  {
    if act.Close? && c.open {
      PerformAndReads(CloseSocket(Touch(c)), act.onError);
    }
  }

  lemma {:induction false} PerformAndReads(c: Channel, acts: seq<Act>)
    ensures Perform(c, acts).readOps == if c.open && HasClose(acts) then c.readOps.Cancel() else c.readOps
    decreases acts, 1
  {
    if acts != [] {
      DoAndReads(c, acts[0]);
      DoKeepsHeld(c, acts[0]);
      PerformAndReads(Do(c, acts[0]), acts[1..]);
      HasCloseUnfold(acts);
    }
  }

  /** A successful read is followed by the next one, whatever onData does: exactly one is pending. It was
      started before onData ran, so a close in onData aborts it. */
  lemma ReadGoesOn(c: Channel, now: Option<Result>, acts: seq<Act>)
    requires Shape(c) && Success in c.readOps.queued
    ensures ReadHandler(c, Success, now, acts).readOps.Total() == 1
    ensures c.open && now.None? ==>
              ReadHandler(c, Success, now, acts).readOps == if HasClose(acts) then Ops(0, multiset{Aborted}) else Ops(1, multiset{})
  {
    var begun := ReadBegun(c, Success, now);
    assert c.readOps.queued - multiset{Success} == multiset{} by {
      assert |c.readOps.queued - multiset{Success}| == 0;
    }
    ReceiveStartsARead(Touch(c.(readOps := c.readOps.Take(Success))), now);
    PerformAndReads(begun, acts);
  }

  /** Any other result ends the reading. */
  lemma ReadEnds(c: Channel, r: Result, now: Option<Result>, acts: seq<Act>)
    requires Shape(c) && r in c.readOps.queued && !r.Success?
    ensures ReadHandler(c, r, now, acts).readOps.Total() == 0
  {
    PerformAndReads(ReadBegun(c, r, now), acts);
  }

  lemma CancelNothing()
    ensures NO_OPS.Cancel() == NO_OPS
  {
  }

  lemma FirstRead(c: Channel, now: Option<Result>)
    requires c.readOps == NO_OPS
    ensures Receive(c, now).readOps.Total() == 1
    ensures now.None? ==> Receive(c, now).readOps == if c.open then Ops(1, multiset{}) else Ops(0, multiset{Failed})
  {
  }

  /** A connected channel starts reading, whatever onConnect does: exactly one read is pending. It is
      started after onConnect ran, so after a close in onConnect it fails. */
  lemma ConnectStartsReading(c: Channel, acts: seq<Act>, now: Option<Result>)
    requires Healthy(c) && c.accept.Accepted?
    ensures AcceptHandler(c, acts, now).readOps.Total() == 1
    ensures now.None? ==>
              AcceptHandler(c, acts, now).readOps == if HasClose(acts) then Ops(0, multiset{Failed}) else Ops(1, multiset{})
  {
    var begun := AddReference(c.(accept := Handled));
    assert c.readOps == NO_OPS by {
      assert |c.readOps.queued| == 0;
    }
    PerformAndReads(begun, acts);
    PerformKeepsHeld(begun, acts);
    CancelNothing();
    FirstRead(Perform(begun, acts), now);
  }

  lemma PerformKeepsReadCount(c: Channel, acts: seq<Act>)
    ensures RemoveReference(Perform(c, acts)).readOps.Total() == Perform(c, acts).readOps.Total() == c.readOps.Total()
  {
    PerformAndReads(c, acts);
  }

  lemma WriteKeepsReadCount(c: Channel, r: Result, acts: seq<Act>, more: seq<Act>)
    requires r in c.writeOps.queued
    ensures WriteHandler(c, r, acts, more).readOps.Total() == c.readOps.Total()
  {
    var reported := WriteReported(c, r, acts);
    PerformKeepsReadCount(WriteBegun(c, r), acts);
    PerformKeepsReadCount(reported, if reported.txPending == 0 then more else []);
  }

  /** How many reads are pending before and after a read handler. */
  lemma ReadsAfterRead(c: Channel, r: Result, now: Option<Result>, acts: seq<Act>)
    requires Shape(c) && r in c.readOps.queued
    ensures c.readOps.Total() == 1
    ensures ReadHandler(c, r, now, acts).readOps.Total() == if r.Success? then 1 else 0
  {
    TakeOne(c.readOps, r);
    if r.Success? {
      ReadGoesOn(c, now, acts);
    } else {
      ReadEnds(c, r, now, acts);
    }
  }

  /** How many reads are pending after an event. */
  lemma ReadsAfterStep(c: Channel, e: Event)
    requires Healthy(c) && Enabled(c, e)
    ensures Step(c, e).readOps.Total()
            == if e.RunRead? then (if e.result.Success? then 1 else 0)
               else if e.RunAccept? then (if c.accept.Accepted? then 1 else 0)
               else c.readOps.Total()
    ensures e.RunRead? ==> c.readOps.Total() == 1
  {
    match e {
      case Outside(act) => DoKeepsShape(c, act);
      case RunWait(r, acts) => PerformKeepsReadCount(Touch(c.(waitOps := c.waitOps.Take(r))), if r.Success? then acts else []);
      case RunRead(r, now, acts) => ReadsAfterRead(c, r, now, acts);
      case RunWrite(r, acts, more) => WriteKeepsReadCount(c, r, acts, more);
      case RunAccept(acts, now) =>
        if c.accept.Accepted? {
          ConnectStartsReading(c, acts, now);
        }
      case _ =>
    }
  }

  predicate ReadFails(es: seq<Event>) {
    exists i :: 0 <= i < |es| && es[i].RunRead? && !es[i].result.Success?
  }

  predicate Connects(es: seq<Event>) {
    exists i :: 0 <= i < |es| && es[i].AcceptCompletes? && es[i].ok
  }

  predicate HandlesAccept(es: seq<Event>) {
    exists i :: 0 <= i < |es| && es[i].RunAccept?
  }

  lemma RunFactsUnfold(es: seq<Event>)
    requires es != []
    ensures ReadFails(es) <==> (es[0].RunRead? && !es[0].result.Success?) || ReadFails(es[1..])
    ensures Connects(es) <==> (es[0].AcceptCompletes? && es[0].ok) || Connects(es[1..])
    ensures HandlesAccept(es) <==> es[0].RunAccept? || HandlesAccept(es[1..])
  {
    var rest := es[1..];
    assert forall i :: 0 <= i < |rest| ==> rest[i] == es[i + 1];
    assert forall i :: 1 <= i < |es| ==> es[i] == rest[i - 1];
  }

  lemma {:induction false} AcceptedOnce(c: Channel, es: seq<Event>)
    requires !c.accept.Waiting? && IsRun(c, es)
    ensures !Connects(es)
    decreases es
  {
    if es != [] {
      AcceptAfterStep(c, es[0]);
      RunFactsUnfold(es);
      AcceptedOnce(Step(c, es[0]), es[1..]);
    }
  }

  /** In every run exactly one read is pending from the connection on, until a read handler was called
      without success; before and after that there is none. */
  lemma {:induction false} ReadPendingExactly(c: Channel, es: seq<Event>)
    requires Healthy(c) && IsRun(c, es) && NeverClosesEarly(c, es)
    ensures Final(c, es).readOps.Total()
            == if ReadFails(es) then 0
               else if c.accept.Handled? then c.readOps.Total()
               else if HandlesAccept(es) && (c.accept.Accepted? || (c.accept.Waiting? && Connects(es))) then 1
               else 0
    decreases es
  {
    if es != [] {
      StepExact(c, es[0]);
      ReadsAfterStep(c, es[0]);
      AcceptAfterStep(c, es[0]);
      RunFactsUnfold(es);
      if !Step(c, es[0]).accept.Waiting? {
        AcceptedOnce(Step(c, es[0]), es[1..]);
      }
      ReadPendingExactly(Step(c, es[0]), es[1..]);
    }
  }

  /** How the accept operation proceeds. */
  lemma AcceptAfterStep(c: Channel, e: Event)
    requires Enabled(c, e)
    ensures Step(c, e).accept
            == match e
               case AcceptCompletes(ok) => if ok then Accepted else Refused
               case RunAccept(_, _) => Handled
               case _ => c.accept
  {
    match e {
      case Outside(act) => DoKeepsHeld(c, act);
      case RunWait(r, acts) => WaitHandlerKeeps(c, r, acts);
      case RunRead(r, now, acts) => ReadHandlerKeeps(c, r, now, acts);
      case RunWrite(r, acts, more) => WriteHandlerKeeps(c, r, acts, more);
      case RunAccept(acts, now) =>
        PerformKeepsHeld(AddReference(c.(accept := Handled)), acts);
      case _ =>
    }
  }

  /** The user code of an event, that of the accept handler included. */
  function UserCode(c: Channel, e: Event): seq<Act>
    requires Enabled(c, e)
  {
    if e.RunAccept? && c.accept.Accepted? then e.acts else Performed(c, e)
  }

  /** The socket is opened by the accept and closed by a call of close, and by nothing else. */
  lemma OpenAfterStep(c: Channel, e: Event)
    requires Enabled(c, e)
    ensures Step(c, e).open <==> (c.open || e == AcceptCompletes(true)) && !HasClose(UserCode(c, e))
  {
    match e {
      case Outside(act) =>
        DoKeepsHeld(c, act);
        HasCloseUnfold([act]);
      case RunWait(r, acts) => WaitHandlerKeeps(c, r, acts);
      case RunRead(r, now, acts) => ReadHandlerKeeps(c, r, now, acts);
      case RunWrite(r, acts, more) => WriteHandlerKeeps(c, r, acts, more);
      case RunAccept(acts, now) => PerformKeepsHeld(AddReference(c.(accept := Handled)), acts);
      case _ =>
    }
  }

  // ---------- sending and the timer ----------

  /** How often user code sends. What onError of a close does only happens on an open channel. */
  function Sends(c: Channel, act: Act): nat
    decreases act, 0
  {
    match act
    case Send(_) => 1
    case Close(onError) => if c.open then AllSends(CloseSocket(Touch(c)), onError) else 0
    case _ => 0
  }

  function AllSends(c: Channel, acts: seq<Act>): nat
    decreases acts, 1
  {
    if acts == [] then 0 else Sends(c, acts[0]) + AllSends(Do(c, acts[0]), acts[1..])
  }

  /** Every send starts one write and one wait, and at most one wait is armed. */
  lemma {:induction false} DoStarts(c: Channel, act: Act)
    ensures Do(c, act).writeOps.Total() == c.writeOps.Total() + Sends(c, act)
    ensures Do(c, act).waitOps.Total() == c.waitOps.Total() + Sends(c, act)
    ensures c.waitOps.armed <= 1 ==> Do(c, act).waitOps.armed <= 1
    decreases act, 0
  {
    match act {
      case Send(now) => SendStartsAWrite(c, now);
      case Close(onError) =>
        if c.open {
          PerformStarts(CloseSocket(Touch(c)), onError);
        }
      case _ =>
    }
  }

  lemma {:induction false} PerformStarts(c: Channel, acts: seq<Act>)
    ensures Perform(c, acts).writeOps.Total() == c.writeOps.Total() + AllSends(c, acts)
    ensures Perform(c, acts).waitOps.Total() == c.waitOps.Total() + AllSends(c, acts)
    ensures c.waitOps.armed <= 1 ==> Perform(c, acts).waitOps.armed <= 1
    decreases acts, 1
  {
    if acts != [] {
      DoStarts(c, acts[0]);
      PerformStarts(Do(c, acts[0]), acts[1..]);
    }
  }

  /** How often sendData is called in an event. */
  function SendsIn(c: Channel, e: Event): nat
    requires Enabled(c, e)
  {
    match e
    case Outside(act) => Sends(c, act)
    case RunWait(r, acts) => if r.Success? then AllSends(Touch(c.(waitOps := c.waitOps.Take(r))), acts) else 0
    case RunRead(r, now, acts) => if r.Aborted? then 0 else AllSends(ReadBegun(c, r, now), acts)
    case RunWrite(r, acts, more) =>
      (if r.Success? then 0 else AllSends(WriteBegun(c, r), acts))
      + (if WriteReported(c, r, acts).txPending == 0 then AllSends(WriteReported(c, r, acts), more) else 0)
    case RunAccept(acts, _) => if c.accept.Accepted? then AllSends(AddReference(c.(accept := Handled)), acts) else 0
    case _ => 0
  }

  /** How often receive is called in an event. */
  function ReceivesIn(c: Channel, e: Event): nat {
    if (e.RunRead? && e.result.Success?) || (e.RunAccept? && c.accept.Accepted?) then 1 else 0
  }

  /** From the call of a handler to its end: acts start what they send. */
  lemma HandlerStarts(begun: Channel, acts: seq<Act>)
    ensures var end := RemoveReference(Perform(begun, acts));
            && end.writeOps.Total() == begun.writeOps.Total() + AllSends(begun, acts)
            && end.waitOps.Total() == begun.waitOps.Total() + AllSends(begun, acts)
            && (begun.waitOps.armed <= 1 ==> end.waitOps.armed <= 1)
  {
    PerformStarts(begun, acts);
  }

  lemma WaitStarts(c: Channel, r: Result, acts: seq<Act>)
    requires r in c.waitOps.queued
    ensures var (e, d) := (RunWait(r, acts), WaitHandler(c, r, acts));
            && SendsIn(c, e) + c.writeOps.Total() == d.writeOps.Total()
            && SendsIn(c, e) + c.waitOps.Total() == d.waitOps.Total() + 1
            && (c.waitOps.armed <= 1 ==> d.waitOps.armed <= 1)
  {
    TakeOne(c.waitOps, r);
    HandlerStarts(Touch(c.(waitOps := c.waitOps.Take(r))), if r.Success? then acts else []);
  }

  lemma ReadBegunStarts(c: Channel, r: Result, now: Option<Result>)
    requires r in c.readOps.queued
    ensures var d := ReadBegun(c, r, now);
            && d.writeOps == c.writeOps
            && d.waitOps.Total() == c.waitOps.Total() + (if r.Success? then 1 else 0)
            && (c.waitOps.armed <= 1 ==> d.waitOps.armed <= 1)
  {
    ReceiveStartsARead(Touch(c.(readOps := c.readOps.Take(r))), now);
  }

  lemma ReadStarts(c: Channel, r: Result, now: Option<Result>, acts: seq<Act>)
    requires r in c.readOps.queued
    ensures var (e, d) := (RunRead(r, now, acts), ReadHandler(c, r, now, acts));
            && SendsIn(c, e) + c.writeOps.Total() == d.writeOps.Total()
            && SendsIn(c, e) + ReceivesIn(c, e) + c.waitOps.Total() == d.waitOps.Total()
            && (c.waitOps.armed <= 1 ==> d.waitOps.armed <= 1)
  {
    ReadBegunStarts(c, r, now);
    HandlerStarts(ReadBegun(c, r, now), if r.Aborted? then [] else acts);
  }

  lemma WriteStarts(c: Channel, r: Result, acts: seq<Act>, more: seq<Act>)
    requires r in c.writeOps.queued
    ensures var (e, d) := (RunWrite(r, acts, more), WriteHandler(c, r, acts, more));
            && SendsIn(c, e) + c.writeOps.Total() == d.writeOps.Total() + 1
            && SendsIn(c, e) + c.waitOps.Total() == d.waitOps.Total()
            && (c.waitOps.armed <= 1 ==> d.waitOps.armed <= 1)
  {
    var first := if r.Success? then [] else acts;
    var reported := WriteReported(c, r, acts);
    TakeOne(c.writeOps, r);
    PerformStarts(WriteBegun(c, r), first);
    HandlerStarts(reported, if reported.txPending == 0 then more else []);
  }

  lemma AcceptStarts(c: Channel, acts: seq<Act>, now: Option<Result>)
    requires c.accept.Accepted?
    ensures var (e, d) := (RunAccept(acts, now), AcceptHandler(c, acts, now));
            && SendsIn(c, e) + c.writeOps.Total() == d.writeOps.Total()
            && SendsIn(c, e) + 1 + c.waitOps.Total() == d.waitOps.Total()
            && d.waitOps.armed == 1
  {
    var begun := AddReference(c.(accept := Handled));
    PerformStarts(begun, acts);
    ReceiveStartsARead(Perform(begun, acts), now);
  }

  /** What was sent is pending or has had its handler run; so has every wait. */
  lemma StepConserves(c: Channel, e: Event)
    requires Enabled(c, e)
    ensures SendsIn(c, e) + c.writeOps.Total() == Step(c, e).writeOps.Total() + if e.RunWrite? then 1 else 0
    ensures SendsIn(c, e) + ReceivesIn(c, e) + c.waitOps.Total() == Step(c, e).waitOps.Total() + if e.RunWait? then 1 else 0
    ensures c.waitOps.armed <= 1 ==> Step(c, e).waitOps.armed <= 1
  {
    match e {
      case Outside(act) => DoStarts(c, act);
      case RunWait(r, acts) => WaitStarts(c, r, acts);
      case RunRead(r, now, acts) => ReadStarts(c, r, now, acts);
      case RunWrite(r, acts, more) => WriteStarts(c, r, acts, more);
      case RunAccept(acts, now) =>
        if c.accept.Accepted? {
          AcceptStarts(c, acts, now);
        }
      case _ =>
    }
  }

  datatype Tally = Tally(sends: nat, receives: nat, writeHandlers: nat, waitHandlers: nat)

  /** The calls and handlers of a run. */
  function Tallied(c: Channel, es: seq<Event>): Tally
    requires IsRun(c, es)
    decreases es
  {
    if es == [] then Tally(0, 0, 0, 0)
    else
      var rest := Tallied(Step(c, es[0]), es[1..]);
      Tally(SendsIn(c, es[0]) + rest.sends, ReceivesIn(c, es[0]) + rest.receives,
            (if es[0].RunWrite? then 1 else 0) + rest.writeHandlers, (if es[0].RunWait? then 1 else 0) + rest.waitHandlers)
  }

  /** In every run, from whatever state: writes pending at the start and sends are write handlers run and
      writes still pending; waits pending at the start, sends and receives are wait handlers run and waits
      still pending; and there is never more than one timer armed. */
  lemma {:induction false} NothingSentIsLost(c: Channel, es: seq<Event>)
    requires IsRun(c, es)
    ensures var t := Tallied(c, es);
            && t.sends + c.writeOps.Total() == t.writeHandlers + Final(c, es).writeOps.Total()
            && t.sends + t.receives + c.waitOps.Total() == t.waitHandlers + Final(c, es).waitOps.Total()
    ensures c.waitOps.armed <= 1 ==> Final(c, es).waitOps.armed <= 1
    decreases es
  {
    if es != [] {
      StepConserves(c, es[0]);
      NothingSentIsLost(Step(c, es[0]), es[1..]);
    }
  }
}
