/** Intrusive reference counting: the counted base class (src/Object.hpp) and its handle (src/ptr.hpp).

    Objects and handles are identified by numbers, so that a handle can live inside an object and die
    with it. Deleting an object destroys its member handles, which may delete further objects. */
module CountedHandles {
  import opened Basics

  type ObjectId = nat

  /** A handle is a local variable (or another place that outlives every deletion), or a member of an
      object. */
  datatype Handle = Local(n: nat) | Member(owner: ObjectId, n: nat)

  datatype Op =
    | New(o: ObjectId)                         // new T: count zero, no handle yet
    | ConstructNull(a: Handle)
    | ConstructFrom(a: Handle, o: ObjectId)
    | CopyConstruct(a: Handle, b: Handle)
    | MoveConstruct(a: Handle, b: Handle)
    | Destroy(a: Handle)
    | AssignNull(a: Handle)
    | AssignFrom(a: Handle, o: ObjectId)
    | Assign(a: Handle, b: Handle)

  /** The handles an assignment still reads or writes after it has released the old target are locals. */
  predicate AssignsLocals(op: Op) {
    match op
    case AssignNull(a) => a.Local?
    case AssignFrom(a, _) => a.Local?
    case Assign(a, b) => a.Local? && b.Local?
    case _ => true
  }

  type Targets = map<Handle, Option<ObjectId>>

  /** The handles that are members of an object. */
  function Members(targets: Targets, o: ObjectId): set<Handle> {
    set h | h in targets && h.Member? && h.owner == o
  }

  /** The handles pointing to an object, apart from one whose assignment is under way. */
  ghost function HandlesTo(targets: Targets, busy: Option<Handle>, o: ObjectId): set<Handle> {
    set h | h in targets && targets[h] == Some(o) && busy != Some(h)
  }

  lemma DropHandle(targets: Targets, busy: Option<Handle>, h: Handle, o: ObjectId)
    requires h in targets && busy != Some(h)
    ensures |HandlesTo(targets, busy, o)| == |HandlesTo(targets - {h}, busy, o)| + if targets[h] == Some(o) then 1 else 0
  {
    var rest := HandlesTo(targets - {h}, busy, o);
    if targets[h] == Some(o) {
      assert HandlesTo(targets, busy, o) == rest + {h};
    } else {
      assert HandlesTo(targets, busy, o) == rest;
    }
  }

  lemma SetHandle(targets: Targets, h: Handle, t: Option<ObjectId>, o: ObjectId)
    ensures |HandlesTo(targets[h := t], None, o)| == |HandlesTo(targets, Some(h), o)| + if t == Some(o) then 1 else 0
  {
    var rest := HandlesTo(targets, Some(h), o);
    if t == Some(o) {
      assert HandlesTo(targets[h := t], None, o) == rest + {h};
    } else {
      assert HandlesTo(targets[h := t], None, o) == rest;
    }
  }

  lemma MarkBusy(targets: Targets, h: Handle, o: ObjectId)
    requires h in targets
    ensures |HandlesTo(targets, None, o)| == |HandlesTo(targets, Some(h), o)| + if targets[h] == Some(o) then 1 else 0
  {
    SetHandle(targets, h, targets[h], o);
    assert targets[h := targets[h]] == targets;
  }

  /** Of the live objects some may disappear, and with them exactly their member handles; other handles
      stay as they are. */
  ghost predicate Shrinks(live: set<ObjectId>, targets: Targets, live': set<ObjectId>, targets': Targets) {
    && live' <= live
    && (forall h :: h in targets' ==> h in targets && targets'[h] == targets[h])
    && (forall h :: h in targets && h !in targets' ==> h.Member? && h.owner in live && h.owner !in live')
  }

  /** The objects without references are the given ones. */
  ghost predicate IsRaw(counts: map<ObjectId, int>, raw: set<ObjectId>) {
    && (forall o :: o in counts && counts[o] == 0 ==> o in raw)
    && (forall o :: o in raw ==> o in counts && counts[o] == 0)
  }

  ghost predicate KeepsBusy(busy: Option<Handle>, targets: Targets, targets': Targets) {
    busy.Some? && busy.value in targets ==> busy.value in targets'
  }

  ghost predicate Consistent(counts: map<ObjectId, int>, targets: Targets,
                             busy: Option<Handle>, held: multiset<ObjectId>, dying: set<ObjectId>)
  {
    && (forall o {:trigger HandlesTo(targets, busy, o)} :: o in counts ==> counts[o] == |HandlesTo(targets, busy, o)| + held[o])
    && (forall o :: o in held ==> o in counts)
    && (forall h :: h in targets && busy != Some(h) && targets[h].Some? ==> targets[h].value in counts)
    && (forall h :: h in targets && h.Member? ==> h.owner in counts || h.owner in dying)
  }

  /** Every object ever created is live or was deleted exactly once. */
  ghost predicate Book(counts: map<ObjectId, int>, created: set<ObjectId>, deleted: seq<ObjectId>) {
    && (forall o :: o in created <==> o in counts || o in deleted)
    && (forall o :: o in deleted ==> o !in counts)
    && (forall i, j :: 0 <= i < j < |deleted| ==> deleted[i] != deleted[j])
  }

  /** Objects go only when their last handle has gone: whatever pointed to an object of the log, from the
      n-th entry on, was a member of one that went earlier. */
  ghost predicate InOrder(targets: Targets, busy: Option<Handle>, deleted: seq<ObjectId>, n: nat) {
    forall j, h :: n <= j < |deleted| && h in targets && busy != Some(h) && targets[h] == Some(deleted[j]) ==>
      h.Member? && h.owner in deleted[..j]
  }

  // ---------- what a release takes with it ----------

  /** A release: the objects and handles there are, the handle being assigned (its own reference no longer
      counts), the object it releases and the one it has just taken a reference to. */
  datatype Release = Release(live: set<ObjectId>, targets: Targets, busy: Option<Handle>,
                             root: Option<ObjectId>, kept: Option<ObjectId>)
  {
    predicate IsCounted(h: Handle, o: ObjectId) {
      h in targets && busy != Some(h) && targets[h] == Some(o)
    }

    predicate Reaches(o: ObjectId) {
      root == Some(o) || exists h :: h in targets && IsCounted(h, o)
    }

    /** With the objects of `gone` gone, the last reference to o is given up. */
    predicate Falls(gone: set<ObjectId>, o: ObjectId) {
      kept != Some(o) && Reaches(o) && forall h :: h in targets && IsCounted(h, o) ==> h.Member? && h.owner in gone
    }

    predicate IsClosed(gone: set<ObjectId>) {
      forall o :: o in live && Falls(gone, o) ==> o in gone
    }

    function DoomedFrom(gone: set<ObjectId>): set<ObjectId>
      requires gone <= live
      decreases live - gone
    {
      var next := gone + set o | o in live && Falls(gone, o);
      if next == gone then gone else DoomedFrom(next)
    }

    /** The objects that go, found from the handles alone: first those without another handle, then those
        whose other handles were all in these, and so on. */
    function Doomed(): set<ObjectId> {
      DoomedFrom({})
    }

    predicate Dooms(h: Handle) {
      h.Member? && h.owner in Doomed()
    }

    function Remaining(): Targets {
      map h | h in targets && !Dooms(h) :: targets[h]
    }
  }

  lemma {:induction false} DoomedFromIsLeast(r: Release, gone: set<ObjectId>, closed: set<ObjectId>)
    requires gone <= r.live && gone <= closed && r.IsClosed(closed)
    ensures r.DoomedFrom(gone) <= closed
    decreases r.live - gone
  {
    var next := gone + set o | o in r.live && r.Falls(gone, o);
    forall o | o in next
      ensures o in closed
    {
      if o !in gone {
        assert r.Falls(closed, o);
      }
    }
    if next != gone {
      DoomedFromIsLeast(r, next, closed);
    }
  }

  lemma {:induction false} DoomedFromIsClosed(r: Release, gone: set<ObjectId>)
    requires gone <= r.live
    ensures r.IsClosed(r.DoomedFrom(gone)) && r.DoomedFrom(gone) <= r.live
    decreases r.live - gone
  {
    var falling := set o | o in r.live && r.Falls(gone, o);
    if gone + falling != gone {
      DoomedFromIsClosed(r, gone + falling);
    } else {
      assert forall o :: o in r.live && r.Falls(gone, o) ==> o in falling;
    }
  }

  /** The doomed objects are the smallest set from which nothing more falls. */
  lemma DoomedIsLeastClosed(r: Release)
    ensures r.IsClosed(r.Doomed()) && r.Doomed() <= r.live
    ensures forall closed :: r.IsClosed(closed) ==> r.Doomed() <= closed
  {
    DoomedFromIsClosed(r, {});
    forall closed | r.IsClosed(closed)
      ensures r.Doomed() <= closed
    {
      DoomedFromIsLeast(r, {}, closed);
    }
  }

  /** A release under way: so far only doomed objects went, with their members, in an order in which each
      was deleted after everything that pointed to it. */
  ghost predicate Progress(r: Release, log: seq<ObjectId>, counts: map<ObjectId, int>, targets: Targets,
                           created: set<ObjectId>, deleted: seq<ObjectId>)
  {
    && Shrinks(r.live, r.targets, counts.Keys, targets)
    && (forall o :: o in r.live && o !in counts ==> o in r.Doomed())
    && r.live <= created && log <= deleted && InOrder(r.targets, r.busy, deleted, |log|)
  }

  lemma ReleaseStarts(r: Release, counts: map<ObjectId, int>, created: set<ObjectId>, deleted: seq<ObjectId>)
    requires r.live == counts.Keys && Book(counts, created, deleted)
    ensures Progress(r, deleted, counts, r.targets, created, deleted)
  {
  }

  /** An unreferenced object can go: it is doomed, and its members remain to be destroyed. */
  lemma Bury(r: Release, log: seq<ObjectId>, counts: map<ObjectId, int>, targets: Targets, held: multiset<ObjectId>,
             dying: set<ObjectId>, o: ObjectId, created: set<ObjectId>, deleted: seq<ObjectId>)
    requires Consistent(counts, targets, r.busy, held, dying) && Book(counts, created, deleted)
    requires Progress(r, log, counts, targets, created, deleted) && r.Reaches(o) && Held(r.kept) <= held
    requires o in counts && counts[o] == 0
    ensures Consistent(counts - {o}, targets, r.busy, held, dying + {o}) && Book(counts - {o}, created, deleted + [o])
    ensures Progress(r, log, counts - {o}, targets, created, deleted + [o])
  {
    NothingPointsTo(counts, targets, r.busy, held, dying, o);
    forall h | h in r.targets && r.IsCounted(h, o)
      ensures h.Member? && h.owner in r.live && h.owner !in counts
    {
    }
    DoomedIsLeastClosed(r);
    assert r.kept.Some? ==> r.kept.value in Held(r.kept);
    assert r.Falls(r.Doomed(), o);
    LogContinues(r, log, counts, created, deleted, o);
  }

  /** A member of a deleted object can go. */
  lemma MemberGoes(r: Release, log: seq<ObjectId>, counts: map<ObjectId, int>, targets: Targets,
                   created: set<ObjectId>, deleted: seq<ObjectId>, h: Handle)
    requires Progress(r, log, counts, targets, created, deleted) && KeepsBusy(r.busy, r.targets, targets)
    requires h in targets && h.Member? && h.owner in r.live && h.owner !in counts
    ensures r.Dooms(h) && Progress(r, log, counts, targets - {h}, created, deleted)
    ensures r.busy != Some(h) ==> KeepsBusy(r.busy, r.targets, targets - {h})
    ensures r.busy != Some(h) && targets[h].Some? ==> r.Reaches(targets[h].value)
  {
    assert r.busy != Some(h) && targets[h].Some? ==> r.IsCounted(h, targets[h].value);
  }

  lemma NothingPointsTo(counts: map<ObjectId, int>, targets: Targets, busy: Option<Handle>, held: multiset<ObjectId>,
                        dying: set<ObjectId>, o: ObjectId)
    requires Consistent(counts, targets, busy, held, dying) && o in counts && counts[o] == 0
    ensures held[o] == 0 && forall h :: h in targets && busy != Some(h) ==> targets[h] != Some(o)
  {
    assert HandlesTo(targets, busy, o) == {};
    forall h | h in targets && busy != Some(h)
      ensures targets[h] != Some(o)
    {
      assert h !in HandlesTo(targets, busy, o);
    }
  }

  lemma LogContinues(r: Release, log: seq<ObjectId>, counts: map<ObjectId, int>, created: set<ObjectId>,
                     deleted: seq<ObjectId>, o: ObjectId)
    requires Book(counts, created, deleted) && r.live <= created && log <= deleted
    requires InOrder(r.targets, r.busy, deleted, |log|)
    requires forall h :: h in r.targets && r.IsCounted(h, o) ==> h.Member? && h.owner in r.live && h.owner !in counts
    ensures InOrder(r.targets, r.busy, deleted + [o], |log|)
  {
    var deleted' := deleted + [o];
    forall j, h | |log| <= j < |deleted'| && h in r.targets && r.busy != Some(h) && r.targets[h] == Some(deleted'[j])
      ensures h.Member? && h.owner in deleted'[..j]
    {
      if j < |deleted| {
        assert deleted'[..j] == deleted[..j];
      } else {
        assert deleted'[..j] == deleted && r.IsCounted(h, o);
      }
    }
  }

  /** An object without references is not reached by any release. */
  lemma RawIsNotReached(r: Release, counts: map<ObjectId, int>, held: multiset<ObjectId>, raw: set<ObjectId>)
    requires Consistent(counts, r.targets, r.busy, held, {}) && IsRaw(counts, raw) && Held(r.root) <= held
    ensures forall o :: o in raw ==> !r.Reaches(o)
  {
    forall o | o in raw
      ensures !r.Reaches(o)
    {
      NothingPointsTo(counts, r.targets, r.busy, held, {}, o);
      assert r.root.Some? ==> r.root.value in Held(r.root);
    }
  }

  lemma NoHandleNoCount(counts: map<ObjectId, int>, targets: Targets, busy: Option<Handle>, kept: Option<ObjectId>, o: ObjectId)
    requires Consistent(counts, targets, busy, Held(kept), {}) && o in counts && kept != Some(o)
    requires forall h :: h in targets && busy != Some(h) ==> targets[h] != Some(o)
    ensures counts[o] == 0
  {
    assert HandlesTo(targets, busy, o) == {};
  }

  /** A release that has come to its end has deleted exactly the doomed objects and their members. */
  lemma ReleaseIsExact(r: Release, log: seq<ObjectId>, counts: map<ObjectId, int>, targets: Targets,
                       created: set<ObjectId>, deleted: seq<ObjectId>, raw: set<ObjectId>)
    requires Consistent(counts, targets, r.busy, Held(r.kept), {}) && IsRaw(counts, raw)
    requires Progress(r, log, counts, targets, created, deleted) && forall o :: o in raw ==> !r.Reaches(o)
    ensures counts.Keys == r.live - r.Doomed() && targets == r.Remaining()
  {
    var gone := r.live - counts.Keys;
    forall o | o in counts
      ensures !r.Falls(gone, o)
    {
      if h :| h in targets && r.IsCounted(h, o) {
        assert h in r.targets && !(h.Member? && h.owner in gone);
      } else if r.kept != Some(o) {
        NoHandleNoCount(counts, targets, r.busy, r.kept, o);
      }
    }
    DoomedIsLeastClosed(r);
    assert r.Doomed() <= gone;
    assert gone <= r.Doomed();
    assert counts.Keys == r.live - r.Doomed();
  }

  /** Once no member is left, the object is no longer dying. */
  lemma Buried(counts: map<ObjectId, int>, targets: Targets, busy: Option<Handle>, held: multiset<ObjectId>,
               dying: set<ObjectId>, o: ObjectId)
    requires Consistent(counts, targets, busy, held, dying + {o})
    requires Members(targets, o) == {}
    ensures Consistent(counts, targets, busy, held, dying)
  {
    assert forall h :: h in targets && h.Member? && h.owner == o ==> h in Members(targets, o);
  }

  /** Taking a handle away turns what it counted for into a held reference. */
  lemma Unhook(counts: map<ObjectId, int>, targets: Targets, busy: Option<Handle>, held: multiset<ObjectId>,
               dying: set<ObjectId>, h: Handle)
    requires Consistent(counts, targets, busy, held, dying) && h in targets && busy != Some(h)
    ensures Consistent(counts, targets - {h}, busy,
                       if targets[h].Some? then held + multiset{targets[h].value} else held, dying)
  {
    forall o | o in counts
      ensures |HandlesTo(targets, busy, o)| == |HandlesTo(targets - {h}, busy, o)| + if targets[h] == Some(o) then 1 else 0
    {
      DropHandle(targets, busy, h, o);
    }
  }

  // ---------- the operations without counts ----------

  /** The objects ever created, the live ones and the handles: a program's view, in which an object lives
      as long as handles keep it alive. */
  datatype Heap = Heap(created: set<ObjectId>, live: set<ObjectId>, targets: Targets) {
    predicate CanConstruct(a: Handle) {
      a !in targets && (a.Member? ==> a.owner in live)
    }

    /** Operations a program can write: names must exist, and new ones must not. */
    predicate Enabled(op: Op) {
      match op
      case New(o) => o !in created
      case ConstructNull(a) => CanConstruct(a)
      case ConstructFrom(a, o) => CanConstruct(a) && o in live
      case CopyConstruct(a, b) => CanConstruct(a) && b in targets
      case MoveConstruct(a, b) => CanConstruct(a) && b in targets
      case Destroy(a) => a in targets && a.Local?
      case AssignNull(a) => a in targets
      case AssignFrom(a, o) => a in targets && o in live
      case Assign(a, b) => a in targets && b in targets
    }

    /** What an assignment of p to a releases. */
    function Assigning(a: Handle, p: Option<ObjectId>): Release
      requires a in targets
    {
      Release(live, targets, Some(a), targets[a], p)
    }

    function Destroying(a: Handle): Release
      requires a in targets
    {
      Release(live, targets - {a}, None, targets[a], None)
    }

    function After(r: Release): Heap {
      Heap(created, r.live - r.Doomed(), r.Remaining())
    }

    function Assigned(a: Handle, p: Option<ObjectId>): Heap
      requires a in targets
    {
      var h := After(Assigning(a, p));
      h.(targets := h.targets[a := p])
    }

    /** No handle the operation still reads or writes dies with the objects it releases. */
    predicate IsSafe(op: Op)
      requires Enabled(op)
    {
      match op
      case AssignNull(a) => !Assigning(a, None).Dooms(a)
      case AssignFrom(a, o) => !Assigning(a, Some(o)).Dooms(a)
      case Assign(a, b) => !Assigning(a, targets[b]).Dooms(a) && !Assigning(a, targets[b]).Dooms(b)
      case _ => true
    }

    function Next(op: Op): Heap
      requires Enabled(op)
    {
      match op
      case New(o) => Heap(created + {o}, live + {o}, targets)
      case ConstructNull(a) => Heap(created, live, targets[a := None])
      case ConstructFrom(a, o) => Heap(created, live, targets[a := Some(o)])
      case CopyConstruct(a, b) => Heap(created, live, targets[a := targets[b]])
      case MoveConstruct(a, b) => Heap(created, live, targets[b := None][a := targets[b]])
      case Destroy(a) => After(Destroying(a))
      case AssignNull(a) => Assigned(a, None)
      case AssignFrom(a, o) => Assigned(a, Some(o))
      case Assign(a, b) => Assigned(a, targets[b])
    }

    /** The end of a run from its i-th operation on, or None if an operation is unsafe; disabled ones are
        skipped. */
    function Run(ops: seq<Op>, i: nat): Option<Heap>
      requires i <= |ops|
      decreases |ops| - i
    {
      if i == |ops| then Some(this)
      else if !Enabled(ops[i]) then Run(ops, i + 1)
      else if !IsSafe(ops[i]) then None
      else Next(ops[i]).Run(ops, i + 1)
    }
  }

  /** The handles an operation writes. */
  function Written(op: Op): set<Handle> {
    match op
    case New(_) => {}
    case MoveConstruct(a, b) => {a, b}
    case _ => {op.a}
  }

  /** What an operation does to the handles, whatever is deleted by it: a copy or assignment makes a point
      to what b pointed to, a move also clears b, a destroyed handle is gone. */
  ghost predicate Writes(op: Op, before: Targets, after: Targets) {
    match op
    case New(_) => true
    case ConstructNull(a) => a in after && after[a] == None
    case ConstructFrom(a, o) => a in after && after[a] == Some(o)
    case CopyConstruct(a, b) => b in before && a in after && b in after && after[a] == after[b] == before[b]
    case MoveConstruct(a, b) => b in before && a in after && b in after && after[a] == before[b] && after[b] == None
    case Destroy(a) => a !in after
    case AssignNull(a) => a in after && after[a] == None
    case AssignFrom(a, o) => a in after && after[a] == Some(o)
    case Assign(a, b) => b in before && a in after && b in after && after[a] == after[b] == before[b]
  }

  /** All other handles stay as they are, unless they die with their object, and then that is gone. */
  ghost predicate Spares(op: Op, before: Heap, after: Heap) {
    && (forall h :: h in after.targets && h !in Written(op) ==> h in before.targets && after.targets[h] == before.targets[h])
    && (forall h :: h in before.targets && h !in after.targets && h !in Written(op) ==> h.Member? && h.owner !in after.live)
    && after.live <= before.live + (if op.New? then {op.o} else {})
    && after.created == before.created + (if op.New? then {op.o} else {})
    && (op.New? ==> op.o in after.live)
  }

  lemma NextMeans(h: Heap, op: Op)
    requires h.Enabled(op) && h.IsSafe(op) && forall x :: x in h.targets && x.Member? ==> x.owner in h.live
    ensures Writes(op, h.targets, h.Next(op).targets) && Spares(op, h, h.Next(op))
  {
  }

  /** Assignments between locals are always safe. */
  lemma {:induction false} LocalsAreSafe(h: Heap, ops: seq<Op>, i: nat)
    requires i <= |ops| && forall k :: i <= k < |ops| ==> AssignsLocals(ops[k])
    ensures h.Run(ops, i).Some?
    decreases |ops| - i
  {
    if i < |ops| {
      LocalsAreSafe(if h.Enabled(ops[i]) then h.Next(ops[i]) else h, ops, i + 1);
    }
  }

  class Store {
    var counts: map<ObjectId, int>   // the live objects and their referenceCount
    var targets: Targets             // the existing handles and their p
    var misused: bool                // a freed handle was read or written
    var created: set<ObjectId>
    ghost var deleted: seq<ObjectId>
    ghost var raw: set<ObjectId>     // created, but never yet pointed to by a handle

    /** The invariant while an operation runs: `held` are references about to be released or about to
        be given to the busy handle, `dying` are the objects whose members are being destroyed. */
    ghost predicate Inv(busy: Option<Handle>, held: multiset<ObjectId>, dying: set<ObjectId>)
      reads this
    {
      Consistent(counts, targets, busy, held, dying) && Book(counts, created, deleted)
    }

    /** Between operations: each count is the number of handles pointing to the object, handles point to
        live objects only, members live in live objects only, and an object without handles never had one. */
    ghost predicate Valid()
      reads this
    {
      && Inv(None, multiset{}, {})
      && RawKept()
    }

    ghost predicate RawKept()
      reads this
    {
      raw <= created && IsRaw(counts, raw)
    }

    function State(): Heap
      reads this
    {
      Heap(created, counts.Keys, targets)
    }

    constructor ()
      ensures Valid() && State() == Heap({}, {}, map[]) && !misused
    {
      counts, targets, misused := map[], map[], false;
      deleted, created, raw := [], {}, {};
    }

    method AddReference(o: ObjectId)
      requires o in counts
      modifies this`counts, this`raw
      ensures counts == old(counts)[o := old(counts)[o] + 1] && raw == old(raw) - {o}
    {
      counts := counts[o := counts[o] + 1];
      raw := raw - {o};
    }

    /** A reference for a new target, unless it is null. */
    method AddReferenceTo(p: Option<ObjectId>)
      requires p.Some? ==> p.value in counts
      modifies this`counts, this`raw
      ensures counts == Added(old(counts), p) && raw == if p.Some? then old(raw) - {p.value} else old(raw)
    {
      if p.Some? {
        AddReference(p.value);
      }
    }

    /** The invariant of a release: `log` is what was deleted before it, and the reference to the kept
        object stays held. */
    ghost predicate Going(r: Release, log: seq<ObjectId>, held: multiset<ObjectId>, dying: set<ObjectId>)
      reads this
    {
      && Inv(r.busy, held, dying) && IsRaw(counts, raw) && Held(r.kept) <= held
      && Progress(r, log, counts, targets, created, deleted)
      && KeepsBusy(r.busy, r.targets, targets)
    }

    /** Releases one held reference to o and deletes o if it was the last. The handle being assigned is
        only lost if it is in a doomed object. */
    method RemoveReference(o: ObjectId, busy: Option<Handle>, ghost r: Release, ghost log: seq<ObjectId>,
                           ghost held: multiset<ObjectId>, ghost dying: set<ObjectId>)
      requires Going(r, log, held, dying) && r.busy == busy && r.Reaches(o) && !misused
      requires o in held && Held(r.kept) <= held - multiset{o}
      modifies this`counts, this`targets, this`misused, this`deleted
      ensures misused ==> busy.Some? && r.Dooms(busy.value)
      ensures !misused ==> Going(r, log, held - multiset{o}, dying)
      ensures !misused ==> counts.Keys <= old(counts).Keys && targets.Keys <= old(targets).Keys
      ensures !misused && old(counts)[o] == 1 ==> o !in counts
      ensures old(counts)[o] > 1 ==> !misused && counts == old(counts)[o := old(counts)[o] - 1] && targets == old(targets)
      decreases counts.Keys, 1
    {
      assert counts[o] == |HandlesTo(targets, busy, o)| + held[o];
      var last := counts[o] == 1;
      counts := counts[o := counts[o] - 1];
      if last {
        Delete(o, busy, r, log, held - multiset{o}, dying);
      }
    }

    /** delete: the object is gone, then its member handles are destroyed one by one. */
    method Delete(o: ObjectId, busy: Option<Handle>, ghost r: Release, ghost log: seq<ObjectId>,
                  ghost held: multiset<ObjectId>, ghost dying: set<ObjectId>)
      requires Inv(busy, held, dying) && o in counts && counts[o] == 0 && IsRaw(counts - {o}, raw) && !misused
      requires Held(r.kept) <= held && Progress(r, log, counts, targets, created, deleted)
      requires r.busy == busy && r.Reaches(o) && KeepsBusy(busy, r.targets, targets)
      modifies this`counts, this`targets, this`misused, this`deleted
      ensures misused ==> busy.Some? && r.Dooms(busy.value)
      ensures !misused ==> Going(r, log, held, dying)
      ensures !misused ==> counts.Keys <= old(counts).Keys - {o} && targets.Keys <= old(targets).Keys
      decreases counts.Keys, 0
    {
      Bury(r, log, counts, targets, held, dying, o, created, deleted);
      counts := counts - {o};
      deleted := deleted + [o];
      DestroyMembers(o, busy, r, log, held, dying + {o});
      if !misused {
        Buried(counts, targets, busy, held, dying, o);
      }
    }

    /** Destroys the member handles of a dying object one by one, in any order. */
    method DestroyMembers(o: ObjectId, busy: Option<Handle>, ghost r: Release, ghost log: seq<ObjectId>,
                          ghost held: multiset<ObjectId>, ghost dying: set<ObjectId>)
      requires Going(r, log, held, dying) && r.busy == busy && o in r.live && o !in counts && !misused
      modifies this`counts, this`targets, this`misused, this`deleted
      ensures misused ==> busy.Some? && r.Dooms(busy.value)
      ensures !misused ==> Going(r, log, held, dying) && Members(targets, o) == {}
      ensures !misused ==> counts.Keys <= old(counts).Keys && targets.Keys <= old(targets).Keys
      decreases counts.Keys, 3
    {
      var members := Members(targets, o);
      while members != {}
        invariant members == Members(targets, o)
        invariant Going(r, log, held, dying) && !misused
        invariant counts.Keys <= old(counts).Keys && targets.Keys <= old(targets).Keys
        decreases members
      {
        var h :| h in members;
        ghost var targets1 := targets;
        DestroyHandle(h, busy, r, log, held, dying);
        if misused {
          return;
        }
        members := Members(targets, o);
        assert members <= Members(targets1, o) - {h};
      }
    }

    /** The destructor of a handle in a dying object. */
    method DestroyHandle(h: Handle, busy: Option<Handle>, ghost r: Release, ghost log: seq<ObjectId>,
                         ghost held: multiset<ObjectId>, ghost dying: set<ObjectId>)
      requires Going(r, log, held, dying) && r.busy == busy && !misused
      requires h in targets && h.Member? && h.owner in r.live && h.owner !in counts
      modifies this`counts, this`targets, this`misused, this`deleted
      ensures misused ==> busy.Some? && r.Dooms(busy.value)
      ensures !misused ==> Going(r, log, held, dying)
      ensures !misused ==> counts.Keys <= old(counts).Keys && targets.Keys <= old(targets).Keys - {h}
      decreases counts.Keys, 2
    {
      var p := targets[h];
      MemberGoes(r, log, counts, targets, created, deleted, h);
      if busy == Some(h) {
        targets := targets - {h};
        misused := true;  // the assignment will write to it
        return;
      }
      Unhook(counts, targets, busy, held, dying, h);
      targets := targets - {h};
      if p.Some? {
        assert held + multiset{p.value} - multiset{p.value} == held;
        RemoveReference(p.value, busy, r, log, held + multiset{p.value}, dying);
      }
    }

    // ---------- the operations ----------

    /** new T. */
    method NewObject(o: ObjectId)
      requires Valid() && o !in created
      modifies this
      ensures Valid() && counts == old(counts)[o := 0] && created == old(created) + {o}
      ensures targets == old(targets) && misused == old(misused)
    {
      counts, created, raw := counts[o := 0], created + {o}, raw + {o};
      NoHandles(targets, o);
    }

    /** ptr(T*) and, with the target of another handle, ptr(const ptr&). */
    method Construct(a: Handle, p: Option<ObjectId>)
      requires Valid() && State().CanConstruct(a) && (p.Some? ==> p.value in counts)
      modifies this
      ensures Valid() && State() == old(State()).(targets := old(targets)[a := p]) && misused == old(misused)
      ensures counts == Added(old(counts), p)
    {
      NotYetThere(targets, a);
      CountsCoverHeld(counts, targets, None, multiset{}, {});
      AddReferenceTo(p);
      Hook(counts, targets, a, p);
      targets := targets[a := p];
    }

    /** ptr(ptr&&): the new handle takes over the reference. */
    method MoveConstruct(a: Handle, b: Handle)
      requires Valid() && State().CanConstruct(a) && b in targets
      modifies this
      ensures Valid() && targets == old(targets)[b := None][a := old(targets)[b]]
      ensures counts == old(counts) && misused == old(misused) && created == old(created)
    {
      var p := targets[b];
      Moved(counts, targets, a, b);
      targets := targets[a := p];
      targets := targets[b := None];
    }

    /** Gives up the held reference to the root of a release and carries it to its end: exactly the doomed
        objects are deleted, each after all that pointed to it, and the handle being assigned is lost
        exactly if it is in one of them. */
    method CarryOut(busy: Option<Handle>, root: Option<ObjectId>, ghost r: Release)
      requires Inv(busy, Held(root) + Held(r.kept), {}) && IsRaw(counts, raw) && !misused
      requires r == Release(counts.Keys, targets, busy, root, r.kept)
      requires busy.Some? ==> busy.value in targets
      modifies this`counts, this`targets, this`misused, this`deleted
      ensures misused <==> busy.Some? && r.Dooms(busy.value)
      ensures !misused ==> Inv(busy, Held(r.kept), {}) && IsRaw(counts, raw) && State() == old(State()).After(r)
      ensures !misused ==> old(deleted) <= deleted && InOrder(old(targets), busy, deleted, |old(deleted)|)
      ensures !misused && root.Some? && old(counts)[root.value] == 1 ==> root.value !in counts
      ensures root.Some? && old(counts)[root.value] > 1 ==> !misused && targets == old(targets)
    {
      HeldMinus(root, r.kept);
      RawIsNotReached(r, counts, Held(root) + Held(r.kept), raw);
      ReleaseStarts(r, counts, created, deleted);
      if root.Some? {
        RemoveReference(root.value, busy, r, old(deleted), Held(root) + Held(r.kept), {});
      }
      if !misused {
        ReleaseIsExact(r, old(deleted), counts, targets, created, deleted, raw);
      }
    }

    /** ~ptr of a local: exactly the doomed objects are deleted, each after all that pointed to it. */
    method Destroy(a: Handle)
      requires Valid() && a in targets && a.Local? && !misused
      modifies this
      ensures Valid() && !misused && State() == old(State()).After(old(State()).Destroying(a))
      ensures old(deleted) <= deleted && InOrder(old(targets) - {a}, None, deleted, |old(deleted)|)
    {
      ghost var r := State().Destroying(a);
      var p := targets[a];
      Unhook(counts, targets, None, multiset{}, {}, a);
      targets := targets - {a};
      assert multiset{} + Held(p) == Held(p) == Held(p) + Held(None);
      CarryOut(None, p, r);
    }

    /** The start of every assignment: a reference is added for the new target p, and the old target of a
        is about to be released. */
    method HoldFor(a: Handle, p: Option<ObjectId>) returns (old': Option<ObjectId>)
      requires Valid() && a in targets && (p.Some? ==> p.value in counts)
      modifies this`counts, this`raw
      ensures old' == targets[a] && counts == Added(old(counts), p)
      ensures Inv(Some(a), Held(old') + Held(p), {}) && RawKept()
      ensures old'.Some? ==> old'.value in counts && counts[old'.value] >= 1
      ensures old'.Some? ==> (counts[old'.value] == 1 <==> LastReference(old(counts), old', p))
    {
      old' := targets[a];
      if old'.Some? {
        ReleasedCount(counts, targets, a, p);
      }
      Retarget(counts, targets, a, p);
      BookAndRawAdded(counts, targets, created, deleted, raw, p);
      AddReferenceTo(p);
    }

    /** The release of the old target. It loses the assigned handle exactly if that is in a doomed object. */
    method ReleaseFor(a: Handle, p: Option<ObjectId>)
      requires Valid() && a in targets && (p.Some? ==> p.value in counts) && !misused
      modifies this`counts, this`targets, this`misused, this`deleted, this`raw
      ensures misused <==> old(State()).Assigning(a, p).Dooms(a)
      ensures !misused ==> Inv(Some(a), Held(p), {}) && RawKept()
      ensures !misused ==> State() == old(State()).After(old(State()).Assigning(a, p))
      ensures !misused ==> old(deleted) <= deleted && InOrder(old(targets), Some(a), deleted, |old(deleted)|)
      ensures !misused && LastReference(old(counts), old(targets)[a], p) ==> old(targets)[a].value !in counts
      ensures !LastReference(old(counts), old(targets)[a], p) ==> !misused && targets == old(targets)
    {
      ghost var r := State().Assigning(a, p);
      var old' := HoldFor(a, p);
      CarryOut(Some(a), old', r);
    }

    /** operator=(nullptr) and operator=(T*). The handle is written after the old target was released,
        which goes wrong exactly if the handle is in a doomed object. */
    method AssignObject(a: Handle, p: Option<ObjectId>)
      requires Valid() && a in targets && (p.Some? ==> p.value in counts) && !misused
      modifies this
      ensures misused <==> old(State()).Assigning(a, p).Dooms(a)
      ensures !misused ==> Valid() && State() == old(State()).Assigned(a, p)
      ensures !misused ==> old(deleted) <= deleted && InOrder(old(targets), Some(a), deleted, |old(deleted)|)
      ensures !LastReference(old(counts), old(targets)[a], p) ==> !misused
    {
      ReleaseFor(a, p);
      if misused {
        return;
      }
      Hook(counts, targets, a, p);
      targets := targets[a := p];
    }

    /** operator=(const ptr&), self-assignment included. Both handles are used after the old target was
        released, which goes wrong exactly if one of them is in a doomed object. For a member of the object
        assigned from, as in head = head->next, this is so exactly if a holds the only reference to it. */
    method Assign(a: Handle, b: Handle)
      requires Valid() && a in targets && b in targets && !misused
      modifies this
      ensures misused <==> old(State()).Assigning(a, old(targets)[b]).Dooms(a) || old(State()).Assigning(a, old(targets)[b]).Dooms(b)
      ensures !misused ==> Valid() && State() == old(State()).Assigned(a, old(targets)[b])
      ensures !misused ==> old(deleted) <= deleted && InOrder(old(targets), Some(a), deleted, |old(deleted)|)
      ensures !LastReference(old(counts), old(targets)[a], old(targets)[b]) ==> !misused
      ensures a != b && b.Member? && old(targets)[a] == Some(b.owner) ==> (misused <==> old(counts)[b.owner] == 1)
    {
      var p := targets[b];
      if a != b && targets[a].Some? && counts[targets[a].value] == 1 {
        OnlyReference(counts, targets, a, b);
      }
      ReleaseFor(a, p);
      if misused {
        return;
      }
      if b !in targets {
        misused := true;
        return;
      }
      Hook(counts, targets, a, p);
      targets := targets[a := targets[b]];
    }

    /** Every operation has the effect it has on the heap without counts, and uses a freed handle exactly if
        it is unsafe there. */
    method Execute(op: Op)
      requires Valid() && State().Enabled(op) && !misused
      modifies this
      ensures misused <==> !old(State()).IsSafe(op)
      ensures !misused ==> Valid() && State() == old(State()).Next(op)
      ensures !misused ==> Writes(op, old(targets), targets) && Spares(op, old(State()), State())
      ensures op.MoveConstruct? ==> counts == old(counts)
      ensures op.CopyConstruct? ==>
                forall o :: o in counts ==> o in old(counts) && counts[o] == old(counts)[o] + if old(targets)[op.b] == Some(o) then 1 else 0
    {
      if State().IsSafe(op) {
        NextMeans(State(), op);
      }
      match op {
        case New(o) => NewObject(o);
        case ConstructNull(a) => Construct(a, None);
        case ConstructFrom(a, o) => Construct(a, Some(o));
        case CopyConstruct(a, b) => Construct(a, targets[b]);
        case MoveConstruct(a, b) => MoveConstruct(a, b);
        case Destroy(a) => Destroy(a);
        case AssignNull(a) => AssignObject(a, None);
        case AssignFrom(a, o) => AssignObject(a, Some(o));
        case Assign(a, b) => Assign(a, b);
      }
    }

    /** Any sequence of operations: a freed handle is used exactly if the run without counts has an unsafe
        operation, and until then objects and handles are those of that run and the counts are right. */
    method Run(ops: seq<Op>)
      requires Valid() && !misused
      modifies this
      ensures misused <==> old(State()).Run(ops, 0).None?
      ensures !misused ==> Valid() && old(State()).Run(ops, 0) == Some(State())
      ensures (forall i :: 0 <= i < |ops| ==> AssignsLocals(ops[i])) ==> !misused
    {
      ghost var goal := State().Run(ops, 0);
      if forall i :: 0 <= i < |ops| ==> AssignsLocals(ops[i]) {
        LocalsAreSafe(State(), ops, 0);
      }
      for i := 0 to |ops|
        invariant !misused && Valid() && State().Run(ops, i) == goal
      {
        if State().Enabled(ops[i]) {
          Execute(ops[i]);
          if misused {
            return;
          }
        }
      }
    }

    /** An object that ever had a handle is live exactly as long as some handle points to it, and once
        gone it was deleted exactly once. */
    lemma LiveIffReferenced(o: ObjectId)
      requires Valid() && o in created && o !in raw
      ensures o in counts <==> exists h :: h in targets && targets[h] == Some(o)
      ensures o !in counts <==> o in deleted
      ensures o !in counts ==> forall i, j :: 0 <= i < j < |deleted| ==> !(deleted[i] == o && deleted[j] == o)
      ensures o in counts ==> counts[o] == |HandlesTo(targets, None, o)|
    {
      if o in counts {
        assert counts[o] == |HandlesTo(targets, None, o)|;
        var h :| h in HandlesTo(targets, None, o);
      }
    }
  }

  /** Releasing the old target, with a reference added for p, takes its last reference. */
  predicate LastReference(counts: map<ObjectId, int>, old': Option<ObjectId>, p: Option<ObjectId>) {
    old'.Some? && p != old' && old'.value in counts && counts[old'.value] == 1
  }

  function Held(p: Option<ObjectId>): multiset<ObjectId> {
    if p.Some? then multiset{p.value} else multiset{}
  }

  lemma NoHandles(targets: Targets, o: ObjectId)
    requires forall h :: h in targets ==> targets[h] != Some(o)
    ensures HandlesTo(targets, None, o) == {}
  {
  }

  lemma NotYetThere(targets: Targets, a: Handle)
    requires a !in targets
    ensures forall o :: HandlesTo(targets, Some(a), o) == HandlesTo(targets, None, o)
  {
  }

  /** Pointing the busy handle to p uses up the reference held for it. */
  lemma Hook(counts: map<ObjectId, int>, targets: Targets, a: Handle, p: Option<ObjectId>)
    requires Consistent(counts, targets, Some(a), Held(p), {})
    requires a.Member? ==> a.owner in counts
    ensures Consistent(counts, targets[a := p], None, multiset{}, {})
  {
    forall o | o in counts
      ensures counts[o] == |HandlesTo(targets[a := p], None, o)|
    {
      SetHandle(targets, a, p, o);
    }
  }

  /** A handle about to be assigned holds its old target and the reference already added for p. */
  lemma Retarget(counts: map<ObjectId, int>, targets: Targets, a: Handle, p: Option<ObjectId>)
    requires a in targets && (p.Some? ==> p.value in counts)
    requires Consistent(counts, targets, None, multiset{}, {})
    ensures Consistent(Added(counts, p), targets, Some(a), Held(targets[a]) + Held(p), {})
  {
    forall o | o in counts
      ensures Added(counts, p)[o] == |HandlesTo(targets, Some(a), o)| + (Held(targets[a]) + Held(p))[o]
    {
      assert counts[o] == |HandlesTo(targets, None, o)|;
      MarkBusy(targets, a, o);
    }
  }

  lemma Moved(counts: map<ObjectId, int>, targets: Targets, a: Handle, b: Handle)
    requires Consistent(counts, targets, None, multiset{}, {}) && a !in targets && b in targets
    requires a.Member? ==> a.owner in counts
    ensures Consistent(counts, targets[a := targets[b]][b := None], None, multiset{}, {})
  {
    var targets' := targets[a := targets[b]][b := None];
    forall o | o in counts
      ensures counts[o] == |HandlesTo(targets', None, o)|
    {
      assert counts[o] == |HandlesTo(targets, None, o)|;
      SetHandle(targets, a, targets[b], o);
      NotYetThere(targets, a);
      MarkBusy(targets[a := targets[b]], b, o);
      SetHandle(targets[a := targets[b]], b, None, o);
    }
  }

  function Added(counts: map<ObjectId, int>, p: Option<ObjectId>): map<ObjectId, int>
    requires p.Some? ==> p.value in counts
  {
    if p.Some? then counts[p.value := counts[p.value] + 1] else counts
  }

  lemma BookAndRawAdded(counts: map<ObjectId, int>, targets: Targets, created: set<ObjectId>, deleted: seq<ObjectId>,
                        raw: set<ObjectId>, p: Option<ObjectId>)
    requires Consistent(counts, targets, None, multiset{}, {}) && Book(counts, created, deleted) && IsRaw(counts, raw)
    requires p.Some? ==> p.value in counts
    ensures Book(Added(counts, p), created, deleted)
    ensures IsRaw(Added(counts, p), if p.Some? then raw - {p.value} else raw)
  {
    CountsCoverHeld(counts, targets, None, multiset{}, {});
  }

  lemma HeldMinus(old': Option<ObjectId>, p: Option<ObjectId>)
    ensures if old'.Some? then Held(old') + Held(p) - multiset{old'.value} == Held(p) else Held(old') + Held(p) == Held(p)
  {
  }

  /** The count found when the old target is released says whether this was its last reference. */
  lemma ReleasedCount(counts: map<ObjectId, int>, targets: Targets, a: Handle, p: Option<ObjectId>)
    requires Consistent(counts, targets, None, multiset{}, {}) && a in targets && targets[a].Some?
    requires p.Some? ==> p.value in counts
    ensures targets[a].value in counts && Added(counts, p)[targets[a].value] >= 1
    ensures Added(counts, p)[targets[a].value] == 1 <==> LastReference(counts, targets[a], p)
    ensures p.Some? ==> counts[p.value] >= 0
  {
    var o := targets[a].value;
    assert counts[o] == |HandlesTo(targets, None, o)|;
    assert a in HandlesTo(targets, None, o);
    CountsCoverHeld(counts, targets, None, multiset{}, {});
  }

  lemma CountsCoverHeld(counts: map<ObjectId, int>, targets: Targets, busy: Option<Handle>, held: multiset<ObjectId>, dying: set<ObjectId>)
    requires Consistent(counts, targets, busy, held, dying)
    ensures forall o :: o in counts ==> counts[o] >= held[o]
  {
    forall o | o in counts
      ensures counts[o] >= held[o]
    {
      assert counts[o] == |HandlesTo(targets, busy, o)| + held[o];
    }
  }

  /** If a local holds the only reference to the owner of b, then b points elsewhere. */
  lemma OnlyReference(counts: map<ObjectId, int>, targets: Targets, a: Handle, b: Handle)
    requires Consistent(counts, targets, None, multiset{}, {}) && a in targets && b in targets
    requires a != b && targets[a].Some? && counts[targets[a].value] == 1
    ensures targets[b] != targets[a]
  {
    var o := targets[a].value;
    if targets[b] == Some(o) {
      assert {a, b} <= HandlesTo(targets, None, o);
      SubsetSize({a, b}, HandlesTo(targets, None, o));
    }
  }

  lemma SubsetSize<T>(a: set<T>, b: set<T>)
    requires a <= b
    ensures |a| <= |b|
  {
    assert b == a + (b - a);
  }
}
