/**
 * The device manager as a value: the index of sysfs paths, the devices by identifier and the
 * identifier counter, and what every run of device events keeps of them
 * (src/Library/DeviceManagerBase.cpp, DeviceManagerPrivate.cpp, UEventDeviceManager.cpp).
 */
module DeviceTree {
  import opened Text
  import opened Rules
  import opened PolicyState
  import opened PolicyLaws

  type Path = string

  /** What the manager records of a device besides its attributes. */
  datatype Node = Node(path: Path, parentId: nat)

  /** `index` may hold a path with identifier 0: enumerated, but without a device so far. */
  datatype Tree = Tree(index: map<Path, nat>, devices: map<nat, Node>, next: nat)

  /**
   * What sysfs says about a path while an event is processed: no USB device, a device whose files cannot
   * be read, or a device with the path of its parent if the parent is a USB device as well.
   */
  datatype Sysfs = NotADevice | Unusable | Usable(parent: Option<Path>)

  datatype Event = Present(id: nat) | Inserted(id: nat) | Removed(id: nat)

  /** The constructor of DeviceBase asks for the identifier of the parent and fails for an unknown path. */
  function ParentId(t: Tree, parent: Option<Path>): (r: Result<nat>) {
    match parent
    case None => Ok(ROOT_ID)
    case Some(path) => if path in t.index then Ok(t.index[path]) else Err
  }

  /** processDeviceInsertion: an exception leaves the maps as they are. */
  function Insertion(t: Tree, path: Path, parent: Option<Path>): (r: (Tree, seq<Event>)) {
    var parentId := ParentId(t, parent);
    if parentId.Err? then (t, [])
    else match Assign(t.next)
      case Err => (t, [])
      case Ok((id, next)) =>
        (Tree(t.index[path := id], t.devices[id := Node(path, parentId.value)], next),
         [if path in t.index then Present(id) else Inserted(id)])
  }

  predicate Live(t: Tree, path: Path) {
    path in t.index && t.index[path] > 0
  }

  /** The action "add": a path with a device is only reported. */
  function Add(t: Tree, path: Path, sys: Sysfs): (r: (Tree, seq<Event>)) {
    if Live(t, path) then (t, if sys.Usable? && t.index[path] in t.devices then [Present(t.index[path])] else [])
    else if sys.Usable? then Insertion(t, path, sys.parent)
    else (t, [])
  }

  /** Enumeration marks the path before it is added. */
  function Enumerate(t: Tree, path: Path, sys: Sysfs): (r: (Tree, seq<Event>)) {
    if sys.NotADevice? then (t, []) else Add(t.(index := t.index[path := 0]), path, sys)
  }

  /** The action "remove"; a path without a device stays in the index. */
  function Remove(t: Tree, path: Path): (r: (Tree, seq<Event>)) {
    if path !in t.index || t.index[path] !in t.devices then (t, [])
    else (t.(index := t.index - {path}, devices := t.devices - {t.index[path]}), [Removed(t.index[path])])
  }

  datatype Op =
    | EnumerateOp(path: Path, sys: Sysfs)
    | AddOp(path: Path, sys: Sysfs)
    | RemoveOp(path: Path)
    | OtherIdOp // the counter is shared with the rule sets

  function Step(t: Tree, op: Op): (r: (Tree, seq<Event>)) {
    match op
    case EnumerateOp(path, sys) => Enumerate(t, path, sys)
    case AddOp(path, sys) => Add(t, path, sys)
    case RemoveOp(path) => Remove(t, path)
    case OtherIdOp =>
      match Assign(t.next)
      case Err => (t, [])
      case Ok((_, next)) => (t.(next := next), [])
  }

  function Run(t: Tree, ops: seq<Op>): (r: (Tree, seq<Event>))
    decreases |ops|
  {
    if ops == [] then (t, [])
    else
      var (t1, es) := Step(t, ops[0]);
      var (t2, more) := Run(t1, ops[1..]);
      (t2, es + more)
  }

  const EMPTY := Tree(map[], map[], 1)

  // ----- The index invariant

  ghost predicate Wf(t: Tree) {
    && 1 <= t.next < LAST_ID
    && (forall p :: p in t.index && t.index[p] != 0 ==> t.index[p] in t.devices && t.devices[t.index[p]].path == p)
    && (forall id :: id in t.devices ==> 1 <= id < t.next && t.devices[id].parentId < id)
  }

  lemma InsertionKeeps(t: Tree, path: Path, parent: Option<Path>)
    requires Wf(t) && !Live(t, path)
    ensures Wf(Insertion(t, path, parent).0)
  {
    AssignValue(t.next);
  }

  lemma StepKeeps(t: Tree, op: Op)
    requires Wf(t)
    ensures Wf(Step(t, op).0)
  {
    AssignValue(t.next);
    match op
    case EnumerateOp(path, sys) =>
      var t' := t.(index := t.index[path := 0]);
      if sys.Usable? {
        InsertionKeeps(t', path, sys.parent);
      }
    case AddOp(path, sys) =>
      if sys.Usable? && !Live(t, path) {
        InsertionKeeps(t, path, sys.parent);
      }
    case RemoveOp(path) =>
      var t' := Remove(t, path).0;
      forall p | p in t'.index && t'.index[p] != 0 ensures t'.index[p] in t'.devices {
        assert t.devices[t.index[p]].path == p;
      }
    case OtherIdOp =>
  }

  /**
   * Over every run, every path with an identifier names a live device with that path, no two paths share
   * an identifier, and the identifier of a parent is smaller than that of the device.
   */
  lemma {:induction false} RunKeeps(t: Tree, ops: seq<Op>)
    requires Wf(t)
    ensures Wf(Run(t, ops).0)
    ensures var i := Run(t, ops).0.index; forall p, q :: p in i && q in i && i[p] == i[q] != 0 ==> p == q
    decreases |ops|
  {
    if ops != [] {
      StepKeeps(t, ops[0]);
      RunKeeps(Step(t, ops[0]).0, ops[1..]);
    }
  }

  /** A chain of parents never comes back to a device. */
  predicate IsChain(t: Tree, ids: seq<nat>) {
    forall i :: 0 <= i < |ids| - 1 ==> ids[i] in t.devices && ids[i + 1] == t.devices[ids[i]].parentId
  }

  lemma {:induction false} ParentsDescend(t: Tree, ids: seq<nat>)
    requires Wf(t) && IsChain(t, ids) && |ids| > 1
    ensures ids[|ids| - 1] < ids[0]
  {
    assert ids[0] in t.devices && ids[1] == t.devices[ids[0]].parentId;
    if |ids| > 2 {
      assert forall i :: 0 <= i < |ids[1..]| ==> ids[1..][i] == ids[i + 1];
      ParentsDescend(t, ids[1..]);
    }
  }

  // ----- When the two maps are inverse

  /** Every device is found under its path. */
  predicate Inverse(t: Tree) {
    forall id :: id in t.devices ==> Found(t, id)
  }

  predicate Found(t: Tree, id: nat)
    requires id in t.devices
  {
    t.devices[id].path in t.index && t.index[t.devices[id].path] == id
  }

  /** The steps that enumerate a path which already has a device. */
  predicate Reenumerates(t: Tree, op: Op) {
    op.EnumerateOp? && !op.sys.NotADevice? && Live(t, op.path)
  }

  predicate AnyReenumeration(t: Tree, ops: seq<Op>)
    decreases |ops|
  {
    ops != [] && (Reenumerates(t, ops[0]) || AnyReenumeration(Step(t, ops[0]).0, ops[1..]))
  }

  lemma InsertionInverse(t: Tree, path: Path, parent: Option<Path>)
    requires Wf(t) && !Live(t, path) && Inverse(t)
    ensures Inverse(Insertion(t, path, parent).0)
  {
    AssignValue(t.next);
    var t' := Insertion(t, path, parent).0;
    forall id | id in t'.devices ensures Found(t', id) {
      if id in t.devices {
        assert Found(t, id);
      }
    }
  }

  lemma StepInverse(t: Tree, op: Op)
    requires Wf(t) && Inverse(t) && !Reenumerates(t, op)
    ensures Inverse(Step(t, op).0)
  {
    match op
    case EnumerateOp(path, sys) =>
      var t' := t.(index := t.index[path := 0]);
      forall id | id in t'.devices ensures Found(t', id) || sys.NotADevice? {
        assert Found(t, id);
      }
      if sys.Usable? {
        InsertionInverse(t', path, sys.parent);
      }
    case AddOp(path, sys) =>
      if sys.Usable? && !Live(t, path) {
        InsertionInverse(t, path, sys.parent);
      }
    case RemoveOp(path) =>
      var t' := Remove(t, path).0;
      forall id | id in t'.devices ensures Found(t', id) {
        assert Found(t, id);
      }
    case OtherIdOp =>
      AssignValue(t.next);
      var t' := Step(t, op).0;
      forall id | id in t'.devices ensures Found(t', id) {
        assert Found(t, id);
      }
  }

  /** A device that is not found under its path. */
  predicate Orphan(t: Tree, id: nat) {
    id in t.devices && !Found(t, id)
  }

  /** Enumerating a path again makes an orphan of its device. */
  lemma ReenumerationOrphans(t: Tree, op: Op)
    requires Wf(t) && Reenumerates(t, op)
    ensures Orphan(Step(t, op).0, t.index[op.path])
  {
    AssignValue(t.next);
  }

  /** And an orphan is never found nor removed again. */
  lemma OrphanStays(t: Tree, op: Op, id: nat)
    requires Wf(t) && Orphan(t, id)
    ensures Orphan(Step(t, op).0, id)
  {
    AssignValue(t.next);
  }

  lemma {:induction false} OrphanStaysOverRun(t: Tree, ops: seq<Op>, id: nat)
    requires Wf(t) && Orphan(t, id)
    ensures Orphan(Run(t, ops).0, id)
    decreases |ops|
  {
    if ops != [] {
      StepKeeps(t, ops[0]);
      OrphanStays(t, ops[0], id);
      OrphanStaysOverRun(Step(t, ops[0]).0, ops[1..], id);
    }
  }

  /** The maps are inverse at the end of a run exactly if the run enumerated no path that had a device. */
  lemma {:induction false} InverseIff(t: Tree, ops: seq<Op>)
    requires Wf(t) && Inverse(t)
    ensures Inverse(Run(t, ops).0) <==> !AnyReenumeration(t, ops)
    decreases |ops|
  {
    if ops != [] {
      var t1 := Step(t, ops[0]).0;
      StepKeeps(t, ops[0]);
      if Reenumerates(t, ops[0]) {
        var id := t.index[ops[0].path];
        ReenumerationOrphans(t, ops[0]);
        OrphanStaysOverRun(t1, ops[1..], id);
        assert !Found(Run(t, ops).0, id);
      } else {
        StepInverse(t, ops[0]);
        InverseIff(t1, ops[1..]);
      }
    }
  }

  // ----- What single events do

  /** A device that is added again is only reported as present. */
  lemma LiveIsReported(t: Tree, path: Path, parent: Option<Path>)
    requires Wf(t) && Live(t, path)
    ensures Step(t, AddOp(path, Usable(parent))) == (t, [Present(t.index[path])])
  {
  }

  /** A removal of a path with a device takes it out of both maps and says so; any other changes nothing. */
  lemma RemovalIsTold(t: Tree, path: Path)
    requires Wf(t)
    ensures
      var (t', es) := Step(t, Op.RemoveOp(path));
      if Live(t, path)
      then && es == [Removed(t.index[path])] && path !in t'.index && t.index[path] !in t'.devices
           && t'.index == t.index - {path}
           && t'.devices == t.devices - {t.index[path]}
      else es == [] && t' == t
  {
  }

  /** A device comes in with the path and the parent that sysfs gives, or not at all. */
  lemma InsertionIsRecorded(t: Tree, path: Path, parent: Option<Path>)
    requires Wf(t) && !Live(t, path)
    ensures
      var (t', es) := Step(t, AddOp(path, Usable(parent)));
      if t.next + 1 < LAST_ID && (parent.Some? ==> parent.value in t.index)
      then && |es| == 1 && path in t'.index && t'.index[path] == t.next == es[0].id && t.next in t'.devices
           && t'.devices[t.next] == Node(path, if parent.Some? then t.index[parent.value] else ROOT_ID)
      else es == [] && t' == t
  {
    AssignValue(t.next);
  }

  // ----- Which event reports an arrival

  /** The first event about an identifier. */
  function FirstAbout(es: seq<Event>, id: nat): (e: Option<Event>) {
    if es == [] then None else if es[0].id == id then Some(es[0]) else FirstAbout(es[1..], id)
  }

  lemma {:induction false} FirstAboutConcat(a: seq<Event>, b: seq<Event>, id: nat)
    ensures FirstAbout(a + b, id) == if FirstAbout(a, id).Some? then FirstAbout(a, id) else FirstAbout(b, id)
  {
    if a == [] {
      assert a + b == b;
    } else {
      assert (a + b)[0] == a[0] && (a + b)[1..] == a[1..] + b;
      FirstAboutConcat(a[1..], b, id);
    }
  }

  /** Step `i` of the run brings the device with the identifier. */
  predicate Arrives(t: Tree, ops: seq<Op>, i: nat, id: nat)
    requires i < |ops|
  {
    var before := Run(t, ops[..i]).0;
    id !in before.devices && id in Step(before, ops[i]).0.devices
  }

  /** The device is plugged in: an event about a path that has not been enumerated. */
  predicate PlugsIn(t: Tree, ops: seq<Op>, i: nat)
    requires i < |ops|
  {
    ops[i].AddOp? && ops[i].path !in Run(t, ops[..i]).0.index
  }

  lemma StepArrival(t: Tree, op: Op, id: nat)
    requires Wf(t) && t.next <= id
    ensures
      var (t', es) := Step(t, op);
      if id in t'.devices
      then id < t'.next && es == [if op.AddOp? && op.path !in t.index then Inserted(id) else Present(id)]
      else FirstAbout(es, id) == None && (id < t'.next ==> id == t.next)
  {
    AssignValue(t.next);
  }

  /** An identifier that was handed out for something else never becomes that of a device. */
  lemma {:induction false} SpentId(t: Tree, ops: seq<Op>, id: nat)
    requires Wf(t) && id < t.next && id !in t.devices
    ensures id !in Run(t, ops).0.devices && FirstAbout(Run(t, ops).1, id) == None
    decreases |ops|
  {
    if ops != [] {
      AssignValue(t.next);
      StepKeeps(t, ops[0]);
      var (t1, es) := Step(t, ops[0]);
      assert |es| <= 1 && FirstAbout(es, id) == None;
      SpentId(t1, ops[1..], id);
      FirstAboutConcat(es, Run(t1, ops[1..]).1, id);
    }
  }

  /**
   * Over every run, the first event about a new device tells how it arrived: it was plugged in if the
   * step was an event about a path that the index did not know, and was present otherwise.
   */
  lemma {:induction false} ArrivalIsTold(t: Tree, ops: seq<Op>, id: nat)
    requires Wf(t) && t.next <= id
    ensures
      match FirstAbout(Run(t, ops).1, id)
      case None => id !in Run(t, ops).0.devices && forall i :: 0 <= i < |ops| ==> !Arrives(t, ops, i, id)
      case Some(e) =>
        exists i :: 0 <= i < |ops| && Arrives(t, ops, i, id)
          && e == if PlugsIn(t, ops, i) then Inserted(id) else Present(id)
    decreases |ops|
  {
    hide Step;
    if ops != [] {
      var (t1, es) := Step(t, ops[0]);
      StepKeeps(t, ops[0]);
      StepArrival(t, ops[0], id);
      FirstAboutConcat(es, Run(t1, ops[1..]).1, id);
      assert ops[..0] == [] && Run(t, ops[..0]).0 == t;
      forall i | 0 < i < |ops|
        ensures Arrives(t, ops, i, id) == Arrives(t1, ops[1..], i - 1, id)
        ensures PlugsIn(t, ops, i) == PlugsIn(t1, ops[1..], i - 1)
      {
        assert ops[..i][0] == ops[0] && ops[..i][1..] == ops[1..][..i - 1];
      }
      if id in t1.devices {
        assert FirstAbout(es, id) == Some(es[0]);
        assert Arrives(t, ops, 0, id);
      } else if id < t1.next {
        LaterSteps(t1, ops[1..], id);
        SpentId(t1, ops[1..], id);
      } else {
        ArrivalIsTold(t1, ops[1..], id);
        if FirstAbout(Run(t1, ops[1..]).1, id).Some? {
          var i :| 0 <= i < |ops[1..]| && Arrives(t1, ops[1..], i, id)
            && FirstAbout(Run(t1, ops[1..]).1, id)
              == Some(if PlugsIn(t1, ops[1..], i) then Inserted(id) else Present(id));
          assert Arrives(t, ops, i + 1, id);
        }
      }
    }
  }

  lemma LaterSteps(t: Tree, ops: seq<Op>, id: nat)
    requires Wf(t) && id < t.next && id !in t.devices
    ensures forall i :: 0 <= i < |ops| ==> !Arrives(t, ops, i, id)
  {
    hide Step;
    forall i | 0 <= i < |ops| ensures !Arrives(t, ops, i, id) {
      SpentId(t, ops[..i + 1], id);
      RunSplit(t, ops[..i], ops[i]);
      assert ops[..i + 1] == ops[..i] + [ops[i]];
    }
  }

  lemma {:induction false} RunSplit(t: Tree, ops: seq<Op>, op: Op)
    ensures Run(t, ops + [op]).0 == Step(Run(t, ops).0, op).0
    decreases |ops|
  {
    hide Step;
    if ops == [] {
      assert (ops + [op])[1..] == [] && (ops + [op])[0] == op;
    } else {
      assert (ops + [op])[0] == ops[0] && (ops + [op])[1..] == ops[1..] + [op];
      RunSplit(Step(t, ops[0]).0, ops[1..], op);
    }
  }

  predicate AllPresent(es: seq<Event>) {
    forall e :: e in es ==> e.Present?
  }

  lemma OneEnumeration(t: Tree, op: Op)
    requires op.EnumerateOp?
    ensures AllPresent(Step(t, op).1)
  {
  }

  /** Enumeration alone reports devices as present and nothing else. */
  lemma {:induction false} EnumerationReportsPresence(t: Tree, ops: seq<Op>)
    requires forall i :: 0 <= i < |ops| ==> ops[i].EnumerateOp?
    ensures AllPresent(Run(t, ops).1)
    decreases |ops|
  {
    hide Step;
    if ops != [] {
      var (t1, es) := Step(t, ops[0]);
      OneEnumeration(t, ops[0]);
      assert forall i :: 0 <= i < |ops[1..]| ==> ops[1..][i] == ops[i + 1];
      EnumerationReportsPresence(t1, ops[1..]);
      var more := Run(t1, ops[1..]).1;
      assert Run(t, ops).1 == es + more;
    }
  }

  // ----- The events of a device

  /** How far the life of an identifier has come. */
  datatype Phase = New | Alive | Gone | Wrong

  function After(phase: Phase, e: Event, id: nat): (r: Phase) {
    if e.id != id then phase
    else match phase
      case New => if e.Removed? then Wrong else Alive
      case Alive => if e.Removed? then Gone else if e.Present? then Alive else Wrong
      case Gone => Wrong
      case Wrong => Wrong
  }

  function PhaseOf(phase: Phase, es: seq<Event>, id: nat): (r: Phase)
    decreases |es|
  {
    if es == [] then phase else PhaseOf(After(phase, es[0], id), es[1..], id)
  }

  lemma {:induction false} PhaseConcat(phase: Phase, a: seq<Event>, b: seq<Event>, id: nat)
    ensures PhaseOf(phase, a + b, id) == PhaseOf(PhaseOf(phase, a, id), b, id)
    decreases |a|
  {
    if a == [] {
      assert a + b == b;
    } else {
      assert (a + b)[0] == a[0] && (a + b)[1..] == a[1..] + b;
      PhaseConcat(After(phase, a[0], id), a[1..], b, id);
    }
  }

  /** `phase` fits the state; identifiers that went to rules never get events. */
  predicate Fits(t: Tree, id: nat, phase: Phase) {
    if id in t.devices then phase == Alive
    else if id < t.next then phase == Gone || phase == New
    else phase == New
  }

  lemma StepFits(t: Tree, op: Op, id: nat, phase: Phase)
    requires Wf(t) && Fits(t, id, phase)
    ensures Fits(Step(t, op).0, id, PhaseOf(phase, Step(t, op).1, id))
  {
    AssignValue(t.next);
    var es := Step(t, op).1;
    assert |es| <= 1;
    if es != [] {
      assert es[1..] == [] && PhaseOf(phase, es, id) == After(phase, es[0], id);
    }
  }

  /**
   * Over every run the events about an identifier are an arrival, then reports of its presence, and at
   * most one removal as the last of them; the device exists exactly between arrival and removal.
   */
  lemma {:induction false} EventsAreOrderly(t: Tree, ops: seq<Op>, id: nat, phase: Phase)
    requires Wf(t) && Fits(t, id, phase)
    ensures
      var (t', es) := Run(t, ops);
      PhaseOf(phase, es, id) != Wrong && (PhaseOf(phase, es, id) == Alive <==> id in t'.devices)
    decreases |ops|
  {
    if ops != [] {
      var (t1, es) := Step(t, ops[0]);
      StepKeeps(t, ops[0]);
      StepFits(t, ops[0], id, phase);
      EventsAreOrderly(t1, ops[1..], id, PhaseOf(phase, es, id));
      PhaseConcat(phase, es, Run(t1, ops[1..]).1, id);
    }
  }
}
