/**
 * The order in which present devices are enumerated (src/Library/UEventDeviceManager.cpp), and that an
 * enumeration in this order finds the parent of every device.
 */
module Enumeration {
  import opened Text
  import opened Rules
  import PolicyLaws
  import opened DeviceTree

  /** `std::string::operator<` */
  predicate Lexicographic(a: string, b: string) {
    b != "" && (a == "" || a[0] < b[0] || (a[0] == b[0] && Lexicographic(a[1..], b[1..])))
  }

  predicate UsbPrefixed(name: string) {
    |name| >= 3 && name[..3] == "usb"
  }

  /** ueventEnumerateComparePath on the last components of two paths. */
  predicate Before(a: string, b: string) {
    if UsbPrefixed(a) != UsbPrefixed(b) then UsbPrefixed(a)
    else if |a| != |b| then |a| < |b|
    else Lexicographic(a, b)
  }

  lemma {:induction false} LexicographicTotal(a: string, b: string)
    ensures !Lexicographic(a, a)
    ensures Lexicographic(a, b) || Lexicographic(b, a) || a == b
    ensures !(Lexicographic(a, b) && Lexicographic(b, a))
    decreases |a|
  {
    if a != "" {
      LexicographicTotal(a[1..], if b != "" then b[1..] else "");
      if b != "" && a[0] == b[0] && a[1..] == b[1..] {
        assert a == [a[0]] + a[1..] == b;
      }
    }
  }

  lemma {:induction false} LexicographicTransitive(a: string, b: string, c: string)
    requires Lexicographic(a, b) && Lexicographic(b, c)
    ensures Lexicographic(a, c)
    decreases |a|
  {
    if a != "" && a[0] == b[0] == c[0] {
      LexicographicTransitive(a[1..], b[1..], c[1..]);
    }
  }

  /** The comparison is a strict total order on names, so sorting with it is well defined. */
  lemma BeforeIsStrictOrder(a: string, b: string, c: string)
    ensures !Before(a, a)
    ensures Before(a, b) || Before(b, a) || a == b
    ensures !(Before(a, b) && Before(b, a))
    ensures Before(a, b) && Before(b, c) ==> Before(a, c)
  {
    LexicographicTotal(a, b);
    LexicographicTotal(a, a);
    if Lexicographic(a, b) && Lexicographic(b, c) {
      LexicographicTransitive(a, b, c);
    }
  }

  /** Root hubs come first, then shorter names, and names of one length in the order of their characters. */
  lemma BeforeInOrder()
    ensures Before("usb10", "1-1") && Before("usb2", "usb10") && Before("1-9", "1-10") && Before("1-1", "1-2")
    ensures !Before("1-2", "1-1") && !Before("1-1", "usb2")
  {
    assert "usb10"[..3] == "usb" && "usb2"[..3] == "usb" && "1-1"[..3][0] == '1' && "1-2"[..3][0] == '1';
    assert "1-9"[..3][0] == '1' && "1-10"[..3][0] == '1';
    assert "1-1"[1..][1..] == "1" && "1-2"[1..][1..] == "2";
    assert "1-1"[1..] == "-1" && "1-2"[1..] == "-2";
    assert Lexicographic("1", "2") && Lexicographic("-1", "-2");
    assert !Lexicographic("2", "1") && !Lexicographic("-2", "-1");
  }

  /** Root hubs are named after their bus, and a device behind a hub extends the name of the hub. */
  predicate IsHubName(hub: string, name: string) {
    !UsbPrefixed(name) && (UsbPrefixed(hub) || (|hub| < |name| && name[..|hub|] == hub))
  }

  lemma HubFirst(hub: string, name: string)
    requires IsHubName(hub, name)
    ensures Before(hub, name)
  {
  }

  /** One entry of the list: the path, its last component, and the path of its parent device. */
  datatype Entry = Entry(path: Path, name: string, parent: Option<Path>)

  /** As `std::sort` leaves the list: no entry comes before one that should precede it. */
  predicate Sorted(es: seq<Entry>) {
    forall i, j :: 0 <= i < j < |es| ==> !Before(es[j].name, es[i].name)
  }

  /** Paths are distinct, and every parent is in the list under the name of a hub. */
  ghost predicate Closed(es: seq<Entry>) {
    && (forall i, j :: 0 <= i < j < |es| ==> es[i].path != es[j].path)
    && (forall j :: 0 <= j < |es| && es[j].parent.Some? ==> exists i :: IsHub(es, i, j))
  }

  predicate IsHub(es: seq<Entry>, i: int, j: int) {
    0 <= i < |es| && 0 <= j < |es| && Some(es[i].path) == es[j].parent && IsHubName(es[i].name, es[j].name)
  }

  lemma HubIsVisitedFirst(es: seq<Entry>, i: nat, j: nat)
    requires Sorted(es) && IsHub(es, i, j)
    ensures i < j
  {
    HubFirst(es[i].name, es[j].name);
    BeforeIsStrictOrder(es[i].name, es[j].name, es[i].name);
  }

  /** The steps that enumerate the entries one after the other. */
  function Ops(es: seq<Entry>): (ops: seq<Op>)
    ensures |ops| == |es| && forall i :: 0 <= i < |es| ==> ops[i] == EnumerateOp(es[i].path, Usable(es[i].parent))
  {
    seq(|es|, i requires 0 <= i < |es| => EnumerateOp(es[i].path, Usable(es[i].parent)))
  }

  /** Entry `i` has a device that hangs under the device of its parent. */
  predicate InPlace(t: Tree, e: Entry) {
    && Live(t, e.path) && t.index[e.path] in t.devices
    && var node := t.devices[t.index[e.path]];
       && node.path == e.path
       && match e.parent
          case None => node.parentId == ROOT_ID
          case Some(p) => Live(t, p) && node.parentId == t.index[p]
  }

  /** Enumerating one more entry whose parent is known puts it in place and moves nothing else. */
  lemma EnumerateOne(t: Tree, e: Entry)
    requires Wf(t) && t.next + 1 < LAST_ID && !Live(t, e.path) && (e.parent.Some? ==> Live(t, e.parent.value))
    ensures
      var (t', events) := Step(t, EnumerateOp(e.path, Usable(e.parent)));
      && InPlace(t', e) && t'.next == t.next + 1 && e.path in t'.index && t'.index[e.path] == t.next
      && events == [Present(t.next)]
      && (forall p :: p != e.path ==> (p in t.index <==> p in t'.index) && (p in t.index ==> t'.index[p] == t.index[p]))
      && (forall id :: id in t.devices ==> id in t'.devices && t'.devices[id] == t.devices[id])
  {
    PolicyLaws.AssignValue(t.next);
    assert e.parent != Some(e.path);
  }

  lemma StaysInPlace(t: Tree, t': Tree, e: Entry, path: Path)
    requires InPlace(t, e) && e.path != path && e.parent != Some(path)
    requires forall p :: p != path ==> (p in t.index <==> p in t'.index) && (p in t.index ==> t'.index[p] == t.index[p])
    requires forall id :: id in t.devices ==> id in t'.devices && t'.devices[id] == t.devices[id]
    ensures InPlace(t', e)
  {
  }

  /** The entries up to `n` are in place under consecutive identifiers, the others have no device yet. */
  ghost predicate Upto(t: Tree, es: seq<Entry>, n: nat) {
    && n <= |es| && Wf(t) && t.next == 1 + n
    && (forall i :: 0 <= i < n ==> InPlace(t, es[i]) && es[i].path in t.index && t.index[es[i].path] == 1 + i)
    && (forall i :: n <= i < |es| ==> !Live(t, es[i].path))
  }

  lemma EnumerateNext(t: Tree, es: seq<Entry>, n: nat)
    requires Sorted(es) && Closed(es) && Upto(t, es, n) && n < |es| && t.next + 1 < LAST_ID
    ensures
      var (t', events) := Step(t, EnumerateOp(es[n].path, Usable(es[n].parent)));
      Upto(t', es, n + 1) && t'.next == t.next + 1 && events == [Present(1 + n)]
  {
    hide Step, InPlace;
    var e := es[n];
    var op := EnumerateOp(e.path, Usable(e.parent));
    if e.parent.Some? {
      var h :| IsHub(es, h, n);
      HubIsVisitedFirst(es, h, n);
      assert Live(t, e.parent.value) by { assert InPlace(t, es[h]); ParentIsLive(t, es[h]); }
    }
    EnumerateOne(t, e);
    StepKeeps(t, op);
    var t' := Step(t, op).0;
    forall i | 0 <= i < n ensures InPlace(t', es[i]) {
      ParentIsEarlier(es, i, n);
      StaysInPlace(t, t', es[i], e.path);
    }
  }

  lemma ParentIsEarlier(es: seq<Entry>, i: nat, n: nat)
    requires Sorted(es) && Closed(es) && i < n < |es|
    ensures es[i].parent != Some(es[n].path) && es[i].path != es[n].path
  {
    if es[i].parent.Some? {
      var h :| IsHub(es, h, i);
      HubIsVisitedFirst(es, h, i);
    }
  }

  lemma ParentIsLive(t: Tree, e: Entry)
    requires InPlace(t, e)
    ensures Live(t, e.path)
  {
  }

  /** The reports of the identifiers from `a` up to `b`. */
  function Presences(a: nat, b: nat): (es: seq<Event>)
    requires a <= b
    ensures |es| == b - a && forall i :: 0 <= i < |es| ==> es[i] == Present(a + i)
  {
    seq(b - a, i requires 0 <= i < b - a => Present(a + i))
  }

  lemma {:induction false} EnumerateFrom(t: Tree, es: seq<Entry>, n: nat)
    requires Sorted(es) && Closed(es) && Upto(t, es, n) && n <= |es| && t.next + (|es| - n) < LAST_ID
    ensures Upto(Run(t, Ops(es)[n..]).0, es, |es|)
    ensures Run(t, Ops(es)[n..]).1 == Presences(1 + n, 1 + |es|)
    decreases |es| - n
  {
    hide Step, Upto;
    if n < |es| {
      EnumerateNext(t, es, n);
      assert Ops(es)[n..][0] == Ops(es)[n] && Ops(es)[n..][1..] == Ops(es)[n + 1..];
      EnumerateFrom(Step(t, Ops(es)[n]).0, es, n + 1);
      assert [Present(1 + n)] + Presences(2 + n, 1 + |es|) == Presences(1 + n, 1 + |es|);
    } else {
      assert Ops(es)[n..] == [] && n == |es| by { assert n <= |es| by { UptoBound(t, es, n); } }
    }
  }

  lemma UptoBound(t: Tree, es: seq<Entry>, n: nat)
    requires Upto(t, es, n)
    ensures n <= |es|
  {
  }

  /**
   * Enumerating a sorted and closed list gives every entry a device, and the recorded parent of every
   * device is the device at the path of its parent.  Each device is reported as present exactly once, in
   * the order of the list.
   */
  lemma EnumerationIsComplete(es: seq<Entry>)
    requires Sorted(es) && Closed(es) && 1 + |es| < LAST_ID
    ensures
      var (t, events) := Run(EMPTY, Ops(es));
      && |events| == |es|
      && forall i :: 0 <= i < |es| ==> InPlace(t, es[i]) && events[i] == Present(t.index[es[i].path]) == Present(1 + i)
  {
    assert Upto(EMPTY, es, 0);
    EnumerateFrom(EMPTY, es, 0);
    assert Ops(es)[0..] == Ops(es);
  }
}
