/** The device manager as an object whose two maps are changed in place. */
module DeviceManager {
  import opened Text
  import opened Rules
  import opened PolicyState
  import opened DeviceTree
  import P = Policy

  class Manager {
    var index: map<Path, nat>
    var devices: map<nat, Node>
    const hooks: P.RuleSet // the policy assigns identifiers to rules and devices alike
    const enumerationOnly: bool

    constructor (hooks: P.RuleSet, enumerationOnly: bool)
      ensures this.hooks == hooks && this.enumerationOnly == enumerationOnly && index == map[] && devices == map[]
    {
      this.hooks, this.enumerationOnly, index, devices := hooks, enumerationOnly, map[], map[];
    }

    ghost function Abs(): (t: Tree)
      reads this, hooks.counter
    {
      Tree(index, devices, hooks.counter.next)
    }

    method KnownSysfsPath(path: Path) returns (known: bool, id: nat)
      ensures known == (path in index) && id == if known then index[path] else 0
    {
      known, id := false, 0;
      if path in index {
        known, id := true, index[path];
      }
    }

    method LearnSysfsPath(path: Path, id: nat)
      modifies this`index
      ensures index == old(index)[path := id]
    {
      index := index[path := id];
    }

    method ForgetSysfsPath(path: Path)
      modifies this`index
      ensures index == old(index) - {path}
    {
      index := index - {path};
    }

    /** The part of the constructor of DeviceBase that selects the parent. */
    method SelectParent(parent: Option<Path>) returns (r: Result<nat>)
      ensures r == ParentId(Abs(), parent)
    {
      if parent.None? {
        return Ok(ROOT_ID);
      }
      var known, id := KnownSysfsPath(parent.value);
      return if known then Ok(id) else Err;
    }

    method InsertDevice(node: Node) returns (r: Result<nat>)
      modifies this`index, this`devices, hooks.counter
      ensures match Assign(old(hooks.counter.next))
        case Err => r == Err && Abs() == old(Abs())
        case Ok((id, next)) =>
          && r == Ok(id)
          && Abs() == Tree(old(index)[node.path := id], old(devices)[id := node], next)
    {
      r := hooks.AssignID();
      if r.Ok? {
        devices := devices[r.value := node];
        LearnSysfsPath(node.path, r.value);
      }
    }

    /**
     * processDeviceInsertion: a device that cannot be inserted, or for which the hook throws, is rejected
     * unless devices are only enumerated.  When the hook throws, the device stays in both maps.
     */
    method ProcessDeviceInsertion(path: Path, parent: Option<Path>, signalPresent: bool, hookThrows: bool)
      returns (events: seq<Event>, rejected: bool)
      requires signalPresent == (path in index)
      modifies this`index, this`devices, hooks.counter
      ensures (Abs(), events) == Insertion(old(Abs()), path, parent)
      ensures rejected <==> !enumerationOnly && (events == [] || hookThrows)
      ensures events == [] ==> Abs() == old(Abs())
      ensures events != [] ==> path in index && index[path] in devices
    {
      var parentId := SelectParent(parent);
      if parentId.Ok? {
        var id := InsertDevice(Node(path, parentId.value));
        if id.Ok? {
          return [if signalPresent then Present(id.value) else Inserted(id.value)], hookThrows && !enumerationOnly;
        }
      }
      return [], !enumerationOnly;
    }

    /** removeDevice: first the device by its identifier, then the path. */
    method ProcessDeviceRemoval(path: Path) returns (events: seq<Event>)
      modifies this`index, this`devices
      ensures (Abs(), events) == Remove(old(Abs()), path)
    {
      var known, id := KnownSysfsPath(path);
      if !known || id !in devices {
        return [];
      }
      devices := devices - {id};
      ForgetSysfsPath(path);
      return [Removed(id)];
    }

    /** ueventProcessAction for the action "add". */
    method ProcessAdd(path: Path, sys: Sysfs, hookThrows: bool) returns (events: seq<Event>)
      modifies this`index, this`devices, hooks.counter
      ensures (Abs(), events) == Add(old(Abs()), path, sys)
    {
      var known, id := KnownSysfsPath(path);
      if known && id > 0 {
        return if sys.Usable? && id in devices then [Present(id)] else [];
      }
      if !sys.Usable? {
        return [];
      }
      var rejected;
      events, rejected := ProcessDeviceInsertion(path, sys.parent, known, hookThrows);
    }

    /** ueventEnumerateTriggerDevice */
    method EnumerateTriggerDevice(path: Path, sys: Sysfs, hookThrows: bool) returns (events: seq<Event>)
      modifies this`index, this`devices, hooks.counter
      ensures (Abs(), events) == Enumerate(old(Abs()), path, sys)
    {
      if sys.NotADevice? {
        return [];
      }
      LearnSysfsPath(path, 0);
      events := ProcessAdd(path, sys, hookThrows);
    }
  }
}
