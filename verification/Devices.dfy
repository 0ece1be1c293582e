/** USB devices and the rules that describe them (src/Library/DevicePrivate.cpp). */
module Devices {
  import opened Text
  import opened Matching
  import opened Rules
  import opened Grammar
  import opened RoundTrip
  import opened Decisions

  type Byte = n: nat | n < 256

  /** The four hexadecimal digits in which the kernel reports vendor and product numbers. */
  type HexId = s: string | IsHex(4, s) witness "0000"

  datatype InterfaceNumbers = InterfaceNumbers(cls: Byte, sub: Byte, protocol: Byte)

  /** A device as the daemon knows it; an empty hash has not been computed. */
  datatype UsbDevice = UsbDevice(
    id: nat, parentId: nat, target: Target, vendor: HexId, product: HexId, serial: Bytes, connectType: Bytes,
    port: Bytes, interfaces: seq<InterfaceNumbers>, name: Bytes, hash: Bytes, parentHash: Bytes)

  /** The devices of the manager by their identifiers. */
  type DeviceMap = map<nat, UsbDevice>

  function Single(text: string): (a: Attribute) {
    Attribute(Equals, [Str(text)])
  }

  function InterfaceValues(ns: seq<InterfaceNumbers>): (vs: seq<Value>)
    ensures |vs| == |ns|
    ensures forall i :: 0 <= i < |ns| ==> vs[i] == Interface(ns[i].cls, Some(ns[i].sub), Some(ns[i].protocol))
  {
    seq(|ns|, i requires 0 <= i < |ns| => Interface(ns[i].cls, Some(ns[i].sub), Some(ns[i].protocol)))
  }

  /** DevicePrivate::getHash throws while the hash is not available. */
  function HashOf(d: UsbDevice): (r: Result<Bytes>) {
    if d.hash == "" then Err else Ok(d.hash)
  }

  /** The hash of the parent: the recorded one, or else that of the parent device. */
  function ParentHashOf(d: UsbDevice, devices: DeviceMap): (r: Result<Bytes>) {
    if d.parentHash != "" then Ok(d.parentHash)
    else if d.parentId != ROOT_ID && d.parentId in devices then HashOf(devices[d.parentId])
    else Err
  }

  /** The attributes that do not depend on where the device is plugged in. */
  function Identity(d: UsbDevice): (r: Rule) {
    NEW_RULE.(
      deviceId := Attribute(Equals, [DeviceId(d.vendor, d.product)]), serial := Single(d.serial),
      withConnectType := Single(d.connectType), withInterface := Attribute(Equals, InterfaceValues(d.interfaces)),
      name := Single(d.name), hash := Single(d.hash))
  }

  /** What getDeviceRule returns. */
  function DeviceRule(d: UsbDevice, devices: DeviceMap, withPort: bool, withParentHash: bool,
                      matchRule: bool): (r: Result<Rule>) {
    var parent := ParentHashOf(d, devices);
    if HashOf(d).Err? || (withParentHash && parent.Err?) then Err
    else Ok(Identity(d).(
      id := d.id, target := if matchRule then MatchTarget else d.target,
      viaPort := if withPort then Single(d.port) else NO_VALUES,
      parentHash := if withParentHash then Single(parent.value) else NO_VALUES))
  }

  /** getDeviceRule: a default constructed rule that is filled attribute by attribute. */
  method GetDeviceRule(d: UsbDevice, devices: DeviceMap, withPort: bool, withParentHash: bool, matchRule: bool)
    returns (r: Result<Rule>)
    ensures r == DeviceRule(d, devices, withPort, withParentHash, matchRule)
  {
    var rule := NEW_RULE.(id := d.id);
    rule := rule.(target := if matchRule then MatchTarget else d.target);
    rule := rule.(deviceId := Attribute(Equals, [DeviceId(d.vendor, d.product)]));
    rule := rule.(serial := Single(d.serial));
    rule := rule.(withConnectType := Single(d.connectType));
    if withPort {
      rule := rule.(viaPort := Single(d.port));
    }
    rule := rule.(withInterface := Attribute(Equals, InterfaceValues(d.interfaces)));
    rule := rule.(name := Single(d.name));
    if d.hash == "" {
      return Err;
    }
    rule := rule.(hash := Single(d.hash));
    if withParentHash {
      if d.parentHash != "" {
        rule := rule.(parentHash := Single(d.parentHash));
      } else if d.parentId != ROOT_ID && d.parentId in devices && devices[d.parentId].hash != "" {
        rule := rule.(parentHash := Single(devices[d.parentId].hash));
      } else {
        return Err;
      }
    }
    return Ok(rule);
  }

  /** Rules about `d`: its identity, and its port and a parent hash if they are given. */
  ghost predicate Describes(r: Rule, d: UsbDevice) {
    && SameIdentity(Identity(d), r)
    && r.conditions == NO_VALUES && r.labels == NO_VALUES
    && (r.viaPort == NO_VALUES || r.viaPort == Single(d.port))
    && (r.parentHash == NO_VALUES || exists p: Bytes :: r.parentHash == Single(p))
  }

  lemma SingleIsReadable(acc: Acceptor, k: Key, text: Bytes)
    requires k !in {Id, WithInterface, If}
    ensures ReadableAttribute(acc, k, Single(text)) && NormalAttribute(Single(text)) == Single(text)
  {
    assert NormalValues([Str(text)]) == [Str(text)];
  }

  lemma NumbersAreReadable(acc: Acceptor, d: UsbDevice)
    ensures ReadableAttribute(acc, Id, Identity(d).deviceId)
    ensures NormalAttribute(Identity(d).deviceId) == Identity(d).deviceId
    ensures d.interfaces != [] ==> ReadableAttribute(acc, WithInterface, Identity(d).withInterface)
    ensures NormalAttribute(Identity(d).withInterface) == Identity(d).withInterface
  {
    var vs := Identity(d).withInterface.values;
    assert NormalValues(Identity(d).deviceId.values) == Identity(d).deviceId.values;
    assert NormalValues(vs) == vs;
  }

  lemma AbsentIsNormal()
    ensures NormalAttribute(NO_VALUES) == NO_VALUES
  {
  }

  /** The text of a device rule is read back, whatever bytes the device reports about itself. */
  lemma DeviceRuleIsReadable(acc: Acceptor, d: UsbDevice, r: Rule)
    requires Describes(r, d) && r.target in TARGETS
    ensures ReadableRule(acc, r)
    ensures Normal(r) == r.(id := DEFAULT_ID)
  {
    hide ReadableAttribute, Single, Normal, NormalAttribute, InterfaceValues;
    AbsentIsNormal();
    forall k ensures Get(r, k).values != [] ==> ReadableAttribute(acc, k, Get(r, k))
             ensures NormalAttribute(Get(r, k)) == Get(r, k)
    {
      match k
      case Id => NumbersAreReadable(acc, d);
      case WithInterface => NumbersAreReadable(acc, d);
      case Serial => SingleIsReadable(acc, k, d.serial);
      case Name => SingleIsReadable(acc, k, d.name);
      case Hash => SingleIsReadable(acc, k, d.hash);
      case WithConnectType => SingleIsReadable(acc, k, d.connectType);
      case ViaPort => SingleIsReadable(acc, k, d.port);
      case ParentHash =>
        if r.parentHash != NO_VALUES {
          var p: Bytes :| r.parentHash == Single(p);
          SingleIsReadable(acc, k, p);
        }
      case If =>
      case Label =>
    }
    RuleEquality(Normal(r), r.(id := DEFAULT_ID));
  }

  /** A rule matches a device whose own attributes it repeats. */
  lemma RepeatedAttributeApplies(a: Attribute)
    requires a.op == Equals
    ensures Applies(a, a)
  {
    forall i | 0 <= i < |a.values| ensures MatchedBy(a.values[i], a.values) {
      assert Subset(a.values[i], a.values[i]);
    }
  }

  predicate Repeats(n: Rule, device: Rule, k: Key) {
    Get(n, k) == NO_VALUES || (Get(n, k) == Get(device, k) && Get(n, k).op == Equals)
  }

  /** A rule whose attributes are absent or repeat those of the device matches it. */
  lemma RepeatedRuleApplies(n: Rule, device: Rule, insensitive: bool)
    requires forall k :: Repeats(n, device, k) || (insensitive && k in {ParentHash, ViaPort})
    ensures AppliesTo(n, device, insensitive)
  {
    forall k | Repeats(n, device, k) ensures Applies(Get(n, k), Get(device, k)) {
      if Get(n, k) != NO_VALUES {
        RepeatedAttributeApplies(Get(n, k));
      }
    }
    assert Applies(Get(n, Id), Get(device, Id)) && Applies(Get(n, Serial), Get(device, Serial));
    assert Applies(Get(n, Name), Get(device, Name)) && Applies(Get(n, Hash), Get(device, Hash));
    assert Applies(Get(n, WithInterface), Get(device, WithInterface));
    assert Applies(Get(n, WithConnectType), Get(device, WithConnectType));
    if !insensitive {
      assert Applies(Get(n, ParentHash), Get(device, ParentHash)) && Applies(Get(n, ViaPort), Get(device, ViaPort));
    }
  }
}
