/** What rules find out about a device through its device rule (src/Library/DevicePrivate.cpp). */
module DeviceFacts {
  import opened Text
  import opened Matching
  import opened Rules
  import opened Devices

  function TextIs(t: string): (a: Attribute) {
    Attribute(Equals, [Str(t)])
  }

  lemma SingleText(t: string, u: string)
    ensures Applies(TextIs(t), Attribute(Equals, [Str(u)])) <==> t == u
    ensures !Applies(TextIs(t), NO_VALUES)
  {
    OperatorMeaning(TextIs(t), Attribute(Equals, [Str(u)]));
    OperatorMeaning(TextIs(t), NO_VALUES);
    assert Str(t) in [Str(t)] && Str(u) in [Str(u)];
  }

  /** A rule with a single attribute is decided by that attribute. */
  lemma OnlyAttribute(k: Key, a: Attribute, device: Rule)
    requires k !in {If, Label}
    ensures AppliesTo(Put(NEW_RULE, k, a), device, false) <==> Applies(a, Get(device, k))
  {
    hide Applies, Put;
    AppliesInEveryAttribute(Put(NEW_RULE, k, a), device, false);
    assert forall j :: j != k ==> Get(NEW_RULE, j) == NO_VALUES;
    forall j | j != k ensures Applies(NO_VALUES, Get(device, j)) {
      OperatorMeaning(NO_VALUES, Get(device, j));
    }
    assert Get(Put(NEW_RULE, k, a), k) == a;
  }

  /** The hash that stands for the parent: the recorded one, or the one of a parent device. */
  predicate IsParentHash(d: UsbDevice, devices: DeviceMap, t: string) {
    if d.parentHash != "" then t == d.parentHash
    else d.parentId != ROOT_ID && d.parentId in devices && t == devices[d.parentId].hash && t != ""
  }

  /** A device rule cannot be formed exactly if a hash that it needs is missing. */
  lemma DeviceRuleFailsIff(d: UsbDevice, devices: DeviceMap, withPort: bool, withParentHash: bool, matchRule: bool)
    ensures DeviceRule(d, devices, withPort, withParentHash, matchRule).Err? <==>
      d.hash == "" || (withParentHash && forall t :: !IsParentHash(d, devices, t))
  {
    assert IsParentHash(d, devices, d.parentHash) || d.parentHash == "";
    if d.parentId in devices {
      assert d.parentHash == "" && d.parentId != ROOT_ID && devices[d.parentId].hash != "" ==>
        IsParentHash(d, devices, devices[d.parentId].hash);
    }
  }

  /**
   * A rule that names one text for one attribute applies to a device exactly if that is the datum of the
   * device; without the port or the parent hash in the device rule, no rule that names one applies.
   */
  lemma DeviceTexts(d: UsbDevice, devices: DeviceMap, withPort: bool, withParentHash: bool, matchRule: bool, t: string)
    requires DeviceRule(d, devices, withPort, withParentHash, matchRule).Ok?
    ensures
      var r := DeviceRule(d, devices, withPort, withParentHash, matchRule).value;
      && (AppliesTo(NEW_RULE.(serial := TextIs(t)), r, false) <==> t == d.serial)
      && (AppliesTo(NEW_RULE.(name := TextIs(t)), r, false) <==> t == d.name)
      && (AppliesTo(NEW_RULE.(hash := TextIs(t)), r, false) <==> t == d.hash)
      && (AppliesTo(NEW_RULE.(withConnectType := TextIs(t)), r, false) <==> t == d.connectType)
      && (AppliesTo(NEW_RULE.(viaPort := TextIs(t)), r, false) <==> withPort && t == d.port)
      && (AppliesTo(NEW_RULE.(parentHash := TextIs(t)), r, false) <==> withParentHash && IsParentHash(d, devices, t))
      && r.id == d.id && r.target == if matchRule then MatchTarget else d.target
  {
    hide Applies, AppliesTo;
    var r := DeviceRule(d, devices, withPort, withParentHash, matchRule).value;
    OnlyAttribute(Serial, TextIs(t), r);
    OnlyAttribute(Name, TextIs(t), r);
    OnlyAttribute(Hash, TextIs(t), r);
    OnlyAttribute(WithConnectType, TextIs(t), r);
    OnlyAttribute(ViaPort, TextIs(t), r);
    OnlyAttribute(ParentHash, TextIs(t), r);
    SingleText(t, d.serial);
    SingleText(t, d.name);
    SingleText(t, d.hash);
    SingleText(t, d.connectType);
    SingleText(t, d.port);
    if withParentHash {
      SingleText(t, ParentHashOf(d, devices).value);
    }
  }

  /** A rule that names a device identifier applies exactly to the devices that it stands for. */
  lemma DeviceNumbers(d: UsbDevice, devices: DeviceMap, withPort: bool, withParentHash: bool, matchRule: bool, v: Value)
    requires DeviceRule(d, devices, withPort, withParentHash, matchRule).Ok? && IsIdPattern(v)
    ensures
      var r := DeviceRule(d, devices, withPort, withParentHash, matchRule).value;
      AppliesTo(NEW_RULE.(deviceId := Attribute(Equals, [v])), r, false) <==> StandsForId(v, d.vendor, d.product)
  {
    hide Applies, AppliesTo;
    var r := DeviceRule(d, devices, withPort, withParentHash, matchRule).value;
    var a, b := Attribute(Equals, [v]), Attribute(Equals, [DeviceId(d.vendor, d.product)]);
    OnlyAttribute(Id, a, r);
    OperatorMeaning(a, b);
    assert v in [v] && DeviceId(d.vendor, d.product) in b.values;
    assert !IsWildcard(d.vendor) && !IsWildcard(d.product);
  }

  /** With one-of, a rule that names an interface type applies iff some interface of the device is of it. */
  lemma DeviceInterfaces(d: UsbDevice, devices: DeviceMap, withPort: bool, withParentHash: bool, matchRule: bool,
                         v: Value)
    requires DeviceRule(d, devices, withPort, withParentHash, matchRule).Ok? && v.Interface?
    ensures
      var r := DeviceRule(d, devices, withPort, withParentHash, matchRule).value;
      AppliesTo(NEW_RULE.(withInterface := Attribute(OneOf, [v])), r, false) <==>
        exists n :: n in d.interfaces && StandsForInterface(v, n.cls, n.sub, n.protocol)
  {
    hide Applies, AppliesTo, InterfaceValues;
    var r := DeviceRule(d, devices, withPort, withParentHash, matchRule).value;
    var a, ns := Attribute(OneOf, [v]), d.interfaces;
    OnlyAttribute(WithInterface, a, r);
    OperatorMeaning(a, r.withInterface);
    var ts := InterfaceValues(ns);
    assert v in [v];
    if t :| t in ts && Subset(v, t) {
      var i :| 0 <= i < |ts| && ts[i] == t;
      assert ns[i] in ns && StandsForInterface(v, ns[i].cls, ns[i].sub, ns[i].protocol);
    }
    if n :| n in ns && StandsForInterface(v, n.cls, n.sub, n.protocol) {
      var i :| 0 <= i < |ns| && ns[i] == n;
      assert ts[i] in ts && Subset(v, ts[i]);
    }
  }

  /** Interfaces keep their number and order: equals-ordered with the exact numbers applies to one list only. */
  lemma DeviceInterfaceList(d: UsbDevice, devices: DeviceMap, withPort: bool, withParentHash: bool, matchRule: bool,
                            ns: seq<InterfaceNumbers>)
    requires DeviceRule(d, devices, withPort, withParentHash, matchRule).Ok? && ns != []
    ensures
      var r := DeviceRule(d, devices, withPort, withParentHash, matchRule).value;
      var vs := seq(|ns|, i requires 0 <= i < |ns| => Interface(ns[i].cls, Some(ns[i].sub), Some(ns[i].protocol)));
      AppliesTo(NEW_RULE.(withInterface := Attribute(EqualsOrdered, vs)), r, false) <==> ns == d.interfaces
  {
    hide Applies, AppliesTo, InterfaceValues;
    var r := DeviceRule(d, devices, withPort, withParentHash, matchRule).value;
    var vs := seq(|ns|, i requires 0 <= i < |ns| => Interface(ns[i].cls, Some(ns[i].sub), Some(ns[i].protocol)));
    OnlyAttribute(WithInterface, Attribute(EqualsOrdered, vs), r);
    OperatorMeaning(Attribute(EqualsOrdered, vs), r.withInterface);
    var ts := InterfaceValues(d.interfaces);
    if |vs| == |ts| && forall i :: 0 <= i < |vs| ==> Subset(vs[i], ts[i]) {
      forall i | 0 <= i < |ns| ensures ns[i] == d.interfaces[i] {
        assert Subset(vs[i], ts[i]);
      }
    }
  }
}
