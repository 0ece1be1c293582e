/** The generator of an initial policy (src/CLI/PolicyGenerator.cpp) and what its policies guarantee. */
module Generator {
  import opened Text
  import opened Matching
  import opened Rules
  import opened Grammar
  import opened RoundTrip
  import opened PolicyState
  import opened Decisions
  import opened Devices
  import opened Permanence
  import opened RuleFile
  import opened Restart
  import P = Policy

  datatype Options = Options(
    withHash: bool, hashOnly: bool, portSpecific: bool, portSpecificNoSerial: bool, catchAll: Option<Target>)

  datatype EventType = Present | Insert | Update | Remove

  /** A device and the devices of the manager at the moment the device is reported. */
  datatype Sighting = Sighting(device: UsbDevice, devices: DeviceMap)

  predicate NamesPort(o: Options, d: UsbDevice) {
    o.portSpecific || (o.portSpecificNoSerial && d.serial == "")
  }

  /** The rule for one device, or an error if its device rule cannot be formed. */
  function GeneratedRule(o: Options, s: Sighting): (r: Result<Rule>) {
    var port := NamesPort(o, s.device);
    match DeviceRule(s.device, s.devices, port, true, false)
    case Err => Err
    case Ok(full) =>
      Ok((if o.hashOnly then
            NEW_RULE.(id := full.id, hash := full.hash, parentHash := full.parentHash, viaPort := full.viaPort)
          else if o.withHash then full
          else full.(hash := NO_VALUES, parentHash := NO_VALUES)).(target := Allow))
  }

  /** The rule set after the devices have been reported; a device without a rule is passed over. */
  function AfterEvents(o: Options, seen: seq<Sighting>, rules: seq<Rule>, next: nat): (r: (seq<Rule>, nat)) {
    if seen == [] then (rules, next)
    else match GeneratedRule(o, seen[0])
      case Err => AfterEvents(o, seen[1..], rules, next)
      case Ok(rule) =>
        var a := Append(rules, next, rule, LAST_ID);
        AfterEvents(o, seen[1..], a.rules, a.next)
  }

  function CatchAllRule(target: Target): (r: Rule) {
    NEW_RULE.(target := target)
  }

  /** The generated rules: what the devices gave, and behind it the catch-all rule. */
  function Generated(o: Options, seen: seq<Sighting>, next: nat): (rules: seq<Rule>) {
    var (rules, next') := AfterEvents(o, seen, [], next);
    if o.catchAll.None? then rules else Append(rules, next', CatchAllRule(o.catchAll.value), LAST_ID).rules
  }

  /** The catch-all target has a name, which may be the empty one. */
  predicate NamedCatchAll(o: Options) {
    o.catchAll.Some? ==> o.catchAll.value in TARGETS || o.catchAll.value == Empty
  }

  class PolicyGenerator {
    const ruleset: P.RuleSet
    var options: Options

    constructor ()
      ensures fresh(ruleset) && fresh(ruleset.counter) && ruleset.rules == [] && ruleset.counter.next == 1
      ensures options == Options(true, false, false, true, None)
    {
      var counter := new P.IdCounter();
      ruleset := new P.RuleSet(counter);
      options := Options(true, false, false, true, None);
    }

    method DmHookDeviceEvent(event: EventType, s: Sighting)
      modifies ruleset`rules, ruleset.counter
      ensures (ruleset.rules, ruleset.counter.next)
        == AfterEvents(options, if event == Present then [s] else [], old(ruleset.rules), old(ruleset.counter.next))
    {
      hide Append, DeviceRule;
      if event != Present {
        return;
      }
      var portSpecific := options.portSpecific;
      if !portSpecific && options.portSpecificNoSerial {
        portSpecific := s.device.serial == "";
      }
      var full := GetDeviceRule(s.device, s.devices, portSpecific, true, false);
      if full.Err? {
        return;
      }
      var rule := full.value;
      if options.hashOnly {
        var only := NEW_RULE.(id := rule.id);
        only := only.(hash := rule.hash);
        only := only.(parentHash := rule.parentHash);
        if portSpecific {
          only := only.(viaPort := Attribute(Equals, rule.viaPort.values));
        }
        PortOfDeviceRule(s, portSpecific);
        rule := only;
      } else if !options.withHash {
        rule := rule.(hash := NO_VALUES, parentHash := NO_VALUES);
      }
      rule := rule.(target := Allow);
      var _ := ruleset.AppendRule(rule, LAST_ID);
    }

    /** The scan reports every present device, then the catch-all rule is added. */
    method Generate(seen: seq<Sighting>)
      requires ruleset.rules == []
      modifies ruleset`rules, ruleset.counter
      ensures ruleset.rules == Generated(options, seen, old(ruleset.counter.next))
    {
      hide Append, GeneratedRule;
      for i := 0 to |seen|
        invariant (ruleset.rules, ruleset.counter.next)
          == AfterEvents(options, seen[..i], [], old(ruleset.counter.next))
      {
        ghost var before := (ruleset.rules, ruleset.counter.next);
        DmHookDeviceEvent(Present, seen[i]);
        assert seen[..i + 1] == seen[..i] + [seen[i]];
        AfterEventsConcat(options, seen[..i], [seen[i]], [], old(ruleset.counter.next));
      }
      assert seen[..|seen|] == seen;
      if options.catchAll.Some? {
        var _ := ruleset.AppendRule(CatchAllRule(options.catchAll.value), LAST_ID);
      }
    }
  }

  lemma PortOfDeviceRule(s: Sighting, withPort: bool)
    ensures
      var full := DeviceRule(s.device, s.devices, withPort, true, false);
      full.Ok? ==> full.value.viaPort == if withPort then Attribute(Equals, full.value.viaPort.values) else NO_VALUES
  {
  }

  lemma {:induction false} AfterEventsConcat(o: Options, a: seq<Sighting>, b: seq<Sighting>, rules: seq<Rule>,
                                             next: nat)
    ensures var (rules', next') := AfterEvents(o, a, rules, next);
      AfterEvents(o, a + b, rules, next) == AfterEvents(o, b, rules', next')
  {
    hide Append, GeneratedRule;
    if a == [] {
      assert a + b == b;
    } else {
      assert (a + b)[0] == a[0] && (a + b)[1..] == a[1..] + b;
      match GeneratedRule(o, a[0])
      case Err => AfterEventsConcat(o, a[1..], b, rules, next);
      case Ok(rule) =>
        var x := Append(rules, next, rule, LAST_ID);
        AfterEventsConcat(o, a[1..], b, x.rules, x.next);
    }
  }

  // ----- What a generated rule is

  /** `r` repeats some of the attributes by which `s` is described and has no others. */
  ghost predicate PartOf(r: Rule, s: Sighting) {
    exists full: Rule {:trigger Describes(full, s.device)} ::
      Describes(full, s.device) && forall k :: Get(r, k) == NO_VALUES || Get(r, k) == Get(full, k)
  }

  lemma GeneratedIsPart(o: Options, s: Sighting, id: nat)
    requires GeneratedRule(o, s).Ok?
    ensures PartOf(GeneratedRule(o, s).value.(id := id), s) && GeneratedRule(o, s).value.target == Allow
    ensures GeneratedRule(o, s).value.conditions == NO_VALUES
  {
    hide Describes;
    DeviceRuleDescribes(s.device, s.devices, NamesPort(o, s.device), true, false, Allow);
  }

  /** Such a rule has a text that is read back. */
  lemma PartIsStorable(acc: Acceptor, r: Rule, s: Sighting)
    requires PartOf(r, s) && r.target in TARGETS
    ensures ReadableRule(acc, r) && OneLine(r) && Normal(r) == r.(id := DEFAULT_ID)
  {
    hide Normal, Describes, NormalAttribute, ReadableAttribute;
    var full: Rule :| Describes(full, s.device) && forall k :: Get(r, k) == NO_VALUES || Get(r, k) == Get(full, k);
    var full' := full.(target := r.target);
    SameDescriptionWith(full, s.device, r.target);
    DeviceRuleIsReadable(acc, s.device, full');
    forall k ensures NormalAttribute(Get(r, k)) == Get(r, k) {
      assert Get(Normal(full'), k) == NormalAttribute(Get(full', k)) && Get(full', k) == Get(full, k);
      assert Get(full'.(id := DEFAULT_ID), k) == Get(full', k);
      assert NormalAttribute(NO_VALUES) == NO_VALUES by { AbsentIsNormal(); }
    }
    RuleEquality(Normal(r), r.(id := DEFAULT_ID));
    assert Get(r, If) == NO_VALUES by { DescribesNoConditions(full, s.device); }
    assert forall k :: Get(r, k).values != [] ==> Get(full', k) == Get(r, k);
  }

  lemma DescribesNoConditions(full: Rule, d: UsbDevice)
    requires Describes(full, d)
    ensures full.conditions == NO_VALUES == Get(full, If)
  {
  }

  lemma SameDescriptionWith(r: Rule, d: UsbDevice, target: Target)
    requires Describes(r, d)
    ensures Describes(r.(target := target), d)
  {
  }

  /** A generated rule matches the device it was made for, where it was made. */
  lemma GeneratedApplies(o: Options, s: Sighting, device: Rule)
    requires GeneratedRule(o, s).Ok? && InReach(device, s.device, s.devices, Allow, true)
    ensures AppliesTo(GeneratedRule(o, s).value, device, false)
  {
    hide Single, InterfaceValues;
    var n := GeneratedRule(o, s).value;
    SinglesAreEquals();
    forall k ensures Repeats(n, device, k) {
    }
    RepeatedRuleApplies(n, device, false);
  }

  /** The attributes that a generated rule looks at under given options. */
  predicate LooksAt(o: Options, d: UsbDevice, k: Key) {
    match k
    case Hash => o.withHash || o.hashOnly
    case ParentHash => o.withHash || o.hashOnly
    case ViaPort => o.portSpecific || (o.portSpecificNoSerial && d.serial == "")
    case If => false
    case Label => false
    case _ => !o.hashOnly
  }

  /**
   * A device that differs from the one a rule was generated for in a single attribute is still matched
   * exactly if the rule does not look at that attribute.
   */
  lemma GeneratedLooksAt(o: Options, s: Sighting, k: Key, b: Attribute)
    requires GeneratedRule(o, s).Ok? && k !in {If, Label}
    requires !Applies(Get(DeviceRule(s.device, s.devices, true, true, true).value, k), b)
    ensures
      var full := DeviceRule(s.device, s.devices, true, true, true).value;
      AppliesTo(GeneratedRule(o, s).value, Put(full, k, b), false) <==> !LooksAt(o, s.device, k)
  {
    hide Applies, Put;
    var full := DeviceRule(s.device, s.devices, true, true, true).value;
    var n, device := GeneratedRule(o, s).value, Put(full, k, b);
    AppliesInEveryAttribute(n, device, false);
    forall j ensures j in {If, Label} || Get(n, j) == if LooksAt(o, s.device, j) then Get(full, j) else NO_VALUES {
    }
    forall j | j !in {If, Label} && j != k ensures Applies(Get(n, j), Get(device, j)) {
      OperatorMeaning(NO_VALUES, Get(device, j));
      RepeatedAttributeApplies(Get(full, j));
    }
    OperatorMeaning(NO_VALUES, b);
    assert Get(device, k) == b;
  }

  // ----- The rules of the present devices

  /** The generated rule of the `i`-th device, as the rule set holds it. */
  ghost predicate IsFor(r: Rule, o: Options, s: Sighting) {
    GeneratedRule(o, s).Ok? && r == GeneratedRule(o, s).value.(id := r.id)
  }

  ghost predicate ForSome(r: Rule, o: Options, seen: seq<Sighting>) {
    exists i :: 0 <= i < |seen| && IsFor(r, o, seen[i])
  }

  /** Identifiers of devices come from the counter of the rule set, so they are not reserved ones. */
  predicate Numbers(seen: seq<Sighting>) {
    forall i :: 0 <= i < |seen| ==> seen[i].device.id < LAST_ID
  }

  lemma FirstEvent(o: Options, seen: seq<Sighting>, rules: seq<Rule>, next: nat) returns (r: (seq<Rule>, nat))
    requires Numbers(seen) && seen != []
    ensures AfterEvents(o, seen, rules, next) == AfterEvents(o, seen[1..], r.0, r.1)
    ensures match GeneratedRule(o, seen[0])
      case Err => r.0 == rules
      case Ok(rule) => r.0 == rules + [rule] && IsFor(rule, o, seen[0])
  {
    hide GeneratedRule;
    GeneratedId(o, seen[0]);
    match GeneratedRule(o, seen[0])
    case Err => r := (rules, next);
    case Ok(rule) =>
      var a := Append(rules, next, rule, LAST_ID);
      r := (a.rules, a.next);
  }

  /** The rules behind `rules` are exactly the rules of the devices that have one. */
  lemma {:induction false} AfterEventsRules(o: Options, seen: seq<Sighting>, rules: seq<Rule>, next: nat)
    requires Numbers(seen)
    ensures
      var after := AfterEvents(o, seen, rules, next).0;
      && |rules| <= |after| && after[..|rules|] == rules
      && (forall j :: |rules| <= j < |after| ==> ForSome(after[j], o, seen))
      && (forall i :: 0 <= i < |seen| && GeneratedRule(o, seen[i]).Ok? ==> HasRuleFor(after, |rules|, o, seen[i]))
  {
    hide GeneratedRule, IsFor;
    if seen != [] {
      var first := FirstEvent(o, seen, rules, next);
      var rules', next' := first.0, first.1;
      AfterEventsRules(o, seen[1..], rules', next');
      var after := AfterEvents(o, seen, rules, next).0;
      if GeneratedRule(o, seen[0]).Ok? {
        assert after[|rules|] == rules'[|rules|] && IsFor(after[|rules|], o, seen[0]);
        assert after[..|rules|] == after[..|rules'|][..|rules|];
      }
      forall j | |rules'| <= j < |after| ensures ForSome(after[j], o, seen) {
        var i :| 0 <= i < |seen[1..]| && IsFor(after[j], o, seen[1..][i]);
        assert IsFor(after[j], o, seen[i + 1]);
      }
      forall i | 0 < i < |seen| && GeneratedRule(o, seen[i]).Ok? ensures HasRuleFor(after, |rules|, o, seen[i]) {
        assert seen[i] == seen[1..][i - 1];
      }
    }
  }

  ghost predicate HasRuleFor(rules: seq<Rule>, from: nat, o: Options, s: Sighting) {
    exists p :: from <= p < |rules| && IsFor(rules[p], o, s)
  }

  lemma GeneratedId(o: Options, s: Sighting)
    ensures GeneratedRule(o, s).Ok? ==> GeneratedRule(o, s).value.id == s.device.id
  {
  }

  /** All generated rules can be stored. */
  lemma GeneratedIsStorable(acc: Acceptor, o: Options, seen: seq<Sighting>, next: nat)
    requires Numbers(seen) && NamedCatchAll(o)
    ensures Storable(acc, Generated(o, seen, next))
    ensures
      var rules, k := Generated(o, seen, next), |AfterEvents(o, seen, [], next).0|;
      && k <= |rules| <= k + 1 && rules[..k] == AfterEvents(o, seen, [], next).0
      && (forall j :: 0 <= j < k ==> ForSome(rules[j], o, seen))
      && (|rules| == k + 1 ==> o.catchAll.Some? && rules[k] == CatchAllRule(o.catchAll.value).(id := rules[k].id))
  {
    hide GeneratedRule, ReadableRule, OneLine, IsBlankRule;
    AfterEventsRules(o, seen, [], next);
    var rules, k := Generated(o, seen, next), |AfterEvents(o, seen, [], next).0|;
    assert forall j :: 0 <= j < k ==> rules[j] == AfterEvents(o, seen, [], next).0[j];
    forall j | 0 <= j < |rules| ensures Savable(acc, rules[j]) && OneLine(rules[j]) {
      if j < k {
        var i :| 0 <= i < |seen| && IsFor(rules[j], o, seen[i]);
        GeneratedIsPart(o, seen[i], rules[j].id);
        PartIsStorable(acc, rules[j], seen[i]);
      } else {
        CatchAllIsStorable(acc, o.catchAll.value, rules[j].id);
      }
    }
  }

  lemma CatchAllIsStorable(acc: Acceptor, target: Target, id: nat)
    requires target in TARGETS || target == Empty
    ensures Savable(acc, CatchAllRule(target).(id := id)) && OneLine(CatchAllRule(target).(id := id))
    ensures IsBlankRule(CatchAllRule(target).(id := id)) <==> target == Empty
  {
  }

  /** What is kept of the generated rules: all but a catch-all rule with the empty target. */
  lemma KeptGenerated(acc: Acceptor, o: Options, seen: seq<Sighting>, next: nat)
    requires Numbers(seen) && NamedCatchAll(o)
    ensures
      var rules, k := Generated(o, seen, next), |AfterEvents(o, seen, [], next).0|;
      Kept(rules) == if |rules| == k + 1 && o.catchAll.value == Empty then rules[..k] else rules
  {
    hide GeneratedRule, Storable, IsBlankRule, Generated, ForSome;
    var rules, k := Generated(o, seen, next), |AfterEvents(o, seen, [], next).0|;
    GeneratedIsStorable(acc, o, seen, next);
    forall j | 0 <= j < k ensures !IsBlankRule(rules[j]) {
      ReloadedRule(acc, o, seen, rules[j], 0);
      AllowIsNotBlank(rules[j]);
    }
    if |rules| == k + 1 {
      CatchAllIsStorable(acc, o.catchAll.value, rules[k].id);
      if o.catchAll.value == Empty {
        KeptWithoutLast(rules);
      }
    }
  }

  lemma AllowIsNotBlank(r: Rule)
    requires r.target == Allow
    ensures !IsBlankRule(r)
  {
  }

  lemma {:induction false} KeptWithoutLast(rules: seq<Rule>)
    requires rules != [] && IsBlankRule(rules[|rules| - 1])
    requires forall j :: 0 <= j < |rules| - 1 ==> !IsBlankRule(rules[j])
    ensures Kept(rules) == rules[..|rules| - 1]
  {
    hide IsBlankRule;
    if |rules| > 1 {
      assert forall j :: 0 <= j < |rules| - 1 ==> rules[1..][j] == rules[j + 1];
      KeptWithoutLast(rules[1..]);
      assert rules[..|rules| - 1] == [rules[0]] + rules[1..][..|rules| - 2];
    }
  }

  // ----- No lock-out

  /** The first of the first `k` rules that matches decides, and they all allow. */
  lemma {:induction false} FirstAllow(rules: seq<Rule>, p: nat, default: Target, device: Rule, o: Oracle)
    requires p < |rules| && AppliesTo(rules[p], device, false)
    requires forall j :: 0 <= j <= p ==> rules[j].target == Allow && rules[j].conditions == NO_VALUES
    ensures FirstMatching(rules, default, device, o).Ok?
    ensures FirstMatching(rules, default, device, o).value.target == Allow
  {
    hide AppliesTo;
    if AppliesTo(rules[0], device, false) {
      UnconditionalIsMet(rules[0], device, o);
    } else {
      assert AppliesWithConditions(rules[0], device, o) == Ok(false);
      FirstAllow(rules[1..], p - 1, default, device, o);
    }
  }

  lemma ReloadedRule(acc: Acceptor, o: Options, seen: seq<Sighting>, r: Rule, id: nat)
    requires ForSome(r, o, seen)
    ensures Normal(r).(id := id) == r.(id := id) && r.target == Allow && r.conditions == NO_VALUES
  {
    hide GeneratedRule, Normal;
    var i :| 0 <= i < |seen| && IsFor(r, o, seen[i]);
    GeneratedIsPart(o, seen[i], r.id);
    PartIsStorable(acc, r, seen[i]);
  }

  /**
   * No lock-out.  Whatever the options, the policy that was generated, printed and loaded allows every
   * device that was present, even in front of a catch-all rule that blocks or rejects.
   */
  lemma NoLockOut(acc: Acceptor, o: Options, seen: seq<Sighting>, next: nat, i: nat, default: Target, device: Rule,
                  orc: Oracle)
    requires Numbers(seen) && NamedCatchAll(o)
    requires |Generated(o, seen, next)| + 1 < LAST_ID
    requires i < |seen| && DeviceRule(seen[i].device, seen[i].devices, true, true, true).Ok?
    requires InReach(device, seen[i].device, seen[i].devices, Allow, true)
    ensures
      var loaded := Reloaded(acc, Generated(o, seen, next));
      && loaded.Ok?
      && var answer := FirstMatching(loaded.value, default, device, orc);
         answer.Ok? && answer.value.target == Allow
  {
    hide GeneratedRule, Reloaded, Generated, AppliesTo, Normal, ForSome, Storable, ReadableRule, DeviceRule, Kept,
      IsBlankRule;
    var rules := Generated(o, seen, next);
    GeneratedIsStorable(acc, o, seen, next);
    ReloadedIs(acc, rules);
    AfterEventsRules(o, seen, [], next);
    KeptGenerated(acc, o, seen, next);
    var again := Renumbered(Kept(rules), 1);
    var k := |AfterEvents(o, seen, [], next).0|;
    assert forall j :: 0 <= j < k ==> rules[j] == AfterEvents(o, seen, [], next).0[j];
    assert GeneratedRule(o, seen[i]).Ok? by { RuleCanBeFormed(o, seen[i]); }
    var p :| 0 <= p < k && IsFor(rules[p], o, seen[i]);
    forall j | 0 <= j <= p
      ensures again[j] == rules[j].(id := 1 + j) && again[j].target == Allow && again[j].conditions == NO_VALUES
    {
      ReloadedRule(acc, o, seen, rules[j], 1 + j);
    }
    GeneratedApplies(o, seen[i], device);
    NewIdApplies(GeneratedRule(o, seen[i]).value, device, 1 + p);
    FirstAllow(again, p, default, device, orc);
  }

  lemma RuleCanBeFormed(o: Options, s: Sighting)
    requires DeviceRule(s.device, s.devices, true, true, true).Ok?
    ensures GeneratedRule(o, s).Ok?
  {
  }

  // ----- Nothing else is let in

  /** A rule that names the hash of a device does not match a device with another hash. */
  lemma OtherHashMisses(o: Options, s: Sighting, r: Rule, device: Rule, hash: string)
    requires IsFor(r, o, s) && (o.withHash || o.hashOnly)
    requires device.hash == Single(hash) && hash != s.device.hash
    ensures !AppliesTo(r, device, false)
  {
    assert r.hash == Single(s.device.hash);
    assert !MatchedBy(r.hash.values[0], device.hash.values);
  }

  lemma CatchAllApplies(target: Target, id: nat, device: Rule)
    ensures AppliesTo(CatchAllRule(target).(id := id), device, false)
    ensures Normal(CatchAllRule(target)) == CatchAllRule(target)
  {
    NormalIsIdentity(CatchAllRule(target));
  }

  /**
   * In a policy with hashes, a device whose hash is not that of a present device is left to the
   * catch-all rule, or to the default target if there is none or it has the empty target.
   */
  lemma OthersAreCaught(acc: Acceptor, o: Options, seen: seq<Sighting>, next: nat, default: Target, device: Rule,
                        hash: string, orc: Oracle)
    requires Numbers(seen) && NamedCatchAll(o) && (o.withHash || o.hashOnly)
    requires |Generated(o, seen, next)| + 1 < LAST_ID && Assign(AfterEvents(o, seen, [], next).1).Ok?
    requires device.hash == Single(hash) && forall i :: 0 <= i < |seen| ==> seen[i].device.hash != hash
    ensures
      var loaded := Reloaded(acc, Generated(o, seen, next));
      && loaded.Ok?
      && var answer := FirstMatching(loaded.value, default, device, orc);
         answer.Ok? && answer.value.target
           == if o.catchAll.Some? && o.catchAll.value != Empty then o.catchAll.value else default
  {
    hide GeneratedRule, Reloaded, AppliesTo, Normal, Storable, ReadableRule, DeviceRule, Kept, IsBlankRule;
    var rules := Generated(o, seen, next);
    GeneratedIsStorable(acc, o, seen, next);
    ReloadedIs(acc, rules);
    KeptGenerated(acc, o, seen, next);
    var again, k := Renumbered(Kept(rules), 1), |AfterEvents(o, seen, [], next).0|;
    forall j | 0 <= j < k ensures !AppliesTo(again[j], device, false) {
      ReloadedRule(acc, o, seen, rules[j], 1 + j);
      var i :| 0 <= i < |seen| && IsFor(rules[j], o, seen[i]);
      OtherHashMisses(o, seen[i], rules[j].(id := 1 + j), device, hash);
    }
    if o.catchAll.Some? && o.catchAll.value != Empty {
      CatchAllApplies(o.catchAll.value, 1 + k, device);
      SameNormal(o.catchAll.value, rules[k].id);
      UnconditionalIsMet(again[k], device, orc);
      FirstHit(again, k, default, device, orc);
    } else {
      NoHit(again, default, device, orc);
    }
  }

  lemma SameNormal(target: Target, id: nat)
    ensures Normal(CatchAllRule(target).(id := id)) == Normal(CatchAllRule(target))
  {
  }
}
