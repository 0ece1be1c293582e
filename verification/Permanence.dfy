/** A permanent decision about a device takes effect, is the only one, and survives a restart. */
module Permanence {
  import opened Text
  import opened Matching
  import opened Rules
  import opened Printer
  import opened Grammar
  import opened RoundTrip
  import opened PolicyState
  import opened PolicyLaws
  import opened Decisions
  import opened Devices
  import opened Daemon

  /** A device rule goes through its text unchanged, except that the text has no identifier. */
  lemma DeviceRuleThroughText(acc: Acceptor, d: UsbDevice, r: Rule)
    requires Describes(r, d) && r.target in TARGETS
    ensures ThroughText(acc, r) == Ok(r.(id := DEFAULT_ID))
  {
    hide RuleText, ParseRule, Normal, ReadableRule, Describes;
    DeviceRuleIsReadable(acc, d, r);
    RuleReadBack(acc, r);
  }

  lemma DeviceRuleDescribes(d: UsbDevice, devices: DeviceMap, withPort: bool, withParentHash: bool, matchRule: bool,
                            target: Target)
    requires DeviceRule(d, devices, withPort, withParentHash, matchRule).Ok?
    ensures Describes(DeviceRule(d, devices, withPort, withParentHash, matchRule).value.(target := target), d)
  {
    if withParentHash {
      var p: Bytes := ParentHashOf(d, devices).value;
      assert DeviceRule(d, devices, withPort, withParentHash, matchRule).value.parentHash == Single(p);
    }
  }

  /** The rule that an accepted decision puts into the policy, without its identifier. */
  function Decided(d: UsbDevice, devices: DeviceMap, target: Target, portRules: bool): (n: Rule)
    requires IsDecision(target) && DecisionRule(d, devices, target, portRules).Ok?
  {
    DecisionRule(d, devices, target, portRules).value.(id := DEFAULT_ID)
  }

  /** The rule by which the scan recognises the rules about a device. */
  function Scanned(d: UsbDevice): (m: Rule) {
    Identity(d).(target := MatchTarget)
  }

  /** What is left of a decision when printing and parsing have cancelled out. */
  lemma DecideIsUpsert(acc: Acceptor, st: State, devices: DeviceMap, id: nat, target: Target, portRules: bool)
    ensures
      Decide(acc, st, devices, id, target, portRules) ==
        if id in devices && IsDecision(target) && DecisionRule(devices[id], devices, target, portRules).Ok?
        then PolicyUpsert(st, 0, Scanned(devices[id]), Decided(devices[id], devices, target, portRules), true)
        else (Err, st)
  {
    hide ThroughText, PolicyUpsert, Describes;
    if id in devices && IsDecision(target) && DecisionRule(devices[id], devices, target, portRules).Ok? {
      var d := devices[id];
      var m, n := DeviceRule(d, devices, false, false, true).value, DecisionRule(d, devices, target, portRules).value;
      DeviceRuleDescribes(d, devices, false, false, true, MatchTarget);
      DeviceRuleThroughText(acc, d, m);
      DeviceRuleDescribes(d, devices, target == Allow && portRules, target == Allow, false, target);
      DeviceRuleThroughText(acc, d, n);
    }
  }

  /** The decision is about a known device, its rule can be formed, and at most one rule is about the device. */
  predicate Decidable(st: State, devices: DeviceMap, id: nat, target: Target, portRules: bool) {
    && id in devices && IsDecision(target) && DecisionRule(devices[id], devices, target, portRules).Ok?
    && UpsertWorks(st, Scanned(devices[id]))
  }

  /** Exactly then the policy accepts a decision, and otherwise it does not change. */
  lemma DecisionSucceedsIff(acc: Acceptor, st: State, devices: DeviceMap, id: nat, target: Target, portRules: bool)
    requires Inv(st)
    ensures
      var (r, st') := Decide(acc, st, devices, id, target, portRules);
      (r.Ok? <==> Decidable(st, devices, id, target, portRules)) && (r.Err? ==> st' == st)
  {
    hide Inv, PolicyUpsert, Decide, DecisionRule, AppliesTo;
    DecideIsUpsert(acc, st, devices, id, target, portRules);
    InvBounds(st);
    if id in devices && IsDecision(target) && DecisionRule(devices[id], devices, target, portRules).Ok? {
      UpsertCases(st, 0, Scanned(devices[id]), Decided(devices[id], devices, target, portRules));
    }
  }

  lemma DecideKeepsInv(acc: Acceptor, st: State, devices: DeviceMap, id: nat, target: Target, portRules: bool)
    requires Inv(st)
    ensures Inv(Decide(acc, st, devices, id, target, portRules).1)
  {
    hide Inv, PolicyUpsert, Decide, DecisionRule;
    DecideIsUpsert(acc, st, devices, id, target, portRules);
    if id in devices && IsDecision(target) && DecisionRule(devices[id], devices, target, portRules).Ok? {
      GoodUpsertFact(st, Scanned(devices[id]), Decided(devices[id], devices, target, portRules));
    }
  }

  /** `device` describes `d` where it is plugged in, as far as a decision rule looks at that. */
  predicate InReach(device: Rule, d: UsbDevice, devices: DeviceMap, target: Target, portRules: bool) {
    && SameIdentity(Identity(d), device)
    && (target == Allow ==>
          && (portRules ==> device.viaPort == Single(d.port))
          && ParentHashOf(d, devices).Ok? && device.parentHash == Single(ParentHashOf(d, devices).value))
  }

  lemma DecidedApplies(d: UsbDevice, devices: DeviceMap, target: Target, portRules: bool, device: Rule)
    requires IsDecision(target) && DecisionRule(d, devices, target, portRules).Ok?
    requires InReach(device, d, devices, target, portRules)
    ensures AppliesTo(Decided(d, devices, target, portRules), device, false)
  {
    hide Single, InterfaceValues;
    var n := Decided(d, devices, target, portRules);
    forall k ensures Repeats(n, device, k) {
      assert forall t :: Single(t).op == Equals by { SinglesAreEquals(); }
    }
    RepeatedRuleApplies(n, device, false);
  }

  lemma SinglesAreEquals()
    ensures forall t :: Single(t).op == Equals
  {
  }

  /**
   * A permanent decision takes effect.  After it succeeded, every lookup of the device answers with the
   * rule of the decision, whatever else the policy holds and whatever its conditions evaluate to.  For
   * block and reject this is so at every port and behind every parent.
   */
  lemma DecisionTakesEffect(acc: Acceptor, st: State, devices: DeviceMap, id: nat, target: Target, portRules: bool,
                            device: Rule, o: Oracle)
    requires Inv(st) && Decidable(st, devices, id, target, portRules)
    requires InReach(device, devices[id], devices, target, portRules)
    ensures
      var (r, st') := Decide(acc, st, devices, id, target, portRules);
      var answer := Lookup(st'.sets, 0, device, o);
      && r.Ok?
      && answer == Ok(Decided(devices[id], devices, target, portRules).(id := r.value))
      && answer.value.target == target
  {
    hide PolicyUpsert, Lookup, AppliesTo, Inv, DeviceRule, Decide, UpsertWorks;
    InvBounds(st);
    DecisionSucceedsIff(acc, st, devices, id, target, portRules);
    DecideIsUpsert(acc, st, devices, id, target, portRules);
    var d := devices[id];
    var n := Decided(d, devices, target, portRules);
    DecidedApplies(d, devices, target, portRules, device);
    DecidedHasNoConditions(d, devices, target, portRules);
    UpsertTakesEffect(st, Scanned(d), n, device, o);
  }

  lemma DecidedHasNoConditions(d: UsbDevice, devices: DeviceMap, target: Target, portRules: bool)
    requires IsDecision(target) && DecisionRule(d, devices, target, portRules).Ok?
    ensures Decided(d, devices, target, portRules).conditions == NO_VALUES
  {
  }

  /** When the device is inserted again, the policy gives it the target of the decision. */
  lemma DecisionOnInsertion(acc: Acceptor, st: State, devices: DeviceMap, id: nat, target: Target, portRules: bool,
                            d: UsbDevice, later: DeviceMap, o: Oracle)
    requires Inv(st) && Decidable(st, devices, id, target, portRules)
    requires SameIdentity(Identity(devices[id]), Identity(d)) && DeviceRule(d, later, true, true, true).Ok?
    requires target == Allow ==>
      (portRules ==> d.port == devices[id].port) && ParentHashOf(d, later) == ParentHashOf(devices[id], devices)
    ensures
      var (r, st') := Decide(acc, st, devices, id, target, portRules);
      var rule := InsertedPolicyRule(ApplyPolicy, st', d, later, o);
      rule.Ok? && rule.value.target == target && r == Ok(rule.value.id)
  {
    hide Decide, Lookup, Inv, Decided, UpsertWorks;
    InvBounds(st);
    var device := DeviceRule(d, later, true, true, true).value;
    DecisionTakesEffect(acc, st, devices, id, target, portRules, device, o);
  }

  // ----- An allow decision is for one place

  /** The rule sets behind the one in which the scan ends. */
  function Behind(st: State, m: Rule): (sets: seq<Table>) {
    var k := ScanEnd(st.sets, 0, m);
    if k < |st.sets| then st.sets[k + 1..] else []
  }

  /** A rule set that no lookup of the device gets an answer from. */
  predicate Silent(t: Table, device: Rule, o: Oracle) {
    FirstMatching(t.rules, t.default, device, o) == Ok(ImplicitRule(t.default))
  }

  /**
   * An allow decision covers the place it was made for and no other: at another port, if rules name
   * ports, or behind another parent, the device is left to the rule sets behind the one of the decision,
   * and if there are none, or none of their rules is met, to the default target.
   */
  lemma AllowIsForOnePlace(acc: Acceptor, st: State, devices: DeviceMap, id: nat, portRules: bool, device: Rule,
                           o: Oracle)
    requires Inv(st) && Decidable(st, devices, id, Allow, portRules)
    requires SameIdentity(Identity(devices[id]), device) && !InReach(device, devices[id], devices, Allow, portRules)
    requires |device.viaPort.values| == 1 && |device.parentHash.values| == 1
    requires device.viaPort.op == Equals && device.parentHash.op == Equals
    ensures
      var st' := Decide(acc, st, devices, id, Allow, portRules).1;
      Lookup(st'.sets, 0, device, o)
        == FirstMatching(Flatten(Behind(st, Scanned(devices[id]))), st.sets[0].default, device, o)
  {
    hide Inv, AppliesTo, PolicyUpsert, FirstMatching, Decide, DecisionRule, Lookup, Flatten, Silent;
    InvBounds(st);
    var d := devices[id];
    var m, n := Scanned(d), Decided(d, devices, Allow, portRules);
    var k := ScanEnd(st.sets, 0, m);
    DecideIsUpsert(acc, st, devices, id, Allow, portRules);
    UpsertCases(st, 0, m, n);
    var st' := Decide(acc, st, devices, id, Allow, portRules).1;
    NewRuleMissesOtherPlace(d, devices, portRules, device);
    forall j | 0 <= j < |st'.sets| && j <= k ensures Silent(st'.sets[j], device, o) {
      if st'.sets[j] == st.sets[j] && CountMatches(st.sets[j].rules, m, true) == 0 {
        UncountedIsSilent(st.sets[j], m, device, o);
      } else {
        ChangedSetIsSilent(st.sets[j], st'.sets[j], m, n, device, o);
      }
    }
    DecideKeepsInv(acc, st, devices, id, Allow, portRules);
    LookupBehind(st', k, device, o);
    assert k < |st.sets| ==> st'.sets[k + 1..] == st.sets[k + 1..];
    FlattenNothing();
  }

  lemma UncountedIsSilent(t: Table, m: Rule, device: Rule, o: Oracle)
    requires SameIdentity(m, device) && CountMatches(t.rules, m, true) == 0
    ensures Silent(t, device, o)
  {
    hide AppliesTo, FirstMatching;
    UncountedIsSkipped(t.rules, t.default, m, device, o);
  }

  lemma ChangedSetIsSilent(t: Table, t': Table, m: Rule, n: Rule, device: Rule, o: Oracle)
    requires UpsertedIn(t.rules, t'.rules, m, n) && SameIdentity(m, device)
      && forall i :: !AppliesTo(n.(id := i), device, false)
    ensures Silent(t', device, o)
  {
    hide AppliesTo, FirstMatching;
    ChangedSetMisses(t.rules, t'.rules, m, n, t'.default, device, o);
  }

  lemma FlattenNothing()
    ensures Flatten([]) == []
  {
  }

  /** A lookup in a policy whose rule sets up to `k` are silent goes on behind them. */
  lemma LookupBehind(st: State, k: nat, device: Rule, o: Oracle)
    requires Inv(st) && k <= |st.sets| && forall j :: 0 <= j < |st.sets| && j <= k ==> Silent(st.sets[j], device, o)
    ensures Lookup(st.sets, 0, device, o)
      == FirstMatching(Flatten(if k < |st.sets| then st.sets[k + 1..] else []), st.sets[0].default, device, o)
  {
    hide Inv, FirstMatching, Flatten;
    InvBounds(st);
    NoReservedIds(st);
    var i := if k < |st.sets| then k + 1 else k;
    SilentSkips(st.sets, i, device, o);
    assert Silent(st.sets[0], device, o);
    LookupFrom(st.sets, i, device, o);
    assert st.sets[|st.sets|..] == [];
  }

  lemma {:induction false} SilentSkips(sets: seq<Table>, i: nat, device: Rule, o: Oracle)
    requires sets != [] && i <= |sets| && forall j :: 0 <= j < i ==> Silent(sets[j], device, o)
    ensures Lookup(sets, 0, device, o) == Lookup(sets, i, device, o)
    decreases i
  {
    hide FirstMatching;
    if i > 0 {
      SilentSkips(sets, i - 1, device, o);
      assert Silent(sets[i - 1], device, o);
    }
  }

  /** `rules'` is what an upsert of `n` makes of a rule set in which the scan finds at most one rule. */
  predicate UpsertedIn(rules: seq<Rule>, rules': seq<Rule>, m: Rule, n: Rule) {
    var c := CountMatches(rules, m, true);
    || (c == 0 && |rules'| == |rules| + 1 && rules' == rules + [n.(id := rules'[|rules|].id)])
    || (c == 1 && rules' == rules[MatchIndex(rules, m, true) := n.(id := rules[MatchIndex(rules, m, true)].id)])
  }

  lemma ChangedSetMisses(rules: seq<Rule>, rules': seq<Rule>, m: Rule, n: Rule, default: Target, device: Rule,
                         o: Oracle)
    requires UpsertedIn(rules, rules', m, n) && SameIdentity(m, device)
      && forall i :: !AppliesTo(n.(id := i), device, false)
    ensures FirstMatching(rules', default, device, o) == Ok(ImplicitRule(default))
  {
    hide AppliesTo, FirstMatching;
    CountZero(rules, m, true);
    forall j | 0 <= j < |rules'| ensures !AppliesTo(rules'[j], device, false) {
      if AppliesTo(rules'[j], device, false) {
        RivalsAreCounted(rules'[j], device, m);
        if CountMatches(rules, m, true) == 1 && j != MatchIndex(rules, m, true) {
          OnlyMatch(rules, m, true, j);
        }
      }
    }
    NoHit(rules', default, device, o);
  }

  lemma NewRuleMissesOtherPlace(d: UsbDevice, devices: DeviceMap, portRules: bool, device: Rule)
    requires DecisionRule(d, devices, Allow, portRules).Ok?
    requires SameIdentity(Identity(d), device) && !InReach(device, d, devices, Allow, portRules)
    requires |device.viaPort.values| == 1 && |device.parentHash.values| == 1
    requires device.viaPort.op == Equals && device.parentHash.op == Equals
    ensures forall i :: !AppliesTo(Decided(d, devices, Allow, portRules).(id := i), device, false)
  {
    var n := Decided(d, devices, Allow, portRules);
    var parent := ParentHashOf(d, devices).value;
    assert n.viaPort == (if portRules then Single(d.port) else NO_VALUES) && n.parentHash == Single(parent);
    if portRules && Applies(n.viaPort, device.viaPort) {
      assert MatchedBy(n.viaPort.values[0], device.viaPort.values);
      assert device.viaPort.values == [Str(d.port)];
    }
    if Applies(n.parentHash, device.parentHash) {
      assert MatchedBy(n.parentHash.values[0], device.parentHash.values);
      assert device.parentHash.values == [Str(parent)];
    }
  }

  /** Two rule sets with one rule each that allows every device. */
  function TwoOpenSets(default: Target): (st: State) {
    var open := NEW_RULE.(target := Allow);
    State([Table([open.(id := 1)], default), Table([open.(id := 2)], default)], 3)
  }

  /**
   * Without rule sets behind the decision the default target decides elsewhere.  With one it need not: here
   * an allow decision leaves the device allowed at every other place, by the rule of the second rule set.
   */
  lemma AllowedElsewhere(acc: Acceptor, devices: DeviceMap, id: nat, portRules: bool, default: Target, device: Rule,
                         o: Oracle)
    requires id in devices && DecisionRule(devices[id], devices, Allow, portRules).Ok?
    requires SameIdentity(Identity(devices[id]), device) && !InReach(device, devices[id], devices, Allow, portRules)
    requires |device.viaPort.values| == 1 && |device.parentHash.values| == 1
    requires device.viaPort.op == Equals && device.parentHash.op == Equals
    ensures
      var (r, st') := Decide(acc, TwoOpenSets(default), devices, id, Allow, portRules);
      r == Ok(1) && Lookup(st'.sets, 0, device, o) == Ok(NEW_RULE.(target := Allow, id := 2))
  {
    hide Decide, Lookup, DecisionRule, InReach;
    var st, m := TwoOpenSets(default), Scanned(devices[id]);
    OpenSetsAreCounted(default, m);
    DecideIsUpsert(acc, st, devices, id, Allow, portRules);
    UpsertCases(st, 0, m, Decided(devices[id], devices, Allow, portRules));
    DecisionSucceedsIff(acc, st, devices, id, Allow, portRules);
    AllowIsForOnePlace(acc, st, devices, id, portRules, device, o);
    OpenRuleAnswers(default, device, o);
    assert Behind(st, m) == st.sets[1..] == [Table([NEW_RULE.(target := Allow, id := 2)], default)];
  }

  lemma OpenSetsAreCounted(default: Target, m: Rule)
    ensures var st := TwoOpenSets(default);
      && Inv(st) && ScanEnd(st.sets, 0, m) == 0 && CountMatches(st.sets[0].rules, m, true) == 1
      && MatchIndex(st.sets[0].rules, m, true) == 0
  {
    var st := TwoOpenSets(default);
    var rules := st.sets[0].rules;
    assert AppliesTo(rules[0], m, true) && CountMatches(rules[1..], m, true) == 0;
    assert Ids(rules) == [1] && Ids(st.sets[1].rules) == [2];
    assert st.sets[1..][1..] == [] && AllIds(st.sets[1..]) == multiset{2} + multiset{};
    assert AllIds(st.sets) == multiset{1} + multiset{2};
  }

  lemma OpenRuleAnswers(default: Target, device: Rule, o: Oracle)
    ensures
      var rule := NEW_RULE.(target := Allow, id := 2);
      FirstMatching(Flatten([Table([rule], default)]), default, device, o) == Ok(rule)
  {
    var rule := NEW_RULE.(target := Allow, id := 2);
    assert [Table([rule], default)][1..] == [] && [rule] + [] == [rule];
    UnconditionalIsMet(rule, device, o);
    FirstHit([rule], 0, default, device, o);
  }

  // ----- Repeated decisions

  /** The policy after a sequence of decisions about one device. */
  function DecideAgain(acc: Acceptor, st: State, devices: DeviceMap, id: nat, targets: seq<Target>,
                       portRules: bool): (r: State)
    decreases |targets|
  {
    if targets == [] then st
    else DecideAgain(acc, Decide(acc, st, devices, id, targets[0], portRules).1, devices, id, targets[1..], portRules)
  }

  lemma DecidedIsCounted(d: UsbDevice, devices: DeviceMap, target: Target, portRules: bool)
    requires IsDecision(target) && DecisionRule(d, devices, target, portRules).Ok?
    ensures AppliesTo(Decided(d, devices, target, portRules), Scanned(d), true)
  {
    hide Single, InterfaceValues;
    var n := Decided(d, devices, target, portRules);
    SinglesAreEquals();
    forall k ensures Repeats(n, Scanned(d), k) || k in {ParentHash, ViaPort} {
    }
    RepeatedRuleApplies(n, Scanned(d), true);
  }

  /**
   * Deciding about a device again and again leaves the policy that the last decision alone would have
   * left, under the identifier of the first.
   */
  lemma {:induction false} LastDecisionCounts(acc: Acceptor, st: State, devices: DeviceMap, id: nat,
                                              targets: seq<Target>, portRules: bool)
    requires Inv(st) && id in devices && targets != []
    requires forall i :: 0 <= i < |targets| ==>
      IsDecision(targets[i]) && DecisionRule(devices[id], devices, targets[i], portRules).Ok?
    requires UpsertWorks(st, Scanned(devices[id]))
    ensures
      var last := Decide(acc, st, devices, id, targets[|targets| - 1], portRules);
      && last.0.Ok?
      && DecideAgain(acc, st, devices, id, targets, portRules) == last.1
      && last.0 == Decide(acc, st, devices, id, targets[0], portRules).0
    decreases |targets|
  {
    hide Inv, Decide, Decided, DecisionRule, IsDecision, UpsertWorks;
    var st1 := Decide(acc, st, devices, id, targets[0], portRules).1;
    DecisionSucceedsIff(acc, st, devices, id, targets[0], portRules);
    if |targets| == 1 {
      assert DecideAgain(acc, st1, devices, id, targets[1..], portRules) == st1;
    } else {
      var last := targets[|targets| - 1];
      SecondDecision(acc, st, devices, id, targets[0], targets[1], portRules);
      SecondDecision(acc, st, devices, id, targets[0], last, portRules);
      DecisionSucceedsIff(acc, st1, devices, id, targets[1], portRules);
      LastDecisionCounts(acc, st1, devices, id, targets[1..], portRules);
    }
  }

  lemma SecondDecision(acc: Acceptor, st: State, devices: DeviceMap, id: nat, t: Target, t': Target, portRules: bool)
    requires Inv(st) && id in devices && IsDecision(t) && IsDecision(t')
    requires DecisionRule(devices[id], devices, t, portRules).Ok?
      && DecisionRule(devices[id], devices, t', portRules).Ok?
    requires UpsertWorks(st, Scanned(devices[id]))
    ensures
      var (r, st1) := Decide(acc, st, devices, id, t, portRules);
      && Inv(st1) && r.Ok?
      && Decide(acc, st1, devices, id, t', portRules) == Decide(acc, st, devices, id, t', portRules)
      && Decide(acc, st, devices, id, t', portRules).0 == r
  {
    hide Inv, PolicyUpsert, Decide, AppliesTo, DeviceRule, UpsertWorks;
    var d := devices[id];
    DecisionSucceedsIff(acc, st, devices, id, t, portRules);
    var st1 := Decide(acc, st, devices, id, t, portRules).1;
    DecideIsUpsert(acc, st, devices, id, t, portRules);
    DecideIsUpsert(acc, st, devices, id, t', portRules);
    DecideIsUpsert(acc, st1, devices, id, t', portRules);
    DecidedIsCounted(d, devices, t, portRules);
    DecisionsOverwrite(st, Scanned(d), Decided(d, devices, t, portRules), Decided(d, devices, t', portRules));
    GoodUpsertFact(st, Scanned(d), Decided(d, devices, t, portRules));
  }
}
