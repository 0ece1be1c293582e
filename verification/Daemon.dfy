/** Permanent decisions about devices (src/Daemon/Daemon.cpp). */
module Daemon {
  import opened Text
  import opened Rules
  import opened Printer
  import opened Grammar
  import opened PolicyState
  import opened Devices
  import opened RuleFile
  import P = Policy

  predicate IsDecision(target: Target) {
    target == Allow || target == Block || target == Reject
  }

  /** An allow rule names the parent and, if so configured, the port; the others name neither. */
  function DecisionRule(d: UsbDevice, devices: DeviceMap, target: Target, portRules: bool): (r: Result<Rule>)
    requires IsDecision(target)
  {
    var allow := target == Allow;
    match DeviceRule(d, devices, allow && portRules, allow, false)
    case Err => Err
    case Ok(rule) => Ok(rule.(target := target))
  }

  /** A rule printed and parsed, as it is handed from upsertDeviceRule to upsertRule. */
  function ThroughText(acc: Acceptor, r: Rule): (s: Result<Rule>) {
    match RuleText(r)
    case Err => Err
    case Ok(text) => ParseRule(acc, text)
  }

  /** upsertDeviceRule: the identifier of the rule and the new policy. */
  function Decide(acc: Acceptor, st: State, devices: DeviceMap, id: nat, target: Target,
                  portRules: bool): (r: (Result<nat>, State))
    ensures |r.1.sets| == |st.sets|
    ensures r.0.Ok? ==> id in devices && IsDecision(target) && DecisionRule(devices[id], devices, target, portRules).Ok?
  {
    if id !in devices || !IsDecision(target) then (Err, st)
    else
      var m := DeviceRule(devices[id], devices, false, false, true);
      var n := DecisionRule(devices[id], devices, target, portRules);
      if m.Err? || n.Err? then (Err, st)
      else
        var m', n' := ThroughText(acc, m.value), ThroughText(acc, n.value);
        if m'.Err? || n'.Err? then (Err, st) else PolicyUpsert(st, 0, m'.value, n'.value, true)
  }

  /** upsertRule without the saving. */
  function UpsertByText(acc: Acceptor, st: State, matchSpec: string, ruleSpec: string,
                        insensitive: bool): (r: (Result<nat>, State))
    ensures |r.1.sets| == |st.sets|
  {
    var m, n := ParseRule(acc, matchSpec), ParseRule(acc, ruleSpec);
    if m.Err? || n.Err? then (Err, st) else PolicyUpsert(st, 0, m.value, n.value, insensitive)
  }

  /** The texts of the match rule and the new rule of a decision. */
  function DecisionTexts(devices: DeviceMap, id: nat, target: Target, portRules: bool): (r: Result<(string, string)>) {
    if id !in devices || !IsDecision(target) then Err
    else
      var m := DeviceRule(devices[id], devices, false, false, true);
      var n := DecisionRule(devices[id], devices, target, portRules);
      if m.Err? || n.Err? then Err
      else
        var matchSpec, ruleSpec := RuleText(m.value), RuleText(n.value);
        if matchSpec.Err? || ruleSpec.Err? then Err else Ok((matchSpec.value, ruleSpec.value))
  }

  lemma DecideByText(acc: Acceptor, st: State, devices: DeviceMap, id: nat, target: Target, portRules: bool)
    ensures Decide(acc, st, devices, id, target, portRules) ==
      match DecisionTexts(devices, id, target, portRules)
      case Err => (Err, st)
      case Ok((matchSpec, ruleSpec)) => UpsertByText(acc, st, matchSpec, ruleSpec, true)
  {
    hide PolicyUpsert, ParseRule, RuleText, DeviceRule;
  }

  /** Policy::save from rule set `i` on: every file is overwritten, up to one that cannot be written in full. */
  function SaveFiles(files: seq<string>, sets: seq<Table>, i: nat): (r: (bool, seq<string>))
    requires |files| == |sets|
    ensures |r.1| == |files|
    decreases |sets| - i
  {
    if i >= |sets| then (true, files)
    else
      var (ok, text) := Written(sets[i].rules);
      if ok then SaveFiles(files[i := text], sets, i + 1) else (false, files[i := text])
  }

  /** The result of an operation on the policy, and the rule files after it. */
  function Stored(files: seq<string>, done: (Result<nat>, State), save: bool): (r: (Result<nat>, seq<string>))
    requires |files| == |done.1.sets|
    ensures |r.1| == |files|
  {
    if done.0.Err? || !save then (done.0, files)
    else
      var (ok, files') := SaveFiles(files, done.1.sets, 0);
      (if ok then done.0 else Err, files')
  }

  datatype PolicyMethod = AllowAll | BlockAll | RejectAll | Keep | ApplyPolicy

  /** getInsertedDevicePolicyRule: the rule that decides about an inserted device. */
  function InsertedPolicyRule(policyMethod: PolicyMethod, st: State, d: UsbDevice, devices: DeviceMap,
                              o: Oracle): (r: Result<Rule>)
    requires st.sets != []
  {
    match DeviceRule(d, devices, true, true, true)
    case Err => Err
    case Ok(device) =>
      match policyMethod
      case BlockAll => Ok(NEW_RULE.(target := Block, id := ROOT_ID))
      case RejectAll => Ok(NEW_RULE.(target := Reject, id := ROOT_ID))
      case ApplyPolicy => Lookup(st.sets, 0, device, o)
      case _ => Err
  }

  /**
   * With the methods that block and reject, an inserted device gets that target whatever the policy says;
   * only with the method that applies the policy the policy decides, and the other methods are errors.
   */
  lemma InsertedTarget(policyMethod: PolicyMethod, st: State, d: UsbDevice, devices: DeviceMap, o: Oracle)
    requires st.sets != [] && DeviceRule(d, devices, true, true, true).Ok?
    ensures
      var r := InsertedPolicyRule(policyMethod, st, d, devices, o);
      && (policyMethod == BlockAll ==> r.Ok? && r.value.target == Block && r.value.id == ROOT_ID)
      && (policyMethod == RejectAll ==> r.Ok? && r.value.target == Reject && r.value.id == ROOT_ID)
      && (policyMethod == ApplyPolicy ==> r == Lookup(st.sets, 0, DeviceRule(d, devices, true, true, true).value, o))
      && (policyMethod == AllowAll || policyMethod == Keep ==> r == Err)
  {
  }

  class Daemon {
    const acc: Acceptor
    const policy: P.Policy
    const hasRuleFile: bool
    var devices: DeviceMap
    var deviceRulesWithPort: bool
    var insertedMethod: PolicyMethod
    var files: seq<string> // the contents of the rule files, one for each rule set

    constructor (acc: Acceptor, policy: P.Policy, files: seq<string>, hasRuleFile: bool, portRules: bool,
                 insertedMethod: PolicyMethod)
      requires |files| == |policy.sets|
      ensures this.acc == acc && this.policy == policy && this.files == files && this.hasRuleFile == hasRuleFile
      ensures devices == map[] && deviceRulesWithPort == portRules && this.insertedMethod == insertedMethod
      ensures Valid() <==> policy.Valid()
    {
      this.acc, this.policy, this.files, this.hasRuleFile := acc, policy, files, hasRuleFile;
      this.devices, this.deviceRulesWithPort, this.insertedMethod := map[], portRules, insertedMethod;
    }

    ghost predicate Valid()
      reads this, policy, policy.sets
    {
      policy.Valid() && |files| == |policy.sets|
    }

    method GetInsertedDevicePolicyRule(device: UsbDevice, o: Oracle) returns (r: Result<Rule>)
      requires policy.sets != []
      ensures r == InsertedPolicyRule(insertedMethod, policy.Abs(), device, devices, o)
    {
      hide Lookup, DeviceRule;
      var deviceRule := GetDeviceRule(device, devices, true, true, true);
      if deviceRule.Err? {
        return Err;
      }
      var target := Invalid;
      match insertedMethod {
        case BlockAll => target := Block;
        case RejectAll => target := Reject;
        case ApplyPolicy =>
          r := policy.GetFirstMatchingRule(deviceRule.value, o);
          return;
        case _ => return Err;
      }
      var rule := NEW_RULE.(target := target);
      return Ok(rule.(id := ROOT_ID));
    }

    /** The loop of Policy::save. */
    method SavePolicy() returns (ok: bool)
      requires Valid()
      modifies this`files
      ensures Valid() && (ok, files) == SaveFiles(old(files), policy.Abs().sets, 0)
    {
      hide Written, P.Tables, Serialize;
      ghost var sets := policy.Abs().sets;
      ghost var spec := SaveFiles(files, sets, 0);
      for i := 0 to |policy.sets|
        invariant |files| == |policy.sets| && policy.Abs().sets == sets && policy.Valid()
        invariant spec == SaveFiles(files, sets, i)
      {
        assert sets[i] == policy.sets[i].Abs();
        var text;
        ok, text := SerializeRules(policy.sets[i].rules);
        files := files[i := text];
        if !ok {
          return;
        }
      }
      ok := true;
    }

    /** upsertRule: both rules arrive as texts, and the rule files are written if there is one. */
    method UpsertRule(matchSpec: string, ruleSpec: string, insensitive: bool) returns (r: Result<nat>)
      requires Valid()
      modifies policy.sets, policy.counter, this`files
      ensures Valid()
      ensures
        var done := UpsertByText(acc, old(policy.Abs()), matchSpec, ruleSpec, insensitive);
        policy.Abs() == done.1 && (r, files) == Stored(old(files), done, hasRuleFile)
    {
      hide ParseRule, PolicyUpsert, SaveFiles;
      var m := ParseRule(acc, matchSpec);
      var n := ParseRule(acc, ruleSpec);
      if m.Err? || n.Err? {
        return Err;
      }
      r := policy.UpsertRule(m.value, n.value, insensitive);
      if r.Ok? && hasRuleFile {
        var ok := SavePolicy();
        if !ok {
          return Err;
        }
      }
    }

    /** upsertDeviceRule: in the end the rule is looked up by its identifier. */
    method UpsertDeviceRule(id: nat, target: Target) returns (r: Result<Rule>)
      requires Valid()
      modifies policy.sets, policy.counter, this`files
      ensures Valid()
      ensures
        var done := Decide(acc, old(policy.Abs()), devices, id, target, deviceRulesWithPort);
        var stored := Stored(old(files), done, hasRuleFile);
        && policy.Abs() == done.1 && files == stored.1
        && r == if stored.0.Err? then Err else RuleById(done.1.sets, 0, stored.0.value)
    {
      hide Decide, UpsertByText, DecisionTexts, Stored, RuleById, P.Tables;
      DecideByText(acc, policy.Abs(), devices, id, target, deviceRulesWithPort);
      NothingStored(files, policy.Abs(), hasRuleFile);
      var texts := Specs(id, target);
      if texts.Err? {
        return Err;
      }
      var ruleId := UpsertRule(texts.value.0, texts.value.1, true);
      if ruleId.Err? {
        return Err;
      }
      r := policy.GetRule(ruleId.value);
    }

    /** The part of upsertDeviceRule that makes the two texts. */
    method Specs(id: nat, target: Target) returns (r: Result<(string, string)>)
      ensures r == DecisionTexts(devices, id, target, deviceRulesWithPort)
    {
      hide DeviceRule, RuleText;
      if id !in devices {
        return Err;
      }
      var device := devices[id];
      var withPort, withParentHash := deviceRulesWithPort, true;
      match target {
        case Allow =>
        case Block => withPort, withParentHash := false, false;
        case Reject => withPort, withParentHash := false, false;
        case _ => return Err;
      }
      var matchRule := GetDeviceRule(device, devices, false, false, true);
      var deviceRule := GetDeviceRule(device, devices, withPort, withParentHash, false);
      if matchRule.Err? || deviceRule.Err? {
        return Err;
      }
      var matchSpec := RuleText(matchRule.value);
      var ruleSpec := RuleText(deviceRule.value.(target := target));
      if matchSpec.Err? || ruleSpec.Err? {
        return Err;
      }
      return Ok((matchSpec.value, ruleSpec.value));
    }
  }

  /** A failed operation and one that is not saved leave the files as they are. */
  lemma NothingStored(files: seq<string>, st: State, save: bool)
    requires |files| == |st.sets|
    ensures Stored(files, (Err, st), save) == (Err, files)
    ensures forall id: nat :: Stored(files, (Ok(id), st), false) == (Ok(id), files)
  {
  }
}
