/** Lookups in a policy that was saved and loaded again; a permanent decision survives a restart. */
module Restart {
  import opened Text
  import opened Matching
  import opened Rules
  import opened Grammar
  import opened RoundTrip
  import opened PolicyState
  import opened PolicyLaws
  import opened Decisions
  import opened Devices
  import opened Daemon
  import opened Permanence
  import opened RuleFile
  import opened LineFeeds

  /** Reading a rule back from its text does not change which devices it matches. */
  lemma NormalApplies(acc: Acceptor, r: Rule, device: Rule, id: nat, insensitive: bool)
    requires ReadableRule(acc, r)
    ensures AppliesTo(Normal(r).(id := id), device, insensitive) == AppliesTo(r, device, insensitive)
  {
    hide ReadableRule, Normal, Applies;
    var s := Normal(r);
    forall k | k != If ensures Applies(Get(s, k), Get(device, k)) == Applies(Get(r, k), Get(device, k)) {
      AttributeApplies(acc, r, k, Get(device, k));
    }
    assert Applies(Get(s, Id), Get(device, Id)) == Applies(Get(r, Id), Get(device, Id));
    assert Applies(Get(s, Serial), Get(device, Serial)) == Applies(Get(r, Serial), Get(device, Serial));
    assert Applies(Get(s, Name), Get(device, Name)) == Applies(Get(r, Name), Get(device, Name));
    assert Applies(Get(s, Hash), Get(device, Hash)) == Applies(Get(r, Hash), Get(device, Hash));
    assert Applies(Get(s, ParentHash), Get(device, ParentHash)) == Applies(Get(r, ParentHash), Get(device, ParentHash));
    assert Applies(Get(s, ViaPort), Get(device, ViaPort)) == Applies(Get(r, ViaPort), Get(device, ViaPort));
    assert Applies(Get(s, WithInterface), Get(device, WithInterface))
      == Applies(Get(r, WithInterface), Get(device, WithInterface));
    assert Applies(Get(s, WithConnectType), Get(device, WithConnectType))
      == Applies(Get(r, WithConnectType), Get(device, WithConnectType));
  }

  lemma AttributeApplies(acc: Acceptor, r: Rule, k: Key, target: Attribute)
    requires ReadableRule(acc, r) && k != If
    ensures Applies(NormalAttribute(Get(r, k)), target) == Applies(Get(r, k), target)
  {
    var a := Get(r, k);
    if a.values != [] {
      assert NormalValues(a.values) == a.values by {
        assert forall i :: 0 <= i < |a.values| ==> OfKind(k, a.values[i]);
      }
    }
  }

  ghost predicate Storable(acc: Acceptor, rules: seq<Rule>) {
    forall i :: 0 <= i < |rules| ==> Savable(acc, rules[i]) && OneLine(rules[i])
  }

  ghost predicate StorableAll(acc: Acceptor, sets: seq<Table>) {
    forall i :: 0 <= i < |sets| ==> Storable(acc, sets[i].rules)
  }

  // ----- One rule set

  /** The rules after saving them to a file and loading it into a new rule set. */
  function Reloaded(acc: Acceptor, rules: seq<Rule>): (r: Result<seq<Rule>>) {
    match Serialize(rules)
    case Err => Err
    case Ok(text) =>
      var loaded := Load(acc, Lines(text), [], ROOT_ID + 1);
      if loaded.ok then Ok(loaded.rules) else Err
  }

  lemma ReloadedIs(acc: Acceptor, rules: seq<Rule>)
    requires Storable(acc, rules) && |rules| + 1 < LAST_ID
    ensures Reloaded(acc, rules) == Ok(Renumbered(Kept(rules), 1))
  {
    hide Serialize, Load, Savable, OneLine, Lines, Renumbered, Kept;
    FileReadBack(acc, rules, [], 1);
    assert [] + Renumbered(Kept(rules), 1) == Renumbered(Kept(rules), 1);
  }

  /** A blank rule matches every device. */
  lemma BlankApplies(r: Rule, device: Rule, insensitive: bool)
    requires IsBlankRule(r)
    ensures AppliesTo(r, device, insensitive)
  {
  }

  lemma {:induction false} KeptPrefix(rules: seq<Rule>, n: nat)
    requires n <= |rules| && forall j :: 0 <= j < n ==> !IsBlankRule(rules[j])
    ensures n <= |Kept(rules)| && Kept(rules)[..n] == rules[..n]
  {
    hide IsBlankRule;
    if n > 0 {
      KeptPrefix(rules[1..], n - 1);
      assert Kept(rules) == [rules[0]] + Kept(rules[1..]);
      assert rules[..n] == [rules[0]] + rules[1..][..n - 1];
    }
  }

  /** The rules up to `n` of a reloaded rule set match the devices they matched before. */
  lemma ReloadedMatch(acc: Acceptor, rules: seq<Rule>, n: nat, next: nat, device: Rule)
    requires Storable(acc, rules) && n <= |rules| && forall j :: 0 <= j < n ==> !IsBlankRule(rules[j])
    ensures
      var again := Renumbered(Kept(rules), next);
      n <= |again| && forall j :: 0 <= j < n ==>
        again[j] == Normal(rules[j]).(id := next + j)
        && AppliesTo(again[j], device, false) == AppliesTo(rules[j], device, false)
  {
    hide Storable, AppliesTo, Normal, Renumbered, Kept, IsBlankRule;
    ReloadedPrefix(rules, n, next);
    forall j | 0 <= j < n
      ensures AppliesTo(Normal(rules[j]).(id := next + j), device, false) == AppliesTo(rules[j], device, false)
    {
      StorableIsReadable(acc, rules, j);
      NormalApplies(acc, rules[j], device, next + j, false);
    }
  }

  lemma ReloadedPrefix(rules: seq<Rule>, n: nat, next: nat)
    requires n <= |rules| && forall j :: 0 <= j < n ==> !IsBlankRule(rules[j])
    ensures
      var again := Renumbered(Kept(rules), next);
      n <= |again| && forall j :: 0 <= j < n ==> again[j] == Normal(rules[j]).(id := next + j)
  {
    hide Normal, Kept, IsBlankRule;
    KeptPrefix(rules, n);
    forall j | 0 <= j < n ensures Kept(rules)[j] == rules[j] {
      assert Kept(rules)[..n][j] == rules[..n][j];
    }
  }

  lemma StorableIsReadable(acc: Acceptor, rules: seq<Rule>, j: nat)
    requires Storable(acc, rules) && j < |rules| && !IsBlankRule(rules[j])
    ensures ReadableRule(acc, rules[j])
  {
    hide ReadableRule, OneLine, IsBlankRule;
    assert Savable(acc, rules[j]);
  }

  /** No rule of the set matches a device, before and after reloading. */
  lemma ReloadedMisses(acc: Acceptor, rules: seq<Rule>, next: nat, default: Target, device: Rule, o: Oracle)
    requires Storable(acc, rules) && forall j :: 0 <= j < |rules| ==> !AppliesTo(rules[j], device, false)
    ensures FirstMatching(Renumbered(Kept(rules), next), default, device, o) == Ok(ImplicitRule(default))
  {
    hide Storable, AppliesTo, FirstMatching, Renumbered, Normal, IsBlankRule;
    forall j | 0 <= j < |rules| ensures !IsBlankRule(rules[j]) {
      if IsBlankRule(rules[j]) {
        BlankApplies(rules[j], device, false);
      }
    }
    ReloadedMatch(acc, rules, |rules|, next, device);
    NoHit(Renumbered(Kept(rules), next), default, device, o);
  }

  /**
   * If in a rule set the rule at `p` is the first one to match a device, and it has no conditions, then
   * it still answers the lookup of the device after a restart.
   */
  lemma ReloadedFirst(acc: Acceptor, rules: seq<Rule>, p: nat, next: nat, default: Target, device: Rule, o: Oracle)
    requires Storable(acc, rules) && p < |rules| && !IsBlankRule(rules[p])
    requires AppliesTo(rules[p], device, false) && rules[p].conditions == NO_VALUES
    requires forall j :: 0 <= j < p ==> !AppliesTo(rules[j], device, false)
    ensures FirstMatching(Renumbered(Kept(rules), next), default, device, o) == Ok(Normal(rules[p]).(id := next + p))
  {
    hide Storable, AppliesTo, FirstMatching, Renumbered, Normal, IsBlankRule;
    forall j | 0 <= j < p ensures !IsBlankRule(rules[j]) {
      if IsBlankRule(rules[j]) {
        BlankApplies(rules[j], device, false);
      }
    }
    ReloadedMatch(acc, rules, p + 1, next, device);
    var again := Renumbered(Kept(rules), next);
    assert again[p].conditions == NO_VALUES by {
      assert Get(Normal(rules[p]), If) == NormalAttribute(Get(rules[p], If));
    }
    UnconditionalIsMet(again[p], device, o);
    FirstHit(again, p, default, device, o);
  }

  // ----- All rule sets

  /** Policy::save: the text of every rule file. */
  function SaveAll(sets: seq<Table>): (r: Result<seq<string>>) {
    if sets == [] then Ok([])
    else
      var text, tail := Serialize(sets[0].rules), SaveAll(sets[1..]);
      if text.Err? || tail.Err? then Err else Ok([text.value] + tail.value)
  }

  /** Daemon::loadRules: the rule sets have been made, and the files are loaded one after the other. */
  function LoadAll(acc: Acceptor, texts: seq<string>, default: Target, next: nat): (r: Result<State>)
    ensures r.Ok? ==> |r.value.sets| == |texts|
  {
    if texts == [] then Ok(State([], next))
    else
      var loaded := Load(acc, Lines(texts[0]), [], next);
      if !loaded.ok then Err
      else match LoadAll(acc, texts[1..], default, loaded.next)
        case Err => Err
        case Ok(st) => Ok(State([Table(loaded.rules, default)] + st.sets, st.next))
  }

  /** The policy after it was saved and loaded again. */
  function ReloadedPolicy(acc: Acceptor, sets: seq<Table>, default: Target): (r: Result<State>)
    ensures r.Ok? ==> |r.value.sets| == |sets|
  {
    SavedLength(sets);
    match SaveAll(sets)
    case Err => Err
    case Ok(texts) => LoadAll(acc, texts, default, ROOT_ID + 1)
  }

  lemma {:induction false} SavedLength(sets: seq<Table>)
    ensures SaveAll(sets).Ok? ==> |SaveAll(sets).value| == |sets|
  {
    if sets != [] {
      SavedLength(sets[1..]);
    }
  }

  function Total(sets: seq<Table>): (n: nat) {
    if sets == [] then 0 else |sets[0].rules| + Total(sets[1..])
  }

  /** The first identifier of rule set `j` when the policy is loaded again. */
  function Offset(sets: seq<Table>, next: nat, j: nat): (n: nat)
    requires j <= |sets|
    ensures next <= n
  {
    if j == 0 then next else Offset(sets[1..], next + |Kept(sets[0].rules)|, j - 1)
  }

  lemma {:induction false} OffsetBound(sets: seq<Table>, next: nat, j: nat)
    requires j < |sets|
    ensures Offset(sets, next, j) + |sets[j].rules| <= next + Total(sets)
  {
    if j > 0 {
      OffsetBound(sets[1..], next + |Kept(sets[0].rules)|, j - 1);
    }
  }

  /** `st` is the policy `sets` reloaded with identifiers from `next` on. */
  predicate IsReloaded(st: State, sets: seq<Table>, default: Target, next: nat) {
    && |st.sets| == |sets| && st.next == Offset(sets, next, |sets|)
    && forall j :: 0 <= j < |sets| ==>
      st.sets[j] == Table(Renumbered(Kept(sets[j].rules), Offset(sets, next, j)), default)
  }

  lemma IsReloadedCons(st: State, sets: seq<Table>, default: Target, next: nat, rest: State)
    requires sets != [] && IsReloaded(rest, sets[1..], default, next + |Kept(sets[0].rules)|)
    requires st == State([Table(Renumbered(Kept(sets[0].rules), next), default)] + rest.sets, rest.next)
    ensures IsReloaded(st, sets, default, next)
  {
    hide Renumbered, Kept;
    forall j | 0 < j < |sets|
      ensures st.sets[j] == Table(Renumbered(Kept(sets[j].rules), Offset(sets, next, j)), default)
    {
      assert sets[j] == sets[1..][j - 1] && st.sets[j] == rest.sets[j - 1];
    }
  }

  /** Saving and loading all rule files gives every rule set back. */
  lemma {:induction false} PolicyReadBack(acc: Acceptor, sets: seq<Table>, default: Target, next: nat)
    requires StorableAll(acc, sets) && 1 <= next && next + Total(sets) < LAST_ID
    ensures SaveAll(sets).Ok?
    ensures var r := LoadAll(acc, SaveAll(sets).value, default, next); r.Ok? && IsReloaded(r.value, sets, default, next)
    decreases |sets|
  {
    hide Storable, Serialize, Load, Lines, Renumbered, Kept, IsReloaded;
    if sets == [] {
      assert IsReloaded(State([], next), sets, default, next) by { NothingReloaded(default, next); }
    } else {
      var rules := sets[0].rules;
      assert Storable(acc, rules) && forall i :: 0 <= i < |sets[1..]| ==> sets[1..][i] == sets[i + 1];
      OneFileReadBack(acc, rules, next);
      var next' := next + |Kept(rules)|;
      PolicyReadBack(acc, sets[1..], default, next');
      var texts := SaveAll(sets).value;
      assert texts[0] == Serialize(rules).value && texts[1..] == SaveAll(sets[1..]).value;
      var rest := LoadAll(acc, texts[1..], default, next').value;
      IsReloadedCons(LoadAll(acc, texts, default, next).value, sets, default, next, rest);
    }
  }

  lemma OneFileReadBack(acc: Acceptor, rules: seq<Rule>, next: nat)
    requires Storable(acc, rules) && 1 <= next && next + |rules| < LAST_ID
    ensures Serialize(rules).Ok?
    ensures Load(acc, Lines(Serialize(rules).value), [], next)
      == Loaded(true, Renumbered(Kept(rules), next), next + |Kept(rules)|)
  {
    hide Serialize, Load, Lines, Renumbered, Kept, Savable, OneLine;
    FileReadBack(acc, rules, [], next);
    assert [] + Renumbered(Kept(rules), next) == Renumbered(Kept(rules), next);
  }

  lemma NothingReloaded(default: Target, next: nat)
    ensures IsReloaded(State([], next), [], default, next)
  {
  }

  ghost predicate SavableAll(acc: Acceptor, sets: seq<Table>) {
    forall i :: 0 <= i < |sets| ==> AllSavable(acc, sets[i].rules)
  }

  ghost predicate AllSavable(acc: Acceptor, rules: seq<Rule>) {
    forall i :: 0 <= i < |rules| ==> Savable(acc, rules[i])
  }

  predicate AllOneLine(rules: seq<Rule>) {
    forall i :: 0 <= i < |rules| ==> OneLine(rules[i])
  }

  predicate OneLineAll(sets: seq<Table>) {
    forall i :: 0 <= i < |sets| ==> AllOneLine(sets[i].rules)
  }

  /** A policy with a rule on more than one line can be saved but not loaded. */
  lemma {:induction false} PolicyWithLineFeedFails(acc: Acceptor, sets: seq<Table>, default: Target, next: nat)
    requires SavableAll(acc, sets) && !OneLineAll(sets) && 1 <= next && next + Total(sets) < LAST_ID
    ensures SaveAll(sets).Ok? ==> LoadAll(acc, SaveAll(sets).value, default, next).Err?
    decreases |sets|
  {
    hide AllSavable, AllOneLine, Serialize, Load, Lines, Renumbered, Kept;
    var rules := sets[0].rules;
    assert forall i :: 0 <= i < |sets[1..]| ==> sets[1..][i] == sets[i + 1];
    if SaveAll(sets).Ok? {
      var texts := SaveAll(sets).value;
      assert texts[0] == Serialize(rules).value && texts[1..] == SaveAll(sets[1..]).value;
      if AllOneLine(rules) {
        SavableIsStorable(acc, rules);
        OneFileReadBack(acc, rules, next);
        assert !OneLineAll(sets[1..]) by {
          var i :| 0 <= i < |sets| && !AllOneLine(sets[i].rules);
          assert sets[1..][i - 1] == sets[i];
        }
        PolicyWithLineFeedFails(acc, sets[1..], default, next + |Kept(rules)|);
      } else {
        OneFileFails(acc, rules, next);
      }
    }
  }

  lemma SavableIsStorable(acc: Acceptor, rules: seq<Rule>)
    requires AllSavable(acc, rules) && AllOneLine(rules)
    ensures Storable(acc, rules)
  {
  }

  lemma OneFileFails(acc: Acceptor, rules: seq<Rule>, next: nat)
    requires AllSavable(acc, rules) && !AllOneLine(rules) && 1 <= next && next + |rules| < LAST_ID
    ensures Serialize(rules).Ok? && !Load(acc, Lines(Serialize(rules).value), [], next).ok
  {
    hide Savable, OneLine;
    FileWithLineFeedFails(acc, rules, [], next);
  }

  /** In the policy the rule at `p` of rule set `k` is the first to match the device, and it has no conditions. */
  predicate FirstToMatch(sets: seq<Table>, k: nat, p: nat, device: Rule) {
    && k < |sets| && p < |sets[k].rules| && !IsBlankRule(sets[k].rules[p])
    && AppliesTo(sets[k].rules[p], device, false) && sets[k].rules[p].conditions == NO_VALUES
    && (forall j :: 0 <= j < p ==> !AppliesTo(sets[k].rules[j], device, false))
    && (forall i :: 0 <= i < k ==> NoneApplies(sets[i].rules, device))
  }

  /** Such a rule answers the lookup in every policy that begins with the reloaded rule sets. */
  lemma FirstInReloaded(acc: Acceptor, sets: seq<Table>, k: nat, p: nat, st: State, more: seq<Table>, default: Target,
                        device: Rule, o: Oracle)
    requires StorableAll(acc, sets) && 1 + Total(sets) < LAST_ID && FirstToMatch(sets, k, p, device)
    requires IsReloaded(st, sets, default, 1)
    ensures Lookup(st.sets + more, 0, device, o) == Ok(Normal(sets[k].rules[p]).(id := Offset(sets, 1, k) + p))
  {
    hide Storable, AppliesTo, FirstMatching, Renumbered, Kept, Normal, IsBlankRule, Lookup;
    var again := st.sets + more;
    OffsetBound(sets, 1, k);
    assert Storable(acc, sets[k].rules);
    ReloadedFirst(acc, sets[k].rules, p, Offset(sets, 1, k), default, device, o);
    forall i | 0 <= i < k
      ensures FirstMatching(again[i].rules, again[i].default, device, o) == Ok(ImplicitRule(again[i].default))
    {
      assert Storable(acc, sets[i].rules) && NoneApplies(sets[i].rules, device);
      ReloadedMisses(acc, sets[i].rules, Offset(sets, 1, i), default, device, o);
    }
    LookupSkips(again, 0, k, device, o);
    AnswerOfSet(again, k, device, o);
  }

  /**
   * The first rule of the policy that matches a device and has no conditions still answers the lookup of
   * the device after all rule sets were saved and loaded again.
   */
  lemma FirstAfterReload(acc: Acceptor, sets: seq<Table>, k: nat, p: nat, default: Target, device: Rule, o: Oracle)
    requires StorableAll(acc, sets) && 1 + Total(sets) < LAST_ID && FirstToMatch(sets, k, p, device)
    ensures
      var r := ReloadedPolicy(acc, sets, default);
      r.Ok? && Lookup(r.value.sets, 0, device, o) == Ok(Normal(sets[k].rules[p]).(id := Offset(sets, 1, k) + p))
  {
    hide StorableAll, FirstToMatch, IsReloaded, Normal, LoadAll, SaveAll, Lookup;
    PolicyReadBack(acc, sets, default, 1);
    var st := ReloadedPolicy(acc, sets, default).value;
    assert k < |sets| && p < |sets[k].rules| by { FirstExists(sets, k, p, device); }
    FirstInReloaded(acc, sets, k, p, st, [], default, device, o);
    assert st.sets + [] == st.sets;
  }

  lemma FirstExists(sets: seq<Table>, k: nat, p: nat, device: Rule)
    requires FirstToMatch(sets, k, p, device)
    ensures k < |sets| && p < |sets[k].rules|
  {
  }

  predicate NoneApplies(rules: seq<Rule>, device: Rule) {
    forall j :: 0 <= j < |rules| ==> !AppliesTo(rules[j], device, false)
  }

  lemma AnswerOfSet(sets: seq<Table>, k: nat, device: Rule, o: Oracle)
    requires k < |sets|
    ensures
      var r := FirstMatching(sets[k].rules, sets[k].default, device, o);
      r.Ok? && r.value.id != IMPLICIT_ID ==> Lookup(sets, k, device, o) == r
  {
  }

  // ----- The rule of a decision

  /** The rule set, and the place in it, of the rule that a successful decision leaves. */
  function DecidedIn(st: State, m: Rule): (k: nat)
    requires st.sets != []
    ensures k < |st.sets|
  {
    var k := ScanEnd(st.sets, 0, m);
    if k == |st.sets| then k - 1 else k
  }

  function DecidedAt(st: State, m: Rule): (p: nat)
    requires st.sets != []
  {
    var rules := st.sets[DecidedIn(st, m)].rules;
    if CountMatches(rules, m, true) == 0 then |rules| else MatchIndex(rules, m, true)
  }

  /** `rules'` is `rules` with `n` in place of the rule at `p`, or behind the last rule. */
  predicate SetAt(rules: seq<Rule>, rules': seq<Rule>, p: nat, n: Rule) {
    && p <= |rules| && |rules'| == (if p == |rules| then p + 1 else |rules|)
    && rules' == rules[..p] + [n] + if p == |rules| then [] else rules[p + 1..]
  }

  /** An upsert sets one rule in one rule set, and no rule in front of it is counted by the scan. */
  lemma UpsertedRules(st: State, m: Rule, n: Rule)
    requires Inv(st) && n.id == DEFAULT_ID && UpsertWorks(st, m)
    ensures
      var (r, st') := PolicyUpsert(st, 0, m, n, true);
      var k, p := DecidedIn(st, m), DecidedAt(st, m);
      && r.Ok?
      && SetAt(st.sets[k].rules, st'.sets[k].rules, p, n.(id := r.value))
      && (forall j :: 0 <= j < |st.sets| && j != k ==> st'.sets[j] == st.sets[j])
      && (forall j :: 0 <= j < p ==> !AppliesTo(st.sets[k].rules[j], m, true))
      && (forall j :: 0 <= j < k ==> CountMatches(st.sets[j].rules, m, true) == 0)
  {
    hide Inv, PolicyUpsert, AppliesTo;
    InvBounds(st);
    UpsertCases(st, 0, m, n);
    CountZero(st.sets[DecidedIn(st, m)].rules, m, true);
  }

  lemma DecidedIsStorable(acc: Acceptor, d: UsbDevice, devices: DeviceMap, target: Target, portRules: bool, id: nat)
    requires IsDecision(target) && DecisionRule(d, devices, target, portRules).Ok?
    ensures
      var n := Decided(d, devices, target, portRules).(id := id);
      ReadableRule(acc, n) && OneLine(n) && Normal(n) == n.(id := DEFAULT_ID)
  {
    hide ReadableRule, Normal, Describes;
    DeviceRuleDescribes(d, devices, target == Allow && portRules, target == Allow, false, target);
    var n := Decided(d, devices, target, portRules).(id := id);
    assert Describes(n, d) by { SameDescription(DecisionRule(d, devices, target, portRules).value, d, id); }
    DeviceRuleIsReadable(acc, d, n);
  }

  lemma SameDescription(r: Rule, d: UsbDevice, id: nat)
    requires Describes(r, d)
    ensures Describes(r.(id := id), d)
  {
  }

  /** Unique identifiers below the counter bound the number of rules. */
  lemma {:induction false} FewIds(ids: multiset<nat>, n: nat)
    requires forall id :: id in ids ==> ids[id] == 1 && 1 <= id < n
    ensures |ids| <= if n == 0 then 0 else n - 1
    decreases n
  {
    if n <= 1 {
      assert ids == multiset{};
    } else if (n - 1) in ids {
      FewIds(ids - multiset{n - 1}, n - 1);
    } else {
      FewIds(ids, n - 1);
    }
  }

  lemma {:induction false} TotalIsCounted(sets: seq<Table>)
    ensures Total(sets) == |AllIds(sets)|
  {
    if sets != [] {
      TotalIsCounted(sets[1..]);
      assert |multiset(Ids(sets[0].rules))| == |Ids(sets[0].rules)|;
    }
  }

  lemma FewRules(st: State)
    requires Inv(st)
    ensures 1 + Total(st.sets) < LAST_ID
  {
    FewIds(AllIds(st.sets), st.next);
    TotalIsCounted(st.sets);
  }

  /** Sets in front of the decision have no rule that matches the device. */
  lemma UncountedMisses(rules: seq<Rule>, m: Rule, device: Rule)
    requires SameIdentity(m, device) && CountMatches(rules, m, true) == 0
    ensures NoneApplies(rules, device)
  {
    hide AppliesTo;
    CountZero(rules, m, true);
    forall j | 0 <= j < |rules| ensures !AppliesTo(rules[j], device, false) {
      if AppliesTo(rules[j], device, false) {
        RivalsAreCounted(rules[j], device, m);
      }
    }
  }

  /** The rule of a decision is the first of the policy to match the device, and it is unconditional. */
  lemma DecidedIsFirst(acc: Acceptor, st: State, devices: DeviceMap, id: nat, target: Target, portRules: bool,
                       device: Rule)
    requires Inv(st) && Decidable(st, devices, id, target, portRules)
    requires InReach(device, devices[id], devices, target, portRules)
    ensures
      var (r, st') := Decide(acc, st, devices, id, target, portRules);
      var m, n := Scanned(devices[id]), Decided(devices[id], devices, target, portRules);
      var k, p := DecidedIn(st, m), DecidedAt(st, m);
      && r.Ok? && p < |st'.sets[k].rules| && st'.sets[k].rules[p] == n.(id := r.value)
      && FirstToMatch(st'.sets, k, p, device)
  {
    hide Inv, Decide, AppliesTo, PolicyUpsert, DecidedAt, DecidedIn, DecisionRule, UpsertWorks, NoneApplies;
    InvBounds(st);
    var m, n := Scanned(devices[id]), Decided(devices[id], devices, target, portRules);
    DecideIsUpsert(acc, st, devices, id, target, portRules);
    UpsertedRules(st, m, n);
    var (r, st') := Decide(acc, st, devices, id, target, portRules);
    var k, p := DecidedIn(st, m), DecidedAt(st, m);
    DecidedApplies(devices[id], devices, target, portRules, device);
    DecidedHasNoConditions(devices[id], devices, target, portRules);
    DecidedTarget(devices[id], devices, target, portRules);
    NewIdApplies(n, device, r.value);
    forall j | 0 <= j < p ensures !AppliesTo(st'.sets[k].rules[j], device, false) {
      assert st'.sets[k].rules[j] == st.sets[k].rules[j];
      if AppliesTo(st.sets[k].rules[j], device, false) {
        RivalsAreCounted(st.sets[k].rules[j], device, m);
      }
    }
    forall i | 0 <= i < k ensures NoneApplies(st'.sets[i].rules, device) {
      UncountedMisses(st.sets[i].rules, m, device);
    }
  }

  /** What upsertDeviceRule returns is the rule of the decision, under the identifier it got. */
  lemma DecidedRuleIsReturned(acc: Acceptor, st: State, devices: DeviceMap, id: nat, target: Target, portRules: bool)
    requires Inv(st) && Decidable(st, devices, id, target, portRules)
    ensures
      var (r, st') := Decide(acc, st, devices, id, target, portRules);
      r.Ok? && RuleById(st'.sets, 0, r.value) == Ok(Decided(devices[id], devices, target, portRules).(id := r.value))
  {
    hide Inv, Decide, PolicyUpsert, DecidedAt, DecidedIn, DecisionRule, UpsertWorks, AppliesTo, RuleById;
    InvBounds(st);
    var m, n := Scanned(devices[id]), Decided(devices[id], devices, target, portRules);
    DecideIsUpsert(acc, st, devices, id, target, portRules);
    UpsertedRules(st, m, n);
    DecideKeepsInv(acc, st, devices, id, target, portRules);
    RuleIsFoundById(Decide(acc, st, devices, id, target, portRules).1, DecidedIn(st, m), DecidedAt(st, m));
  }

  /** The files of a policy that could be saved are the texts of its rule sets. */
  lemma {:induction false} SavedFiles(files: seq<string>, sets: seq<Table>, i: nat)
    requires |files| == |sets| && i <= |sets|
    ensures
      var (ok, files') := SaveFiles(files, sets, i);
      && (ok <==> SaveAll(sets[i..]).Ok?)
      && (ok ==> files' == files[..i] + SaveAll(sets[i..]).value)
    decreases |sets| - i
  {
    hide Written, Serialize;
    if i < |sets| {
      var (ok, text) := Written(sets[i].rules);
      assert sets[i..][0] == sets[i] && sets[i..][1..] == sets[i + 1..];
      SavedFiles(files[i := text], sets, i + 1);
      assert files[i := text][..i + 1] == files[..i] + [text];
    }
  }

  /** A restart after a complete save finds the reloaded policy. */
  lemma ReloadedFromFiles(acc: Acceptor, files: seq<string>, sets: seq<Table>, default: Target)
    requires |files| == |sets| && SaveFiles(files, sets, 0).0
    ensures LoadAll(acc, SaveFiles(files, sets, 0).1, default, ROOT_ID + 1) == ReloadedPolicy(acc, sets, default)
  {
    hide SaveFiles, SaveAll, LoadAll;
    SavedFiles(files, sets, 0);
    assert sets[0..] == sets && files[..0] + SaveAll(sets).value == SaveAll(sets).value;
  }

  lemma DecidedTarget(d: UsbDevice, devices: DeviceMap, target: Target, portRules: bool)
    requires IsDecision(target) && DecisionRule(d, devices, target, portRules).Ok?
    ensures Decided(d, devices, target, portRules).target == target
  {
  }

  /**
   * A permanent decision survives a restart: once all rule sets have been saved and loaded again, lookups
   * of the device still answer with the rule of the decision.
   */
  lemma DecisionSurvivesRestart(acc: Acceptor, st: State, devices: DeviceMap, id: nat, target: Target, portRules: bool,
                                default: Target, device: Rule, o: Oracle)
    requires Inv(st) && StorableAll(acc, st.sets) && Decidable(st, devices, id, target, portRules)
    requires InReach(device, devices[id], devices, target, portRules)
    ensures
      var sets := Decide(acc, st, devices, id, target, portRules).1.sets;
      var r := ReloadedPolicy(acc, sets, default);
      && r.Ok?
      && var answer := Lookup(r.value.sets, 0, device, o);
         answer.Ok? && answer.value == Decided(devices[id], devices, target, portRules).(id := answer.value.id)
  {
    hide Inv, Decide, ReloadedPolicy, Storable, Lookup, UpsertWorks, DecisionRule, InReach, AppliesTo;
    InvBounds(st);
    StorableAfterDecision(acc, st, devices, id, target, portRules);
    StorableSurvives(acc, st, devices, id, target, portRules, default, device, o);
  }

  /** The same with the condition on the policy after the decision. */
  lemma StorableSurvives(acc: Acceptor, st: State, devices: DeviceMap, id: nat, target: Target, portRules: bool,
                         default: Target, device: Rule, o: Oracle)
    requires Inv(st) && Decidable(st, devices, id, target, portRules)
    requires InReach(device, devices[id], devices, target, portRules)
    requires StorableAll(acc, Decide(acc, st, devices, id, target, portRules).1.sets)
    ensures
      var sets := Decide(acc, st, devices, id, target, portRules).1.sets;
      var r := ReloadedPolicy(acc, sets, default);
      && r.Ok?
      && var answer := Lookup(r.value.sets, 0, device, o);
         answer.Ok? && answer.value == Decided(devices[id], devices, target, portRules).(id := answer.value.id)
  {
    hide Inv, Decide, ReloadedPolicy, StorableAll, Lookup, UpsertWorks, DecisionRule, InReach, FirstToMatch, Normal,
      ReadableRule;
    InvBounds(st);
    var (r, st') := Decide(acc, st, devices, id, target, portRules);
    var m := Scanned(devices[id]);
    var k, p := DecidedIn(st, m), DecidedAt(st, m);
    DecidedIsFirst(acc, st, devices, id, target, portRules, device);
    DecideKeepsInv(acc, st, devices, id, target, portRules);
    FewRules(st');
    DecidedIsStorable(acc, devices[id], devices, target, portRules, r.value);
    FirstAfterReload(acc, st'.sets, k, p, default, device, o);
  }

  lemma StorableAfterDecision(acc: Acceptor, st: State, devices: DeviceMap, id: nat, target: Target, portRules: bool)
    requires Inv(st) && StorableAll(acc, st.sets) && Decidable(st, devices, id, target, portRules)
    ensures StorableAll(acc, Decide(acc, st, devices, id, target, portRules).1.sets)
  {
    hide Inv, Decide, PolicyUpsert, DecisionRule, UpsertWorks, ReadableRule, OneLine, AppliesTo, DecidedIn, DecidedAt;
    InvBounds(st);
    var m, n := Scanned(devices[id]), Decided(devices[id], devices, target, portRules);
    DecideIsUpsert(acc, st, devices, id, target, portRules);
    UpsertedRules(st, m, n);
    var (r, st') := Decide(acc, st, devices, id, target, portRules);
    DecidedIsStorable(acc, devices[id], devices, target, portRules, r.value);
    var k := DecidedIn(st, m);
    assert Storable(acc, st.sets[k].rules);
    assert Storable(acc, st'.sets[k].rules);
  }

  lemma NewIdApplies(n: Rule, device: Rule, id: nat)
    ensures AppliesTo(n.(id := id), device, false) == AppliesTo(n, device, false)
  {
  }
}
