/** Which policies give every device the same rule before and after a restart. */
module SameLookups {
  import opened Text
  import opened Matching
  import opened Rules
  import opened Grammar
  import opened RoundTrip
  import opened PolicyState
  import opened PolicyLaws
  import opened RuleFile
  import opened Restart

  /** The two results are the same up to the identifier of the rule. */
  predicate SameAnswer(a: Result<Rule>, b: Result<Rule>) {
    && (a.Ok? <==> b.Ok?)
    && (a.Ok? ==> b.value == a.value.(id := b.value.id) && (a.value.id == IMPLICIT_ID <==> b.value.id == IMPLICIT_ID))
  }

  /** The rules differ in their identifiers at most, none of which is the implicit one. */
  predicate SameButIds(rules: seq<Rule>, again: seq<Rule>) {
    && |again| == |rules|
    && forall i :: 0 <= i < |rules| ==>
         again[i] == rules[i].(id := again[i].id) && rules[i].id != IMPLICIT_ID && again[i].id != IMPLICIT_ID
  }

  lemma {:induction false} SameFirst(rules: seq<Rule>, again: seq<Rule>, default: Target, device: Rule, o: Oracle)
    requires SameButIds(rules, again)
    ensures SameAnswer(FirstMatching(rules, default, device, o), FirstMatching(again, default, device, o))
  {
    hide AppliesTo, MeetsConditions;
    if rules != [] {
      assert again[0] == rules[0].(id := again[0].id);
      SameApplies(rules[0], device, again[0].id);
      assert forall i :: 0 <= i < |rules[1..]| ==> rules[1..][i] == rules[i + 1] && again[1..][i] == again[i + 1];
      SameFirst(rules[1..], again[1..], default, device, o);
    }
  }

  lemma SameApplies(r: Rule, device: Rule, id: nat)
    ensures AppliesTo(r.(id := id), device, false) == AppliesTo(r, device, false)
  {
  }

  predicate SameTables(sets: seq<Table>, again: seq<Table>) {
    && |again| == |sets|
    && forall i :: 0 <= i < |sets| ==> again[i].default == sets[i].default && SameButIds(sets[i].rules, again[i].rules)
  }

  lemma {:induction false} SameLookup(sets: seq<Table>, again: seq<Table>, i: nat, device: Rule, o: Oracle)
    requires sets != [] && SameTables(sets, again) && i <= |sets|
    ensures SameAnswer(Lookup(sets, i, device, o), Lookup(again, i, device, o))
    decreases |sets| - i
  {
    hide FirstMatching, SameButIds;
    if i == |sets| {
      SameFirst(sets[0].rules, again[0].rules, sets[0].default, device, o);
    } else {
      SameFirst(sets[i].rules, again[i].rules, sets[i].default, device, o);
      SameLookup(sets, again, i + 1, device, o);
    }
  }

  /** Rules that come back from a file as they are. */
  predicate Unchanged(r: Rule) {
    !IsBlankRule(r) && Normal(r) == r.(id := DEFAULT_ID)
  }

  predicate AllUnchanged(rules: seq<Rule>) {
    forall i :: 0 <= i < |rules| ==> Unchanged(rules[i])
  }

  /**
   * Every lookup survives a restart: if all rules can be stored and come back as they are, every device
   * gets the same rule, or the same error, as before, whatever conditions evaluate to.
   */
  lemma LookupsSurvive(acc: Acceptor, st: State, default: Target, device: Rule, o: Oracle)
    requires Inv(st) && StorableAll(acc, st.sets)
    requires forall i :: 0 <= i < |st.sets| ==> st.sets[i].default == default && AllUnchanged(st.sets[i].rules)
    ensures
      var r := ReloadedPolicy(acc, st.sets, default);
      r.Ok? && SameAnswer(Lookup(st.sets, 0, device, o), Lookup(r.value.sets, 0, device, o))
  {
    hide Inv, StorableAll, AllUnchanged, LoadAll, SaveAll, Lookup, Renumbered, Kept, Offset, SameButIds;
    InvBounds(st);
    FewRules(st);
    PolicyReadBack(acc, st.sets, default, 1);
    var again := ReloadedPolicy(acc, st.sets, default).value.sets;
    forall i | 0 <= i < |st.sets| ensures SameButIds(st.sets[i].rules, again[i].rules) {
      OffsetBound(st.sets, 1, i);
      NoImplicitIds(st, i);
      ComeBack(st.sets[i].rules, Offset(st.sets, 1, i));
    }
    SameLookup(st.sets, again, 0, device, o);
  }

  lemma NoImplicitIds(st: State, i: nat)
    requires Inv(st) && i < |st.sets|
    ensures forall j :: 0 <= j < |st.sets[i].rules| ==> st.sets[i].rules[j].id != IMPLICIT_ID
  {
    forall j | 0 <= j < |st.sets[i].rules| ensures st.sets[i].rules[j].id != IMPLICIT_ID {
      IdIsCounted(st.sets, i, j);
    }
  }

  lemma ComeBack(rules: seq<Rule>, next: nat)
    requires AllUnchanged(rules) && next + |rules| < LAST_ID
    requires forall j :: 0 <= j < |rules| ==> rules[j].id != IMPLICIT_ID
    ensures SameButIds(rules, Renumbered(Kept(rules), next))
  {
    hide Normal, IsBlankRule, Kept;
    assert forall j :: 0 <= j < |rules| ==> Unchanged(rules[j]);
    assert Kept(rules) == rules;
  }

  // ----- Rules that do not come back as they are

  function OneRule(r: Rule, default: Target): (st: State) {
    State([Table([r.(id := 1)], default)], 2)
  }

  lemma OneRuleLookup(r: Rule, default: Target, device: Rule, o: Oracle)
    requires forall k :: k != If ==> Get(r, k) == NO_VALUES
    ensures
      var rule := r.(id := 1);
      Inv(OneRule(r, default)) && Lookup(OneRule(r, default).sets, 0, device, o) ==
        match MeetsConditions(o, r.conditions)
        case Err => Err
        case Ok(met) => Ok(if met then rule else ImplicitRule(default))
  {
    hide MeetsConditions;
    var rule := r.(id := 1);
    assert Ids([rule]) == [1];
    assert AllIds(OneRule(r, default).sets) == multiset{1} + multiset{};
    assert AppliesTo(rule, device, false) by {
      assert Get(r, Id) == Get(r, Serial) == Get(r, WithConnectType) == Get(r, Name) == NO_VALUES;
      assert Get(r, Hash) == Get(r, ParentHash) == Get(r, ViaPort) == Get(r, WithInterface) == NO_VALUES;
    }
    var sets := OneRule(r, default).sets;
    assert [rule][1..] == [] && FirstMatching([rule][1..], default, device, o) == Ok(ImplicitRule(default));
    assert AppliesWithConditions(rule, device, o) == MeetsConditions(o, r.conditions);
    assert Lookup(sets, 1, device, o) == FirstMatching([rule], default, device, o);
  }

  /** An appended comment answers every lookup with the empty target, until a restart drops it. */
  lemma CommentIsDropped(acc: Acceptor, default: Target, device: Rule, o: Oracle)
    ensures
      var st := OneRule(NEW_RULE.(target := Empty), default);
      var r := ReloadedPolicy(acc, st.sets, default);
      && Inv(st) && StorableAll(acc, st.sets)
      && Lookup(st.sets, 0, device, o) == Ok(NEW_RULE.(target := Empty, id := 1))
      && r.Ok? && Lookup(r.value.sets, 0, device, o) == Ok(ImplicitRule(default))
  {
    hide LoadAll, SaveAll, Lookup, MeetsConditions;
    var st := OneRule(NEW_RULE.(target := Empty), default);
    var rule := st.sets[0].rules[0];
    OneRuleLookup(NEW_RULE.(target := Empty), default, device, o);
    NoConditionsAreMet(o);
    assert IsBlankRule(rule) && OneLine(rule) && Storable(acc, st.sets[0].rules);
    FewRules(st);
    PolicyReadBack(acc, st.sets, default, 1);
    assert st.sets[0].rules[1..] == [] && Kept(st.sets[0].rules) == [];
    EmptyLookup(ReloadedPolicy(acc, st.sets, default).value.sets, default, device, o);
  }

  lemma NoConditionsAreMet(o: Oracle)
    ensures MeetsConditions(o, NO_VALUES) == Ok(true)
  {
  }

  lemma EmptyLookup(sets: seq<Table>, default: Target, device: Rule, o: Oracle)
    requires sets == [Table([], default)]
    ensures Lookup(sets, 0, device, o) == Ok(ImplicitRule(default))
  {
  }

  function CounterRule(kind: ConditionKind): (r: Rule) {
    NEW_RULE.(target := Allow, conditions := Attribute(Equals, [Condition(kind, "", false)]))
  }

  /** A rule-evaluated condition has become a rule-applied one, which may evaluate differently. */
  lemma EvaluatedBecomesApplied(acc: Acceptor, default: Target, device: Rule, o: Oracle)
    requires acc(RuleApplied, "")
    requires o(Condition(RuleEvaluated, "", false)) && !o(Condition(RuleApplied, "", false))
    ensures
      var st := OneRule(CounterRule(RuleEvaluated), default);
      var r := ReloadedPolicy(acc, st.sets, default);
      && Inv(st) && StorableAll(acc, st.sets)
      && Lookup(st.sets, 0, device, o) == Ok(CounterRule(RuleEvaluated).(id := 1))
      && r.Ok? && Lookup(r.value.sets, 0, device, o) == Ok(ImplicitRule(default))
  {
    hide LoadAll, SaveAll, Lookup, MeetsConditions, Normal, ReadableRule, IsReloaded;
    var st := OneRule(CounterRule(RuleEvaluated), default);
    CounterRuleIsReadable(acc, 1);
    OneRuleLookup(CounterRule(RuleEvaluated), default, device, o);
    OneRuleLookup(CounterRule(RuleApplied), default, device, o);
    OneConditionIsMet(o, Condition(RuleEvaluated, "", false));
    OneConditionIsMet(o, Condition(RuleApplied, "", false));
    assert Storable(acc, st.sets[0].rules);
    FewRules(st);
    PolicyReadBack(acc, st.sets, default, 1);
    CounterRuleReloaded(ReloadedPolicy(acc, st.sets, default).value, default);
  }

  lemma CounterRuleIsReadable(acc: Acceptor, id: nat)
    requires acc(RuleApplied, "")
    ensures var r := CounterRule(RuleEvaluated).(id := id);
      ReadableRule(acc, r) && OneLine(r) && Normal(r) == CounterRule(RuleApplied)
  {
    hide Normal;
    var r := CounterRule(RuleEvaluated).(id := id);
    forall k ensures NormalAttribute(Get(r, k)) == Get(CounterRule(RuleApplied), k) {
      if k == If {
        assert NormalValues(r.conditions.values) == [Condition(RuleApplied, "", false)];
      }
    }
    RuleEquality(Normal(r), CounterRule(RuleApplied));
  }

  lemma OneConditionIsMet(o: Oracle, c: Value)
    requires c.Condition? && !c.negated
    ensures MeetsConditions(o, Attribute(Equals, [c])) == Ok(o(c))
  {
    ConditionsMeanQuantifiers(o, Attribute(Equals, [c]));
  }

  lemma CounterRuleReloaded(st: State, default: Target)
    requires IsReloaded(st, OneRule(CounterRule(RuleEvaluated), default).sets, default, 1)
    requires Normal(CounterRule(RuleEvaluated).(id := 1)) == CounterRule(RuleApplied)
    ensures st.sets == OneRule(CounterRule(RuleApplied), default).sets
  {
    hide Normal;
    var rules := OneRule(CounterRule(RuleEvaluated), default).sets[0].rules;
    assert Kept(rules) == rules && Offset(OneRule(CounterRule(RuleEvaluated), default).sets, 1, 0) == 1;
    assert st.sets[0].rules == [CounterRule(RuleApplied).(id := 1)];
  }
}
