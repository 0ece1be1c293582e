/**
 * The policy as a value: an ordered list of ordered rule sets and the identifier counter they share
 * (src/Library/public/usbguard/RuleSet.cpp and Policy.cpp).
 */
module PolicyState {
  import opened Text
  import opened Rules

  datatype Table = Table(rules: seq<Rule>, default: Target)

  datatype State = State(sets: seq<Table>, next: nat)

  // ----- Lookup

  function ImplicitRule(target: Target): (r: Rule) {
    NEW_RULE.(id := IMPLICIT_ID, target := target)
  }

  /** RuleSet::getFirstMatchingRule */
  function FirstMatching(rules: seq<Rule>, default: Target, device: Rule, o: Oracle): (r: Result<Rule>) {
    if rules == [] then Ok(ImplicitRule(default))
    else match AppliesWithConditions(rules[0], device, o)
      case Err => Err
      case Ok(true) => Ok(rules[0])
      case Ok(false) => FirstMatching(rules[1..], default, device, o)
  }

  /**
   * Policy::getFirstMatchingRule from rule set `i` on.  A result with the implicit identifier sends the
   * search to the next rule set, and in the end the front rule set is asked once more.
   */
  function Lookup(sets: seq<Table>, i: nat, device: Rule, o: Oracle): (r: Result<Rule>)
    requires sets != []
    decreases |sets| - i
  {
    if i >= |sets| then FirstMatching(sets[0].rules, sets[0].default, device, o)
    else
      var r := FirstMatching(sets[i].rules, sets[i].default, device, o);
      if r.Ok? && r.value.id == IMPLICIT_ID then Lookup(sets, i + 1, device, o) else r
  }

  function Flatten(sets: seq<Table>): (rules: seq<Rule>) {
    if sets == [] then [] else sets[0].rules + Flatten(sets[1..])
  }

  // ----- Identifiers

  /** RuleSet::assignID on the 32-bit counter: the new identifier and the new counter. */
  function Assign(next: nat): (r: Result<(nat, nat)>) {
    var nextId := (next + 1) % UINT32;
    if nextId >= LAST_ID then Err else Ok(((nextId + UINT32 - 1) % UINT32, nextId))
  }

  // ----- Append

  datatype Outcome = Outcome(result: Result<nat>, rules: seq<Rule>, next: nat)

  predicate HasId(rules: seq<Rule>, id: nat) {
    exists i :: 0 <= i < |rules| && rules[i].id == id
  }

  /** The place of the first rule with an identifier. */
  function IndexOf(rules: seq<Rule>, id: nat): (i: nat)
    requires HasId(rules, id)
    ensures i < |rules| && rules[i].id == id && forall j :: 0 <= j < i ==> rules[j].id != id
  {
    if rules[0].id == id then 0
    else
      assert forall j :: 0 < j < |rules| ==> rules[j] == rules[1..][j - 1];
      1 + IndexOf(rules[1..], id)
  }

  function InsertAfter(rules: seq<Rule>, parent: nat, rule: Rule): (r: seq<Rule>)
    requires HasId(rules, parent)
  {
    var i := IndexOf(rules, parent);
    rules[..i + 1] + [rule] + rules[i + 1..]
  }

  /** RuleSet::appendRule; the counter moves even when the parent is not found. */
  function Append(rules: seq<Rule>, next: nat, rule: Rule, parent: nat): (o: Outcome)
    ensures o.result.Err? ==> o.rules == rules
  {
    if rule.id == DEFAULT_ID then
      match Assign(next)
      case Err => Outcome(Err, rules, next)
      case Ok((id, next')) => Place(rules, next', rule.(id := id), parent)
    else
      var after := (rule.id + 1) % UINT32;
      Place(rules, if next < after then after else next, rule, parent)
  }

  /** The insertion of a rule that has its identifier. */
  function Place(rules: seq<Rule>, next: nat, rule: Rule, parent: nat): (o: Outcome)
    ensures o.result.Err? ==> o.rules == rules
  {
    if parent == LAST_ID then Outcome(Ok(rule.id), rules + [rule], next)
    else if parent == 0 then Outcome(Ok(rule.id), [rule] + rules, next)
    else if HasId(rules, parent) then Outcome(Ok(rule.id), InsertAfter(rules, parent, rule), next)
    else Outcome(Err, rules, next)
  }

  // ----- Upsert

  function CountMatches(rules: seq<Rule>, m: Rule, insensitive: bool): (n: nat) {
    if rules == [] then 0
    else (if AppliesTo(rules[0], m, insensitive) then 1 else 0) + CountMatches(rules[1..], m, insensitive)
  }

  lemma {:induction false} CountConcat(a: seq<Rule>, b: seq<Rule>, m: Rule, insensitive: bool)
    ensures CountMatches(a + b, m, insensitive) == CountMatches(a, m, insensitive) + CountMatches(b, m, insensitive)
  {
    if a == [] {
      assert a + b == b;
    } else {
      CountConcat(a[1..], b, m, insensitive);
      assert (a + b)[0] == a[0] && (a + b)[1..] == a[1..] + b;
    }
  }

  lemma {:induction false} CountZero(rules: seq<Rule>, m: Rule, insensitive: bool)
    ensures CountMatches(rules, m, insensitive) == 0 <==>
      forall i :: 0 <= i < |rules| ==> !AppliesTo(rules[i], m, insensitive)
  {
    if rules != [] {
      CountZero(rules[1..], m, insensitive);
      assert forall i :: 0 < i < |rules| ==> rules[i] == rules[1..][i - 1];
    }
  }

  /** The place of the first rule that applies. */
  function MatchIndex(rules: seq<Rule>, m: Rule, insensitive: bool): (i: nat)
    requires CountMatches(rules, m, insensitive) > 0
    ensures i < |rules| && AppliesTo(rules[i], m, insensitive)
    ensures forall j :: 0 <= j < i ==> !AppliesTo(rules[j], m, insensitive)
  {
    if AppliesTo(rules[0], m, insensitive) then 0
    else
      var i := MatchIndex(rules[1..], m, insensitive);
      assert forall j :: 0 < j < i + 1 ==> rules[j] == rules[1..][j - 1];
      i + 1
  }

  /** With a single match every other rule fails to apply. */
  lemma OnlyMatch(rules: seq<Rule>, m: Rule, insensitive: bool, j: nat)
    requires CountMatches(rules, m, insensitive) == 1
    requires j < |rules| && j != MatchIndex(rules, m, insensitive)
    ensures !AppliesTo(rules[j], m, insensitive)
  {
    hide AppliesTo, MatchIndex;
    var i := MatchIndex(rules, m, insensitive);
    assert rules == rules[..i] + ([rules[i]] + rules[i + 1..]);
    CountConcat(rules[..i], [rules[i]] + rules[i + 1..], m, insensitive);
    CountConcat([rules[i]], rules[i + 1..], m, insensitive);
    assert CountMatches([rules[i]], m, insensitive) == 1;
    CountZero(rules[i + 1..], m, insensitive);
    if j > i {
      assert rules[j] == rules[i + 1..][j - i - 1];
    }
  }

  /** RuleSet::upsertRule: the single matching rule is overwritten under its identifier. */
  function Upsert(rules: seq<Rule>, m: Rule, new_: Rule, insensitive: bool): (r: Result<(nat, seq<Rule>)>) {
    var n := CountMatches(rules, m, insensitive);
    if n > 1 then Err
    else if n == 0 then Ok((DEFAULT_ID, rules))
    else
      var i := MatchIndex(rules, m, insensitive);
      Ok((rules[i].id, rules[i := new_.(id := rules[i].id)]))
  }

  /** An append at the end of the last rule set. */
  function AppendToBack(st: State, rule: Rule): (r: (Result<nat>, State))
    requires st.sets != []
    ensures |r.1.sets| == |st.sets|
  {
    var back := |st.sets| - 1;
    var o := Append(st.sets[back].rules, st.next, rule, LAST_ID);
    (o.result, State(st.sets[back := st.sets[back].(rules := o.rules)], o.next))
  }

  /** Policy::upsertRule from rule set `i` on. */
  function PolicyUpsert(st: State, i: nat, m: Rule, new_: Rule, insensitive: bool): (r: (Result<nat>, State))
    ensures |r.1.sets| == |st.sets|
    decreases |st.sets| - i
  {
    if st.sets == [] then (Err, st)
    else if i >= |st.sets| then AppendToBack(st, new_)
    else match Upsert(st.sets[i].rules, m, new_, insensitive)
      case Err => (Err, st)
      case Ok((id, rules)) =>
        var st' := st.(sets := st.sets[i := st.sets[i].(rules := rules)]);
        if id == DEFAULT_ID then PolicyUpsert(st', i + 1, m, new_, insensitive) else (Ok(id), st')
  }

  /** The part of Policy::appendRule that numbers a rule without an identifier. */
  function Numbered(next: nat, rule: Rule): (r: Result<(Rule, nat)>) {
    if rule.id != DEFAULT_ID then Ok((rule, next))
    else match Assign(next)
      case Err => Err
      case Ok((id, next')) => Ok((rule.(id := id), next'))
  }

  /** Policy::appendRule after a parent, from rule set `i` on; an exception sends it to the next rule set. */
  function AppendAfter(st: State, i: nat, rule: Rule, parent: nat): (r: (Result<nat>, State))
    ensures |r.1.sets| == |st.sets|
    decreases |st.sets| - i
  {
    if i >= |st.sets| then (Err, st)
    else if !HasId(st.sets[i].rules, parent) then AppendAfter(st, i + 1, rule, parent)
    else match Numbered(st.next, rule)
      case Err => AppendAfter(st, i + 1, rule, parent)
      case Ok((rule', next)) =>
        var o := Append(st.sets[i].rules, next, rule', parent);
        if o.result.Err? then AppendAfter(st.(next := o.next), i + 1, rule', parent)
        else (o.result, State(st.sets[i := st.sets[i].(rules := o.rules)], o.next))
  }

  /** Policy::appendRule */
  function PolicyAppend(st: State, rule: Rule, parent: nat): (r: (Result<nat>, State))
    requires st.sets != []
    ensures |r.1.sets| == |st.sets|
  {
    if parent != LAST_ID then AppendAfter(st, 0, rule, parent)
    else match Numbered(st.next, rule)
      case Err => (Err, st)
      case Ok((rule', next)) => AppendToBack(st.(next := next), rule')
  }

  /** Policy::getRule from rule set `i` on: the first rule set with the identifier answers. */
  function RuleById(sets: seq<Table>, i: nat, id: nat): (r: Result<Rule>)
    decreases |sets| - i
  {
    if i >= |sets| then Err
    else if HasId(sets[i].rules, id) then Ok(sets[i].rules[IndexOf(sets[i].rules, id)])
    else RuleById(sets, i + 1, id)
  }

  // ----- Remove

  function WithoutFirst(rules: seq<Rule>, id: nat): (r: seq<Rule>)
    requires HasId(rules, id)
  {
    var i := IndexOf(rules, id);
    rules[..i] + rules[i + 1..]
  }

  /** Policy::removeRule from rule set `i` on. */
  function PolicyRemove(st: State, i: nat, id: nat): (r: (Result<nat>, State))
    ensures |r.1.sets| == |st.sets|
    decreases |st.sets| - i
  {
    if i >= |st.sets| then (Err, st)
    else if HasId(st.sets[i].rules, id) then
      (Ok(id), st.(sets := st.sets[i := st.sets[i].(rules := WithoutFirst(st.sets[i].rules, id))]))
    else PolicyRemove(st, i + 1, id)
  }
}
