/** The effect of replacing or adding the rule for one device. */
module Decisions {
  import opened Text
  import opened Matching
  import opened Rules
  import opened PolicyState
  import opened PolicyLaws

  /** Two rules that describe the same device, perhaps at another port or parent. */
  predicate SameIdentity(m: Rule, device: Rule) {
    && m.deviceId == device.deviceId && m.serial == device.serial && m.name == device.name
    && m.hash == device.hash && m.withInterface == device.withInterface
    && m.withConnectType == device.withConnectType
  }

  /** Every rule that can match the device is counted by the parent-insensitive scan. */
  lemma RivalsAreCounted(r: Rule, device: Rule, m: Rule)
    requires SameIdentity(m, device) && AppliesTo(r, device, false)
    ensures AppliesTo(r, m, true)
  {
  }

  /** A rule without conditions that matches a device is met by every lookup that reaches it. */
  lemma UnconditionalIsMet(n: Rule, device: Rule, o: Oracle)
    requires AppliesTo(n, device, false) && n.conditions == NO_VALUES
    ensures AppliesWithConditions(n, device, o) == Ok(true)
  {
    ConditionsMeanQuantifiers(o, n.conditions);
  }

  lemma {:induction false} FirstHit(rules: seq<Rule>, i: nat, d: Target, device: Rule, o: Oracle)
    requires i < |rules| && AppliesWithConditions(rules[i], device, o) == Ok(true)
    requires forall j :: 0 <= j < i ==> !AppliesTo(rules[j], device, false)
    ensures FirstMatching(rules, d, device, o) == Ok(rules[i])
  {
    if i > 0 {
      assert AppliesWithConditions(rules[0], device, o) == Ok(false);
      FirstHit(rules[1..], i - 1, d, device, o);
    }
  }

  lemma {:induction false} NoHit(rules: seq<Rule>, d: Target, device: Rule, o: Oracle)
    requires forall j :: 0 <= j < |rules| ==> !AppliesTo(rules[j], device, false)
    ensures FirstMatching(rules, d, device, o) == Ok(ImplicitRule(d))
  {
    if rules != [] {
      assert AppliesWithConditions(rules[0], device, o) == Ok(false);
      NoHit(rules[1..], d, device, o);
    }
  }

  /** A rule set in which the scan finds nothing cannot answer a lookup of the device. */
  lemma UncountedIsSkipped(rules: seq<Rule>, d: Target, m: Rule, device: Rule, o: Oracle)
    requires SameIdentity(m, device) && CountMatches(rules, m, true) == 0
    ensures FirstMatching(rules, d, device, o) == Ok(ImplicitRule(d))
  {
    CountZero(rules, m, true);
    forall j | 0 <= j < |rules| ensures !AppliesTo(rules[j], device, false) {
      if AppliesTo(rules[j], device, false) {
        RivalsAreCounted(rules[j], device, m);
      }
    }
    NoHit(rules, d, device, o);
  }

  lemma ReplacedIsFirst(rules: seq<Rule>, m: Rule, n: Rule, d: Target, device: Rule, o: Oracle)
    requires SameIdentity(m, device) && CountMatches(rules, m, true) == 1
    requires AppliesTo(n, device, false) && n.conditions == NO_VALUES
    ensures
      var (id, rules') := Upsert(rules, m, n, true).value;
      FirstMatching(rules', d, device, o) == Ok(n.(id := id))
  {
    var i := MatchIndex(rules, m, true);
    var rules' := Upsert(rules, m, n, true).value.1;
    forall j | 0 <= j < i ensures !AppliesTo(rules'[j], device, false) {
      if AppliesTo(rules[j], device, false) {
        RivalsAreCounted(rules[j], device, m);
      }
    }
    UnconditionalIsMet(rules'[i], device, o);
    FirstHit(rules', i, d, device, o);
  }

  lemma AppendedIsFirst(rules: seq<Rule>, m: Rule, n: Rule, d: Target, device: Rule, o: Oracle)
    requires SameIdentity(m, device) && CountMatches(rules, m, true) == 0
    requires AppliesTo(n, device, false) && n.conditions == NO_VALUES
    ensures FirstMatching(rules + [n], d, device, o) == Ok(n)
  {
    CountZero(rules, m, true);
    forall j | 0 <= j < |rules| ensures !AppliesTo((rules + [n])[j], device, false) {
      if AppliesTo(rules[j], device, false) {
        RivalsAreCounted(rules[j], device, m);
      }
    }
    UnconditionalIsMet(n, device, o);
    FirstHit(rules + [n], |rules|, d, device, o);
  }

  /** No rule set from `i` up to `k` can answer, so the search moves on to `k`. */
  lemma {:induction false} LookupSkips(sets: seq<Table>, i: nat, k: nat, device: Rule, o: Oracle)
    requires i <= k < |sets|
    requires forall j :: i <= j < k ==>
      FirstMatching(sets[j].rules, sets[j].default, device, o) == Ok(ImplicitRule(sets[j].default))
    ensures Lookup(sets, i, device, o) == Lookup(sets, k, device, o)
    decreases k - i
  {
    if i < k {
      LookupSkips(sets, i + 1, k, device, o);
    }
  }

  /** The scan from rule set `i` on found nothing in front of `i`. */
  predicate NothingBefore(sets: seq<Table>, i: nat, m: Rule) {
    forall j :: 0 <= j < i && j < |sets| ==> CountMatches(sets[j].rules, m, true) == 0
  }

  lemma {:induction false} UpsertFrom(st: State, i: nat, m: Rule, n: Rule, device: Rule, o: Oracle)
    requires Inv(st) && i <= |st.sets| && n.id == DEFAULT_ID && NothingBefore(st.sets, i, m)
    requires SameIdentity(m, device) && AppliesTo(n, device, false) && n.conditions == NO_VALUES
    requires PolicyUpsert(st, i, m, n, true).0.Ok?
    ensures var (r, st') := PolicyUpsert(st, i, m, n, true); Lookup(st'.sets, 0, device, o) == Ok(n.(id := r.value))
    decreases |st.sets| - i
  {
    hide Inv;
    var (r, st') := PolicyUpsert(st, i, m, n, true);
    if i == |st.sets| {
      var back := i - 1;
      AppendIdFact(st, n);
      AppendedIsFirst(st.sets[back].rules, m, n.(id := st.next), st.sets[back].default, device, o);
      LookupAt(st', back, m, device, o);
    } else {
      NoMatchNoChange(st, i, m, n, true);
      if CountMatches(st.sets[i].rules, m, true) == 0 {
        UpsertFrom(st, i + 1, m, n, device, o);
      } else {
        NoReservedIds(st);
        ReplacedIsFirst(st.sets[i].rules, m, n, st.sets[i].default, device, o);
        LookupAt(st', i, m, device, o);
      }
    }
  }

  lemma AppendIdFact(st: State, n: Rule)
    requires Inv(st) && n.id == DEFAULT_ID
    ensures var back := |st.sets| - 1;
      var o := Append(st.sets[back].rules, st.next, n, LAST_ID);
      o.result.Ok? ==>
        o.result == Ok(st.next) && o.rules == st.sets[back].rules + [n.(id := st.next)] && st.next < LAST_ID
  {
    AssignValue(st.next);
  }

  /** The lookup answers with what rule set `k` says when nothing in front of it was counted. */
  lemma LookupAt(st: State, k: nat, m: Rule, device: Rule, o: Oracle)
    requires k < |st.sets| && SameIdentity(m, device) && NothingBefore(st.sets, k, m)
    ensures
      var r := FirstMatching(st.sets[k].rules, st.sets[k].default, device, o);
      r.Ok? && r.value.id != IMPLICIT_ID ==> Lookup(st.sets, 0, device, o) == r
  {
    forall j | 0 <= j < k
      ensures FirstMatching(st.sets[j].rules, st.sets[j].default, device, o) == Ok(ImplicitRule(st.sets[j].default))
    {
      UncountedIsSkipped(st.sets[j].rules, st.sets[j].default, m, device, o);
    }
    LookupSkips(st.sets, 0, k, device, o);
  }

  /**
   * After a successful upsert the new rule answers every lookup of the device, whatever the other
   * rules of the policy are and whatever their conditions evaluate to.
   */
  lemma UpsertTakesEffect(st: State, m: Rule, n: Rule, device: Rule, o: Oracle)
    requires Inv(st) && n.id == DEFAULT_ID && PolicyUpsert(st, 0, m, n, true).0.Ok?
    requires SameIdentity(m, device) && AppliesTo(n, device, false) && n.conditions == NO_VALUES
    ensures var (r, st') := PolicyUpsert(st, 0, m, n, true); Lookup(st'.sets, 0, device, o) == Ok(n.(id := r.value))
  {
    UpsertFrom(st, 0, m, n, device, o);
  }

  // ----- Repeated decisions

  /** `st` with rule `j` of set `k` overwritten under its identifier. */
  function Overwritten(st: State, k: nat, j: nat, n: Rule): (r: State)
    requires k < |st.sets| && j < |st.sets[k].rules|
  {
    var rules := st.sets[k].rules;
    st.(sets := st.sets[k := st.sets[k].(rules := rules[j := n.(id := rules[j].id)])])
  }

  /** `st` with a new last rule. */
  function Extended(st: State, n: Rule): (r: State)
    requires st.sets != []
  {
    var back := |st.sets| - 1;
    State(st.sets[back := st.sets[back].(rules := st.sets[back].rules + [n.(id := st.next)])], st.next + 1)
  }

  /** The rule set in which the scan ends, or the number of rule sets if it finds nothing. */
  function ScanEnd(sets: seq<Table>, i: nat, m: Rule): (k: nat)
    requires i <= |sets|
    ensures i <= k <= |sets| && (k < |sets| ==> CountMatches(sets[k].rules, m, true) > 0)
    ensures forall j :: i <= j < k ==> CountMatches(sets[j].rules, m, true) == 0
    decreases |sets| - i
  {
    if i < |sets| && CountMatches(sets[i].rules, m, true) == 0 then ScanEnd(sets, i + 1, m) else i
  }

  /** The three outcomes of an upsert. */
  lemma {:induction false} UpsertCases(st: State, i: nat, m: Rule, n: Rule)
    requires Inv(st) && n.id == DEFAULT_ID && i <= |st.sets|
    ensures
      var k := ScanEnd(st.sets, i, m);
      PolicyUpsert(st, i, m, n, true) ==
        if k == |st.sets| then (if st.next + 1 < LAST_ID then (Ok(st.next), Extended(st, n)) else (Err, st))
        else if CountMatches(st.sets[k].rules, m, true) > 1 then (Err, st)
        else
          var j := MatchIndex(st.sets[k].rules, m, true);
          (Ok(st.sets[k].rules[j].id), Overwritten(st, k, j, n))
    decreases |st.sets| - i
  {
    hide Inv;
    if i == |st.sets| {
      var back := i - 1;
      InvBounds(st);
      AssignValue(st.next);
      assert st.sets[back := st.sets[back].(rules := st.sets[back].rules)] == st.sets;
    } else {
      if Upsert(st.sets[i].rules, m, n, true).Ok? {
        NoMatchNoChange(st, i, m, n, true);
      }
      if CountMatches(st.sets[i].rules, m, true) == 0 {
        UpsertCases(st, i + 1, m, n);
      }
    }
  }

  /** An upsert works if the scan ends with one match, or with none while there are identifiers left. */
  predicate UpsertWorks(st: State, m: Rule) {
    var k := ScanEnd(st.sets, 0, m);
    if k == |st.sets| then st.next + 1 < LAST_ID else CountMatches(st.sets[k].rules, m, true) == 1
  }

  lemma ScanEndIs(sets: seq<Table>, i: nat, k: nat, m: Rule)
    requires i <= k < |sets| && CountMatches(sets[k].rules, m, true) > 0
    requires forall j :: i <= j < k ==> CountMatches(sets[j].rules, m, true) == 0
    ensures ScanEnd(sets, i, m) == k
  {
  }

  /** Overwriting the matching rule by one that the scan counts as well leaves a single match in its place. */
  lemma StillOnlyMatch(rules: seq<Rule>, m: Rule, n: Rule)
    requires CountMatches(rules, m, true) == 1 && AppliesTo(n, m, true)
    ensures var i := MatchIndex(rules, m, true); var rules' := rules[i := n];
      CountMatches(rules', m, true) == 1 && MatchIndex(rules', m, true) == i
  {
    hide AppliesTo;
    var i := MatchIndex(rules, m, true);
    var rules' := rules[i := n];
    assert rules == rules[..i] + ([rules[i]] + rules[i + 1..]);
    assert rules' == rules[..i] + ([n] + rules[i + 1..]);
    CountConcat(rules[..i], [rules[i]] + rules[i + 1..], m, true);
    CountConcat([rules[i]], rules[i + 1..], m, true);
    CountConcat(rules[..i], [n] + rules[i + 1..], m, true);
    CountConcat([n], rules[i + 1..], m, true);
    assert CountMatches([rules[i]], m, true) == 1 == CountMatches([n], m, true);
    MatchIndexIs(rules', m, i);
  }

  lemma MatchIndexIs(rules: seq<Rule>, m: Rule, i: nat)
    requires i < |rules| && AppliesTo(rules[i], m, true) && CountMatches(rules, m, true) > 0
    requires forall j :: 0 <= j < i ==> !AppliesTo(rules[j], m, true)
    ensures MatchIndex(rules, m, true) == i
  {
    assert !(MatchIndex(rules, m, true) < i);
  }

  lemma AppendedIsOnlyMatch(rules: seq<Rule>, m: Rule, n: Rule)
    requires CountMatches(rules, m, true) == 0 && AppliesTo(n, m, true)
    ensures CountMatches(rules + [n], m, true) == 1 && MatchIndex(rules + [n], m, true) == |rules|
  {
    CountConcat(rules, [n], m, true);
    assert CountMatches([n], m, true) == 1;
    CountZero(rules, m, true);
    assert forall j :: 0 <= j < |rules| ==> (rules + [n])[j] == rules[j];
  }

  /** Deciding twice about a device is the same as making only the second decision. */
  lemma DecisionsOverwrite(st: State, m: Rule, n: Rule, n': Rule)
    requires Inv(st) && n.id == DEFAULT_ID && n'.id == DEFAULT_ID && AppliesTo(n, m, true)
    requires PolicyUpsert(st, 0, m, n, true).0.Ok?
    ensures PolicyUpsert(PolicyUpsert(st, 0, m, n, true).1, 0, m, n', true) == PolicyUpsert(st, 0, m, n', true)
    ensures PolicyUpsert(st, 0, m, n', true).0 == PolicyUpsert(st, 0, m, n, true).0
  {
    hide Inv, AppliesTo, PolicyUpsert;
    InvBounds(st);
    var k := ScanEnd(st.sets, 0, m);
    var st1 := PolicyUpsert(st, 0, m, n, true).1;
    assert Inv(st1) by { GoodUpsertFact(st, m, n); }
    UpsertCases(st, 0, m, n);
    UpsertCases(st, 0, m, n');
    UpsertCases(st1, 0, m, n');
    if k == |st.sets| {
      SecondAfterAppend(st, m, n, n');
    } else {
      SecondAfterReplace(st, k, m, n, n');
    }
  }

  lemma GoodUpsertFact(st: State, m: Rule, n: Rule)
    requires Inv(st) && n.id == DEFAULT_ID
    ensures Inv(PolicyUpsert(st, 0, m, n, true).1)
  {
    GoodUpsert(st, 0, m, n, true);
  }

  lemma SecondAfterReplace(st: State, k: nat, m: Rule, n: Rule, n': Rule)
    requires k < |st.sets| && CountMatches(st.sets[k].rules, m, true) == 1 && AppliesTo(n, m, true)
    requires NothingBefore(st.sets, k, m)
    ensures
      var j := MatchIndex(st.sets[k].rules, m, true);
      var st1 := Overwritten(st, k, j, n);
      && ScanEnd(st1.sets, 0, m) == k && CountMatches(st1.sets[k].rules, m, true) == 1
      && MatchIndex(st1.sets[k].rules, m, true) == j && Overwritten(st1, k, j, n') == Overwritten(st, k, j, n')
      && st1.sets[k].rules[j].id == st.sets[k].rules[j].id
  {
    var rules := st.sets[k].rules;
    var j := MatchIndex(rules, m, true);
    var st1 := Overwritten(st, k, j, n);
    StillOnlyMatch(rules, m, n.(id := rules[j].id));
    ScanEndIs(st1.sets, 0, k, m);
    var x, y := n.(id := rules[j].id), n'.(id := rules[j].id);
    assert rules[j := x][j := y] == rules[j := y];
    assert Overwritten(st1, k, j, n').sets == Overwritten(st, k, j, n').sets;
  }

  lemma SecondAfterAppend(st: State, m: Rule, n: Rule, n': Rule)
    requires st.sets != [] && AppliesTo(n, m, true) && NothingBefore(st.sets, |st.sets|, m)
    ensures
      var back, st1 := |st.sets| - 1, Extended(st, n);
      var j := |st.sets[back].rules|;
      && ScanEnd(st1.sets, 0, m) == back && CountMatches(st1.sets[back].rules, m, true) == 1
      && MatchIndex(st1.sets[back].rules, m, true) == j && Overwritten(st1, back, j, n') == Extended(st, n')
      && st1.sets[back].rules[j].id == st.next
  {
    var back, st1 := |st.sets| - 1, Extended(st, n);
    AppendedIsOnlyMatch(st.sets[back].rules, m, n.(id := st.next));
    ScanEndIs(st1.sets, 0, back, m);
    var j := |st.sets[back].rules|;
    assert (st.sets[back].rules + [n.(id := st.next)])[j := n'.(id := st.next)]
      == st.sets[back].rules + [n'.(id := st.next)];
    assert Overwritten(st1, back, j, n').sets == Extended(st, n').sets;
  }

  function DecideAll(st: State, m: Rule, ns: seq<Rule>): (r: State)
    decreases |ns|
  {
    if ns == [] then st else DecideAll(PolicyUpsert(st, 0, m, ns[0], true).1, m, ns[1..])
  }

  /**
   * Over any sequence of decisions about one device of which the first succeeds, the policy ends as if
   * only the last had been made, and that decision has the identifier of the first.
   */
  lemma {:induction false} LastDecisionWins(st: State, m: Rule, ns: seq<Rule>)
    requires Inv(st) && ns != [] && forall i :: 0 <= i < |ns| ==> ns[i].id == DEFAULT_ID && AppliesTo(ns[i], m, true)
    requires PolicyUpsert(st, 0, m, ns[0], true).0.Ok?
    ensures DecideAll(st, m, ns) == PolicyUpsert(st, 0, m, ns[|ns| - 1], true).1
    ensures PolicyUpsert(st, 0, m, ns[|ns| - 1], true).0 == PolicyUpsert(st, 0, m, ns[0], true).0
    decreases |ns|
  {
    hide Inv, AppliesTo, PolicyUpsert;
    var st1 := PolicyUpsert(st, 0, m, ns[0], true).1;
    if |ns| == 1 {
      assert DecideAll(st1, m, ns[1..]) == st1;
    } else {
      GoodUpsertFact(st, m, ns[0]);
      DecisionsOverwrite(st, m, ns[0], ns[1]);
      LastDecisionWins(st1, m, ns[1..]);
      DecisionsOverwrite(st, m, ns[0], ns[|ns| - 1]);
    }
  }
}
