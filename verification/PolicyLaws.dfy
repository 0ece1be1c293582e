/** What lookups, appends, removals and upserts guarantee over whole runs. */
module PolicyLaws {
  import opened Text
  import opened Rules
  import opened PolicyState

  // ----- The identifiers in a policy

  function Ids(rules: seq<Rule>): (ids: seq<nat>)
    ensures |ids| == |rules| && forall i :: 0 <= i < |rules| ==> ids[i] == rules[i].id
  {
    seq(|rules|, i requires 0 <= i < |rules| => rules[i].id)
  }

  function AllIds(sets: seq<Table>): (ids: multiset<nat>) {
    if sets == [] then multiset{} else multiset(Ids(sets[0].rules)) + AllIds(sets[1..])
  }

  /** The invariant of a policy: identifiers are unique, at least 1 and below the counter. */
  ghost predicate Inv(st: State) {
    && st.sets != []
    && 1 <= st.next < LAST_ID
    && forall id :: id in AllIds(st.sets) ==> AllIds(st.sets)[id] == 1 && 1 <= id < st.next
  }

  lemma {:induction false} IdIsCounted(sets: seq<Table>, i: nat, j: nat)
    requires i < |sets| && j < |sets[i].rules|
    ensures sets[i].rules[j].id in AllIds(sets)
  {
    if i == 0 {
      assert Ids(sets[0].rules)[j] in multiset(Ids(sets[0].rules));
    } else {
      IdIsCounted(sets[1..], i - 1, j);
    }
  }

  /** Changing one rule set changes the identifiers by what changed in it. */
  lemma {:induction false} AllIdsUpdate(sets: seq<Table>, i: nat, t: Table)
    requires i < |sets|
    ensures multiset(Ids(sets[i].rules)) <= AllIds(sets)
    ensures AllIds(sets[i := t]) == AllIds(sets) - multiset(Ids(sets[i].rules)) + multiset(Ids(t.rules))
  {
    hide Ids;
    if i == 0 {
      assert sets[i := t][1..] == sets[1..];
    } else {
      AllIdsUpdate(sets[1..], i - 1, t);
      assert sets[i := t][1..] == sets[1..][i - 1 := t];
    }
  }

  lemma NoReservedIds(st: State)
    requires Inv(st)
    ensures forall i, j :: 0 <= i < |st.sets| && 0 <= j < |st.sets[i].rules| ==> st.sets[i].rules[j].id < LAST_ID
  {
    forall i, j | 0 <= i < |st.sets| && 0 <= j < |st.sets[i].rules| ensures st.sets[i].rules[j].id < LAST_ID {
      IdIsCounted(st.sets, i, j);
    }
  }

  lemma RepeatedId(ids: seq<nat>, i: nat, j: nat)
    requires i < j < |ids| && ids[i] == ids[j]
    ensures multiset(ids)[ids[i]] >= 2
  {
    assert ids == ids[..j] + ids[j..];
    assert ids[..j][i] in multiset(ids[..j]) && ids[j..][0] in multiset(ids[j..]);
  }

  /** The identifiers of one rule set are among all identifiers. */
  lemma {:induction false} SetIsCounted(sets: seq<Table>, i: nat, id: nat)
    requires i < |sets|
    ensures multiset(Ids(sets[i].rules))[id] <= AllIds(sets)[id]
  {
    if i > 0 {
      SetIsCounted(sets[1..], i - 1, id);
    }
  }

  lemma {:induction false} TwoSetsAreCounted(sets: seq<Table>, i: nat, j: nat, id: nat)
    requires i < j < |sets|
    ensures multiset(Ids(sets[i].rules))[id] + multiset(Ids(sets[j].rules))[id] <= AllIds(sets)[id]
  {
    if i > 0 {
      TwoSetsAreCounted(sets[1..], i - 1, j - 1, id);
    } else {
      SetIsCounted(sets[1..], j - 1, id);
    }
  }

  lemma {:induction false} RuleByIdFrom(st: State, i: nat, k: nat, p: nat)
    requires Inv(st) && i <= k < |st.sets| && p < |st.sets[k].rules|
    ensures RuleById(st.sets, i, st.sets[k].rules[p].id) == Ok(st.sets[k].rules[p])
    decreases k - i
  {
    var id := st.sets[k].rules[p].id;
    var rules := st.sets[i].rules;
    IdIsCounted(st.sets, k, p);
    assert Ids(st.sets[k].rules)[p] in multiset(Ids(st.sets[k].rules));
    if HasId(rules, id) {
      var q := IndexOf(rules, id);
      assert Ids(rules)[q] in multiset(Ids(rules));
      if i < k {
        TwoSetsAreCounted(st.sets, i, k, id);
      } else if q < p {
        RepeatedId(Ids(rules), q, p);
        SetIsCounted(st.sets, k, id);
      }
    } else {
      RuleByIdFrom(st, i + 1, k, p);
    }
  }

  /** Identifiers are unique, so a rule is found by its own. */
  lemma RuleIsFoundById(st: State, k: nat, p: nat)
    requires Inv(st) && k < |st.sets| && p < |st.sets[k].rules|
    ensures RuleById(st.sets, 0, st.sets[k].rules[p].id) == Ok(st.sets[k].rules[p])
  {
    RuleByIdFrom(st, 0, k, p);
  }

  // ----- The answer of one rule set

  /**
   * The first rule that is met answers, an error in front of it ends the search, and if no rule is met
   * the answer is the default target under the implicit identifier.
   */
  lemma {:induction false} FirstMatchingIs(rules: seq<Rule>, i: nat, d: Target, device: Rule, o: Oracle)
    requires i <= |rules| && forall j :: 0 <= j < i ==> AppliesWithConditions(rules[j], device, o) == Ok(false)
    requires i < |rules| ==> AppliesWithConditions(rules[i], device, o) != Ok(false)
    ensures FirstMatching(rules, d, device, o) ==
      if i == |rules| then Ok(NEW_RULE.(id := IMPLICIT_ID, target := d))
      else if AppliesWithConditions(rules[i], device, o).Err? then Err
      else Ok(rules[i])
  {
    hide AppliesWithConditions;
    if i > 0 {
      assert forall j :: 0 <= j < |rules[1..]| ==> rules[1..][j] == rules[j + 1];
      FirstMatchingIs(rules[1..], i - 1, d, device, o);
    }
  }

  // ----- Nested lookup is flat first match

  predicate NoneImplicit(rules: seq<Rule>) {
    forall i :: 0 <= i < |rules| ==> rules[i].id != IMPLICIT_ID
  }

  /** A result with the implicit identifier means that no rule of the set was met. */
  lemma {:induction false} SentinelIsSound(rules: seq<Rule>, more: seq<Rule>, d: Target, d': Target, device: Rule,
                                           o: Oracle)
    requires NoneImplicit(rules)
    ensures var r := FirstMatching(rules, d, device, o);
      if r.Ok? && r.value.id == IMPLICIT_ID
      then r.value == ImplicitRule(d)
        && FirstMatching(rules + more, d', device, o) == FirstMatching(more, d', device, o)
      else FirstMatching(rules + more, d', device, o) == r
  {
    hide AppliesWithConditions;
    if rules == [] {
      assert rules + more == more;
    } else {
      SentinelIsSound(rules[1..], more, d, d', device, o);
      assert (rules + more)[0] == rules[0] && (rules + more)[1..] == rules[1..] + more;
    }
  }

  /** The search from rule set `i` on, when nothing in front of it was met. */
  lemma {:induction false} LookupFrom(sets: seq<Table>, i: nat, device: Rule, o: Oracle)
    requires sets != [] && i <= |sets|
    requires forall j :: 0 <= j < |sets| ==> NoneImplicit(sets[j].rules)
    requires i > 0 ==> FirstMatching(sets[0].rules, sets[0].default, device, o) == Ok(ImplicitRule(sets[0].default))
    ensures Lookup(sets, i, device, o) == FirstMatching(Flatten(sets[i..]), sets[0].default, device, o)
    decreases |sets| - i
  {
    if i < |sets| {
      SentinelIsSound(sets[i].rules, Flatten(sets[i..][1..]), sets[i].default, sets[0].default, device, o);
      assert sets[i..][1..] == sets[i + 1..];
      var r := FirstMatching(sets[i].rules, sets[i].default, device, o);
      if r.Ok? && r.value.id == IMPLICIT_ID {
        LookupFrom(sets, i + 1, device, o);
      }
    }
  }

  /** Policy::getFirstMatchingRule is the first match in all rules in order, or else the front default. */
  lemma LookupIsFlat(st: State, device: Rule, o: Oracle)
    requires Inv(st)
    ensures Lookup(st.sets, 0, device, o) == FirstMatching(Flatten(st.sets), st.sets[0].default, device, o)
  {
    NoReservedIds(st);
    LookupFrom(st.sets, 0, device, o);
    assert st.sets[0..] == st.sets;
  }

  // ----- Identifier allocation over runs

  datatype Op =
    | AppendOp(rule: Rule, parent: nat)
    | UpsertOp(m: Rule, new_: Rule, insensitive: bool)
    | RemoveOp(id: nat)
    | DeviceIdOp

  /** Rules that come from a text carry no identifier. */
  predicate Unnumbered(op: Op) {
    match op
    case AppendOp(rule, _) => rule.id == DEFAULT_ID
    case UpsertOp(_, n, _) => n.id == DEFAULT_ID
    case _ => true
  }

  function Step(st: State, op: Op): (r: (Result<nat>, State))
    requires st.sets != []
    ensures |r.1.sets| == |st.sets|
  {
    match op
    case AppendOp(rule, parent) => PolicyAppend(st, rule, parent)
    case UpsertOp(m, n, insensitive) => PolicyUpsert(st, 0, m, n, insensitive)
    case RemoveOp(id) => PolicyRemove(st, 0, id)
    case DeviceIdOp =>
      match Assign(st.next)
      case Err => (Err, st)
      case Ok((id, next)) => (Ok(id), st.(next := next))
  }

  /** One step keeps the invariant, and if it moves the counter then it hands out the old counter value. */
  ghost predicate GoodStep(st: State, r: (Result<nat>, State)) {
    && Inv(r.1)
    && (r.1.next == st.next || (r.1.next == st.next + 1 && r.0 == Ok(st.next)))
    && (r.0.Err? ==> r.1 == st)
  }

  lemma AssignValue(next: nat)
    requires 1 <= next < LAST_ID
    ensures Assign(next) == if next + 1 < LAST_ID then Ok((next, next + 1)) else Err
  {
  }

  lemma IdsConcat(a: seq<Rule>, b: seq<Rule>)
    ensures multiset(Ids(a + b)) == multiset(Ids(a)) + multiset(Ids(b))
  {
    assert Ids(a + b) == Ids(a) + Ids(b);
  }

  lemma AppendIds(rules: seq<Rule>, next: nat, rule: Rule, parent: nat)
    requires rule.id == DEFAULT_ID && 1 <= next < LAST_ID
    requires parent == LAST_ID || HasId(rules, parent)
    ensures var o := Append(rules, next, rule, parent);
      if next + 1 < LAST_ID
      then o.result == Ok(next) && o.next == next + 1 && multiset(Ids(o.rules)) == multiset(Ids(rules)) + multiset{next}
      else o == Outcome(Err, rules, next)
  {
    hide Ids, Assign;
    AssignValue(next);
    var rule' := rule.(id := next);
    assert Ids([rule']) == [next];
    if parent == LAST_ID || parent == 0 {
      IdsConcat(rules, [rule']);
      IdsConcat([rule'], rules);
    } else {
      var i := IndexOf(rules, parent);
      IdsConcat(rules[..i + 1] + [rule'], rules[i + 1..]);
      IdsConcat(rules[..i + 1], [rule']);
      IdsConcat(rules[..i + 1], rules[i + 1..]);
      assert rules == rules[..i + 1] + rules[i + 1..];
    }
  }

  /** Numbering a rule first, as Policy::appendRule does, makes no difference to the append. */
  lemma NumberedAppend(rules: seq<Rule>, next: nat, rule: Rule, parent: nat)
    requires rule.id == DEFAULT_ID && 1 <= next < LAST_ID
    ensures match Numbered(next, rule)
      case Err => next + 1 >= LAST_ID
      case Ok((rule', next')) => Append(rules, next', rule', parent) == Append(rules, next, rule, parent)
  {
    AssignValue(next);
  }

  lemma NewIdKeepsInv(st: State, i: nat, rules: seq<Rule>)
    requires Inv(st) && i < |st.sets| && st.next + 1 < LAST_ID
    requires multiset(Ids(rules)) == multiset(Ids(st.sets[i].rules)) + multiset{st.next}
    ensures Inv(State(st.sets[i := st.sets[i].(rules := rules)], st.next + 1))
  {
    hide Ids, AllIds;
    AllIdsUpdate(st.sets, i, st.sets[i].(rules := rules));
    var ids := AllIds(st.sets[i := st.sets[i].(rules := rules)]);
    assert ids == AllIds(st.sets) + multiset{st.next};
  }

  lemma FewerIdsKeepInv(st: State, i: nat, rules: seq<Rule>)
    requires Inv(st) && i < |st.sets|
    requires multiset(Ids(rules)) <= multiset(Ids(st.sets[i].rules))
    ensures Inv(st.(sets := st.sets[i := st.sets[i].(rules := rules)]))
  {
    AllIdsUpdate(st.sets, i, st.sets[i].(rules := rules));
    assert AllIds(st.sets[i := st.sets[i].(rules := rules)]) <= AllIds(st.sets);
  }

  lemma BackAppend(st: State, rule: Rule)
    requires Inv(st) && rule.id == DEFAULT_ID
    ensures GoodStep(st, AppendToBack(st, rule))
  {
    var back := |st.sets| - 1;
    var o := Append(st.sets[back].rules, st.next, rule, LAST_ID);
    AppendIds(st.sets[back].rules, st.next, rule, LAST_ID);
    if o.result.Ok? {
      NewIdKeepsInv(st, back, o.rules);
    } else {
      assert st.sets[back := st.sets[back].(rules := o.rules)] == st.sets;
    }
  }

  lemma {:induction false} GoodAppendAfter(st: State, i: nat, rule: Rule, parent: nat)
    requires Inv(st) && rule.id == DEFAULT_ID
    ensures GoodStep(st, AppendAfter(st, i, rule, parent))
    decreases |st.sets| - i
  {
    hide Inv, Append, Numbered;
    if i < |st.sets| {
      GoodAppendAfter(st, i + 1, rule, parent);
      if HasId(st.sets[i].rules, parent) {
        InvBounds(st);
        AppendIds(st.sets[i].rules, st.next, rule, parent);
        NumberedAppend(st.sets[i].rules, st.next, rule, parent);
        if Numbered(st.next, rule).Ok? {
          NumberedOk(st.next, rule);
          NewIdKeepsInv(st, i, Append(st.sets[i].rules, st.next, rule, parent).rules);
        }
      }
    }
  }

  lemma NumberedOk(next: nat, rule: Rule)
    requires rule.id == DEFAULT_ID && 1 <= next < LAST_ID
    ensures Numbered(next, rule).Ok? <==> next + 1 < LAST_ID
  {
    AssignValue(next);
  }

  lemma InvBounds(st: State)
    requires Inv(st)
    ensures st.sets != [] && 1 <= st.next < LAST_ID
  {
  }

  lemma UpsertIds(rules: seq<Rule>, m: Rule, n: Rule, insensitive: bool)
    requires Upsert(rules, m, n, insensitive).Ok?
    ensures Ids(Upsert(rules, m, n, insensitive).value.1) == Ids(rules)
  {
  }

  /** No stored rule carries the identifier that stands for "not found". */
  lemma NoMatchNoChange(st: State, i: nat, m: Rule, n: Rule, insensitive: bool)
    requires Inv(st) && i < |st.sets| && Upsert(st.sets[i].rules, m, n, insensitive).Ok?
    ensures
      var (id, rules) := Upsert(st.sets[i].rules, m, n, insensitive).value;
      && (id == DEFAULT_ID <==> CountMatches(st.sets[i].rules, m, insensitive) == 0)
      && (id == DEFAULT_ID ==> st.(sets := st.sets[i := st.sets[i].(rules := rules)]) == st)
  {
    NoReservedIds(st);
    assert st.sets[i := st.sets[i]] == st.sets;
  }

  lemma {:induction false} GoodUpsert(st: State, i: nat, m: Rule, n: Rule, insensitive: bool)
    requires Inv(st) && n.id == DEFAULT_ID
    ensures GoodStep(st, PolicyUpsert(st, i, m, n, insensitive))
    decreases |st.sets| - i
  {
    hide Inv, Upsert, Append;
    if i >= |st.sets| {
      BackAppend(st, n);
    } else {
      var r := Upsert(st.sets[i].rules, m, n, insensitive);
      if r.Ok? {
        if r.value.0 == DEFAULT_ID {
          NoMatchNoChange(st, i, m, n, insensitive);
          GoodUpsert(st, i + 1, m, n, insensitive);
        } else {
          UpsertIds(st.sets[i].rules, m, n, insensitive);
          FewerIdsKeepInv(st, i, r.value.1);
        }
      }
    }
  }

  lemma FewerIds(rules: seq<Rule>, id: nat)
    requires HasId(rules, id)
    ensures multiset(Ids(WithoutFirst(rules, id))) <= multiset(Ids(rules))
  {
    hide Ids, IndexOf;
    var k := IndexOf(rules, id);
    IdsConcat(rules[..k], [rules[k]] + rules[k + 1..]);
    IdsConcat([rules[k]], rules[k + 1..]);
    IdsConcat(rules[..k], rules[k + 1..]);
    assert rules == rules[..k] + ([rules[k]] + rules[k + 1..]);
  }

  lemma {:induction false} GoodRemove(st: State, i: nat, id: nat)
    requires Inv(st)
    ensures GoodStep(st, PolicyRemove(st, i, id))
    decreases |st.sets| - i
  {
    hide Inv, WithoutFirst, HasId;
    if i < |st.sets| {
      var rules := st.sets[i].rules;
      if HasId(rules, id) {
        FewerIds(rules, id);
        FewerIdsKeepInv(st, i, WithoutFirst(rules, id));
      } else {
        GoodRemove(st, i + 1, id);
      }
    }
  }

  lemma GoodSteps(st: State, op: Op)
    requires Inv(st) && Unnumbered(op)
    ensures GoodStep(st, Step(st, op))
  {
    match op
    case AppendOp(rule, parent) =>
      if parent == LAST_ID {
        NumberedAppend(st.sets[|st.sets| - 1].rules, st.next, rule, parent);
        BackAppend(st, rule);
      } else {
        GoodAppendAfter(st, 0, rule, parent);
      }
    case UpsertOp(m, n, insensitive) => GoodUpsert(st, 0, m, n, insensitive);
    case RemoveOp(id) => GoodRemove(st, 0, id);
    case DeviceIdOp => AssignValue(st.next);
  }

  /** An append behind a rule that no rule set has changes nothing. */
  lemma {:induction false} AppendNeedsParent(st: State, i: nat, rule: Rule, parent: nat)
    requires forall j :: i <= j < |st.sets| ==> !HasId(st.sets[j].rules, parent)
    ensures AppendAfter(st, i, rule, parent) == (Err, st)
    decreases |st.sets| - i
  {
    hide HasId;
    if i < |st.sets| {
      AppendNeedsParent(st, i + 1, rule, parent);
    }
  }

  /** So the front of a policy, for which rule sets reserve the parent identifier 0, cannot be reached. */
  lemma FrontIsOutOfReach(st: State, rule: Rule)
    requires Inv(st)
    ensures PolicyAppend(st, rule, 0) == (Err, st)
  {
    forall j, k | 0 <= j < |st.sets| && 0 <= k < |st.sets[j].rules| ensures st.sets[j].rules[k].id != 0 {
      IdIsCounted(st.sets, j, k);
    }
    AppendNeedsParent(st, 0, rule, 0);
  }

  /** The state after a run of operations. */
  function Run(st: State, ops: seq<Op>): (r: State)
    requires st.sets != []
    decreases |ops|
  {
    if ops == [] then st else Run(Step(st, ops[0]).1, ops[1..])
  }

  /** The identifiers handed out on the way, to rules and to devices. */
  function Issued(st: State, ops: seq<Op>): (ids: seq<nat>)
    requires st.sets != []
    decreases |ops|
  {
    if ops == [] then []
    else
      var (r, st') := Step(st, ops[0]);
      (if st'.next != st.next && r.Ok? then [r.value] else []) + Issued(st', ops[1..])
  }

  /**
   * Over every run the invariant holds, and the identifiers handed out are strictly increasing, not
   * below the counter at the start (hence unused so far) and at most LastID - 2.
   */
  lemma {:induction false} RunIssuesFreshIds(st: State, ops: seq<Op>)
    requires Inv(st) && forall i :: 0 <= i < |ops| ==> Unnumbered(ops[i])
    ensures Inv(Run(st, ops)) && st.next <= Run(st, ops).next
    ensures forall i :: 0 <= i < |Issued(st, ops)| ==> st.next <= Issued(st, ops)[i] < Run(st, ops).next <= LAST_ID - 1
    ensures forall i, j :: 0 <= i < j < |Issued(st, ops)| ==> Issued(st, ops)[i] < Issued(st, ops)[j]
    ensures |Issued(st, ops)| == Run(st, ops).next - st.next
    decreases |ops|
  {
    hide Inv, Step;
    InvBounds(st);
    if ops != [] {
      GoodSteps(st, ops[0]);
      var (r, st') := Step(st, ops[0]);
      RunIssuesFreshIds(st', ops[1..]);
      InvBounds(Run(st', ops[1..]));
      var head := if st'.next != st.next && r.Ok? then [r.value] else [];
      assert Issued(st, ops) == head + Issued(st', ops[1..]);
    }
  }
}
