/** Where the edits of a policy put and take rules, in the order in which a lookup goes through them. */
module PolicyOrder {
  import opened Text
  import opened Rules
  import opened PolicyState
  import opened PolicyLaws

  // ----- The rules of a policy one after the other

  lemma {:induction false} FlattenAround(sets: seq<Table>, k: nat, t: Table)
    requires k < |sets|
    ensures Flatten(sets) == Flatten(sets[..k]) + sets[k].rules + Flatten(sets[k + 1..])
    ensures Flatten(sets[k := t]) == Flatten(sets[..k]) + t.rules + Flatten(sets[k + 1..])
  {
    if k == 0 {
      assert sets[k := t][1..] == sets[1..] && Flatten(sets[..k]) == [];
    } else {
      FlattenAround(sets[1..], k - 1, t);
      assert sets[k := t][1..] == sets[1..][k - 1 := t] && sets[1..][k..] == sets[k + 1..];
      assert sets[..k][0] == sets[0] && sets[..k][1..] == sets[1..][..k - 1];
      var rest := Flatten(sets[1..][..k - 1]);
      InFront(sets[0].rules, rest, sets[k].rules, Flatten(sets[k + 1..]));
      InFront(sets[0].rules, rest, t.rules, Flatten(sets[k + 1..]));
    }
  }

  lemma InFront(a: seq<Rule>, b: seq<Rule>, c: seq<Rule>, d: seq<Rule>)
    ensures a + (b + c + d) == (a + b) + c + d
  {
  }

  lemma {:induction false} FlattenIds(sets: seq<Table>)
    ensures multiset(Ids(Flatten(sets))) == AllIds(sets)
  {
    hide Ids;
    if sets == [] {
      assert Ids(Flatten(sets)) == [];
    } else {
      FlattenIds(sets[1..]);
      IdsConcat(sets[0].rules, Flatten(sets[1..]));
    }
  }

  /** In a policy an identifier is at one place only. */
  lemma OnePlace(st: State, p: nat, q: nat)
    requires Inv(st)
    requires var rules := Flatten(st.sets); p < |rules| && q < |rules| && rules[p].id == rules[q].id
    ensures p == q && 1 <= Flatten(st.sets)[p].id < st.next
  {
    var ids := Ids(Flatten(st.sets));
    FlattenIds(st.sets);
    assert ids[p] in multiset(ids) && ids[p] == ids[q];
    if p < q {
      RepeatedId(ids, p, q);
    } else if q < p {
      RepeatedId(ids, q, p);
    }
  }

  /** The place of rule `i` of rule set `k` among all rules. */
  function PlaceOf(sets: seq<Table>, k: nat, i: nat): (p: nat)
    requires k <= |sets|
  {
    |Flatten(sets[..k])| + i
  }

  lemma AtPlace(sets: seq<Table>, k: nat, i: nat)
    requires k < |sets| && i < |sets[k].rules|
    ensures var p := PlaceOf(sets, k, i);
      && p < |Flatten(sets)| && Flatten(sets)[p] == sets[k].rules[i]
      && Flatten(sets)[..p] == Flatten(sets[..k]) + sets[k].rules[..i]
      && Flatten(sets)[p + 1..] == sets[k].rules[i + 1..] + Flatten(sets[k + 1..])
  {
    FlattenAround(sets, k, sets[k]);
  }

  /** Every rule of the policy is in some rule set. */
  lemma {:induction false} InSomeSet(sets: seq<Table>, p: nat) returns (k: nat)
    requires p < |Flatten(sets)|
    ensures k < |sets| && HasId(sets[k].rules, Flatten(sets)[p].id)
  {
    if p < |sets[0].rules| {
      k := 0;
      assert sets[0].rules[p].id == Flatten(sets)[p].id;
    } else {
      k := InSomeSet(sets[1..], p - |sets[0].rules|);
      k := k + 1;
    }
  }

  /** The first rule set that has a rule with the identifier. */
  function FirstWith(sets: seq<Table>, i: nat, id: nat): (k: nat)
    requires i <= |sets|
    ensures i <= k <= |sets| && (k < |sets| ==> HasId(sets[k].rules, id))
    ensures forall j :: i <= j < k ==> !HasId(sets[j].rules, id)
    decreases |sets| - i
  {
    if i < |sets| && !HasId(sets[i].rules, id) then FirstWith(sets, i + 1, id) else i
  }

  /** All rule sets but `k` are the same, and that one has the same default target. */
  predicate OnlyIn(st: State, st': State, k: nat) {
    && |st'.sets| == |st.sets| && k < |st.sets| && st'.sets[k].default == st.sets[k].default
    && forall j :: 0 <= j < |st.sets| && j != k ==> st'.sets[j] == st.sets[j]
  }

  // ----- Appending

  /** `rules'` is `rules` with `rule` put in at place `p`. */
  predicate PutIn(rules: seq<Rule>, rules': seq<Rule>, p: nat, rule: Rule) {
    p < |rules'| && rules'[p] == rule && rules'[..p] + rules'[p + 1..] == rules
  }

  /**
   * In one rule set a rule is put in front for the parent 0, at the end without a parent, and else right
   * behind the first rule with the identifier of the parent; it fails exactly without that rule or without
   * an identifier.  The counter ends up above the identifier of the rule and never moves back.
   */
  lemma AppendedInSet(rules: seq<Rule>, next: nat, rule: Rule, parent: nat)
    requires 1 <= next < LAST_ID && (rule.id == DEFAULT_ID || rule.id < LAST_ID)
    ensures
      var o := Append(rules, next, rule, parent);
      && (o.result.Err? <==> (rule.id == DEFAULT_ID && next + 1 >= LAST_ID)
                             || (parent != LAST_ID && parent != 0 && !HasId(rules, parent)))
      && (o.result.Ok? ==>
            && o.result.value == (if rule.id == DEFAULT_ID then next else rule.id)
            && PlacedBy(rules, o.rules, parent, rule.(id := o.result.value)) && o.result.value < o.next)
      && next <= o.next
  {
    hide Place, HasId, PlacedBy;
    AssignValue(next);
    if rule.id == DEFAULT_ID && next + 1 < LAST_ID {
      PlacedInSet(rules, next + 1, rule.(id := next), parent);
    } else if rule.id != DEFAULT_ID {
      PlacedInSet(rules, if next < rule.id + 1 then rule.id + 1 else next, rule, parent);
      assert rule.(id := rule.id) == rule;
    }
  }

  /** `rules'` is `rules` with `rule` at the place that the parent gives. */
  predicate PlacedBy(rules: seq<Rule>, rules': seq<Rule>, parent: nat, rule: Rule) {
    if parent == LAST_ID then PutIn(rules, rules', |rules|, rule)
    else if parent == 0 then PutIn(rules, rules', 0, rule)
    else HasId(rules, parent) && PutIn(rules, rules', IndexOf(rules, parent) + 1, rule)
  }

  lemma PlacedInSet(rules: seq<Rule>, next: nat, rule: Rule, parent: nat)
    ensures
      var o := Place(rules, next, rule, parent);
      && o.next == next && (o.result.Err? <==> parent != LAST_ID && parent != 0 && !HasId(rules, parent))
      && (o.result.Ok? ==> o.result.value == rule.id && PlacedBy(rules, o.rules, parent, rule))
  {
    hide HasId;
  }

  lemma {:induction false} NoIdLeft(st: State, i: nat, rule: Rule, parent: nat)
    requires rule.id == DEFAULT_ID && Assign(st.next).Err?
    ensures AppendAfter(st, i, rule, parent) == (Err, st)
    decreases |st.sets| - i
  {
    if i < |st.sets| {
      NoIdLeft(st, i + 1, rule, parent);
    }
  }

  lemma {:induction false} AppendedInFirst(st: State, i: nat, rule: Rule, parent: nat)
    requires Inv(st) && rule.id == DEFAULT_ID && st.next + 1 < LAST_ID && parent != 0 && parent != LAST_ID
    requires i <= |st.sets| && FirstWith(st.sets, i, parent) < |st.sets|
    ensures
      var k := FirstWith(st.sets, i, parent);
      AppendAfter(st, i, rule, parent) == (Ok(st.next), State(st.sets[k := st.sets[k].(rules :=
        InsertAfter(st.sets[k].rules, parent, rule.(id := st.next)))], st.next + 1))
    decreases |st.sets| - i
  {
    hide Inv, InsertAfter;
    if HasId(st.sets[i].rules, parent) {
      InvBounds(st);
      AssignValue(st.next);
    } else {
      AppendedInFirst(st, i + 1, rule, parent);
    }
  }

  /**
   * A rule that is appended behind a parent stands right behind it among all rules of the policy, under a
   * new identifier; nothing else moves, and the append fails only when identifiers have run out.
   */
  lemma AppendedBehindParent(st: State, rule: Rule, p: nat)
    requires Inv(st) && rule.id == DEFAULT_ID && p < |Flatten(st.sets)|
    ensures
      var (r, st') := PolicyAppend(st, rule, Flatten(st.sets)[p].id);
      if st.next + 1 < LAST_ID
      then && r == Ok(st.next) && (exists k :: OnlyIn(st, st', k))
           && Flatten(st'.sets) == Flatten(st.sets)[..p + 1] + [rule.(id := st.next)] + Flatten(st.sets)[p + 1..]
      else r == Err && st' == st
  {
    hide Inv, InsertAfter, Flatten;
    var parent := Flatten(st.sets)[p].id;
    OnePlace(st, p, p);
    InvBounds(st);
    AssignValue(st.next);
    if st.next + 1 < LAST_ID {
      var some := InSomeSet(st.sets, p);
      var k := FirstWith(st.sets, 0, parent);
      AppendedInFirst(st, 0, rule, parent);
      InsertedBehind(st, k, p, rule.(id := st.next));
      assert OnlyIn(st, PolicyAppend(st, rule, parent).1, k);
    } else {
      NoIdLeft(st, 0, rule, parent);
    }
  }

  lemma InsertedBehind(st: State, k: nat, p: nat, rule: Rule)
    requires Inv(st) && k < |st.sets| && p < |Flatten(st.sets)| && HasId(st.sets[k].rules, Flatten(st.sets)[p].id)
    ensures
      var sets, parent := st.sets, Flatten(st.sets)[p].id;
      Flatten(sets[k := sets[k].(rules := InsertAfter(sets[k].rules, parent, rule))])
        == Flatten(sets)[..p + 1] + [rule] + Flatten(sets)[p + 1..]
  {
    hide Inv, Flatten;
    var sets, parent := st.sets, Flatten(st.sets)[p].id;
    var rules := sets[k].rules;
    var i := IndexOf(rules, parent);
    AtPlace(sets, k, i);
    OnePlace(st, p, PlaceOf(sets, k, i));
    FlattenAround(sets, k, sets[k].(rules := InsertAfter(rules, parent, rule)));
    assert rules[..i + 1] == rules[..i] + [rules[i]];
    assert Flatten(sets)[..p + 1] == Flatten(sets)[..p] + [Flatten(sets)[p]];
  }

  /** Without a parent the rule is the last one of the policy. */
  lemma AppendedLast(st: State, rule: Rule)
    requires Inv(st) && rule.id == DEFAULT_ID
    ensures
      var (r, st') := PolicyAppend(st, rule, LAST_ID);
      if st.next + 1 < LAST_ID
      then && r == Ok(st.next) && OnlyIn(st, st', |st.sets| - 1)
           && Flatten(st'.sets) == Flatten(st.sets) + [rule.(id := st.next)]
      else r == Err && st' == st
  {
    hide Inv, Flatten;
    InvBounds(st);
    AssignValue(st.next);
    if st.next + 1 < LAST_ID {
      var back := |st.sets| - 1;
      var rules := st.sets[back].rules + [rule.(id := st.next)];
      FlattenAround(st.sets, back, st.sets[back].(rules := rules));
      assert Flatten(st.sets[back + 1..]) == [] by { NothingBehind(st.sets[back + 1..]); }
    }
  }

  lemma NothingBehind(sets: seq<Table>)
    requires sets == []
    ensures Flatten(sets) == []
  {
  }

  // ----- Removing

  lemma {:induction false} RemovedFromFirst(st: State, i: nat, id: nat)
    requires i <= |st.sets|
    ensures
      var k := FirstWith(st.sets, i, id);
      PolicyRemove(st, i, id) ==
        if k == |st.sets| then (Err, st)
        else (Ok(id), st.(sets := st.sets[k := st.sets[k].(rules := WithoutFirst(st.sets[k].rules, id))]))
    decreases |st.sets| - i
  {
    hide WithoutFirst;
    if i < |st.sets| && !HasId(st.sets[i].rules, id) {
      RemovedFromFirst(st, i + 1, id);
    }
  }

  /** Removing a rule takes it, and only it, out of the rules of the policy. */
  lemma RemovedFromPlace(st: State, p: nat)
    requires Inv(st) && p < |Flatten(st.sets)|
    ensures
      var id := Flatten(st.sets)[p].id;
      var (r, st') := PolicyRemove(st, 0, id);
      && r == Ok(id) && st'.next == st.next && (exists k :: OnlyIn(st, st', k))
      && Flatten(st'.sets) == Flatten(st.sets)[..p] + Flatten(st.sets)[p + 1..]
  {
    hide Inv, Flatten, WithoutFirst, HasId, PolicyRemove;
    var id := Flatten(st.sets)[p].id;
    var some := InSomeSet(st.sets, p);
    var k := FirstWith(st.sets, 0, id);
    RemovedFromFirst(st, 0, id);
    TakenOut(st, k, p);
    assert OnlyIn(st, PolicyRemove(st, 0, id).1, k);
  }

  lemma TakenOut(st: State, k: nat, p: nat)
    requires Inv(st) && k < |st.sets| && p < |Flatten(st.sets)| && HasId(st.sets[k].rules, Flatten(st.sets)[p].id)
    ensures
      var sets, id := st.sets, Flatten(st.sets)[p].id;
      Flatten(sets[k := sets[k].(rules := WithoutFirst(sets[k].rules, id))])
        == Flatten(sets)[..p] + Flatten(sets)[p + 1..]
  {
    hide Inv, Flatten;
    var sets, id := st.sets, Flatten(st.sets)[p].id;
    var rules := sets[k].rules;
    var i := IndexOf(rules, id);
    AtPlace(sets, k, i);
    OnePlace(st, p, PlaceOf(sets, k, i));
    FlattenAround(sets, k, sets[k].(rules := WithoutFirst(rules, id)));
    var front, back := Flatten(sets[..k]), Flatten(sets[k + 1..]);
    assert front + (rules[..i] + rules[i + 1..]) + back == (front + rules[..i]) + (rules[i + 1..] + back);
  }

  /** An identifier that no rule has cannot be removed. */
  lemma NothingToRemove(st: State, id: nat)
    requires forall p :: 0 <= p < |Flatten(st.sets)| ==> Flatten(st.sets)[p].id != id
    ensures PolicyRemove(st, 0, id) == (Err, st)
  {
    hide Flatten;
    RemovedFromFirst(st, 0, id);
    var k := FirstWith(st.sets, 0, id);
    if k < |st.sets| {
      AtPlace(st.sets, k, IndexOf(st.sets[k].rules, id));
    }
  }
}
