/** Properties that all rules of a policy share, and the operations that keep them. */
module EachRule {
  import opened Rules
  import opened PolicyState

  ghost predicate Each(p: Rule -> bool, rules: seq<Rule>) {
    forall i :: 0 <= i < |rules| ==> p(rules[i])
  }

  ghost predicate EachIn(p: Rule -> bool, st: State) {
    forall i :: 0 <= i < |st.sets| ==> Each(p, st.sets[i].rules)
  }

  /** The property has nothing to do with the identifier. */
  ghost predicate AnyId(p: Rule -> bool) {
    forall r: Rule, i: nat :: p(r) ==> p(r.(id := i))
  }

  lemma PlaceKeeps(p: Rule -> bool, rules: seq<Rule>, next: nat, rule: Rule, parent: nat)
    requires Each(p, rules) && p(rule)
    ensures Each(p, Place(rules, next, rule, parent).rules)
  {
  }

  lemma AppendKeeps(p: Rule -> bool, rules: seq<Rule>, next: nat, rule: Rule, parent: nat)
    requires AnyId(p) && Each(p, rules) && p(rule)
    ensures Each(p, Append(rules, next, rule, parent).rules)
  {
    hide Each, Place;
    if rule.id == DEFAULT_ID && Assign(next).Ok? {
      var (id, next') := Assign(next).value;
      PlaceKeeps(p, rules, next', rule.(id := id), parent);
    } else if rule.id != DEFAULT_ID {
      var after := (rule.id + 1) % UINT32;
      PlaceKeeps(p, rules, if next < after then after else next, rule, parent);
    }
  }

  lemma {:induction false} AppendAfterKeeps(p: Rule -> bool, st: State, i: nat, rule: Rule, parent: nat)
    requires AnyId(p) && EachIn(p, st) && p(rule)
    ensures EachIn(p, AppendAfter(st, i, rule, parent).1)
    decreases |st.sets| - i
  {
    hide Each, Append;
    if i < |st.sets| {
      if !HasId(st.sets[i].rules, parent) || Numbered(st.next, rule).Err? {
        AppendAfterKeeps(p, st, i + 1, rule, parent);
      } else {
        var (rule', next) := Numbered(st.next, rule).value;
        AppendKeeps(p, st.sets[i].rules, next, rule', parent);
        var o := Append(st.sets[i].rules, next, rule', parent);
        AppendAfterKeeps(p, st.(next := o.next), i + 1, rule', parent);
      }
    }
  }

  lemma PolicyAppendKeeps(p: Rule -> bool, st: State, rule: Rule, parent: nat)
    requires st.sets != [] && AnyId(p) && EachIn(p, st) && p(rule)
    ensures EachIn(p, PolicyAppend(st, rule, parent).1)
  {
    hide Each, Append, AppendAfter;
    if parent != LAST_ID {
      AppendAfterKeeps(p, st, 0, rule, parent);
    } else if Numbered(st.next, rule).Ok? {
      var (rule', next) := Numbered(st.next, rule).value;
      AppendKeeps(p, st.sets[|st.sets| - 1].rules, next, rule', LAST_ID);
    }
  }

  lemma UpsertKeeps(p: Rule -> bool, rules: seq<Rule>, m: Rule, n: Rule, insensitive: bool)
    requires AnyId(p) && Each(p, rules) && p(n) && Upsert(rules, m, n, insensitive).Ok?
    ensures Each(p, Upsert(rules, m, n, insensitive).value.1)
  {
    hide AppliesTo;
  }

  lemma {:induction false} PolicyUpsertKeeps(p: Rule -> bool, st: State, i: nat, m: Rule, n: Rule, insensitive: bool)
    requires AnyId(p) && EachIn(p, st) && p(n)
    ensures EachIn(p, PolicyUpsert(st, i, m, n, insensitive).1)
    decreases |st.sets| - i
  {
    hide Each, Append, Upsert;
    if st.sets != [] {
      if i >= |st.sets| {
        AppendKeeps(p, st.sets[|st.sets| - 1].rules, st.next, n, LAST_ID);
      } else if Upsert(st.sets[i].rules, m, n, insensitive).Ok? {
        var rules := Upsert(st.sets[i].rules, m, n, insensitive).value.1;
        UpsertKeeps(p, st.sets[i].rules, m, n, insensitive);
        PolicyUpsertKeeps(p, st.(sets := st.sets[i := st.sets[i].(rules := rules)]), i + 1, m, n, insensitive);
      }
    }
  }

  lemma {:induction false} PolicyRemoveKeeps(p: Rule -> bool, st: State, i: nat, id: nat)
    requires EachIn(p, st)
    ensures EachIn(p, PolicyRemove(st, i, id).1)
    decreases |st.sets| - i
  {
    if i < |st.sets| && !HasId(st.sets[i].rules, id) {
      PolicyRemoveKeeps(p, st, i + 1, id);
    }
  }
}
