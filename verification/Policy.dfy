/** The rule sets and the policy as objects that are changed in place. */
module Policy {
  import opened Text
  import opened Rules
  import opened PolicyState

  /** The counter that all rule sets share; RuleSet::_id_next is a static member. */
  class IdCounter {
    var next: nat

    constructor ()
      ensures next == 0
    {
      next := 0;
    }
  }

  class RuleSet {
    const counter: IdCounter
    var rules: seq<Rule>
    var defaultTarget: Target

    /** Building a rule set sets the shared counter back to the first identifier. */
    constructor (counter: IdCounter)
      modifies counter
      ensures this.counter == counter && counter.next == ROOT_ID + 1
      ensures rules == [] && defaultTarget == Block
    {
      this.counter := counter;
      rules, defaultTarget := [], Block;
      new;
      counter.next := ROOT_ID + 1;
    }

    ghost function Abs(): Table
      reads this
    {
      Table(rules, defaultTarget)
    }

    method AssignID() returns (r: Result<nat>)
      modifies counter
      ensures match Assign(old(counter.next))
        case Err => r == Err && counter.next == old(counter.next)
        case Ok((id, next)) => r == Ok(id) && counter.next == next
    {
      var nextId := (counter.next + 1) % UINT32;
      if nextId >= LAST_ID {
        return Err;
      }
      counter.next := nextId;
      return Ok((nextId + UINT32 - 1) % UINT32);
    }

    method AppendRule(rule: Rule, parentId: nat) returns (r: Result<nat>)
      modifies this`rules, counter
      ensures Outcome(r, rules, counter.next) == Append(old(rules), old(counter.next), rule, parentId)
    {
      var rule' := rule;
      if rule.id == DEFAULT_ID {
        var id := AssignID();
        if id.Err? {
          return Err;
        }
        rule' := rule.(id := id.value);
      } else {
        var after := (rule.id + 1) % UINT32;
        counter.next := if counter.next < after then after else counter.next;
      }
      if parentId == LAST_ID {
        rules := rules + [rule'];
      } else if parentId == 0 {
        rules := [rule'] + rules;
      } else {
        var i := Find(parentId);
        if i == |rules| {
          return Err;
        }
        rules := rules[..i + 1] + [rule'] + rules[i + 1..];
      }
      return Ok(rule'.id);
    }

    /** The loop that looks for a rule by its identifier; the number of rules if there is none. */
    method Find(id: nat) returns (i: nat)
      ensures i <= |rules|
      ensures if HasId(rules, id) then i == IndexOf(rules, id) else i == |rules|
    {
      i := 0;
      while i < |rules|
        invariant i <= |rules|
        invariant forall j :: 0 <= j < i ==> rules[j].id != id
      {
        if rules[i].id == id {
          assert HasId(rules, id);
          return;
        }
        i := i + 1;
      }
    }

    method UpsertRule(m: Rule, n: Rule, insensitive: bool) returns (r: Result<nat>)
      modifies this`rules
      ensures match Upsert(old(rules), m, n, insensitive)
        case Err => r == Err && rules == old(rules)
        case Ok((id, rules')) => r == Ok(id) && rules == rules'
    {
      hide AppliesTo;
      var found: Option<nat> := None;
      for i := 0 to |rules|
        invariant rules == old(rules)
        invariant CountMatches(rules[..i], m, insensitive) == if found.None? then 0 else 1
        invariant found.Some? ==> found.value < i && AppliesTo(rules[found.value], m, insensitive)
        invariant forall j :: 0 <= j < i && found != Some(j) ==> !AppliesTo(rules[j], m, insensitive)
      {
        CountConcat(rules[..i], [rules[i]], m, insensitive);
        assert rules[..i + 1] == rules[..i] + [rules[i]];
        assert CountMatches([rules[i]], m, insensitive) == if AppliesTo(rules[i], m, insensitive) then 1 else 0;
        if AppliesTo(rules[i], m, insensitive) {
          if found.None? {
            found := Some(i);
          } else {
            CountConcat(rules[..i + 1], rules[i + 1..], m, insensitive);
            assert rules == rules[..i + 1] + rules[i + 1..];
            return Err;
          }
        }
      }
      assert rules[..|rules|] == rules;
      if found.None? {
        return Ok(DEFAULT_ID);
      }
      var i := found.value;
      var id := rules[i].id;
      rules := rules[i := n.(id := id)];
      return Ok(id);
    }

    method GetRule(id: nat) returns (r: Result<Rule>)
      ensures r == if HasId(rules, id) then Ok(rules[IndexOf(rules, id)]) else Err
    {
      var i := Find(id);
      return if i < |rules| then Ok(rules[i]) else Err;
    }

    method RemoveRule(id: nat) returns (r: Result<nat>)
      modifies this`rules
      ensures if HasId(old(rules), id) then r == Ok(id) && rules == WithoutFirst(old(rules), id)
              else r == Err && rules == old(rules)
    {
      var i := Find(id);
      if i == |rules| {
        return Err;
      }
      rules := rules[..i] + rules[i + 1..];
      return Ok(id);
    }

    method GetFirstMatchingRule(device: Rule, o: Oracle) returns (r: Result<Rule>)
      ensures r == FirstMatching(rules, defaultTarget, device, o)
    {
      var i := 0;
      while i < |rules|
        invariant i <= |rules|
        invariant FirstMatching(rules, defaultTarget, device, o) == FirstMatching(rules[i..], defaultTarget, device, o)
      {
        assert rules[i..][0] == rules[i] && rules[i..][1..] == rules[i + 1..];
        var applies := AppliesWithConditions(rules[i], device, o);
        if applies.Err? {
          return Err;
        }
        if applies.value {
          return Ok(rules[i]);
        }
        i := i + 1;
      }
      return Ok(ImplicitRule(defaultTarget));
    }
  }

  ghost function Tables(sets: seq<RuleSet>): (ts: seq<Table>)
    reads sets
    ensures |ts| == |sets| && forall i :: 0 <= i < |sets| ==> ts[i] == sets[i].Abs()
  {
    if sets == [] then [] else [sets[0].Abs()] + Tables(sets[1..])
  }

  class Policy {
    const counter: IdCounter
    var sets: seq<RuleSet>

    ghost predicate Valid()
      reads this, sets
    {
      && (forall i :: 0 <= i < |sets| ==> sets[i].counter == counter)
      && forall i, j :: 0 <= i < j < |sets| ==> sets[i] != sets[j]
    }

    ghost function Abs(): State
      reads this, sets, counter
    {
      State(Tables(sets), counter.next)
    }

    constructor (counter: IdCounter, sets: seq<RuleSet>)
      requires forall i :: 0 <= i < |sets| ==> sets[i].counter == counter
      requires forall i, j :: 0 <= i < j < |sets| ==> sets[i] != sets[j]
      ensures Valid() && this.counter == counter && this.sets == sets
    {
      this.counter, this.sets := counter, sets;
    }

    method AppendRule(rule: Rule, parentId: nat) returns (r: Result<nat>)
      requires Valid() && sets != []
      modifies sets, counter
      ensures Valid() && (r, Abs()) == PolicyAppend(old(Abs()), rule, parentId)
    {
      hide AppendToBack, Numbered;
      if parentId == LAST_ID {
        ghost var tables := Tables(sets);
        var numbered := TryNumber(rule);
        assert Tables(sets) == tables;
        if numbered.Err? {
          return Err;
        }
        r := AppendLast(numbered.value);
      } else {
        r := AppendAfterParent(rule, parentId);
      }
    }

    /** An append to rule set `i`, which leaves the other rule sets alone. */
    method AppendIn(i: nat, rule: Rule, parentId: nat) returns (r: Result<nat>)
      requires Valid() && i < |sets|
      modifies sets, counter
      ensures Valid() && sets == old(sets)
      ensures
        var before := old(Abs());
        var o := Append(before.sets[i].rules, before.next, rule, parentId);
        r == o.result && Abs() == State(before.sets[i := before.sets[i].(rules := o.rules)], o.next)
    {
      hide Append, Tables;
      ghost var before := Tables(sets);
      r := sets[i].AppendRule(rule, parentId);
      assert forall j :: 0 <= j < |sets| && j != i ==> sets[j].Abs() == before[j];
      assert Tables(sets) == before[i := before[i].(rules := sets[i].rules)];
    }

    method AppendLast(rule: Rule) returns (r: Result<nat>)
      requires Valid() && sets != []
      modifies sets, counter
      ensures Valid() && (r, Abs()) == AppendToBack(old(Abs()), rule)
    {
      hide Append, Tables;
      r := AppendIn(|sets| - 1, rule, LAST_ID);
    }

    /** The loop of appendRule over the rule sets. */
    method AppendAfterParent(rule: Rule, parentId: nat) returns (r: Result<nat>)
      requires Valid() && sets != []
      modifies sets, counter
      ensures Valid() && (r, Abs()) == AppendAfter(old(Abs()), 0, rule, parentId)
    {
      hide Append, Numbered, Tables;
      var i, rule' := 0, rule;
      while i < |sets|
        invariant i <= |sets| && Valid() && sets == old(sets)
        invariant AppendAfter(old(Abs()), 0, rule, parentId) == AppendAfter(Abs(), i, rule', parentId)
      {
        ghost var before := Abs();
        var parent := sets[i].GetRule(parentId);
        if parent.Ok? {
          var numbered := TryNumber(rule');
          assert Tables(sets) == before.sets;
          if numbered.Ok? {
            rule' := numbered.value;
            r := AppendIn(i, rule', parentId);
            if r.Ok? {
              return;
            }
            assert before.sets[i := before.sets[i].(rules := before.sets[i].rules)] == before.sets;
          }
        }
        i := i + 1;
      }
      return Err;
    }

    /** Gives a rule without an identifier the next one. */
    method TryNumber(rule: Rule) returns (r: Result<Rule>)
      requires Valid() && sets != []
      modifies counter
      ensures match Numbered(old(counter.next), rule)
        case Err => r == Err && counter.next == old(counter.next)
        case Ok((rule', next)) => r == Ok(rule') && counter.next == next
    {
      if rule.id != DEFAULT_ID {
        return Ok(rule);
      }
      var id := sets[0].AssignID();
      return if id.Ok? then Ok(rule.(id := id.value)) else Err;
    }

    /** An upsert in rule set `i`, which leaves the other rule sets alone. */
    method UpsertIn(i: nat, m: Rule, n: Rule, insensitive: bool) returns (r: Result<nat>)
      requires Valid() && i < |sets|
      modifies sets
      ensures Valid() && sets == old(sets)
      ensures
        var before := old(Abs());
        match Upsert(before.sets[i].rules, m, n, insensitive)
        case Err => r == Err && Abs() == before
        case Ok((id, rules)) =>
          r == Ok(id) && Abs() == before.(sets := before.sets[i := before.sets[i].(rules := rules)])
    {
      hide Upsert, Tables;
      ghost var before := Tables(sets);
      r := sets[i].UpsertRule(m, n, insensitive);
      assert forall j :: 0 <= j < |sets| && j != i ==> sets[j].Abs() == before[j];
      assert Tables(sets) == before[i := before[i].(rules := sets[i].rules)];
      assert before[i := before[i].(rules := before[i].rules)] == before;
    }

    method UpsertRule(m: Rule, n: Rule, insensitive: bool) returns (r: Result<nat>)
      requires Valid()
      modifies sets, counter
      ensures Valid() && (r, Abs()) == PolicyUpsert(old(Abs()), 0, m, n, insensitive)
    {
      hide AppendToBack, Upsert, Tables;
      if sets == [] {
        return Err;
      }
      var i := 0;
      while i < |sets|
        invariant i <= |sets| && Valid() && sets == old(sets)
        invariant PolicyUpsert(old(Abs()), 0, m, n, insensitive) == PolicyUpsert(Abs(), i, m, n, insensitive)
      {
        r := UpsertIn(i, m, n, insensitive);
        if r.Err? || r.value != DEFAULT_ID {
          return;
        }
        i := i + 1;
      }
      r := AppendLast(n);
    }

    method RemoveRule(id: nat) returns (r: Result<nat>)
      requires Valid()
      modifies sets
      ensures Valid() && (r, Abs()) == PolicyRemove(old(Abs()), 0, id)
    {
      hide Tables, WithoutFirst, HasId;
      var i := 0;
      while i < |sets|
        invariant i <= |sets| && Valid() && Abs() == old(Abs())
        invariant PolicyRemove(old(Abs()), 0, id) == PolicyRemove(Abs(), i, id)
      {
        r := sets[i].RemoveRule(id);
        assert Abs().sets == old(Abs()).sets[i := sets[i].Abs()];
        if r.Ok? {
          return;
        }
        i := i + 1;
      }
      return Err;
    }

    method GetRule(id: nat) returns (r: Result<Rule>)
      ensures r == RuleById(Abs().sets, 0, id)
    {
      hide Tables, HasId;
      for i := 0 to |sets|
        invariant RuleById(Abs().sets, 0, id) == RuleById(Abs().sets, i, id)
      {
        r := sets[i].GetRule(id);
        if r.Ok? {
          return;
        }
      }
      return Err;
    }

    method GetFirstMatchingRule(device: Rule, o: Oracle) returns (r: Result<Rule>)
      requires sets != []
      ensures r == Lookup(Abs().sets, 0, device, o)
    {
      var i := 0;
      while i < |sets|
        invariant i <= |sets|
        invariant Lookup(Abs().sets, 0, device, o) == Lookup(Abs().sets, i, device, o)
      {
        r := sets[i].GetFirstMatchingRule(device, o);
        if r.Err? || r.value.id != IMPLICIT_ID {
          return;
        }
        i := i + 1;
      }
      r := sets[0].GetFirstMatchingRule(device, o);
    }
  }
}
