/**
 * What the rule files hold after a save that may have ended at a rule without a text, and what a restart
 * makes of them (src/Library/public/usbguard/Policy.cpp, src/Daemon/FileRuleSet.cpp).
 */
module Saving {
  import opened Text
  import opened Rules
  import opened Printer
  import opened Grammar
  import opened PolicyState
  import opened Daemon
  import opened RuleFile
  import opened Restart

  /** The rules in front of the first one without a text. */
  function Texted(rules: seq<Rule>): (r: seq<Rule>)
    ensures |r| <= |rules|
  {
    if rules == [] || RuleText(rules[0]).Err? then [] else [rules[0]] + Texted(rules[1..])
  }

  lemma {:induction false} TextedIsPart(rules: seq<Rule>, i: nat)
    requires i < |Texted(rules)|
    ensures Texted(rules)[i] == rules[i] && RuleText(rules[i]).Ok?
  {
    hide RuleText;
    if i > 0 {
      TextedIsPart(rules[1..], i - 1);
    }
  }

  lemma {:induction false} AllTexted(rules: seq<Rule>)
    ensures Texted(rules) == rules <==> forall i :: 0 <= i < |rules| ==> RuleText(rules[i]).Ok?
  {
    hide RuleText;
    if rules != [] {
      AllTexted(rules[1..]);
      assert forall i :: 0 < i < |rules| ==> rules[i] == rules[1..][i - 1];
      if RuleText(rules[0]).Ok? {
        assert Texted(rules)[0] == rules[0] && Texted(rules)[1..] == Texted(rules[1..]);
      } else {
        assert Texted(rules) == [];
      }
    }
  }

  /** Writing a rule set stops in front of its first rule without a text. */
  lemma {:induction false} WrittenIsTexted(rules: seq<Rule>)
    ensures Serialize(Texted(rules)).Ok? && Written(rules) == (Texted(rules) == rules, Serialize(Texted(rules)).value)
  {
    hide RuleText;
    if rules != [] && RuleText(rules[0]).Ok? {
      WrittenIsTexted(rules[1..]);
      assert Texted(rules)[0] == rules[0] && Texted(rules)[1..] == Texted(rules[1..]);
      assert rules == [rules[0]] + rules[1..];
    }
  }

  /** The rule sets whose files are written, the last of them perhaps only in part. */
  function Reached(sets: seq<Table>): (w: seq<Table>)
    ensures |w| <= |sets| && (sets != [] ==> w != [])
  {
    if sets == [] then []
    else
      var rules := Texted(sets[0].rules);
      [sets[0].(rules := rules)] + if rules == sets[0].rules then Reached(sets[1..]) else []
  }

  /**
   * After a save, complete or not, the files of the rule sets that were reached hold their texts and the
   * others what they held before; the save is complete exactly if all rules were reached.
   */
  lemma {:induction false} FilesAfterSave(files: seq<string>, sets: seq<Table>, i: nat)
    requires |files| == |sets| && i <= |sets|
    ensures
      var (ok, files') := SaveFiles(files, sets, i);
      var w := Reached(sets[i..]);
      && SaveAll(w).Ok? && |SaveAll(w).value| == |w|
      && files' == files[..i] + SaveAll(w).value + files[i + |w|..]
      && (ok <==> w == sets[i..])
    decreases |sets| - i
  {
    hide Written, Serialize, Texted, SaveAll, Reached;
    if i == |sets| {
      NothingReached(sets[i..]);
      assert files[..i] + [] + files[i..] == files;
    } else {
      var first := sets[i].(rules := Texted(sets[i].rules));
      WrittenIsTexted(sets[i].rules);
      ReachedFrom(sets, i);
      var (ok, text) := Written(sets[i].rules);
      var rest := if ok then Reached(sets[i + 1..]) else [];
      if ok {
        FilesAfterSave(files[i := text], sets, i + 1);
        assert sets[i..] == [sets[i]] + sets[i + 1..];
      } else {
        NothingReached([]);
      }
      SavedCons(first, rest);
      OneMoreFile(files, i, text, SaveAll(rest).value);
    }
  }

  lemma NothingReached(sets: seq<Table>)
    requires sets == []
    ensures Reached(sets) == [] && SaveAll(sets) == Ok([])
  {
  }

  lemma ReachedFrom(sets: seq<Table>, i: nat)
    requires i < |sets|
    ensures
      var rules := Texted(sets[i].rules);
      Reached(sets[i..]) ==
        [sets[i].(rules := rules)] + if rules == sets[i].rules then Reached(sets[i + 1..]) else []
  {
    hide Texted;
    assert sets[i..][0] == sets[i] && sets[i..][1..] == sets[i + 1..];
  }

  lemma OneMoreFile(files: seq<string>, i: nat, text: string, texts: seq<string>)
    requires i + 1 + |texts| <= |files|
    ensures
      var files' := files[i := text];
      files'[..i + 1] + texts + files'[i + 1 + |texts|..]
        == files[..i] + ([text] + texts) + files[i + |[text] + texts|..]
  {
  }

  lemma SavedCons(first: Table, rest: seq<Table>)
    requires Serialize(first.rules).Ok? && SaveAll(rest).Ok?
    ensures SaveAll([first] + rest) == Ok([Serialize(first.rules).value] + SaveAll(rest).value)
  {
    assert ([first] + rest)[1..] == rest;
  }

  /** Loading files in two parts, the second with the counter as the first part left it. */
  lemma {:induction false} LoadInTwoParts(acc: Acceptor, a: seq<string>, b: seq<string>, default: Target, next: nat)
    ensures LoadAll(acc, a + b, default, next) ==
      match LoadAll(acc, a, default, next)
      case Err => Err
      case Ok(st) =>
        match LoadAll(acc, b, default, st.next)
        case Err => Err
        case Ok(more) => Ok(State(st.sets + more.sets, more.next))
    decreases |a|
  {
    hide Load, Lines;
    if a == [] {
      assert a + b == b;
      if LoadAll(acc, b, default, next).Ok? {
        assert [] + LoadAll(acc, b, default, next).value.sets == LoadAll(acc, b, default, next).value.sets;
      }
    } else {
      var loaded := Load(acc, Lines(a[0]), [], next);
      assert (a + b)[0] == a[0] && (a + b)[1..] == a[1..] + b;
      LoadInTwoParts(acc, a[1..], b, default, loaded.next);
      var first, tail := [Table(loaded.rules, default)], LoadAll(acc, a[1..], default, loaded.next);
      if tail.Ok? && LoadAll(acc, b, default, tail.value.next).Ok? {
        var more := LoadAll(acc, b, default, tail.value.next).value;
        assert first + (tail.value.sets + more.sets) == (first + tail.value.sets) + more.sets;
      }
    }
  }

  /** What was written is on one line for each rule, and the files that were not reached still load. */
  predicate FilesLoad(acc: Acceptor, files: seq<string>, sets: seq<Table>, default: Target)
    requires |files| == |sets|
  {
    var w := Reached(sets);
    OneLineAll(w) && LoadAll(acc, files[|w|..], default, Offset(w, ROOT_ID + 1, |w|)).Ok?
  }

  /**
   * Exactly then the files load after a save of `sets` over `files`, and then the policy begins with the
   * rule sets that were reached.
   */
  lemma LoadsIff(acc: Acceptor, files: seq<string>, sets: seq<Table>, default: Target)
    requires |files| == |sets| && SavableAll(acc, Reached(sets)) && 1 + Total(Reached(sets)) < LAST_ID
    ensures
      var again := LoadAll(acc, SaveFiles(files, sets, 0).1, default, ROOT_ID + 1);
      && (again.Ok? <==> FilesLoad(acc, files, sets, default))
      && (again.Ok? ==> BeginsWith(again.value.sets, Reached(sets), default))
  {
    hide SaveFiles, SaveAll, LoadAll, Reached, OneLineAll, SavableAll, StorableAll, IsReloaded, Offset;
    var w := Reached(sets);
    assert sets[0..] == sets;
    FilesAfterSave(files, sets, 0);
    var texts := SaveAll(w).value;
    assert files[..0] + texts == texts;
    LoadInTwoParts(acc, texts, files[|w|..], default, 1);
    if OneLineAll(w) {
      SavableAndOneLine(acc, w);
      PolicyReadBack(acc, w, default, 1);
      assert LoadAll(acc, texts, default, 1).value.next == Offset(w, 1, |w|) by {
        ReloadedNext(LoadAll(acc, texts, default, 1).value, w, default, 1);
      }
    } else {
      PolicyWithLineFeedFails(acc, w, default, 1);
    }
  }

  /** The policy `sets` begins with rule sets that are `w` reloaded. */
  ghost predicate BeginsWith(sets: seq<Table>, w: seq<Table>, default: Target) {
    exists st: State, more: seq<Table> :: sets == st.sets + more && IsReloaded(st, w, default, ROOT_ID + 1)
  }

  lemma ReloadedNext(st: State, sets: seq<Table>, default: Target, next: nat)
    requires IsReloaded(st, sets, default, next)
    ensures st.next == Offset(sets, next, |sets|)
  {
  }

  lemma SavableAndOneLine(acc: Acceptor, sets: seq<Table>)
    requires SavableAll(acc, sets) && OneLineAll(sets)
    ensures StorableAll(acc, sets)
  {
    hide AllSavable, AllOneLine, Storable;
    forall i | 0 <= i < |sets| ensures Storable(acc, sets[i].rules) {
      SavableIsStorable(acc, sets[i].rules);
    }
  }

  /** Rule sets in which every rule has a text are reached in full. */
  lemma {:induction false} ReachedInFull(sets: seq<Table>, n: nat)
    requires n <= |sets| && forall i :: 0 <= i < n ==> Texted(sets[i].rules) == sets[i].rules
    ensures n <= |Reached(sets)| && Reached(sets)[..n] == sets[..n]
    ensures n < |sets| ==> n < |Reached(sets)|
  {
    hide Texted;
    if n > 0 {
      assert forall i :: 0 <= i < n - 1 ==> sets[1..][i] == sets[i + 1];
      ReachedInFull(sets[1..], n - 1);
      assert Reached(sets) == [sets[0]] + Reached(sets[1..]);
      assert sets[..n] == [sets[0]] + sets[1..][..n - 1];
    }
  }

  /** Rules that were reached are rules of the policy with a text. */
  lemma {:induction false} ReachedIsPart(sets: seq<Table>, i: nat)
    requires i < |Reached(sets)|
    ensures Reached(sets)[i] == sets[i].(rules := Texted(sets[i].rules))
  {
    hide Texted;
    if i > 0 {
      assert Texted(sets[0].rules) == sets[0].rules && Reached(sets)[i] == Reached(sets[1..])[i - 1];
      ReachedIsPart(sets[1..], i - 1);
    }
  }

  lemma {:induction false} ReachedIsSmaller(sets: seq<Table>)
    ensures Total(Reached(sets)) <= Total(sets)
  {
    hide Texted;
    if sets != [] {
      ReachedIsSmaller(sets[1..]);
      assert Reached(sets)[1..] == [] || Reached(sets)[1..] == Reached(sets[1..]);
    }
  }
}
