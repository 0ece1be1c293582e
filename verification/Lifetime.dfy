/** A policy over its life: loaded from rule files, changed, saved by a decision and loaded again. */
module Lifetime {
  import opened Text
  import opened Matching
  import opened Rules
  import opened Printer
  import opened Grammar
  import opened RoundTrip
  import opened Reprint
  import opened PolicyState
  import opened PolicyLaws
  import opened Decisions
  import opened Devices
  import opened Daemon
  import opened Permanence
  import opened RuleFile
  import opened Restart
  import opened EachRule
  import opened Saving

  // ----- A line without a line feed gives a rule without one

  lemma TailIsFree(s: string, rest: string)
    requires '\n' !in s && IsTail(s, rest)
    ensures '\n' !in rest
  {
  }

  lemma FreeImplementation(acc: Acceptor, text: string)
    requires '\n' !in text && GetImplementation(acc, text).Ok?
    ensures '\n' !in GetImplementation(acc, text).value.parameter
  {
    hide KindFromIdentifier;
  }

  lemma FreePlainCondition(acc: Acceptor, bang: string, s: string)
    requires '\n' !in s && '\n' !in bang && ParsePlainCondition(acc, bang, s).Read?
    ensures !HasLineFeed(ParsePlainCondition(acc, bang, s).value)
  {
    hide GetImplementation;
    var id := ConditionIdentifier(s);
    var argument := BoundedString('(', ')', id.rest);
    TailOfConcat(id.value, id.rest);
    assert '\n' !in id.value && '\n' !in id.rest;
    if argument.Read? {
      assert id.rest == argument.value + argument.rest;
      assert '\n' !in argument.value;
      FreeImplementation(acc, bang + id.value + argument.value);
    } else {
      FreeImplementation(acc, bang + id.value);
    }
  }

  lemma FreeValue(acc: Acceptor, k: Key, s: string)
    requires '\n' !in s && ParseValue(acc, k, s).Read?
    ensures !HasLineFeed(ParseValue(acc, k, s).value) && '\n' !in ParseValue(acc, k, s).rest
  {
    hide ParseString, ParseDeviceId, ParseInterface, ParsePlainCondition;
    TailIsFree(s, ParseValue(acc, k, s).rest);
    if k == If {
      if StartsWith(s, "!") {
        FreePlainCondition(acc, "!", s[1..]);
      } else {
        FreePlainCondition(acc, "", s);
      }
    }
  }

  predicate AllFree(vs: seq<Value>) {
    forall i :: 0 <= i < |vs| ==> !HasLineFeed(vs[i])
  }

  lemma {:induction false} FreeMoreValues(acc: Acceptor, k: Key, soFar: seq<Value>, s: string)
    requires '\n' !in s && AllFree(soFar) && MoreValues(acc, k, soFar, s).Read?
    ensures AllFree(MoreValues(acc, k, soFar, s).value)
    decreases |s|
  {
    hide ParseValue, SkipBlanks, IsTail, HasLineFeed;
    if BlankAhead(s) && ParseValue(acc, k, SkipBlanks(s)).Read? {
      var v := ParseValue(acc, k, SkipBlanks(s));
      TailIsFree(s, SkipBlanks(s));
      FreeValue(acc, k, SkipBlanks(s));
      FreeMoreValues(acc, k, soFar + [v.value], v.rest);
    }
  }

  lemma FreeBraces(acc: Acceptor, k: Key, s: string)
    requires '\n' !in s
    ensures ParseBraces(acc, k, s).Read? ==> AllFree(ParseBraces(acc, k, s).value)
  {
    hide ParseValue, MoreValues, SkipBlanks, IsTail, HasLineFeed;
    if ParseBraces(acc, k, s).Read? {
      TailIsFree(s, SkipBlanks(s));
      FreeValue(acc, k, SkipBlanks(s));
      var v := ParseValue(acc, k, SkipBlanks(s));
      FreeMoreValues(acc, k, [v.value], v.rest);
    }
  }

  lemma FreeBody(acc: Acceptor, k: Key, s: string)
    requires '\n' !in s
    ensures var r := ParseBody(acc, k, s); r.Read? ==> AllFree(r.value.values) && '\n' !in r.rest
  {
    hide ParseValue, ParseBraces, ParseOperator, HasLineFeed;
    if ParseBody(acc, k, s).Read? {
      TailIsFree(s, ParseBody(acc, k, s).rest);
      if ParseMultiset(acc, k, s).Read? {
        var op := ParseOperator(0, s);
        if op.Read? && BlankAhead(op.rest) {
          TailIsFree(s, op.rest);
          TailIsFree(op.rest, SkipBlanks(op.rest));
          FreeBraces(acc, k, SkipBlanks(op.rest)[1..]);
        } else {
          FreeBraces(acc, k, s[1..]);
        }
      } else {
        FreeValue(acc, k, s);
      }
    }
  }

  lemma {:induction false} FreeAttribute(acc: Acceptor, i: nat, s: string)
    requires '\n' !in s
    ensures var r := ParseAttribute(acc, i, s); r.Read? ==> AllFree(r.value.1.values) && '\n' !in r.rest
    decreases |GRAMMAR_ORDER| - i
  {
    hide AllFree, ParseBody, Keyword, GRAMMAR_ORDER;
    if ParseAttribute(acc, i, s).Read? {
      var k := GRAMMAR_ORDER[i];
      var t := s[if |Keyword(k)| <= |s| then |Keyword(k)| else 0..];
      if StartsWith(s, Keyword(k)) && BlankAhead(t) && ParseBody(acc, k, SkipBlanks(t)).Read? {
        TailIsFree(t, SkipBlanks(t));
        FreeBody(acc, k, SkipBlanks(t));
      } else {
        FreeAttribute(acc, i + 1, s);
      }
    }
  }

  lemma InstallKeepsFree(r: Rule, k: Key, b: Body)
    requires AllFree(r.conditions.values) && AllFree(b.values) && Install(r, k, b).Ok?
    ensures AllFree(Install(r, k, b).value.conditions.values)
  {
    hide HasLineFeed;
    assert Get(r, If) == r.conditions && Get(Install(r, k, b).value, If) == Install(r, k, b).value.conditions;
  }

  lemma {:induction false} FreeAttributes(acc: Acceptor, r: Rule, s: string)
    requires '\n' !in s && AllFree(r.conditions.values) && ParseAttributes(acc, r, s).Ok?
    ensures AllFree(ParseAttributes(acc, r, s).value.0.conditions.values)
    decreases |s|
  {
    hide AllFree, Install, ParseAttribute;
    if BlankAhead(s) && ParseAttribute(acc, 0, SkipBlanks(s)).Read? {
      var t := SkipBlanks(s);
      TailIsFree(s, t);
      FreeAttribute(acc, 0, t);
      var a := ParseAttribute(acc, 0, t);
      InstallKeepsFree(r, a.value.0, a.value.1);
      FreeAttributes(acc, Install(r, a.value.0, a.value.1).value, a.rest);
    }
  }

  lemma FreeRuleBody(acc: Acceptor, target: Target, s: string)
    requires '\n' !in s
    ensures ParseRuleBody(acc, target, s).Ok? ==> OneLine(ParseRuleBody(acc, target, s).value)
  {
    hide ParseAttributes, ParseDeviceId;
    if ParseRuleBody(acc, target, s).Ok? {
      var rule := NEW_RULE.(target := target);
      var id := if BlankAhead(s) then ParseDeviceId(SkipBlanks(s)) else NoMatch;
      if id.Read? {
        TailIsFree(s, SkipBlanks(s));
        TailIsFree(SkipBlanks(s), id.rest);
        FreeAttributes(acc, rule.(deviceId := Attribute(Equals, [id.value])), id.rest);
      } else {
        FreeAttributes(acc, rule, s);
      }
    }
  }

  /** A text without a line feed gives a rule on one line. */
  lemma ParsedIsOneLine(acc: Acceptor, text: string)
    requires '\n' !in text
    ensures ParseRule(acc, text).Ok? ==> OneLine(ParseRule(acc, text).value)
  {
    hide ParseRuleBody;
    var s := SkipBlanks(text);
    var t := ParseTarget(0, s);
    TailIsFree(text, s);
    if !IsComment(s) && t.Read? {
      TailIsFree(s, t.rest);
      FreeRuleBody(acc, t.value, t.rest);
    }
  }

  // ----- What the rules of a policy are

  /** What an empty text gives. */
  predicate IsNoRule(r: Rule) {
    r == NEW_RULE.(id := r.id)
  }

  /** Rules as the parser makes them. */
  ghost predicate FromText(acc: Acceptor, r: Rule) {
    IsNoRule(r) || Savable(acc, r)
  }

  lemma ParsedIsFromText(acc: Acceptor, text: Bytes)
    ensures ParseRule(acc, text).Ok? ==>
      FromText(acc, ParseRule(acc, text).value) && ParseRule(acc, text).value.id == DEFAULT_ID
  {
    hide ParseRule, ReadableSoFar, ReadableRule;
    if ParseRule(acc, text).Ok? {
      ParsedRule(acc, text);
      var r := ParseRule(acc, text).value;
      if r.target in TARGETS {
        SoFarIsReadable(acc, r);
      }
      SoFarHasNoId(acc, r);
    }
  }

  lemma SoFarHasNoId(acc: Acceptor, r: Rule)
    requires ReadableSoFar(acc, r)
    ensures r.id == DEFAULT_ID
  {
  }

  lemma IdDoesNotMatter(acc: Acceptor)
    ensures AnyId(r => FromText(acc, r)) && AnyId(r => OneLine(r))
  {
    forall r, i | FromText(acc, r) ensures FromText(acc, r.(id := i)) {
      assert forall k :: Get(r.(id := i), k) == Get(r, k);
    }
  }

  // ----- Whole lives

  /** What is done to a policy; any text can be appended, and devices take identifiers from its counter. */
  datatype Change =
    | DecideChange(devices: DeviceMap, id: nat, target: Target, portRules: bool)
    | AppendChange(text: Bytes, parent: nat)
    | RemoveChange(ruleId: nat)
    | DeviceIdChange

  function Changed(acc: Acceptor, st: State, c: Change): (r: State)
    requires st.sets != []
    ensures |r.sets| == |st.sets|
  {
    match c
    case DecideChange(devices, id, target, portRules) => Decide(acc, st, devices, id, target, portRules).1
    case AppendChange(text, parent) =>
      if ParseRule(acc, text).Err? then st else PolicyAppend(st, ParseRule(acc, text).value, parent).1
    case RemoveChange(id) => PolicyRemove(st, 0, id).1
    case DeviceIdChange => PolicyLaws.Step(st, DeviceIdOp).1
  }

  function Changes(acc: Acceptor, st: State, cs: seq<Change>): (r: State)
    requires st.sets != []
    ensures |r.sets| == |st.sets|
    decreases |cs|
  {
    if cs == [] then st else Changes(acc, Changed(acc, st, cs[0]), cs[1..])
  }

  /** The rule that a change brings into the policy, if any, has property `p`. */
  ghost predicate Brings(acc: Acceptor, c: Change, p: Rule -> bool) {
    match c
    case DecideChange(devices, id, target, portRules) =>
      id in devices && IsDecision(target) && DecisionRule(devices[id], devices, target, portRules).Ok? ==>
        p(Decided(devices[id], devices, target, portRules))
    case AppendChange(text, parent) => ParseRule(acc, text).Ok? ==> p(ParseRule(acc, text).value)
    case _ => true
  }

  /** A change keeps the identifiers in order, and a property of all rules that its own rule has. */
  lemma ChangeKeeps(acc: Acceptor, st: State, c: Change, p: Rule -> bool)
    requires Inv(st) && AnyId(p) && EachIn(p, st) && Brings(acc, c, p)
    ensures Inv(Changed(acc, st, c)) && EachIn(p, Changed(acc, st, c))
  {
    hide Inv, EachIn, AnyId, Decide, ParseRule, DecisionRule, PolicyUpsert, PolicyAppend, PolicyRemove;
    InvBounds(st);
    match c
    case DecideChange(devices, id, target, portRules) =>
      DecideKeepsInv(acc, st, devices, id, target, portRules);
      DecideIsUpsert(acc, st, devices, id, target, portRules);
      if id in devices && IsDecision(target) && DecisionRule(devices[id], devices, target, portRules).Ok? {
        PolicyUpsertKeeps(p, st, 0, Scanned(devices[id]), Decided(devices[id], devices, target, portRules), true);
      }
    case AppendChange(text, parent) =>
      ParsedIsFromText(acc, text);
      if ParseRule(acc, text).Ok? {
        PolicyAppendKeeps(p, st, ParseRule(acc, text).value, parent);
        GoodSteps(st, AppendOp(ParseRule(acc, text).value, parent));
      }
    case RemoveChange(id) =>
      PolicyRemoveKeeps(p, st, 0, id);
      GoodRemove(st, 0, id);
    case DeviceIdChange =>
      GoodSteps(st, DeviceIdOp);
      SameRules(p, st, PolicyLaws.Step(st, DeviceIdOp).1);
  }

  lemma SameRules(p: Rule -> bool, st: State, st': State)
    requires EachIn(p, st) && st'.sets == st.sets
    ensures EachIn(p, st')
  {
  }

  lemma {:induction false} ChangesKeep(acc: Acceptor, st: State, cs: seq<Change>, p: Rule -> bool)
    requires Inv(st) && AnyId(p) && EachIn(p, st) && forall i :: 0 <= i < |cs| ==> Brings(acc, cs[i], p)
    ensures Inv(Changes(acc, st, cs)) && EachIn(p, Changes(acc, st, cs))
    decreases |cs|
  {
    hide Inv, EachIn, AnyId, Brings, Changed;
    if cs != [] {
      InvBounds(st);
      ChangeKeeps(acc, st, cs[0], p);
      ChangesKeep(acc, Changed(acc, st, cs[0]), cs[1..], p);
    }
  }

  /** Every change brings a rule as the parser makes them. */
  lemma BringsFromText(acc: Acceptor, c: Change)
    ensures Brings(acc, c, r => FromText(acc, r))
  {
    hide ReadableRule, DecisionRule, ParseRule, FromText;
    match c
    case DecideChange(devices, id, target, portRules) =>
      if id in devices && IsDecision(target) && DecisionRule(devices[id], devices, target, portRules).Ok? {
        DecidedIsFromText(acc, devices[id], devices, target, portRules);
      }
    case AppendChange(text, parent) => ParsedIsFromText(acc, text);
    case _ =>
  }

  lemma DecidedIsFromText(acc: Acceptor, d: UsbDevice, devices: DeviceMap, target: Target, portRules: bool)
    requires IsDecision(target) && DecisionRule(d, devices, target, portRules).Ok?
    ensures FromText(acc, Decided(d, devices, target, portRules)) && OneLine(Decided(d, devices, target, portRules))
  {
    hide ReadableRule, DecisionRule, OneLine;
    var n := Decided(d, devices, target, portRules);
    DecidedIsStorable(acc, d, devices, target, portRules, DEFAULT_ID);
    assert n.(id := DEFAULT_ID) == n;
  }

  /** A change brings a rule on one line if no text with a line feed is appended. */
  lemma BringsOneLine(acc: Acceptor, c: Change)
    requires c.AppendChange? ==> '\n' !in c.text
    ensures Brings(acc, c, r => OneLine(r))
  {
    hide ReadableRule, DecisionRule, ParseRule, OneLine;
    match c
    case DecideChange(devices, id, target, portRules) =>
      if id in devices && IsDecision(target) && DecisionRule(devices[id], devices, target, portRules).Ok? {
        DecidedIsFromText(acc, devices[id], devices, target, portRules);
      }
    case AppendChange(text, parent) => ParsedIsOneLine(acc, text);
    case _ =>
  }

  // ----- The beginning: rule files

  predicate CleanLines(lines: seq<string>) {
    forall i :: 0 <= i < |lines| ==> IsBytes(lines[i]) && '\n' !in lines[i]
  }

  lemma {:induction false} LinesAreClean(text: Bytes)
    ensures CleanLines(Lines(text))
    decreases |text|
  {
    var end := FirstIndex('\n', text);
    if end.Some? {
      LinesAreClean(text[end.value + 1..]);
      assert forall i :: 0 < i < |Lines(text)| ==> Lines(text)[i] == Lines(text[end.value + 1..])[i - 1];
    }
  }

  /** The properties of the rules that are loaded from files. */
  ghost predicate Loadable(acc: Acceptor, r: Rule) {
    Savable(acc, r) && OneLine(r)
  }

  ghost predicate AllLoadable(acc: Acceptor, rules: seq<Rule>) {
    forall i :: 0 <= i < |rules| ==> Loadable(acc, rules[i])
  }

  lemma ParsedLineIsLoadable(acc: Acceptor, line: Bytes, id: nat)
    requires '\n' !in line
    ensures var r := ParseRule(acc, line);
      r.Ok? && HoldsRule(r.value) ==> Loadable(acc, r.value.(id := id)) && r.value.id == DEFAULT_ID
  {
    hide ParseRule, ReadableRule, OneLine;
    ParsedIsFromText(acc, line);
    ParsedIsOneLine(acc, line);
    if ParseRule(acc, line).Ok? && HoldsRule(ParseRule(acc, line).value) {
      LoadableUnderAnyId(acc, ParseRule(acc, line).value, id);
    }
  }

  lemma LoadableUnderAnyId(acc: Acceptor, r: Rule, id: nat)
    requires FromText(acc, r) && HoldsRule(r) && OneLine(r)
    ensures Loadable(acc, r.(id := id))
  {
    assert forall k :: Get(r.(id := id), k) == Get(r, k);
  }

  /** Loading a file numbers its rules from the counter on, which is what keeps identifiers unique. */
  lemma {:induction false} LoadKeeps(acc: Acceptor, lines: seq<string>, rules: seq<Rule>, first: nat, next: nat)
    requires CleanLines(lines) && AllLoadable(acc, rules) && InSequence(rules, first, next) && next < LAST_ID
    ensures var r := Load(acc, lines, rules, next);
      AllLoadable(acc, r.rules) && InSequence(r.rules, first, r.next) && r.next < LAST_ID
    decreases |lines|
  {
    hide ParseRule, HoldsRule, Loadable, Append;
    if lines != [] && ParseRule(acc, lines[0]).Ok? {
      var rule := ParseRule(acc, lines[0]).value;
      if !HoldsRule(rule) {
        LoadKeeps(acc, lines[1..], rules, first, next);
      } else {
        ParsedLineIsLoadable(acc, lines[0], next);
        AppendIsNumbered(rules, next, rule);
        var o := Append(rules, next, rule, LAST_ID);
        LoadKeeps(acc, lines[1..], o.rules, first, o.next);
      }
    }
  }

  lemma AppendIsNumbered(rules: seq<Rule>, next: nat, rule: Rule)
    requires rule.id == DEFAULT_ID && 1 <= next < LAST_ID
    ensures Append(rules, next, rule, LAST_ID)
      == if next + 1 < LAST_ID then Outcome(Ok(next), rules + [rule.(id := next)], next + 1)
         else Outcome(Err, rules, next)
  {
    AssignValue(next);
  }

  /** The identifiers of the rules are `first`, `first + 1` and so on up to `next`. */
  predicate InSequence(rules: seq<Rule>, first: nat, next: nat) {
    1 <= first && next == first + |rules| && forall i :: 0 <= i < |rules| ==> rules[i].id == first + i
  }

  lemma {:induction false} SequenceIds(rules: seq<Rule>, first: nat, next: nat)
    requires InSequence(rules, first, next)
    ensures forall id :: id in multiset(Ids(rules)) ==> multiset(Ids(rules))[id] == 1 && first <= id < next
    decreases |rules|
  {
    var n := |rules| - 1;
    if rules == [] {
      assert Ids(rules) == [];
    } else {
      SequenceIds(rules[..n], first, next - 1);
      assert Ids(rules) == Ids(rules[..n]) + [next - 1];
    }
  }

  /** Identifiers of rule sets that were loaded from `next` on. */
  ghost predicate NumberedFrom(st: State, next: nat) {
    && next <= st.next && forall id :: id in AllIds(st.sets) ==> AllIds(st.sets)[id] == 1 && next <= id < st.next
  }

  lemma {:induction false} LoadAllKeeps(acc: Acceptor, files: seq<string>, default: Target, next: nat)
    requires (forall i :: 0 <= i < |files| ==> IsBytes(files[i])) && 1 <= next < LAST_ID
    ensures var r := LoadAll(acc, files, default, next);
      r.Ok? ==>
        && NumberedFrom(r.value, next) && r.value.next < LAST_ID
        && forall i :: 0 <= i < |files| ==> AllLoadable(acc, r.value.sets[i].rules)
    decreases |files|
  {
    hide Load, Lines, Loadable, AllLoadable, CleanLines, InSequence;
    if files != [] && LoadAll(acc, files, default, next).Ok? {
      var loaded := Load(acc, Lines(files[0]), [], next);
      LinesAreClean(files[0]);
      NothingYet(acc, next);
      LoadKeeps(acc, Lines(files[0]), [], next, next);
      SequenceBounds(loaded.rules, next, loaded.next);
      assert forall i :: 0 <= i < |files[1..]| ==> files[1..][i] == files[i + 1];
      LoadAllKeeps(acc, files[1..], default, loaded.next);
      var rest := LoadAll(acc, files[1..], default, loaded.next).value;
      var st := LoadAll(acc, files, default, next).value;
      assert st.sets[1..] == rest.sets && st.sets[0].rules == loaded.rules;
      SequenceIds(loaded.rules, next, loaded.next);
      assert AllIds(st.sets) == multiset(Ids(loaded.rules)) + AllIds(rest.sets);
    }
  }

  lemma NothingYet(acc: Acceptor, next: nat)
    requires 1 <= next
    ensures AllLoadable(acc, []) && InSequence([], next, next)
  {
  }

  lemma SequenceBounds(rules: seq<Rule>, first: nat, next: nat)
    requires InSequence(rules, first, next)
    ensures 1 <= first <= next
  {
  }

  // ----- Decisions at the end of a life

  /** A daemon that starts from the files answers lookups of the device with rule `n`, under some identifier. */
  predicate InForce(acc: Acceptor, files: seq<string>, default: Target, device: Rule, o: Oracle, n: Rule)
    requires files != []
  {
    var r := LoadAll(acc, files, default, ROOT_ID + 1);
    && r.Ok?
    && var answer := Lookup(r.value.sets, 0, device, o);
       answer.Ok? && answer.value == n.(id := answer.value.id)
  }

  predicate AllRules(sets: seq<Table>) {
    forall i :: 0 <= i < |sets| ==> NoneMissing(sets[i].rules)
  }

  predicate NoneMissing(rules: seq<Rule>) {
    forall j :: 0 <= j < |rules| ==> !IsNoRule(rules[j])
  }

  /** Of the rules that the parser makes, those of empty texts are the ones without a text. */
  lemma NoRuleHasNoText(acc: Acceptor, r: Rule)
    requires FromText(acc, r)
    ensures RuleText(r).Ok? <==> !IsNoRule(r)
  {
    hide AttributesText, ReadableRule;
    if IsBlankRule(r) {
      BlankLine(acc, r, "", [], 1);
    } else if ReadableRule(acc, r) {
      RuleLineFeed(acc, r);
    }
  }

  lemma TextedIff(acc: Acceptor, rules: seq<Rule>)
    requires Each(r => FromText(acc, r), rules)
    ensures Texted(rules) == rules <==> NoneMissing(rules)
    ensures AllSavable(acc, Texted(rules))
  {
    hide Savable, RuleText, IsNoRule, Texted;
    AllTexted(rules);
    forall i | 0 <= i < |rules| ensures RuleText(rules[i]).Ok? <==> !IsNoRule(rules[i]) {
      NoRuleHasNoText(acc, rules[i]);
    }
    forall i | 0 <= i < |Texted(rules)| ensures Savable(acc, Texted(rules)[i]) {
      TextedIsPart(rules, i);
      assert FromText(acc, rules[i]);
    }
  }

  /** What a save reaches of such a policy can be saved, and it is everything iff every rule has a text. */
  lemma ReachedIff(acc: Acceptor, st: State)
    requires EachIn(r => FromText(acc, r), st)
    ensures SavableAll(acc, Reached(st.sets)) && (Reached(st.sets) == st.sets <==> AllRules(st.sets))
  {
    hide Texted, Reached, FromText, AllSavable, NoneMissing;
    var w := Reached(st.sets);
    forall i | 0 <= i < |st.sets|
      ensures (Texted(st.sets[i].rules) == st.sets[i].rules <==> NoneMissing(st.sets[i].rules))
      ensures AllSavable(acc, Texted(st.sets[i].rules))
    {
      assert Each(r => FromText(acc, r), st.sets[i].rules);
      TextedIff(acc, st.sets[i].rules);
    }
    forall i | 0 <= i < |w| ensures w[i] == st.sets[i].(rules := Texted(st.sets[i].rules)) {
      ReachedIsPart(st.sets, i);
    }
    if AllRules(st.sets) {
      ReachedInFull(st.sets, |st.sets|);
      assert w[..|st.sets|] == w && st.sets[..|st.sets|] == st.sets;
    }
  }

  /** Up to the rule set of the decision, a successful decision leaves no rule without a text. */
  lemma DecisionLeavesTexts(acc: Acceptor, st: State, devices: DeviceMap, id: nat, target: Target, portRules: bool,
                            i: nat)
    requires Inv(st) && Decidable(st, devices, id, target, portRules) && i <= DecidedIn(st, Scanned(devices[id]))
    ensures NoneMissing(Decide(acc, st, devices, id, target, portRules).1.sets[i].rules)
  {
    hide Inv, Decide, DecisionRule, PolicyUpsert, AppliesTo, IsNoRule;
    InvBounds(st);
    var m, n := Scanned(devices[id]), Decided(devices[id], devices, target, portRules);
    DecideIsUpsert(acc, st, devices, id, target, portRules);
    UpsertCases(st, 0, m, n);
    var (r, st') := Decide(acc, st, devices, id, target, portRules);
    var rules := st.sets[i].rules;
    CountZero(rules, m, true);
    DecidedIsRule(devices[id], devices, target, portRules, r.value);
    forall j | 0 <= j < |st'.sets[i].rules| ensures !IsNoRule(st'.sets[i].rules[j]) {
      if j < |rules| && st'.sets[i].rules[j] == rules[j] && IsNoRule(rules[j]) {
        NoRuleApplies(rules[j], m);
        OnlyMatch(rules, m, true, j);
      }
    }
  }

  /** So all rules have a text after the decision if those in the rule sets behind it do. */
  lemma TextsBehind(acc: Acceptor, st: State, devices: DeviceMap, id: nat, target: Target, portRules: bool)
    requires Inv(st) && Decidable(st, devices, id, target, portRules)
    ensures AllRules(Decide(acc, st, devices, id, target, portRules).1.sets) <==>
      AllRules(Behind(st, Scanned(devices[id])))
  {
    hide Inv, Decide, DecisionRule, PolicyUpsert, AppliesTo, NoneMissing, DecidedAt, UpsertWorks;
    InvBounds(st);
    var m := Scanned(devices[id]);
    var sets, k, behind := Decide(acc, st, devices, id, target, portRules).1.sets, DecidedIn(st, m), Behind(st, m);
    DecideIsUpsert(acc, st, devices, id, target, portRules);
    UpsertedRules(st, m, Decided(devices[id], devices, target, portRules));
    assert forall i :: 0 <= i < |behind| ==> behind[i] == sets[k + 1 + i];
    assert forall i :: k < i < |sets| ==> sets[i] == behind[i - k - 1];
    forall i | 0 <= i <= k ensures NoneMissing(sets[i].rules) {
      DecisionLeavesTexts(acc, st, devices, id, target, portRules, i);
    }
  }

  /** In a policy with one rule set a successful decision leaves no rule without a text. */
  lemma OneSetHasRules(acc: Acceptor, st: State, devices: DeviceMap, id: nat, target: Target, portRules: bool)
    requires Inv(st) && |st.sets| == 1 && Decidable(st, devices, id, target, portRules)
    ensures AllRules(Decide(acc, st, devices, id, target, portRules).1.sets)
  {
    hide Inv, Decide, DecisionRule, UpsertWorks, NoneMissing;
    TextsBehind(acc, st, devices, id, target, portRules);
  }

  lemma NoRuleApplies(r: Rule, m: Rule)
    requires IsNoRule(r)
    ensures AppliesTo(r, m, true)
  {
  }

  lemma DecidedIsRule(d: UsbDevice, devices: DeviceMap, target: Target, portRules: bool, id: nat)
    requires IsDecision(target) && DecisionRule(d, devices, target, portRules).Ok?
    ensures !IsNoRule(Decided(d, devices, target, portRules).(id := id))
  {
  }

  /** A decision keeps the policy one of rules as the parser makes them. */
  lemma DecisionKeepsTexts(acc: Acceptor, st: State, devices: DeviceMap, id: nat, target: Target, portRules: bool)
    requires Inv(st) && EachIn(r => FromText(acc, r), st)
    ensures
      var st' := Decide(acc, st, devices, id, target, portRules).1;
      && Inv(st') && EachIn(r => FromText(acc, r), st')
      && SavableAll(acc, Reached(st'.sets)) && (Reached(st'.sets) == st'.sets <==> AllRules(st'.sets))
  {
    hide Inv, EachIn, AnyId, Decide, FromText, Reached, SavableAll, AllRules;
    var c := DecideChange(devices, id, target, portRules);
    IdDoesNotMatter(acc);
    BringsFromText(acc, c);
    assert st.sets != [] by { InvBounds(st); }
    ChangeKeeps(acc, st, c, r => FromText(acc, r));
    ReachedIff(acc, Decide(acc, st, devices, id, target, portRules).1);
  }

  /**
   * With a rule file, upsertDeviceRule reports success exactly if the decision can be made and every rule
   * in the rule sets behind it has a text.  Otherwise it fails, but a decision that could be made has then
   * been put into the policy all the same.
   */
  lemma DecisionIsStoredIff(acc: Acceptor, st: State, devices: DeviceMap, id: nat, target: Target, portRules: bool,
                            files: seq<string>)
    requires Inv(st) && EachIn(r => FromText(acc, r), st) && |files| == |st.sets|
    ensures
      var done := Decide(acc, st, devices, id, target, portRules);
      var (r, files') := Stored(files, done, true);
      && (r.Ok? <==> Decidable(st, devices, id, target, portRules) && AllRules(Behind(st, Scanned(devices[id]))))
      && (r.Ok? ==> r == done.0 && AllRules(done.1.sets))
      && (Decidable(st, devices, id, target, portRules) ==> done.0.Ok?)
      && (!Decidable(st, devices, id, target, portRules) ==> done.1 == st && files' == files)
  {
    hide Inv, EachIn, Decide, DecisionRule, UpsertWorks, FromText, Reached, SavableAll, AllRules, SaveFiles, Behind;
    DecisionSucceedsIff(acc, st, devices, id, target, portRules);
    if Decidable(st, devices, id, target, portRules) {
      DecisionKeepsTexts(acc, st, devices, id, target, portRules);
      TextsBehind(acc, st, devices, id, target, portRules);
      var sets := Decide(acc, st, devices, id, target, portRules).1.sets;
      FilesAfterSave(files, sets, 0);
      assert sets[0..] == sets;
    }
  }

  /**
   * In a policy of rules as the parser makes them, a decision that could be made is in force after a
   * restart exactly if the files load, whether or not the save was complete.  They load exactly if what
   * was written is on one line for each rule and the files that were not reached load.
   */
  lemma DecisionSurvivesIff(acc: Acceptor, st: State, devices: DeviceMap, id: nat, target: Target, portRules: bool,
                            files: seq<string>, default: Target, device: Rule, o: Oracle)
    requires Inv(st) && EachIn(r => FromText(acc, r), st) && |files| == |st.sets|
    requires Decidable(st, devices, id, target, portRules) && InReach(device, devices[id], devices, target, portRules)
    ensures
      var done := Decide(acc, st, devices, id, target, portRules);
      var (r, files') := Stored(files, done, true);
      var inForce := InForce(acc, files', default, device, o, Decided(devices[id], devices, target, portRules));
      && (inForce <==> LoadAll(acc, files', default, ROOT_ID + 1).Ok?)
      && (inForce <==> FilesLoad(acc, files, done.1.sets, default))
      && (r.Ok? ==> (inForce <==> OneLineAll(done.1.sets)))
  {
    hide Inv, EachIn, Decide, Lookup, UpsertWorks, DecisionRule, InReach, AllRules, OneLineAll, FromText, Reached,
      SavableAll, SaveFiles, LoadAll, BeginsWith, FilesLoad, Behind;
    InvBounds(st);
    var (r, st') := Decide(acc, st, devices, id, target, portRules);
    var w := Reached(st'.sets);
    DecisionSucceedsIff(acc, st, devices, id, target, portRules);
    DecisionKeepsTexts(acc, st, devices, id, target, portRules);
    FewRules(st');
    ReachedIsSmaller(st'.sets);
    LoadsIff(acc, files, st'.sets, default);
    var again := LoadAll(acc, SaveFiles(files, st'.sets, 0).1, default, 1);
    if again.Ok? {
      LoadsOneLine(acc, files, st'.sets, default);
      BeginningAnswers(acc, st, devices, id, target, portRules, again.value.sets, default, device, o);
    }
    DecisionIsStoredIff(acc, st, devices, id, target, portRules, files);
    if w == st'.sets {
      NothingUnreached(acc, files, st'.sets, default);
    }
  }

  lemma LoadsOneLine(acc: Acceptor, files: seq<string>, sets: seq<Table>, default: Target)
    requires |files| == |sets| && FilesLoad(acc, files, sets, default)
    ensures OneLineAll(Reached(sets))
  {
  }

  lemma NothingUnreached(acc: Acceptor, files: seq<string>, sets: seq<Table>, default: Target)
    requires |files| == |sets| && Reached(sets) == sets
    ensures FilesLoad(acc, files, sets, default) <==> OneLineAll(sets)
  {
  }

  /** The rule of the decision is in the part that a save reaches, and answers from there. */
  lemma BeginningAnswers(acc: Acceptor, st: State, devices: DeviceMap, id: nat, target: Target, portRules: bool,
                         again: seq<Table>, default: Target, device: Rule, o: Oracle)
    requires Inv(st) && EachIn(r => FromText(acc, r), st) && again != []
    requires Decidable(st, devices, id, target, portRules) && InReach(device, devices[id], devices, target, portRules)
    requires var w := Reached(Decide(acc, st, devices, id, target, portRules).1.sets);
      OneLineAll(w) && BeginsWith(again, w, default)
    ensures
      var answer := Lookup(again, 0, device, o);
      answer.Ok? && answer.value == Decided(devices[id], devices, target, portRules).(id := answer.value.id)
  {
    hide Inv, EachIn, Decide, Lookup, UpsertWorks, DecisionRule, InReach, FromText, OneLineAll, Reached, SavableAll,
      StorableAll, IsReloaded, FirstToMatch, Normal, ReadableRule, DecidedIn, DecidedAt;
    InvBounds(st);
    var (r, st') := Decide(acc, st, devices, id, target, portRules);
    var w, m := Reached(st'.sets), Scanned(devices[id]);
    var k, p := DecidedIn(st, m), DecidedAt(st, m);
    DecisionKeepsTexts(acc, st, devices, id, target, portRules);
    SavableAndOneLine(acc, w);
    FewRules(st');
    ReachedIsSmaller(st'.sets);
    DecidedIsFirst(acc, st, devices, id, target, portRules, device);
    DecisionIsReached(acc, st, devices, id, target, portRules);
    FirstInBeginning(st'.sets, w, k, p, device);
    var s: State, more: seq<Table> :| again == s.sets + more && IsReloaded(s, w, default, ROOT_ID + 1);
    FirstInReloaded(acc, w, k, p, s, more, default, device, o);
    DecidedIsStorable(acc, devices[id], devices, target, portRules, r.value);
  }

  lemma DecisionIsReached(acc: Acceptor, st: State, devices: DeviceMap, id: nat, target: Target, portRules: bool)
    requires Inv(st) && EachIn(r => FromText(acc, r), st) && Decidable(st, devices, id, target, portRules)
    ensures
      var sets := Decide(acc, st, devices, id, target, portRules).1.sets;
      var n := DecidedIn(st, Scanned(devices[id])) + 1;
      n <= |Reached(sets)| && n <= |sets| && Reached(sets)[..n] == sets[..n]
  {
    hide Inv, Decide, UpsertWorks, DecisionRule, FromText, Reached, Texted, NoneMissing, SavableAll;
    InvBounds(st);
    var st' := Decide(acc, st, devices, id, target, portRules).1;
    var n := DecidedIn(st, Scanned(devices[id])) + 1;
    DecisionKeepsTexts(acc, st, devices, id, target, portRules);
    forall i | 0 <= i < n ensures Texted(st'.sets[i].rules) == st'.sets[i].rules {
      DecisionLeavesTexts(acc, st, devices, id, target, portRules, i);
      assert Each(r => FromText(acc, r), st'.sets[i].rules);
      TextedIff(acc, st'.sets[i].rules);
    }
    ReachedInFull(st'.sets, n);
  }

  lemma FirstInBeginning(sets: seq<Table>, w: seq<Table>, k: nat, p: nat, device: Rule)
    requires FirstToMatch(sets, k, p, device) && k < |w| && w[..k + 1] == sets[..k + 1]
    ensures FirstToMatch(w, k, p, device) && w[k] == sets[k]
  {
    hide AppliesTo, NoneApplies, IsBlankRule;
    forall i | 0 <= i <= k ensures w[i] == sets[i] {
      assert w[..k + 1][i] == sets[..k + 1][i];
    }
  }

  /** A rule for every device, and behind it the rule of an empty text. */
  function OpenThenEmpty(default: Target): (st: State) {
    State([Table([NEW_RULE.(target := Allow, id := 1)], default), Table([NEW_RULE.(id := 2)], default)], 3)
  }

  /**
   * In this policy every decision about a device fails, because the policy cannot be saved, and yet it has
   * changed the policy and is in force after a restart.
   */
  lemma FailureWithEffect(acc: Acceptor, devices: DeviceMap, id: nat, target: Target, portRules: bool,
                          files: seq<string>, default: Target, device: Rule, o: Oracle)
    requires id in devices && IsDecision(target) && DecisionRule(devices[id], devices, target, portRules).Ok?
    requires InReach(device, devices[id], devices, target, portRules) && |files| == 2
    ensures
      var st := OpenThenEmpty(default);
      var done := Decide(acc, st, devices, id, target, portRules);
      var (r, files') := Stored(files, done, true);
      && Decidable(st, devices, id, target, portRules) && r == Err && done.1 != st
      && InForce(acc, files', default, device, o, Decided(devices[id], devices, target, portRules))
  {
    hide Decide, Lookup, DecisionRule, InReach, SaveFiles, LoadAll, InForce, FilesLoad, Stored, FromText;
    var st, m := OpenThenEmpty(default), Scanned(devices[id]);
    OpenThenEmptyIsGood(acc, default, m);
    DecisionIsStoredIff(acc, st, devices, id, target, portRules, files);
    assert Behind(st, m) == st.sets[1..] && IsNoRule(st.sets[1..][0].rules[0]);
    DecisionSurvivesIff(acc, st, devices, id, target, portRules, files, default, device, o);
    OpenIsReplaced(acc, devices, id, target, portRules, files, default);
  }

  lemma OpenThenEmptyIsGood(acc: Acceptor, default: Target, m: Rule)
    ensures var st := OpenThenEmpty(default);
      Inv(st) && EachIn(r => FromText(acc, r), st) && UpsertWorks(st, m) && ScanEnd(st.sets, 0, m) == 0
        && MatchIndex(st.sets[0].rules, m, true) == 0
  {
    var st := OpenThenEmpty(default);
    var rules := st.sets[0].rules;
    assert AppliesTo(rules[0], m, true) && CountMatches(rules[1..], m, true) == 0;
    assert Ids(rules) == [1] && Ids(st.sets[1].rules) == [2];
    assert st.sets[1..][1..] == [] && AllIds(st.sets[1..]) == multiset{2} + multiset{};
    assert AllIds(st.sets) == multiset{1} + multiset{2};
    assert ReadableRule(acc, rules[0]);
    assert IsNoRule(st.sets[1].rules[0]);
  }

  lemma OpenIsReplaced(acc: Acceptor, devices: DeviceMap, id: nat, target: Target, portRules: bool,
                       files: seq<string>, default: Target)
    requires id in devices && IsDecision(target) && DecisionRule(devices[id], devices, target, portRules).Ok?
    requires |files| == 2
    ensures
      var st := OpenThenEmpty(default);
      var sets := Decide(acc, st, devices, id, target, portRules).1.sets;
      sets != st.sets && FilesLoad(acc, files, sets, default)
  {
    hide Decide, PolicyUpsert, LoadAll, FromText, Reached, OneLineAll, ReadableRule, Normal, OneLine;
    var st, m, n := OpenThenEmpty(default), Scanned(devices[id]), Decided(devices[id], devices, target, portRules);
    OpenThenEmptyIsGood(acc, default, m);
    DecideIsUpsert(acc, st, devices, id, target, portRules);
    UpsertCases(st, 0, m, n);
    var sets := Decide(acc, st, devices, id, target, portRules).1.sets;
    assert sets[0].rules == [n.(id := 1)] && sets[1] == st.sets[1];
    assert n.deviceId.values != [];
    DecidedIsStorable(acc, devices[id], devices, target, portRules, 1);
    RuleThenNoRule(acc, n.(id := 1), sets);
    NothingToLoad(acc, files[2..], default, Offset(Reached(sets), 1, 2));
  }

  lemma RuleThenNoRule(acc: Acceptor, n: Rule, sets: seq<Table>)
    requires ReadableRule(acc, n) && OneLine(n)
    requires |sets| == 2 && sets[0].rules == [n] && |sets[1].rules| == 1 && IsNoRule(sets[1].rules[0])
    ensures Reached(sets) == [sets[0], sets[1].(rules := [])] && OneLineAll(Reached(sets))
  {
    hide RuleText, ReadableRule, OneLine, IsNoRule;
    RuleLineFeed(acc, n);
    NoRuleHasNoText(acc, sets[1].rules[0]);
    AllTexted(sets[0].rules);
    assert Texted(sets[0].rules) == sets[0].rules && Texted(sets[1].rules) == [];
    assert sets[1..] == [sets[1]] && Reached(sets[1..]) == [sets[1].(rules := [])];
    assert AllOneLine(sets[0].rules) && AllOneLine([]);
  }

  lemma NothingToLoad(acc: Acceptor, files: seq<string>, default: Target, next: nat)
    requires files == []
    ensures LoadAll(acc, files, default, next).Ok?
  {
  }

  lemma LoadedIsFine(acc: Acceptor, files: seq<string>, default: Target)
    requires files != [] && forall i :: 0 <= i < |files| ==> IsBytes(files[i])
    ensures var r := LoadAll(acc, files, default, ROOT_ID + 1);
      r.Ok? ==> Inv(r.value) && EachIn(x => FromText(acc, x), r.value) && EachIn(x => OneLine(x), r.value)
  {
    hide LoadAll, Savable, OneLine, IsNoRule;
    LoadAllKeeps(acc, files, default, 1);
    if LoadAll(acc, files, default, 1).Ok? {
      var st := LoadAll(acc, files, default, 1).value;
      forall i | 0 <= i < |st.sets|
        ensures Each(x => FromText(acc, x), st.sets[i].rules) && Each(x => OneLine(x), st.sets[i].rules)
      {
        assert AllLoadable(acc, st.sets[i].rules);
      }
    }
  }

  /**
   * Whatever rule files a daemon starts from, whatever is then done to its policy and whatever the files
   * hold by then: a decision that could be made is in force after the save and a restart exactly if the
   * files load.  If the save was complete, which it is with one rule file, only line feeds matter.
   */
  lemma DecisionsOutliveTheDaemon(acc: Acceptor, files: seq<string>, default: Target, cs: seq<Change>, now: seq<string>,
                                  devices: DeviceMap, id: nat, target: Target, portRules: bool, device: Rule, o: Oracle)
    requires files != [] && (forall i :: 0 <= i < |files| ==> IsBytes(files[i])) && |now| == |files|
    ensures
      var start := LoadAll(acc, files, default, ROOT_ID + 1);
      start.Ok? ==>
        var done := Decide(acc, Changes(acc, start.value, cs), devices, id, target, portRules);
        var (r, files') := Stored(now, done, true);
        done.0.Ok? && InReach(device, devices[id], devices, target, portRules) ==>
          var inForce := InForce(acc, files', default, device, o, Decided(devices[id], devices, target, portRules));
          && (inForce <==> LoadAll(acc, files', default, ROOT_ID + 1).Ok?)
          && (inForce <==> FilesLoad(acc, now, done.1.sets, default))
          && (r.Ok? ==> (inForce <==> OneLineAll(done.1.sets)))
          && (|files| == 1 ==> r.Ok?)
  {
    hide Inv, EachIn, AnyId, Decide, Changes, LoadAll, InForce, InReach, UpsertWorks, DecisionRule, AllRules,
      OneLineAll, Brings, FromText, FilesLoad, Stored, Behind;
    LoadedIsFine(acc, files, default);
    IdDoesNotMatter(acc);
    var start := LoadAll(acc, files, default, ROOT_ID + 1);
    if start.Ok? {
      forall i | 0 <= i < |cs| ensures Brings(acc, cs[i], r => FromText(acc, r)) {
        BringsFromText(acc, cs[i]);
      }
      InvBounds(start.value);
      ChangesKeep(acc, start.value, cs, r => FromText(acc, r));
      var before := Changes(acc, start.value, cs);
      DecisionSucceedsIff(acc, before, devices, id, target, portRules);
      if Decidable(before, devices, id, target, portRules) && InReach(device, devices[id], devices, target, portRules) {
        DecisionSurvivesIff(acc, before, devices, id, target, portRules, now, default, device, o);
        DecisionIsStoredIff(acc, before, devices, id, target, portRules, now);
        TextsBehind(acc, before, devices, id, target, portRules);
        if |files| == 1 {
          OneSetHasRules(acc, before, devices, id, target, portRules);
        }
      }
    }
  }

  /** As long as no text with a line feed is appended, every stored rule stays on one line. */
  lemma OneLineForLife(acc: Acceptor, files: seq<string>, default: Target, cs: seq<Change>)
    requires files != [] && forall i :: 0 <= i < |files| ==> IsBytes(files[i])
    requires forall i :: 0 <= i < |cs| && cs[i].AppendChange? ==> '\n' !in cs[i].text
    ensures
      var start := LoadAll(acc, files, default, ROOT_ID + 1);
      start.Ok? ==> OneLineAll(Changes(acc, start.value, cs).sets)
  {
    hide Inv, AnyId, Changes, LoadAll, Brings, OneLine, FromText;
    LoadedIsFine(acc, files, default);
    IdDoesNotMatter(acc);
    var start := LoadAll(acc, files, default, ROOT_ID + 1);
    if start.Ok? {
      forall i | 0 <= i < |cs| ensures Brings(acc, cs[i], r => OneLine(r)) {
        BringsOneLine(acc, cs[i]);
      }
      InvBounds(start.value);
      ChangesKeep(acc, start.value, cs, r => OneLine(r));
      var sets := Changes(acc, start.value, cs).sets;
      forall i | 0 <= i < |sets| ensures AllOneLine(sets[i].rules) {
        assert Each(r => OneLine(r), sets[i].rules);
      }
    }
  }
}
