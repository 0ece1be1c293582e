/** Saving rules to a file and loading them again (src/Daemon/FileRuleSet.cpp, RuleSet::serialize). */
module RuleFile {
  import opened Text
  import opened Matching
  import opened Rules
  import opened Printer
  import opened Grammar
  import opened RoundTrip
  import opened PolicyState
  import opened PolicyLaws
  import P = Policy

  // ----- Texts

  /** RuleSet::serialize: every rule on a line of its own. */
  function Serialize(rules: seq<Rule>): (r: Result<string>) {
    if rules == [] then Ok("")
    else
      var line, tail := RuleText(rules[0]), Serialize(rules[1..]);
      if line.Err? || tail.Err? then Err else Ok(line.value + ("\n" + tail.value))
  }

  /** The lines of a text: what is between line feeds, and what follows the last one. */
  function Lines(text: string): (lines: seq<string>)
    ensures lines != []
  {
    match FirstIndex('\n', text)
    case None => [text]
    case Some(i) => [text[..i]] + Lines(text[i + 1..])
  }

  /** `Rule::operator bool`: lines that hold no rule give one of these targets. */
  predicate HoldsRule(r: Rule) {
    r.target != Unknown && r.target != Invalid && r.target != Empty
  }

  datatype Loaded = Loaded(ok: bool, rules: seq<Rule>, next: nat)

  /** Loading one line after the other; an error ends the loading and keeps what was loaded. */
  function Load(acc: Acceptor, lines: seq<string>, rules: seq<Rule>, next: nat): (r: Loaded) {
    if lines == [] then Loaded(true, rules, next)
    else match ParseRule(acc, lines[0])
      case Err => Loaded(false, rules, next)
      case Ok(rule) =>
        if !HoldsRule(rule) then Load(acc, lines[1..], rules, next)
        else
          var o := Append(rules, next, rule, LAST_ID);
          if o.result.Err? then Loaded(false, o.rules, o.next) else Load(acc, lines[1..], o.rules, o.next)
  }

  /** FileRuleSet::load: `getline` until the stream is no longer good. */
  method LoadText(set_: P.RuleSet, acc: Acceptor, text: string) returns (ok: bool)
    modifies set_`rules, set_.counter
    ensures Loaded(ok, set_.rules, set_.counter.next)
      == Load(acc, Lines(text), old(set_.rules), old(set_.counter.next))
  {
    hide ParseRule, Append;
    ghost var spec := Load(acc, Lines(text), set_.rules, set_.counter.next);
    var rest, good := text, true;
    while good
      invariant spec == Load(acc, if good then Lines(rest) else [], set_.rules, set_.counter.next)
      decreases good, |rest|
    {
      var end := FirstIndex('\n', rest);
      var line := if end.Some? then rest[..end.value] else rest;
      good, rest := end.Some?, if end.Some? then rest[end.value + 1..] else "";
      var rule := ParseRule(acc, line);
      if rule.Err? {
        return false;
      }
      if HoldsRule(rule.value) {
        var id := set_.AppendRule(rule.value, LAST_ID);
        if id.Err? {
          return false;
        }
      }
    }
    return true;
  }

  /** What was written when serializing ended: everything, or the lines in front of a rule without a text. */
  function Written(rules: seq<Rule>): (r: (bool, string))
    ensures r.0 <==> Serialize(rules).Ok?
    ensures r.0 ==> Serialize(rules) == Ok(r.1)
  {
    if rules == [] then (true, "")
    else match RuleText(rules[0])
      case Err => (false, "")
      case Ok(line) =>
        var (ok, tail) := Written(rules[1..]);
        (ok, line + ("\n" + tail))
  }

  /** RuleSet::serialize as a loop over the rules; the text of a rule may throw. */
  method SerializeRules(rules: seq<Rule>) returns (ok: bool, stream: string)
    ensures (ok, stream) == Written(rules)
  {
    hide RuleText, Serialize;
    stream := "";
    for i := 0 to |rules|
      invariant Written(rules).0 == Written(rules[i..]).0
      invariant Written(rules).1 == stream + Written(rules[i..]).1
    {
      assert rules[i..][0] == rules[i] && rules[i..][1..] == rules[i + 1..];
      var line := RuleText(rules[i]);
      if line.Err? {
        assert stream + "" == stream;
        return false, stream;
      }
      Assoc(stream, line.value + "\n", Written(rules[i + 1..]).1);
      Assoc(line.value, "\n", Written(rules[i + 1..]).1);
      stream := stream + (line.value + "\n");
    }
    assert rules[|rules|..] == [] && stream + "" == stream;
    return true, stream;
  }

  // ----- Reading back

  /** Condition parameters are the only place of a rule text where a line feed can occur. */
  predicate OneLine(r: Rule) {
    forall i :: 0 <= i < |r.conditions.values| ==> !HasLineFeed(r.conditions.values[i])
  }

  predicate HasLineFeed(v: Value) {
    v.Condition? && '\n' in v.parameter
  }

  /** The rules as they come back: in normal form and numbered from `next` on. */
  function Renumbered(rules: seq<Rule>, next: nat): (rs: seq<Rule>)
    ensures |rs| == |rules| && forall i :: 0 <= i < |rules| ==> rs[i] == Normal(rules[i]).(id := next + i)
  {
    seq(|rules|, i requires 0 <= i < |rules| => Normal(rules[i]).(id := next + i))
  }

  predicate AnyLineFeed(vs: seq<Value>) {
    exists i :: 0 <= i < |vs| && HasLineFeed(vs[i])
  }

  lemma {:induction false} EscapeHasNoLineFeed(s: string)
    ensures '\n' !in Escape(s)
  {
    if s != "" {
      EscapeHasNoLineFeed(s[1..]);
      assert '\n' !in EscapeChar(s[0]);
    }
  }

  lemma IdentifierLine(kind: ConditionKind)
    ensures '\n' !in Identifier(kind)
  {
  }

  lemma ValueLineFeed(acc: Acceptor, k: Key, v: Value)
    requires Readable(acc, k, v)
    ensures '\n' in ValueText(v) <==> HasLineFeed(v)
  {
    hide Escape, Identifier, Until;
    match v
    case Str(text) => EscapeHasNoLineFeed(text);
    case DeviceId(_, _) =>
    case Interface(c, s, p) => FieldRead(Some(c)); FieldRead(s); FieldRead(p);
    case Condition(kind, parameter, negated) =>
      IdentifierLine(kind);
      assert '\n' in ArgumentText(parameter) <==> '\n' in parameter;
  }

  lemma {:induction false} ValuesLineFeed(acc: Acceptor, k: Key, vs: seq<Value>)
    requires AllReadable(acc, k, vs)
    ensures '\n' in ValuesText(vs) <==> AnyLineFeed(vs)
  {
    hide ValueText, HasLineFeed, Readable;
    if vs != [] {
      ValueLineFeed(acc, k, vs[0]);
      ValuesLineFeed(acc, k, vs[1..]);
      assert forall i :: 0 < i < |vs| ==> vs[i] == vs[1..][i - 1];
      assert AnyLineFeed(vs) <==> HasLineFeed(vs[0]) || AnyLineFeed(vs[1..]) by {
        if AnyLineFeed(vs[1..]) {
          var i :| 0 <= i < |vs[1..]| && HasLineFeed(vs[1..][i]);
          assert HasLineFeed(vs[i + 1]);
        }
      }
    }
  }

  lemma AttributeLineFeed(acc: Acceptor, k: Key, a: Attribute)
    requires ReadableAttribute(acc, k, a)
    ensures '\n' in AttributeText(k, a) <==> AnyLineFeed(a.values)
  {
    hide ValueText, ValuesText, HasLineFeed, Readable;
    assert '\n' !in Keyword(k) && '\n' !in OperatorText(a.op);
    if |a.values| > 1 || a.op != Equals {
      ValuesLineFeed(acc, k, a.values);
    } else {
      ValueLineFeed(acc, k, a.values[0]);
    }
  }

  lemma OnlyConditions(acc: Acceptor, k: Key, a: Attribute)
    requires ReadableAttribute(acc, k, a) && k != If
    ensures !AnyLineFeed(a.values)
  {
  }

  lemma {:induction false} AttributesLineFeed(acc: Acceptor, r: Rule, i: nat)
    requires ReadableRule(acc, r)
    ensures '\n' in AttributesText(r, i) <==> i <= RoundTrip.Place(If) && !OneLine(r)
    decreases |PRINT_ORDER| - i
  {
    hide AttributeText, ReadableAttribute;
    if i < |PRINT_ORDER| {
      var k := PRINT_ORDER[i];
      AttributesLineFeed(acc, r, i + 1);
      assert Get(r, If) == r.conditions;
      if Get(r, k).values != [] {
        AttributeLineFeed(acc, k, Get(r, k));
        if k != If {
          OnlyConditions(acc, k, Get(r, k));
        }
      }
    }
  }

  /** A readable rule is printed on one line exactly if no condition parameter holds a line feed. */
  lemma RuleLineFeed(acc: Acceptor, r: Rule)
    requires ReadableRule(acc, r)
    ensures RuleText(r).Ok? && ('\n' in RuleText(r).value <==> !OneLine(r))
  {
    hide AttributesText;
    AttributesLineFeed(acc, r, 0);
    assert '\n' !in TargetText(r.target).value;
  }

  lemma LinesCons(line: string, text: string)
    requires '\n' !in line
    ensures Lines(line + ("\n" + text)) == [line] + Lines(text)
  {
    var s := line + ("\n" + text);
    assert s[..|line|] == line && s[|line|] == '\n' && s[|line| + 1..] == text;
    FirstIndexIs('\n', s, |line|);
  }

  /** A rule without target and attributes, which an appended comment gives; its text is an empty line. */
  predicate IsBlankRule(r: Rule) {
    r == NEW_RULE.(id := r.id, target := Empty)
  }

  /** The rules of which a file keeps more than an empty line. */
  function Kept(rules: seq<Rule>): (kept: seq<Rule>)
    ensures |kept| <= |rules|
    ensures (forall i :: 0 <= i < |rules| ==> !IsBlankRule(rules[i])) ==> kept == rules
  {
    if rules == [] then []
    else
      assert forall i :: 0 < i < |rules| ==> rules[i] == rules[1..][i - 1];
      (if IsBlankRule(rules[0]) then [] else [rules[0]]) + Kept(rules[1..])
  }

  /** Rules that can be written to a file. */
  ghost predicate Savable(acc: Acceptor, r: Rule) {
    IsBlankRule(r) || ReadableRule(acc, r)
  }

  /** Saving rules and loading the text gives the same sequence of rules with new identifiers. */
  lemma {:induction false} FileReadBack(acc: Acceptor, rules: seq<Rule>, soFar: seq<Rule>, next: nat)
    requires forall i :: 0 <= i < |rules| ==> Savable(acc, rules[i]) && OneLine(rules[i])
    requires 1 <= next && next + |rules| < LAST_ID
    ensures Serialize(rules).Ok?
    ensures Load(acc, Lines(Serialize(rules).value), soFar, next)
      == Loaded(true, soFar + Renumbered(Kept(rules), next), next + |Kept(rules)|)
    decreases |rules|
  {
    hide RuleText, ParseRule, ReadableRule, OneLine, Normal, Lines, Load, Renumbered, IsBlankRule;
    if rules == [] {
      EmptyFile(acc, soFar, next);
      assert soFar + Renumbered(rules, next) == soFar;
    } else if IsBlankRule(rules[0]) {
      FileReadBack(acc, rules[1..], soFar, next);
      BlankLine(acc, rules[0], Serialize(rules[1..]).value, soFar, next);
    } else {
      var rule := Normal(rules[0]).(id := next);
      var kept := Kept(rules);
      RuleLineFeed(acc, rules[0]);
      RuleReadBack(acc, rules[0]);
      TargetIsRule(acc, rules[0]);
      FileReadBack(acc, rules[1..], soFar + [rule], next + 1);
      LinesCons(RuleText(rules[0]).value, Serialize(rules[1..]).value);
      assert kept[0] == rules[0] && kept[1..] == Kept(rules[1..]);
      RenumberedCons(kept, soFar, next);
      LoadFirst(acc, RuleText(rules[0]).value, Lines(Serialize(rules[1..]).value), soFar, next, Normal(rules[0]));
    }
  }

  /** A blank rule is an empty line, and that is passed over. */
  lemma BlankLine(acc: Acceptor, r: Rule, tail: string, soFar: seq<Rule>, next: nat)
    requires IsBlankRule(r)
    ensures RuleText(r) == Ok("") && OneLine(r)
    ensures Load(acc, Lines("" + ("\n" + tail)), soFar, next) == Load(acc, Lines(tail), soFar, next)
  {
    hide Lines, ParseRule, AttributesText;
    BlankText(r, 0);
    assert "" + "" == "";
    EmptyLine(acc);
    LinesCons("", tail);
    var lines := [""] + Lines(tail);
    assert lines[0] == "" && lines[1..] == Lines(tail);
  }

  lemma {:induction false} BlankText(r: Rule, i: nat)
    requires IsBlankRule(r)
    ensures AttributesText(r, i) == ""
    decreases |PRINT_ORDER| - i
  {
    hide AttributeText, PRINT_ORDER;
    if i < |PRINT_ORDER| {
      BlankText(r, i + 1);
    }
  }

  /** A line that holds a rule adds that rule under the next identifier. */
  lemma LoadFirst(acc: Acceptor, line: string, lines: seq<string>, soFar: seq<Rule>, next: nat, r: Rule)
    requires HoldsRule(r) && r.id == DEFAULT_ID && 1 <= next && next + 1 < LAST_ID
    ensures ParseRule(acc, line) == Ok(r) ==>
      Load(acc, [line] + lines, soFar, next) == Load(acc, lines, soFar + [r.(id := next)], next + 1)
  {
    hide ParseRule, Append, HoldsRule;
    AppendParsed(soFar, next, r);
    assert ([line] + lines)[0] == line && ([line] + lines)[1..] == lines;
  }

  lemma EmptyFile(acc: Acceptor, soFar: seq<Rule>, next: nat)
    ensures Load(acc, Lines(""), soFar, next) == Loaded(true, soFar, next)
  {
    hide ParseRule;
    EmptyLine(acc);
    assert Lines("") == [""] && [""][1..] == [];
  }

  lemma EmptyLine(acc: Acceptor)
    ensures ParseRule(acc, "").Ok? && !HoldsRule(ParseRule(acc, "").value)
  {
    hide ParseRuleBody, ParseTarget;
    assert SkipBlanks("") == "";
    TargetOfNothing(0);
  }

  lemma {:induction false} TargetOfNothing(i: nat)
    ensures ParseTarget(i, "") == NoMatch
    decreases |TARGETS| - i
  {
    if i < |TARGETS| {
      TargetOfNothing(i + 1);
    }
  }

  lemma TargetIsRule(acc: Acceptor, r: Rule)
    requires ReadableRule(acc, r)
    ensures HoldsRule(Normal(r))
  {
  }

  lemma AppendParsed(rules: seq<Rule>, next: nat, r: Rule)
    requires r.id == DEFAULT_ID && 1 <= next && next + 1 < LAST_ID
    ensures Append(rules, next, r, LAST_ID) == Outcome(Ok(next), rules + [r.(id := next)], next + 1)
  {
    AssignValue(next);
  }

  lemma RenumberedCons(rules: seq<Rule>, soFar: seq<Rule>, next: nat)
    requires rules != []
    ensures soFar + [Normal(rules[0]).(id := next)] + Renumbered(rules[1..], next + 1)
      == soFar + Renumbered(rules, next)
  {
    hide Normal;
  }
}
