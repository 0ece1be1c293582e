/**
 * A condition parameter may hold a line feed after a backslash.  Such a rule is accepted, but a rule
 * file that contains it cannot be loaded.
 */
module LineFeeds {
  import opened Text
  import opened Matching
  import opened Rules
  import opened Printer
  import opened Grammar
  import opened RoundTrip
  import opened RuleFile

  /** The first line of a text. */
  function Head(s: string): (h: string)
    ensures '\n' !in h && '\n' !in s ==> h == s
    ensures |h| <= |s| && h == s[..|h|]
    ensures '\n' in s ==> |h| < |s|
  {
    match FirstIndex('\n', s)
    case None => s
    case Some(i) => s[..i]
  }

  lemma HeadConcat(a: string, b: string)
    ensures Head(a + b) == if '\n' in a then Head(a) else a + Head(b)
  {
    var s := a + b;
    match FirstIndex('\n', a)
    case Some(i) =>
      assert s[..i] == a[..i] && s[i] == a[i];
      FirstIndexIs('\n', s, i);
    case None =>
      match FirstIndex('\n', b)
      case Some(i) =>
        assert s[..|a| + i] == a + b[..i] && s[|a| + i] == b[i];
        FirstIndexIs('\n', s, |a| + i);
      case None =>
        assert '\n' !in s;
  }

  // ----- A text that is cut off inside a condition parameter

  lemma CharacterOfPrefix(boundary: char, s: string, n: nat)
    requires Character(boundary, s).Read? && n <= |s|
    ensures
      var c := Character(boundary, s);
      if |c.value| <= n then Character(boundary, s[..n]) == Read(c.value, c.rest[..n - |c.value|])
      else var d := Character(boundary, s[..n]); d.Read? ==> d.rest == ""
  {
    var c := Character(boundary, s);
    assert s[..|c.value|] == c.value && s[|c.value|..] == c.rest;
    if |c.value| <= n {
      assert s[..n][..|c.value|] == c.value && s[..n][|c.value|..] == c.rest[..n - |c.value|];
    }
  }

  /** A bounded string that is cut off before its end is not accepted. */
  lemma {:induction false} UntilOfPrefix(boundary: char, s: string, n: nat)
    requires Until(boundary, s) == Read(s, "") && n < |s|
    ensures Until(boundary, s[..n]) == Abort
    decreases |s|
  {
    if s[0] == boundary {
      assert s == s[..1];
    } else {
      var c := Character(boundary, s);
      CharacterOfPrefix(boundary, s, n);
      var t := Until(boundary, c.rest);
      assert t.rest == "" && t.value == c.rest;
      if |c.value| <= n {
        UntilOfPrefix(boundary, c.rest, n - |c.value|);
        assert n > 0 ==> s[..n][0] == s[0];
      }
    }
  }

  lemma CutCondition(acc: Acceptor, v: Value)
    requires Readable(acc, If, v) && HasLineFeed(v)
    ensures ParseValue(acc, If, Head(ValueText(v))) == Abort
  {
    hide ParsePlainCondition, Identifier, ValueText, Head, KindFromIdentifier;
    var bang, identifier := if v.negated then "!" else "", Identifier(v.kind);
    CutConditionText(acc, v);
    IdentifierFacts(v.kind);
    CutPlainCondition(acc, bang, v);
    var argument := "(" + Head(v.parameter);
    NegationSplit(bang, identifier, argument, "");
    assert bang + identifier + argument + "" == bang + identifier + argument;
    assert identifier + (argument + "") == identifier + argument;
  }

  lemma CutConditionText(acc: Acceptor, v: Value)
    requires Readable(acc, If, v) && HasLineFeed(v)
    ensures Head(ValueText(v)) == (if v.negated then "!" else "") + Identifier(v.kind) + ("(" + Head(v.parameter))
  {
    hide Identifier, Head, KindFromIdentifier;
    var head := (if v.negated then "!" else "") + Identifier(v.kind);
    IdentifierFacts(v.kind);
    assert '\n' !in head && '\n' !in "(";
    HeadConcat(head, ArgumentText(v.parameter));
    HeadConcat("(", v.parameter + ")");
    HeadConcat(v.parameter, ")");
    Assoc("(", v.parameter, ")");
    assert ValueText(v) == head + ArgumentText(v.parameter) && ArgumentText(v.parameter) == "(" + (v.parameter + ")");
  }

  lemma CutPlainCondition(acc: Acceptor, bang: string, v: Value)
    requires Readable(acc, If, v) && HasLineFeed(v)
    ensures ParsePlainCondition(acc, bang, Identifier(v.kind) + ("(" + Head(v.parameter))) == Abort
  {
    hide Identifier, ConditionAction;
    IdentifierFacts(v.kind);
    var argument := "(" + Head(v.parameter);
    IdentifierRead(Identifier(v.kind), argument);
    assert argument[1..] == Head(v.parameter);
    var p := v.parameter + ")";
    assert p[..|Head(v.parameter)|] == Head(v.parameter);
    UntilOfPrefix(')', p, |Head(v.parameter)|);
  }

  // ----- Lists, attributes and rules that are cut off

  lemma AfterValueHead(acc: Acceptor, vs: seq<Value>, rest: string)
    requires vs != [] && AllReadable(acc, If, vs)
    ensures
      var t := ValueText(vs[0]);
      Head(AfterValue(vs, rest)) == " " + (if HasLineFeed(vs[0]) then Head(t) else t + Head(AfterValue(vs[1..], rest)))
  {
    hide ValueText, Readable, HasLineFeed;
    var t := ValueText(vs[0]);
    Regroup(t, " ", ValuesText(vs[1..]), "}" + rest);
    ValueLineFeed(acc, If, vs[0]);
    HeadConcat(t, AfterValue(vs[1..], rest));
    HeadConcat(" ", t + AfterValue(vs[1..], rest));
  }

  lemma CutValueStart(acc: Acceptor, v: Value, rest: string)
    requires Readable(acc, If, v)
    ensures
      var s := if HasLineFeed(v) then Head(ValueText(v)) else ValueText(v) + rest;
      !BlankAhead(s) && SkipBlanks(" " + s) == s && BlankAhead(" " + s) && !StartsWith(s, "{")
  {
    hide ValueText;
    var s := if HasLineFeed(v) then Head(ValueText(v)) else ValueText(v) + rest;
    FirstCharacters(v);
    assert s != "" ==> s[0] == ValueText(v)[0] && s[..1][0] == s[0];
    SkipOneBlank(s);
  }

  lemma {:induction false} CutValues(acc: Acceptor, soFar: seq<Value>, vs: seq<Value>, rest: string)
    requires AllReadable(acc, If, vs) && AnyLineFeed(vs)
    ensures MoreValues(acc, If, soFar, Head(AfterValue(vs, rest))) == Abort
    decreases |vs|
  {
    hide ValueText, Readable, HasLineFeed, ParseValue, AfterValue, SkipBlanks, Head;
    AfterValueHead(acc, vs, rest);
    var next := Head(AfterValue(vs[1..], rest));
    CutValueStart(acc, vs[0], next);
    if HasLineFeed(vs[0]) {
      CutCondition(acc, vs[0]);
    } else {
      NextLineFeed(vs);
      NextTerminated(vs[1..], rest);
      ValueReadBack(acc, If, vs[0], next);
      CutValues(acc, soFar + [NormalValue(vs[0])], vs[1..], rest);
    }
  }

  lemma NextLineFeed(vs: seq<Value>)
    requires AnyLineFeed(vs) && !HasLineFeed(vs[0])
    ensures AnyLineFeed(vs[1..])
  {
    var i :| 0 <= i < |vs| && HasLineFeed(vs[i]);
    assert vs[1..][i - 1] == vs[i];
  }

  lemma NextTerminated(vs: seq<Value>, rest: string)
    ensures Terminated(Head(AfterValue(vs, rest)))
  {
    HeadConcat(" ", ValuesText(vs) + ("}" + rest));
  }

  lemma CutBraces(acc: Acceptor, vs: seq<Value>, rest: string)
    requires AllReadable(acc, If, vs) && AnyLineFeed(vs)
    ensures ParseBraces(acc, If, Head(AfterValue(vs, rest))) == Abort
  {
    hide ValueText, Readable, HasLineFeed, ParseValue, AfterValue, MoreValues, Head;
    AfterValueHead(acc, vs, rest);
    var next := Head(AfterValue(vs[1..], rest));
    CutValueStart(acc, vs[0], next);
    if HasLineFeed(vs[0]) {
      CutCondition(acc, vs[0]);
    } else {
      NextLineFeed(vs);
      NextTerminated(vs[1..], rest);
      ValueReadBack(acc, If, vs[0], next);
      CutValues(acc, [NormalValue(vs[0])], vs[1..], rest);
    }
  }

  lemma OperatorLine(op: SetOperator)
    ensures '\n' !in OperatorText(op)
  {
  }

  lemma CutBodyText(acc: Acceptor, a: Attribute, rest: string)
    requires ReadableAttribute(acc, If, a) && AnyLineFeed(a.values)
    ensures
      var braces := "{" + Head(AfterValue(a.values, rest));
      Head(BodyText(a, rest)) ==
        if a.op != Equals then OperatorText(a.op) + (" " + braces)
        else if |a.values| > 1 then braces
        else Head(ValueText(a.values[0]))
  {
    hide ValueText, Readable, AfterValue, Head, OperatorText;
    var after := AfterValue(a.values, rest);
    assert '\n' !in "{" && '\n' !in " ";
    HeadConcat("{", after);
    HeadConcat(" ", "{" + after);
    OperatorLine(a.op);
    HeadConcat(OperatorText(a.op), " " + ("{" + after));
    if a.op == Equals && |a.values| == 1 {
      ValueLineFeed(acc, If, a.values[0]);
      HeadConcat(ValueText(a.values[0]), rest);
    }
  }

  lemma CutBody(acc: Acceptor, a: Attribute, rest: string)
    requires ReadableAttribute(acc, If, a) && AnyLineFeed(a.values)
    ensures ParseBody(acc, If, Head(BodyText(a, rest))) == Abort && !BlankAhead(Head(BodyText(a, rest)))
  {
    hide ValueText, Readable, AfterValue, Head, ParseBraces, ParseValue, BodyText, OperatorText;
    CutBodyText(acc, a, rest);
    CutBraces(acc, a.values, rest);
    var after := Head(AfterValue(a.values, rest));
    var braces := "{" + after;
    assert braces[..1] == "{" && braces[1..] == after;
    if a.op != Equals {
      OperatorRead(a.op, " " + braces);
      SkipOneBlank(braces);
      OperatorStart(a.op, " " + braces);
    } else if |a.values| > 1 {
      AfterValueHead(acc, a.values, rest);
      NotAnOperator(braces);
    } else {
      CutSingle(acc, a.values[0]);
    }
  }

  lemma OperatorStart(op: SetOperator, rest: string)
    ensures !BlankAhead(OperatorText(op) + rest)
  {
  }

  lemma CutSingle(acc: Acceptor, v: Value)
    requires Readable(acc, If, v) && HasLineFeed(v)
    ensures var s := Head(ValueText(v)); ParseBody(acc, If, s) == Abort && !BlankAhead(s)
  {
    hide ParseValue, Identifier;
    var s := Head(ValueText(v));
    CutCondition(acc, v);
    CutConditionText(acc, v);
    CutValueStart(acc, v, "");
    CutIsNoOperator(acc, v);
  }

  lemma CutIsNoOperator(acc: Acceptor, v: Value)
    requires Readable(acc, If, v) && HasLineFeed(v)
    ensures ParseOperator(0, Head(ValueText(v))) == NoMatch
  {
    hide ParseOperator, ValueText;
    CutConditionText(acc, v);
    var s := Head(ValueText(v));
    assert |s| > 3 && s[0] == ValueText(v)[0] && s[3] == ValueText(v)[3] && s[1] == ValueText(v)[1];
    FirstCharacters(v);
    NotAnOperator(s);
  }

  lemma CutConditionAttribute(acc: Acceptor, i: nat, a: Attribute, rest: string)
    requires ReadableAttribute(acc, If, a) && AnyLineFeed(a.values) && i < |GRAMMAR_ORDER| && GRAMMAR_ORDER[i] == If
    ensures ParseAttribute(acc, i, Keyword(If) + (" " + Head(BodyText(a, rest)))) == Abort
  {
    hide Keyword, AllReadable, BodyText, ParseBody, GRAMMAR_ORDER, Head, AnyLineFeed;
    var body := Head(BodyText(a, rest));
    var s := Keyword(If) + (" " + body);
    assert s[..|Keyword(If)|] == Keyword(If) && s[|Keyword(If)|..] == " " + body;
    CutBody(acc, a, rest);
    SkipOneBlank(body);
  }

  lemma {:induction false} CutAttribute(acc: Acceptor, i: nat, a: Attribute, rest: string)
    requires ReadableAttribute(acc, If, a) && AnyLineFeed(a.values) && i <= Alternative(If)
    ensures ParseAttribute(acc, i, Keyword(If) + (" " + Head(BodyText(a, rest)))) == Abort
    decreases |GRAMMAR_ORDER| - i
  {
    hide Keyword, AllReadable, BodyText, ParseBody, GRAMMAR_ORDER, Alternative, Head, AnyLineFeed, SkipBlanks,
      BlankAhead, StartsWith;
    var body := Head(BodyText(a, rest));
    if GRAMMAR_ORDER[i] == If {
      CutConditionAttribute(acc, i, a, rest);
    } else {
      OtherKeyword(GRAMMAR_ORDER[i], If, " " + body);
      CutAttribute(acc, i + 1, a, rest);
    }
  }

  /** The first line of the attributes from place `i` on, when the line feed is in the conditions. */
  lemma AttributesHead(acc: Acceptor, r: Rule, i: nat)
    requires ReadableRule(acc, r) && i < |PRINT_ORDER|
    ensures
      var k, rest := PRINT_ORDER[i], AttributesText(r, i + 1);
      var a := Get(r, k);
      Head(AttributesText(r, i)) ==
        if a.values == [] then Head(rest)
        else if AnyLineFeed(a.values) then " " + (Keyword(k) + (" " + Head(BodyText(a, rest))))
        else " " + AttributeText(k, a) + Head(rest)
  {
    hide AttributeText, ReadableAttribute, Keyword, BodyText, Head, PRINT_ORDER;
    var k, rest := PRINT_ORDER[i], AttributesText(r, i + 1);
    var a := Get(r, k);
    if a.values == [] {
      assert "" + rest == rest;
    } else {
      AttributeLineFeed(acc, k, a);
      assert '\n' in " " + AttributeText(k, a) <==> '\n' in AttributeText(k, a);
      HeadConcat(" " + AttributeText(k, a), rest);
      if AnyLineFeed(a.values) {
        HeadOfAttribute(k, a, rest);
      }
    }
  }

  lemma HeadOfAttribute(k: Key, a: Attribute, rest: string)
    requires a.values != [] && '\n' in AttributeText(k, a)
    ensures Head(" " + AttributeText(k, a)) == " " + (Keyword(k) + (" " + Head(BodyText(a, rest))))
  {
    hide AttributeText, BodyText, Head;
    AttributeTextParts(k, a, rest);
    HeadConcat(" " + AttributeText(k, a), rest);
    Assoc(" ", AttributeText(k, a), rest);
    assert '\n' !in Keyword(k);
    HeadConcat(" ", Keyword(k) + (" " + BodyText(a, rest)));
    HeadConcat(Keyword(k), " " + BodyText(a, rest));
    HeadConcat(" ", BodyText(a, rest));
  }

  lemma HeadOfNothing()
    ensures Head("") == ""
  {
  }

  lemma HeadTerminated(r: Rule, i: nat)
    ensures Terminated(Head(AttributesText(r, i)))
  {
    hide AttributesText, Head;
    AttributesTextStart(r, i);
    var s := AttributesText(r, i);
    if s == "" {
      HeadOfNothing();
    } else {
      assert s == s[..1] + s[1..] && '\n' !in s[..1];
      HeadConcat(s[..1], s[1..]);
    }
  }

  lemma CutAttributeStep(acc: Acceptor, r: Rule, i: nat)
    requires ReadableRule(acc, r) && i < |PRINT_ORDER|
    requires var a := Get(r, PRINT_ORDER[i]); a.values != [] && !AnyLineFeed(a.values)
    ensures ParseAttributes(acc, Upto(r, i), Head(AttributesText(r, i)))
      == ParseAttributes(acc, Upto(r, i + 1), Head(AttributesText(r, i + 1)))
  {
    hide Upto, AttributeText, AttributesText, PRINT_ORDER, ReadableAttribute, Install, SkipBlanks, ParseAttribute,
      NormalAttribute, Head;
    var k := PRINT_ORDER[i];
    AttributesHead(acc, r, i);
    HeadTerminated(r, i + 1);
    UptoStep(r, i);
    InstallNormal(Upto(r, i), k, Get(r, k));
    AttributeAfterBlank(acc, k, Get(r, k), Head(AttributesText(r, i + 1)));
  }

  lemma CutConditions(acc: Acceptor, r: Rule, i: nat)
    requires ReadableRule(acc, r) && !OneLine(r) && i < |PRINT_ORDER| && PRINT_ORDER[i] == If
    ensures ParseAttributes(acc, Upto(r, i), Head(AttributesText(r, i))) == Err
  {
    hide Upto, AttributeText, AttributesText, ReadableAttribute, ParseAttribute, Head, AnyLineFeed, BodyText,
      PRINT_ORDER;
    var a := Get(r, If);
    AttributesHead(acc, r, i);
    ConditionsHaveLineFeed(r);
    assert a == r.conditions;
    KeywordStart(If);
    CutAttribute(acc, 0, a, AttributesText(r, i + 1));
    SkipOneBlank(Keyword(If) + (" " + Head(BodyText(a, AttributesText(r, i + 1)))));
  }

  lemma {:induction false} CutAttributes(acc: Acceptor, r: Rule, i: nat)
    requires ReadableRule(acc, r) && !OneLine(r) && i <= RoundTrip.Place(If)
    ensures ParseAttributes(acc, Upto(r, i), Head(AttributesText(r, i))) == Err
    decreases |PRINT_ORDER| - i
  {
    hide Upto, AttributeText, AttributesText, ReadableAttribute, ParseAttribute, Head, AnyLineFeed;
    var k := PRINT_ORDER[i];
    var a := Get(r, k);
    AttributesHead(acc, r, i);
    if k == If {
      CutConditions(acc, r, i);
    } else {
      CutAttributes(acc, r, i + 1);
      if a.values == [] {
        NoAttributeStep(r, i);
      } else {
        OnlyConditions(acc, k, a);
        CutAttributeStep(acc, r, i);
      }
    }
  }

  lemma ConditionsHaveLineFeed(r: Rule)
    requires !OneLine(r)
    ensures AnyLineFeed(r.conditions.values) && r.conditions.values != []
  {
  }

  lemma CutNoDeviceId(r: Rule)
    ensures var s := Head(AttributesText(r, 0)); BlankAhead(s) ==> ParseDeviceId(SkipBlanks(s)) == NoMatch
  {
    hide AttributesText, Keyword, Head;
    AttributesTextKeyword(r, 0);
    var s := AttributesText(r, 0);
    if s == "" {
      assert Head(s) == "";
    } else {
      var k, tail :| s == " " + (Keyword(k) + tail);
      CutKeyword(k, tail);
    }
  }

  lemma KeywordLine(k: Key)
    ensures '\n' !in Keyword(k)
  {
  }

  lemma CutKeyword(k: Key, tail: string)
    ensures var s := Head(" " + (Keyword(k) + tail)); BlankAhead(s) && ParseDeviceId(SkipBlanks(s)) == NoMatch
  {
    hide ParseDeviceId, Keyword, Head, SkipBlanks, IsHexDigit;
    KeywordStart(k);
    KeywordLine(k);
    var t := Keyword(k) + Head(tail);
    assert '\n' !in " ";
    HeadConcat(" ", Keyword(k) + tail);
    HeadConcat(Keyword(k), tail);
    assert t[0] == Keyword(k)[0];
    SkipOneBlank(t);
    NoDeviceId(t);
  }

  /** The first line of a rule text with a line feed in it is not a rule. */
  lemma TargetLine(t: Target)
    requires TargetText(t).Ok?
    ensures '\n' !in TargetText(t).value
  {
  }

  lemma CutRuleBody(acc: Acceptor, r: Rule)
    requires ReadableRule(acc, r) && !OneLine(r)
    ensures ParseRuleBody(acc, r.target, Head(AttributesText(r, 0))) == Err
  {
    hide AttributesText, ReadableAttribute, Head, OneLine, ParseAttributes, Upto, ParseDeviceId, SkipBlanks;
    CutNoDeviceId(r);
    UptoStart(r);
    CutAttributes(acc, r, 0);
  }

  lemma CutRule(acc: Acceptor, r: Rule)
    requires ReadableRule(acc, r) && !OneLine(r)
    ensures RuleText(r).Ok? && ParseRule(acc, Head(RuleText(r).value)) == Err
  {
    hide AttributesText, ReadableAttribute, ParseTarget, Head, OneLine, TargetText, ParseRuleBody, SkipBlanks,
      IsComment;
    var s := AttributesText(r, 0);
    TargetFacts(r.target);
    TargetLine(r.target);
    var w := TargetText(r.target).value;
    HeadConcat(w, s);
    TargetRead(r.target, Head(s));
    CutRuleBody(acc, r);
  }

  /** A file with such a rule cannot be loaded: the loading stops there with an error. */
  lemma {:induction false} FileWithLineFeedFails(acc: Acceptor, rules: seq<Rule>, soFar: seq<Rule>, next: nat)
    requires forall i :: 0 <= i < |rules| ==> Savable(acc, rules[i])
    requires exists i :: 0 <= i < |rules| && !OneLine(rules[i])
    requires 1 <= next && next + |rules| < LAST_ID
    ensures Serialize(rules).Ok? && !Load(acc, Lines(Serialize(rules).value), soFar, next).ok
    decreases |rules|
  {
    hide RuleText, ParseRule, ReadableRule, OneLine, Normal, Head, Lines, Load, IsBlankRule;
    var i :| 0 <= i < |rules| && !OneLine(rules[i]);
    assert i > 0 ==> rules[1..][i - 1] == rules[i];
    if IsBlankRule(rules[0]) {
      BlankLine(acc, rules[0], "", soFar, next);
      FileWithLineFeedFails(acc, rules[1..], soFar, next);
      BlankLine(acc, rules[0], Serialize(rules[1..]).value, soFar, next);
    } else if OneLine(rules[0]) {
      RuleLineFeed(acc, rules[0]);
      FileWithLineFeedFails(acc, rules[1..], soFar + [Normal(rules[0]).(id := next)], next + 1);
      RuleReadBack(acc, rules[0]);
      TargetIsRule(acc, rules[0]);
      LinesCons(RuleText(rules[0]).value, Serialize(rules[1..]).value);
      LoadFirst(acc, RuleText(rules[0]).value, Lines(Serialize(rules[1..]).value), soFar, next, Normal(rules[0]));
    } else {
      RuleLineFeed(acc, rules[0]);
      CutRule(acc, rules[0]);
      SerializeAll(acc, rules);
      FirstLine(RuleText(rules[0]).value, "\n" + Serialize(rules[1..]).value);
      BadFirstLine(acc, Lines(Serialize(rules).value), soFar, next);
    }
  }

  lemma BadFirstLine(acc: Acceptor, lines: seq<string>, soFar: seq<Rule>, next: nat)
    requires lines != [] && ParseRule(acc, lines[0]).Err?
    ensures !Load(acc, lines, soFar, next).ok
  {
    hide ParseRule;
  }

  lemma {:induction false} SerializeAll(acc: Acceptor, rules: seq<Rule>)
    requires forall i :: 0 <= i < |rules| ==> Savable(acc, rules[i])
    ensures Serialize(rules).Ok?
  {
    hide RuleText, ReadableRule, IsBlankRule, Load, Lines;
    if rules != [] {
      if IsBlankRule(rules[0]) {
        BlankLine(acc, rules[0], "", [], 1);
      } else {
        RuleLineFeed(acc, rules[0]);
      }
      SerializeAll(acc, rules[1..]);
    }
  }

  lemma FirstLine(line: string, tail: string)
    requires '\n' in line
    ensures Lines(line + tail)[0] == Head(line)
  {
    HeadConcat(line, tail);
  }

  /** A rule file is loaded as it was saved exactly if no condition parameter holds a line feed. */
  lemma FileReadBackIff(acc: Acceptor, rules: seq<Rule>, next: nat)
    requires forall i :: 0 <= i < |rules| ==> Savable(acc, rules[i])
    requires 1 <= next && next + |rules| < LAST_ID
    ensures Serialize(rules).Ok?
    ensures
      Load(acc, Lines(Serialize(rules).value), [], next)
        == Loaded(true, Renumbered(Kept(rules), next), next + |Kept(rules)|)
      <==> forall i :: 0 <= i < |rules| ==> OneLine(rules[i])
  {
    hide Savable, OneLine;
    if forall i :: 0 <= i < |rules| ==> OneLine(rules[i]) {
      FileReadBack(acc, rules, [], next);
      assert [] + Renumbered(Kept(rules), next) == Renumbered(Kept(rules), next);
    } else {
      FileWithLineFeedFails(acc, rules, [], next);
    }
  }

  /** A probability that the number parser of the condition reads up to the backslash. */
  const HALF := "0.5\\\n"

  /** `allow if random(0.5<backslash><line feed>)` */
  function LineFeedRule(): (r: Rule) {
    NEW_RULE.(target := Allow, conditions := Attribute(Equals, [Condition(Random, HALF, false)]))
  }

  /**
   * Such a rule exists: this one is accepted, since the condition takes 0.5 as its probability and ignores
   * the rest of the parameter, and the file it is saved to is not.
   */
  lemma AcceptedButNotLoadable(acc: Acceptor)
    requires acc(Random, HALF)
    ensures RuleText(LineFeedRule()).Ok? && ParseRule(acc, RuleText(LineFeedRule()).value) == Ok(LineFeedRule())
    ensures Serialize([LineFeedRule()]).Ok? && !Load(acc, Lines(Serialize([LineFeedRule()]).value), [], 1).ok
  {
    hide RuleText, ParseRule, Load, Serialize, Lines, Normal, LineFeedRule, ReadableRule, OneLine;
    var r := LineFeedRule();
    LineFeedRuleIsReadable(acc);
    RuleReadBack(acc, r);
    var rules := [r];
    assert !OneLine(rules[0]) && forall i :: 0 <= i < |rules| ==> Savable(acc, rules[i]);
    FileWithLineFeedFails(acc, rules, [], 1);
  }

  lemma LineFeedRuleIsReadable(acc: Acceptor)
    requires acc(Random, HALF)
    ensures ReadableRule(acc, LineFeedRule()) && !OneLine(LineFeedRule()) && Normal(LineFeedRule()) == LineFeedRule()
  {
    hide Normal, Until;
    var r := LineFeedRule();
    var v := r.conditions.values[0];
    LineFeedParameter();
    assert v.parameter[4] == '\n' && HasLineFeed(v);
    assert Printable(v) && Readable(acc, If, v);
    NormalIsIdentity(r);
  }

  lemma LineFeedParameter()
    ensures Until(')', HALF + ")") == Read(HALF + ")", "")
  {
    hide Until;
    LastCharacter();
    RegularCharacter('5', "\\\n)");
    assert "5\\\n)" == ['5'] + "\\\n)";
    RegularCharacter('.', "5\\\n)");
    assert ".5\\\n)" == ['.'] + "5\\\n)";
    RegularCharacter('0', ".5\\\n)");
    assert HALF + ")" == ['0'] + ".5\\\n)";
  }

  lemma RegularCharacter(c: char, rest: string)
    requires c != ')' && c != '\\' && c != '\r' && c != '\n' && Until(')', rest) == Read(rest, "")
    ensures Until(')', [c] + rest) == Read([c] + rest, "")
  {
    var s := [c] + rest;
    assert s[..1] == [c] && s[1..] == rest;
  }

  lemma LastCharacter()
    ensures Until(')', "\\\n)") == Read("\\\n)", "")
  {
    var s := "\\\n)";
    assert s[..2] == "\\\n" && s[2..] == ")" && Character(')', s) == Read("\\\n", ")");
    assert ")"[..1] == ")" && ")"[1..] == "";
  }
}
