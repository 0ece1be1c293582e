/** Every rule that was parsed can be printed and parsed again. */
module Reprint {
  import opened Text
  import opened Matching
  import opened Rules
  import opened Printer
  import opened Grammar
  import opened RoundTrip

  lemma TailIsBytes(s: string, rest: string)
    requires IsBytes(s) && IsTail(s, rest)
    ensures IsBytes(rest)
  {
  }

  lemma RestIsBytes(s: string)
    requires IsBytes(s) && s != ""
    ensures IsBytes(s[1..])
  {
  }

  lemma {:induction false} UnescapeIsBytes(s: string)
    requires IsBytes(s) && Unescape(s).Plain?
    ensures IsBytes(Unescape(s).text)
  {
    if s != "" {
      UnescapeIsBytes(
        if s[0] != '\\' then s[1..] else if s[1] == '"' || s[1] == '\\' then s[2..] else s[4..]);
    }
  }

  lemma ParsedString(acc: Acceptor, k: Key, s: string)
    requires IsBytes(s) && ParseString(s).Read?
    ensures Printable(ParseString(s).value)
  {
    var quoted := BoundedString('"', '"', s).value;
    assert s[..|quoted|] == quoted;
    UnescapeIsBytes(quoted[1..|quoted| - 1]);
  }

  /** The parameter of a condition that was read is an argument the grammar reads again. */
  lemma ParsedArgument(s: string)
    requires BoundedString('(', ')', s).Read?
    ensures var p := BoundedString('(', ')', s).value;
      var q := p[1..|p| - 1]; p == "(" + q + ")" && Until(')', q + ")") == Read(q + ")", "")
  {
    hide Until;
    var p := BoundedString('(', ')', s).value;
    var q := p[1..|p| - 1];
    UntilOfRead(')', s[1..]);
    assert p == ['('] + Until(')', s[1..]).value;
    assert p[1..] == Until(')', s[1..]).value == q + ")";
  }

  lemma ImplementationParts(acc: Acceptor, negated: bool, identifier: string, argument: string)
    requires identifier != "" && '(' !in identifier && identifier[0] != '!'
    requires argument == "" || (|argument| >= 2 && argument[0] == '(' && argument[|argument| - 1] == ')')
    ensures
      var text := (if negated then "!" else "") + identifier + argument;
      GetImplementation(acc, text) ==
        if argument == "" then MakeCondition(acc, identifier, "", negated)
        else if |argument| < 3 then Err
        else MakeCondition(acc, identifier, argument[1..|argument| - 1], negated)
  {
    hide MakeCondition;
    var bang := if negated then "!" else "";
    var head := bang + identifier;
    assert '(' !in head && (head[0] == '!' <==> negated) && head[|bang|..] == identifier;
    if argument == "" {
      assert head + "" == head;
    } else {
      var q := argument[1..|argument| - 1];
      assert argument == "(" + q + ")";
      PartsOfText(bang, identifier, q);
      assert (head + argument)[0] == head[0];
    }
  }

  lemma PrintedTwice()
    ensures forall k :: PrintedKind(PrintedKind(k)) == PrintedKind(k)
    ensures forall k :: PrintedKind(k).FixedTrue? == k.FixedTrue? && PrintedKind(k).FixedFalse? == k.FixedFalse?
  {
  }

  lemma MadeCondition(acc: Acceptor, identifier: string, parameter: string, negated: bool)
    requires parameter == "" || Until(')', parameter + ")") == Read(parameter + ")", "")
    ensures var r := MakeCondition(acc, identifier, parameter, negated);
      r.Ok? ==> Printable(r.value) && Accepted(acc, r.value)
  {
    hide KindFromIdentifier, Until, PrintedKind;
    PrintedTwice();
  }

  lemma ParsedPlainCondition(acc: Acceptor, negated: bool, s: string)
    ensures var r := ParsePlainCondition(acc, if negated then "!" else "", s);
      r.Read? ==> Printable(r.value) && Accepted(acc, r.value)
  {
    hide MakeCondition, GetImplementation;
    var bang := if negated then "!" else "";
    var id := ConditionIdentifier(s);
    if id.Read? {
      var argument := BoundedString('(', ')', id.rest);
      if argument.Read? {
        var p := argument.value;
        ParsedArgument(id.rest);
        ImplementationParts(acc, negated, id.value, p);
        MadeCondition(acc, id.value, p[1..|p| - 1], negated);
      } else if argument.NoMatch? {
        ImplementationParts(acc, negated, id.value, "");
        assert bang + id.value + "" == bang + id.value;
        MadeCondition(acc, id.value, "", negated);
      }
    }
  }

  lemma ParsedValue(acc: Acceptor, k: Key, s: string)
    requires IsBytes(s) && ParseValue(acc, k, s).Read?
    ensures Readable(acc, k, ParseValue(acc, k, s).value) && IsBytes(ParseValue(acc, k, s).rest)
  {
    hide ParseString, ParseDeviceId, ParseInterface, ParsePlainCondition, Printable;
    TailIsBytes(s, ParseValue(acc, k, s).rest);
    if k == If {
      if StartsWith(s, "!") {
        ParsedPlainCondition(acc, true, s[1..]);
      } else {
        ParsedPlainCondition(acc, false, s);
      }
    } else if k != Id && k != WithInterface {
      ParsedString(acc, k, s);
    }
  }

  lemma {:induction false} ParsedMoreValues(acc: Acceptor, k: Key, soFar: seq<Value>, s: string)
    requires IsBytes(s) && soFar != [] && AllReadable(acc, k, soFar) && MoreValues(acc, k, soFar, s).Read?
    ensures var r := MoreValues(acc, k, soFar, s); r.value != [] && AllReadable(acc, k, r.value)
    decreases |s|
  {
    hide Readable, ParseValue, SkipBlanks, IsTail, IsBytes;
    if BlankAhead(s) && ParseValue(acc, k, SkipBlanks(s)).Read? {
      var v := ParseValue(acc, k, SkipBlanks(s));
      TailIsBytes(s, SkipBlanks(s));
      ParsedValue(acc, k, SkipBlanks(s));
      ParsedMoreValues(acc, k, soFar + [v.value], v.rest);
    }
  }

  /** What the parser may report for the body of an attribute. */
  predicate ReadableBody(acc: Acceptor, k: Key, b: Body) {
    b.values != [] && AllReadable(acc, k, b.values) && b.op != Some(Match)
  }

  lemma ParsedBraces(acc: Acceptor, k: Key, s: string)
    requires IsBytes(s)
    ensures var r := ParseBraces(acc, k, s); r.Read? ==> r.value != [] && AllReadable(acc, k, r.value)
  {
    hide Readable, ParseValue, MoreValues, SkipBlanks, IsTail, IsBytes;
    if ParseBraces(acc, k, s).Read? {
      TailIsBytes(s, SkipBlanks(s));
      ParsedValue(acc, k, SkipBlanks(s));
      var v := ParseValue(acc, k, SkipBlanks(s));
      ParsedMoreValues(acc, k, [v.value], v.rest);
    }
  }

  lemma ParsedBody(acc: Acceptor, k: Key, s: string)
    requires IsBytes(s)
    ensures var r := ParseBody(acc, k, s); r.Read? ==> ReadableBody(acc, k, r.value) && IsBytes(r.rest)
  {
    hide Readable, ParseValue, ParseBraces, ParseOperator, SkipBlanks, IsBytes;
    if ParseBody(acc, k, s).Read? {
      TailIsBytes(s, ParseBody(acc, k, s).rest);
      if ParseMultiset(acc, k, s).Read? {
        var op := ParseOperator(0, s);
        if op.Read? && BlankAhead(op.rest) {
          TailIsBytes(s, op.rest);
          TailIsBytes(op.rest, SkipBlanks(op.rest));
          RestIsBytes(SkipBlanks(op.rest));
          ParsedBraces(acc, k, SkipBlanks(op.rest)[1..]);
        } else {
          RestIsBytes(s);
          ParsedBraces(acc, k, s[1..]);
        }
      } else {
        ParsedValue(acc, k, s);
      }
    }
  }

  lemma {:induction false} ParsedAttribute(acc: Acceptor, i: nat, s: string)
    requires IsBytes(s)
    ensures var r := ParseAttribute(acc, i, s); r.Read? ==> ReadableBody(acc, r.value.0, r.value.1) && IsBytes(r.rest)
    decreases |GRAMMAR_ORDER| - i
  {
    hide ReadableBody, ParseBody, Keyword, GRAMMAR_ORDER;
    if ParseAttribute(acc, i, s).Read? {
      var k := GRAMMAR_ORDER[i];
      var t := s[if |Keyword(k)| <= |s| then |Keyword(k)| else 0..];
      if StartsWith(s, Keyword(k)) && BlankAhead(t) && ParseBody(acc, k, SkipBlanks(t)).Read? {
        TailIsBytes(t, SkipBlanks(t));
        ParsedBody(acc, k, SkipBlanks(t));
      } else {
        ParsedAttribute(acc, i + 1, s);
      }
    }
  }

  /** What holds of the rule under construction throughout a parse. */
  ghost predicate ReadableSoFar(acc: Acceptor, r: Rule) {
    r.id == DEFAULT_ID &&
    forall k :: Get(r, k).op != Match && AllReadable(acc, k, Get(r, k).values) &&
                (Get(r, k).values == [] ==> Get(r, k).op == Equals)
  }

  lemma InstallKeepsReadable(acc: Acceptor, r: Rule, k: Key, b: Body)
    requires ReadableSoFar(acc, r) && ReadableBody(acc, k, b) && Install(r, k, b).Ok?
    ensures ReadableSoFar(acc, Install(r, k, b).value) && Install(r, k, b).value.target == r.target
  {
    hide Readable, Put;
    var r' := Install(r, k, b).value;
    forall j ensures Get(r', j).op != Match && AllReadable(acc, j, Get(r', j).values) &&
                     (Get(r', j).values == [] ==> Get(r', j).op == Equals) {
      if j == k {
        var vs := Get(r, k).values;
        assert forall i :: 0 <= i < |vs| + |b.values| ==>
          (vs + b.values)[i] == if i < |vs| then vs[i] else b.values[i - |vs|];
      }
    }
  }

  lemma {:induction false} ParsedAttributes(acc: Acceptor, r: Rule, s: string)
    requires IsBytes(s) && ReadableSoFar(acc, r) && ParseAttributes(acc, r, s).Ok?
    ensures var r' := ParseAttributes(acc, r, s).value.0; ReadableSoFar(acc, r') && r'.target == r.target
    decreases |s|
  {
    hide ReadableSoFar, Install, ParseAttribute, ReadableBody;
    if BlankAhead(s) && ParseAttribute(acc, 0, SkipBlanks(s)).Read? {
      var t := SkipBlanks(s);
      TailIsBytes(s, t);
      ParsedAttribute(acc, 0, t);
      var a := ParseAttribute(acc, 0, t);
      InstallKeepsReadable(acc, r, a.value.0, a.value.1);
      ParsedAttributes(acc, Install(r, a.value.0, a.value.1).value, a.rest);
    }
  }

  /** A parsed rule has a readable text, or it is what an empty line or a comment gives. */
  lemma ParsedRule(acc: Acceptor, text: string)
    requires IsBytes(text) && ParseRule(acc, text).Ok?
    ensures var r := ParseRule(acc, text).value;
      ReadableSoFar(acc, r) && (r.target in TARGETS || r == NEW_RULE || r == NEW_RULE.(target := Empty))
  {
    hide ParseAttributes, ParseDeviceId;
    var s := SkipBlanks(text);
    var t := ParseTarget(0, s);
    if !IsComment(s) && t.Read? {
      TailIsBytes(text, s);
      TailIsBytes(s, t.rest);
      ParsedTarget(0, s);
      ParsedRuleBody(acc, t.value, t.rest);
    }
  }

  lemma {:induction false} ParsedTarget(i: nat, s: string)
    requires ParseTarget(i, s).Read?
    ensures ParseTarget(i, s).value in TARGETS
    decreases |TARGETS| - i
  {
    if !StartsWith(s, TargetText(TARGETS[i]).value) {
      ParsedTarget(i + 1, s);
    }
  }

  lemma ParsedRuleBody(acc: Acceptor, target: Target, s: string)
    requires IsBytes(s) && ParseRuleBody(acc, target, s).Ok?
    ensures var r := ParseRuleBody(acc, target, s).value; ReadableSoFar(acc, r) && r.target == target
  {
    hide ParseAttributes, ParseDeviceId, Printable;
    var rule := NEW_RULE.(target := target);
    var id := if BlankAhead(s) then ParseDeviceId(SkipBlanks(s)) else NoMatch;
    if id.Read? {
      TailIsBytes(s, SkipBlanks(s));
      TailIsBytes(SkipBlanks(s), id.rest);
      ParsedAttributes(acc, rule.(deviceId := Attribute(Equals, [id.value])), id.rest);
    } else {
      ParsedAttributes(acc, rule, s);
    }
  }

  predicate IsRuleEvaluated(v: Value) {
    v.Condition? && v.kind == RuleEvaluated
  }

  /**
   * Reading, printing and reading a line again gives the rule of the first reading, except that a
   * rule-evaluated condition has become a rule-applied one.
   */
  lemma ReprintStable(acc: Acceptor, text: string, r: Rule)
    requires IsBytes(text) && r.target in TARGETS
    ensures ParseRule(acc, text) == Ok(r) ==>
      && RuleText(r).Ok? && ParseRule(acc, RuleText(r).value) == Ok(Normal(r)) && Normal(Normal(r)) == Normal(r)
      && (Normal(r) == r <==> forall v :: v in r.conditions.values ==> !IsRuleEvaluated(v))
  {
    hide ParseRule, RuleText, Normal, ReadableAttribute;
    if ParseRule(acc, text) == Ok(r) {
      ParsedRule(acc, text);
      SoFarIsReadable(acc, r);
      RuleReadBack(acc, r);
      NormalTwice(r);
      NormalOfParsed(acc, r);
    }
  }

  lemma SoFarIsReadable(acc: Acceptor, r: Rule)
    requires ReadableSoFar(acc, r) && r.target in TARGETS
    ensures ReadableRule(acc, r)
  {
  }

  lemma NormalTwice(r: Rule)
    ensures Normal(Normal(r)) == Normal(r)
  {
    hide Normal;
    forall k ensures Get(Normal(Normal(r)), k) == Get(Normal(r), k) {
      var vs := Get(r, k).values;
      assert NormalValues(NormalValues(vs)) == NormalValues(vs);
    }
    RuleEquality(Normal(Normal(r)), Normal(r));
  }

  lemma NormalOfParsed(acc: Acceptor, r: Rule)
    requires ReadableSoFar(acc, r)
    ensures Normal(r) == r <==> forall v :: v in r.conditions.values ==> !IsRuleEvaluated(v)
  {
    hide Normal;
    NormalIsIdentity(r);
    assert r.conditions == Get(r, If);
    forall k, v | v in Get(r, k).values && v.Condition? ensures k == If {
      var i :| 0 <= i < |Get(r, k).values| && Get(r, k).values[i] == v;
      assert Readable(acc, k, Get(r, k).values[i]);
    }
  }

  // ----- An attribute that is given twice

  /** A rule text with two occurrences of attribute `k`. */
  function TwiceText(t: Target, k: Key, a: Attribute, b: Attribute): (s: string)
    requires t in TARGETS && a.values != [] && b.values != []
  {
    TargetText(t).value + (" " + AttributeText(k, a) + (" " + AttributeText(k, b) + ""))
  }

  lemma NothingIsTerminated(k: Key, b: Attribute)
    requires b.values != []
    ensures Terminated("") && Terminated(" " + AttributeText(k, b) + "")
  {
  }

  lemma TwiceParsed(acc: Acceptor, r: Rule, k: Key, a: Attribute, b: Attribute)
    requires ReadableAttribute(acc, k, a) && ReadableAttribute(acc, k, b) && Get(r, k) == NO_VALUES
    ensures ParseAttributes(acc, r, " " + AttributeText(k, a) + (" " + AttributeText(k, b) + "")) ==
      if k == Label
      then Ok((r.(labels :=
        Attribute(if b.op != Equals then b.op else a.op, NormalValues(a.values) + NormalValues(b.values))), ""))
      else Err
  {
    hide AttributeText, ParseAttributes, AllReadable, NormalValues;
    var rest := " " + AttributeText(k, b) + "";
    NothingIsTerminated(k, b);
    OneAttribute(acc, r, k, a, rest);
    InstallNormal(r, k, a);
    var r1 := Put(r, k, NormalAttribute(a));
    OneAttribute(acc, r1, k, b, "");
    assert Get(r1, k) == Attribute(a.op, NormalValues(a.values)) && NormalValues(a.values) != [];
    if k == Label {
      NoAttributes(acc, Install(r1, k, NormalBody(b)).value);
    }
  }

  /** The attributes of a text, one at a time. */
  lemma OneAttribute(acc: Acceptor, r: Rule, k: Key, a: Attribute, rest: string)
    requires ReadableAttribute(acc, k, a) && Terminated(rest)
    ensures ParseAttributes(acc, r, " " + AttributeText(k, a) + rest) ==
      match Install(r, k, NormalBody(a))
      case Err => Err
      case Ok(r') => ParseAttributes(acc, r', rest)
  {
    hide AttributeText, ParseAttribute, SkipBlanks, AllReadable, Install, NormalBody;
    AttributeAfterBlank(acc, k, a, rest);
  }

  lemma NoAttributes(acc: Acceptor, r: Rule)
    ensures ParseAttributes(acc, r, "") == Ok((r, ""))
  {
  }

  lemma NoIdInFront(k: Key, a: Attribute, rest: string)
    requires a.values != []
    ensures var s := " " + AttributeText(k, a) + rest; BlankAhead(s) && ParseDeviceId(SkipBlanks(s)) == NoMatch
  {
    hide AttributeText, Keyword, BodyText, ParseDeviceId, IsHexDigit;
    AttributeTextParts(k, a, rest);
    KeywordStart(k);
    Assoc(" ", AttributeText(k, a), rest);
    var t := Keyword(k) + (" " + BodyText(a, rest));
    assert t[0] == Keyword(k)[0];
    SkipOneBlank(t);
    NoDeviceId(t);
  }

  /** A second occurrence of an attribute is an error, except that labels are collected. */
  lemma RepeatedAttribute(acc: Acceptor, t: Target, k: Key, a: Attribute, b: Attribute)
    requires t in TARGETS && ReadableAttribute(acc, k, a) && ReadableAttribute(acc, k, b)
    ensures ParseRule(acc, TwiceText(t, k, a, b)) ==
      if k == Label
      then Ok(NEW_RULE.(target := t, labels :=
        Attribute(if b.op != Equals then b.op else a.op, NormalValues(a.values) + NormalValues(b.values))))
      else Err
  {
    hide AttributeText, ParseTarget, ParseAttributes, ParseDeviceId, AllReadable, SkipBlanks, TargetText;
    TargetFacts(t);
    var s := " " + AttributeText(k, a) + (" " + AttributeText(k, b) + "");
    TargetRead(t, s);
    NoIdInFront(k, a, " " + AttributeText(k, b) + "");
    TwiceParsed(acc, NEW_RULE.(target := t), k, a, b);
    NothingLeft();
  }

  lemma NothingLeft()
    ensures SkipBlanks("") == ""
  {
  }

  /** What the grammar alone reads: the attributes of a text one after the other, and what follows them. */
  function KeysRead(acc: Acceptor, s: string): (r: Result<(seq<Key>, string)>)
    decreases |s|
  {
    if !BlankAhead(s) then Ok(([], s))
    else match ParseAttribute(acc, 0, SkipBlanks(s))
      case NoMatch => Ok(([], s))
      case Abort => Err
      case Read((k, _), rest) =>
        match KeysRead(acc, rest)
        case Err => Err
        case Ok((keys, end)) => Ok(([k] + keys, end))
  }

  /** The attributes that the grammar reads in a whole text, if it reads the text. */
  function RuleKeys(acc: Acceptor, text: string): (r: Result<seq<Key>>) {
    var s := SkipBlanks(text);
    if IsComment(s) then Ok([])
    else match ParseTarget(0, s)
      case Read(_, rest) => BodyKeys(acc, rest)
      case _ => if s == "" then Ok([]) else Err
  }

  function BodyKeys(acc: Acceptor, s: string): (r: Result<seq<Key>>) {
    var id := if BlankAhead(s) then ParseDeviceId(SkipBlanks(s)) else NoMatch;
    if id.Abort? then Err
    else match KeysRead(acc, if id.Read? then id.rest else s)
      case Err => Err
      case Ok((keys, end)) =>
        if IsComment(end) || SkipBlanks(end) == "" then Ok((if id.Read? then [Id] else []) + keys) else Err
  }

  /** No attribute but the label is among `keys` twice, or once when `r` has it already. */
  ghost predicate GivenOnce(r: Rule, keys: seq<Key>) {
    forall k :: k != Label ==> multiset(keys)[k] <= if Get(r, k).values == [] then 1 else 0
  }

  lemma {:induction false} AttributesOnce(acc: Acceptor, r: Rule, s: string)
    requires IsBytes(s)
    ensures ParseAttributes(acc, r, s).Ok? <==> KeysRead(acc, s).Ok? && GivenOnce(r, KeysRead(acc, s).value.0)
    ensures ParseAttributes(acc, r, s).Ok? ==> ParseAttributes(acc, r, s).value.1 == KeysRead(acc, s).value.1
    decreases |s|
  {
    hide Install, ParseAttribute, GivenOnce, AllReadable;
    NothingGiven(r);
    if BlankAhead(s) && ParseAttribute(acc, 0, SkipBlanks(s)).Read? {
      var t := SkipBlanks(s);
      TailIsBytes(s, t);
      ParsedAttribute(acc, 0, t);
      var a := ParseAttribute(acc, 0, t);
      var (k, b) := a.value;
      if KeysRead(acc, a.rest).Ok? {
        OneMoreKey(r, k, b, KeysRead(acc, a.rest).value.0);
      }
      if Install(r, k, b).Ok? {
        AttributesOnce(acc, Install(r, k, b).value, a.rest);
      }
    }
  }

  lemma NothingGiven(r: Rule)
    ensures GivenOnce(r, [])
  {
  }

  lemma OneMoreKey(r: Rule, k: Key, b: Body, keys: seq<Key>)
    requires b.values != []
    ensures GivenOnce(r, [k] + keys) <==> Install(r, k, b).Ok? && GivenOnce(Install(r, k, b).value, keys)
  {
    hide Put;
    assert multiset([k] + keys) == multiset{k} + multiset(keys);
    if Install(r, k, b).Ok? {
      var r' := Install(r, k, b).value;
      assert Get(r', k).values == Get(r, k).values + b.values && forall j :: j != k ==> Get(r', j) == Get(r, j);
    } else {
      assert multiset([k] + keys)[k] > 0;
    }
  }

  /**
   * A text that the grammar reads is accepted exactly if it gives no attribute but the label twice, where
   * a device identifier behind the target counts as the attribute "id".
   */
  lemma AcceptedIffGivenOnce(acc: Acceptor, text: Bytes)
    ensures ParseRule(acc, text).Ok? <==>
      RuleKeys(acc, text).Ok? && forall k :: k != Label ==> multiset(RuleKeys(acc, text).value)[k] <= 1
  {
    hide ParseRuleBody, BodyKeys;
    var s := SkipBlanks(text);
    var t := ParseTarget(0, s);
    if !IsComment(s) && t.Read? {
      TailIsBytes(text, s);
      TailIsBytes(s, t.rest);
      BodyOnce(acc, t.value, t.rest);
    }
  }

  lemma BodyOnce(acc: Acceptor, target: Target, s: string)
    requires IsBytes(s)
    ensures ParseRuleBody(acc, target, s).Ok? <==>
      BodyKeys(acc, s).Ok? && forall k :: k != Label ==> multiset(BodyKeys(acc, s).value)[k] <= 1
  {
    hide ParseAttributes, KeysRead, ParseDeviceId, IsComment, SkipBlanks;
    var rule := NEW_RULE.(target := target);
    var id := if BlankAhead(s) then ParseDeviceId(SkipBlanks(s)) else NoMatch;
    if id.Read? {
      TailIsBytes(s, SkipBlanks(s));
      TailIsBytes(SkipBlanks(s), id.rest);
      var rule' := rule.(deviceId := Attribute(Equals, [id.value]));
      AttributesOnce(acc, rule', id.rest);
      if KeysRead(acc, id.rest).Ok? {
        OnceBehindId(rule', KeysRead(acc, id.rest).value.0);
      }
    } else {
      AttributesOnce(acc, rule, s);
      assert forall k :: Get(rule, k).values == [];
      if KeysRead(acc, s).Ok? {
        assert [] + KeysRead(acc, s).value.0 == KeysRead(acc, s).value.0;
      }
    }
  }

  lemma OnceBehindId(r: Rule, keys: seq<Key>)
    requires forall k :: Get(r, k).values == [] <==> k != Id
    ensures GivenOnce(r, keys) <==> forall k :: k != Label ==> multiset([Id] + keys)[k] <= 1
  {
    assert multiset([Id] + keys) == multiset{Id} + multiset(keys);
    assert multiset([Id] + keys)[Id] == 1 + multiset(keys)[Id];
    assert forall k :: k != Id ==> multiset([Id] + keys)[k] == multiset(keys)[k];
  }
}
