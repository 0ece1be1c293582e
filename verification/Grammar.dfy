/**
 * The rule language as a parsing expression grammar (src/Library/RuleParser/Grammar.hpp) with the
 * actions that build a rule (Actions.hpp) and the condition texts (RuleCondition.cpp).
 *
 * A failed alternative is `NoMatch` and the next one is tried; `Abort` is a `must` that failed or an
 * action that threw, which ends the whole parse.
 */
module Grammar {
  import opened Text
  import opened Matching
  import opened Rules
  import opened Printer

  datatype Step<+T> = Read(value: T, rest: string) | NoMatch | Abort

  predicate IsTail(s: string, rest: string) {
    |rest| <= |s| && rest == s[|s| - |rest|..]
  }

  /** `rest` is what is left of `s` after at least one character was read. */
  predicate Consumed(s: string, rest: string) {
    |rest| < |s| && IsTail(s, rest)
  }

  lemma TailOfConcat(a: string, b: string)
    ensures IsTail(a + b, b)
  {
  }

  lemma TailOfSelf(s: string)
    ensures IsTail(s, s)
  {
  }

  lemma ShorterTail(s: string, rest: string)
    requires s != "" && IsTail(s[1..], rest)
    ensures |rest| < |s|
  {
  }

  lemma TailOfRest(s: string)
    requires s != ""
    ensures IsTail(s, s[1..])
  {
  }

  lemma TailOfTail(s: string, t: string, u: string)
    requires IsTail(s, t) && IsTail(t, u)
    ensures IsTail(s, u)
  {
  }

  predicate StartsWith(s: string, prefix: string) {
    |prefix| <= |s| && s[..|prefix|] == prefix
  }

  predicate IsBlank(c: char) {
    c == ' ' || c == '\t'
  }

  predicate BlankAhead(s: string) {
    s != "" && IsBlank(s[0])
  }

  function SkipBlanks(s: string): (rest: string)
    ensures IsTail(s, rest)
    ensures BlankAhead(s) ==> |rest| < |s|
    ensures !BlankAhead(rest)
  {
    if BlankAhead(s) then SkipBlanks(s[1..]) else s
  }

  // ----- Bounded strings

  predicate IsSimpleEscape(c: char) {
    c in ['a', 'b', 'f', 'n', 'r', 't', 'v', '\\', '\'', '0', '\n']
  }

  /** One `character`: the text it reads, which is an escape sequence or a regular character. */
  function Character(boundary: char, s: string): (r: Step<string>)
    ensures r.Read? ==> s == r.value + r.rest && r.value != ""
  {
    if s == "" then NoMatch
    else if s[0] != '\\' then
      if s[0] == '\r' || s[0] == '\n' then NoMatch else Read(s[..1], s[1..])
    else if |s| == 1 then Abort
    else if s[1] == 'x' then
      if |s| >= 4 && IsHexDigit(s[2]) && IsHexDigit(s[3]) then Read(s[..4], s[4..]) else Abort
    else if IsDigit(s[1]) then
      var n := if |s| < 3 || !IsDigit(s[2]) then 2 else if |s| < 4 || !IsDigit(s[3]) then 3 else 4;
      Read(s[..n], s[n..])
    else if IsSimpleEscape(s[1]) || s[1] == boundary then Read(s[..2], s[2..])
    else Abort
  }

  /** `until<one<boundary>, character<boundary>>` under a `must`: the text up to and with the boundary. */
  function Until(boundary: char, s: string): (r: Step<string>)
    ensures r.Read? ==> s == r.value + r.rest && r.value != "" && r.value[|r.value| - 1] == boundary
    ensures !r.NoMatch?
    decreases |s|
  {
    if s != "" && s[0] == boundary then Read(s[..1], s[1..])
    else match Character(boundary, s)
      case Read(c, rest) =>
        (match Until(boundary, rest)
         case Read(text, rest') => Assoc(c, text, rest'); Read(c + text, rest')
         case _ => Abort)
      case _ => Abort
  }

  function BoundedString(open: char, close: char, s: string): (r: Step<string>)
    ensures r.Read? ==>
      s == r.value + r.rest && |r.value| >= 2 && r.value[0] == open && r.value[|r.value| - 1] == close
  {
    if s == "" || s[0] != open then NoMatch
    else match Until(close, s[1..])
      case Read(text, rest) => Read([open] + text, rest)
      case _ => Abort
  }

  // ----- Values

  /** A text as the action for it sees it: stringValueFromRule strips the quotes and unescapes the rest. */
  function ParseString(s: string): (r: Step<Value>)
    ensures r.Read? ==> r.value.Str? && Consumed(s, r.rest)
  {
    match BoundedString('"', '"', s)
    case Read(quoted, rest) =>
      var u := Unescape(quoted[1..|quoted| - 1]);
      assert rest == s[|quoted|..];
      if u.Plain? then Read(Str(u.text), rest) else Abort
    case NoMatch => NoMatch
    case Abort => Abort
  }

  /** `rep<n, xdigit>` or, if allowed, an asterisk. */
  function HexOrStar(n: nat, star: bool, s: string): (r: Step<string>)
    ensures r.Read? ==> s == r.value + r.rest
    ensures r.Read? ==> IsHex(n, r.value) || (star && r.value == "*")
    ensures !r.Abort?
  {
    if |s| >= n && IsHex(n, s[..n]) then Read(s[..n], s[n..])
    else if star && StartsWith(s, "*") then Read("*", s[1..])
    else NoMatch
  }

  predicate IsHex(n: nat, s: string) {
    |s| == n && forall i :: 0 <= i < n ==> IsHexDigit(s[i])
  }

  lemma ReadInTwo(a: string, s: string, b: string, rest: string)
    requires s != "" && s[1..] == b + rest
    ensures Consumed(a + s, rest)
  {
    TailOfConcat(a, s);
    TailOfConcat(b, rest);
    TailOfRest(s);
    TailOfTail(s, s[1..], rest);
    TailOfTail(a + s, s, rest);
  }

  lemma ReadInParts(a: string, s: string, b: string, t: string, c: string, rest: string)
    requires s != "" && s[1..] == b + t && t != "" && t[1..] == c + rest
    ensures Consumed(a + s, rest)
  {
    hide IsTail;
    ReadInTwo(a, s, b, t);
    ReadInTwo(b, t, c, rest);
    TailOfRest(s);
    TailOfConcat(a, s);
    TailOfTail(s, s[1..], rest);
    TailOfTail(a + s, s, rest);
  }

  function ParseDeviceId(s: string): (r: Step<Value>)
    ensures r.Read? ==> Printable(r.value) && r.value.DeviceId? && Consumed(s, r.rest)
  {
    hide HexOrStar, IsTail, IsHex;
    match HexOrStar(4, true, s)
    case Read(vendor, s') =>
      if !StartsWith(s', ":") then NoMatch
      else (match HexOrStar(4, true, s'[1..])
            case Read(product, rest) =>
              ReadInTwo(vendor, s', product, rest);
              if vendor == "*" && product != "*" then Abort else Read(DeviceId(vendor, product), rest)
            case _ => NoMatch)
    case _ => NoMatch
  }

  function HexNumber(s: string): (n: nat)
    requires IsHex(2, s)
    ensures n < 256
  {
    HexValue(s[0]) * 16 + HexValue(s[1])
  }

  function HexField(s: string): (f: Option<nat>)
    requires IsHex(2, s) || s == "*"
    ensures f.Some? ==> f.value < 256
  {
    if s == "*" then None else Some(HexNumber(s))
  }

  function ParseInterface(s: string): (r: Step<Value>)
    ensures r.Read? ==> Printable(r.value) && r.value.Interface? && Consumed(s, r.rest)
  {
    hide HexOrStar, IsTail, HexNumber, HexField, IsHex;
    match HexOrStar(2, false, s)
    case Read(c, s1) =>
      if !StartsWith(s1, ":") then NoMatch
      else (match HexOrStar(2, true, s1[1..])
            case Read(sub, s2) =>
              if !StartsWith(s2, ":") then NoMatch
              else (match HexOrStar(2, true, s2[1..])
                    case Read(protocol, rest) =>
                      ReadInParts(c, s1, sub, s2, protocol, rest);
                      if sub == "*" && protocol != "*" then Abort
                      else Read(Interface(HexNumber(c), HexField(sub), HexField(protocol)), rest)
                    case _ => NoMatch)
            case _ => NoMatch)
    case _ => NoMatch
  }

  // ----- Conditions

  /** Which parameters the constructor of a condition accepts. */
  type Acceptor = (ConditionKind, string) -> bool

  /** The kind of a condition as its printed identifier names it. */
  function PrintedKind(kind: ConditionKind): (k: ConditionKind) {
    if kind == RuleEvaluated then RuleApplied else kind
  }

  function KindFromIdentifier(s: string): (k: Option<ConditionKind>) {
    if s == "allowed-matches" then Some(AllowedMatches)
    else if s == "localtime" then Some(Localtime)
    else if s == "true" then Some(FixedTrue)
    else if s == "false" then Some(FixedFalse)
    else if s == "random" then Some(Random)
    else if s == "rule-applied" then Some(RuleApplied)
    else if s == "rule-evaluated" then Some(RuleEvaluated)
    else None
  }

  /**
   * The condition constructors.  A fixed-state condition ignores its parameter; the two rule-counter
   * conditions validate theirs with the same code, so the acceptor is asked about the printed kind.
   */
  function MakeCondition(acc: Acceptor, identifier: string, parameter: string, negated: bool): (r: Result<Value>) {
    match KindFromIdentifier(identifier)
    case None => Err
    case Some(kind) =>
      if kind == FixedTrue || kind == FixedFalse then Ok(Condition(kind, "", negated))
      else if acc(PrintedKind(kind), parameter) then Ok(Condition(kind, parameter, negated))
      else Err
  }

  /** RuleConditionBase::getImplementation on the text of a condition. */
  function GetImplementation(acc: Acceptor, text: string): (r: Result<Value>) {
    if text == "" then Err
    else
      var negated := text[0] == '!';
      var start := if negated then 1 else 0;
      match FirstIndex('(', text)
      case None => if text[start..] == "" then Err else MakeCondition(acc, text[start..], "", negated)
      case Some(p) =>
        if |text| - p < 3 || text[|text| - 1] != ')' then Err
        else MakeCondition(acc, text[start..p], text[p + 1..|text| - 1], negated)
  }

  predicate IsLetter(c: char) {
    'a' <= c <= 'z' || 'A' <= c <= 'Z' || c == '-'
  }

  /** `star<ranges<'a', 'z', 'A', 'Z', '0', '9', '-'>>` */
  function IdentifierTail(s: string): (r: Step<string>)
    ensures r.Read? && s == r.value + r.rest
    ensures '(' !in r.value
  {
    if s != "" && (IsLetter(s[0]) || IsDigit(s[0])) then
      var tail := IdentifierTail(s[1..]);
      Read([s[0]] + tail.value, tail.rest)
    else Read("", s)
  }

  function ConditionIdentifier(s: string): (r: Step<string>)
    ensures r.Read? ==> s == r.value + r.rest && r.value != "" && '(' !in r.value && r.value[0] != '!'
    ensures !r.Abort?
  {
    hide IdentifierTail;
    if s != "" && IsLetter(s[0]) then
      var tail := IdentifierTail(s[1..]);
      assert s == [s[0]] + s[1..];
      Assoc([s[0]], tail.value, tail.rest);
      Read([s[0]] + tail.value, tail.rest)
    else NoMatch
  }

  function ParseCondition(acc: Acceptor, s: string): (r: Step<Value>)
    ensures r.Read? ==> r.value.Condition? && Consumed(s, r.rest)
  {
    if StartsWith(s, "!") then
      var r := ParsePlainCondition(acc, "!", s[1..]);
      if r.Read? then TailOfTail(s, s[1..], r.rest); r else r
    else ParsePlainCondition(acc, "", s)
  }

  /** The identifier and the optional argument of a condition, after what was read of a negation. */
  function ParsePlainCondition(acc: Acceptor, bang: string, s: string): (r: Step<Value>)
    ensures r.Read? ==> r.value.Condition? && Consumed(s, r.rest)
  {
    match ConditionIdentifier(s)
    case Read(identifier, s1) =>
      TailOfConcat(identifier, s1);
      (match BoundedString('(', ')', s1)
       case Read(argument, rest) =>
         TailOfConcat(argument, rest);
         TailOfTail(s, s1, rest);
         ConditionAction(acc, bang + identifier + argument, rest)
       case NoMatch => ConditionAction(acc, bang + identifier, s1)
       case Abort => Abort)
    case _ => NoMatch
  }

  function ConditionAction(acc: Acceptor, text: string, rest: string): (r: Step<Value>)
    ensures r.Read? ==> r.value.Condition? && r.rest == rest
  {
    match GetImplementation(acc, text)
    case Ok(c) => Read(c, rest)
    case Err => Abort
  }

  // ----- Attributes

  function ParseValue(acc: Acceptor, k: Key, s: string): (r: Step<Value>)
    ensures r.Read? ==> OfKind(k, r.value) && Consumed(s, r.rest)
  {
    match k
    case Id => ParseDeviceId(s)
    case WithInterface => ParseInterface(s)
    case If => ParseCondition(acc, s)
    case _ => ParseString(s)
  }

  predicate OfKind(k: Key, v: Value) {
    match k
    case Id => v.DeviceId?
    case WithInterface => v.Interface?
    case If => v.Condition?
    case _ => v.Str?
  }

  /** Values that have a text which the grammar reads back. */
  predicate Printable(v: Value) {
    match v
    case Str(text) => IsBytes(text)
    case DeviceId(vendor, product) =>
      (IsHex(4, vendor) || vendor == "*") && (IsHex(4, product) || product == "*") && (vendor == "*" ==> product == "*")
    case Interface(c, s, p) =>
      c < 256 && (s.Some? ==> s.value < 256) && (p.Some? ==> p.value < 256 && s.Some?)
    case Condition(kind, parameter, _) =>
      parameter == ""
      || (!kind.FixedTrue? && !kind.FixedFalse? && Until(')', parameter + ")") == Read(parameter + ")", ""))
  }

  const OPERATORS := [AllOf, OneOf, NoneOf, EqualsOrdered, Equals, MatchAll]

  /** `multiset_operator`: the first operator of the list whose text comes next. */
  function ParseOperator(i: nat, s: string): (r: Step<SetOperator>)
    ensures r.Read? ==> Consumed(s, r.rest) && r.value != Match
    ensures !r.Abort?
    decreases |OPERATORS| - i
  {
    if i >= |OPERATORS| then NoMatch
    else
      var text := OperatorText(OPERATORS[i]);
      if StartsWith(s, text) then Read(OPERATORS[i], s[|text|..]) else ParseOperator(i + 1, s)
  }

  /** `star<plus<blank>, value>`, with the values read so far in front. */
  function MoreValues(acc: Acceptor, k: Key, soFar: seq<Value>, s: string): (r: Step<seq<Value>>)
    ensures r.Read? ==> IsTail(s, r.rest)
    decreases |s|
  {
    if !BlankAhead(s) then Read(soFar, s)
    else match ParseValue(acc, k, SkipBlanks(s))
      case Read(v, rest) =>
        TailOfTail(s, SkipBlanks(s), rest);
        var r := MoreValues(acc, k, soFar + [v], rest);
        if r.Read? then TailOfTail(s, rest, r.rest); r else r
      case NoMatch => Read(soFar, s)
      case Abort => Abort
  }

  datatype Body = Body(op: Option<SetOperator>, values: seq<Value>)

  /** `attribute_value_multiset` */
  function ParseMultiset(acc: Acceptor, k: Key, s: string): (r: Step<Body>)
    ensures r.Read? ==> Consumed(s, r.rest)
  {
    hide IsTail, SkipBlanks, ParseOperator, ParseBraces;
    var op := ParseOperator(0, s);
    TailOfSelf(s);
    var (o, s1) :=
      if op.Read? && BlankAhead(op.rest) then
        TailOfTail(s, op.rest, SkipBlanks(op.rest));
        (Some(op.value), SkipBlanks(op.rest))
      else (None, s);
    if !StartsWith(s1, "{") then NoMatch
    else match ParseBraces(acc, k, s1[1..])
      case Read(vs, rest) =>
        TailOfRest(s1);
        TailOfTail(s1, s1[1..], rest);
        TailOfTail(s, s1, rest);
        ShorterTail(s1, rest);
        Read(Body(o, vs), rest)
      case NoMatch => NoMatch
      case Abort => Abort
  }

  /** The values between the braces of a multiset, with the closing brace. */
  function ParseBraces(acc: Acceptor, k: Key, s: string): (r: Step<seq<Value>>)
    ensures r.Read? ==> IsTail(s, r.rest)
  {
    hide IsTail, SkipBlanks, ParseValue, MoreValues;
    match ParseValue(acc, k, SkipBlanks(s))
    case Read(v, s1) =>
      TailOfTail(s, SkipBlanks(s), s1);
      (match MoreValues(acc, k, [v], s1)
       case Read(vs, s2) =>
         var s3 := SkipBlanks(s2);
         TailOfTail(s1, s2, s3);
         TailOfTail(s, s1, s3);
         if StartsWith(s3, "}") then TailOfRest(s3); TailOfTail(s, s3, s3[1..]); Read(vs, s3[1..]) else NoMatch
       case NoMatch => NoMatch
       case Abort => Abort)
    case NoMatch => NoMatch
    case Abort => Abort
  }

  /** `sor<attribute_value_multiset, attribute_value_rule>` */
  function ParseBody(acc: Acceptor, k: Key, s: string): (r: Step<Body>)
    ensures r.Read? ==> Consumed(s, r.rest)
  {
    match ParseMultiset(acc, k, s)
    case Read(b, rest) => Read(b, rest)
    case Abort => Abort
    case NoMatch =>
      match ParseValue(acc, k, s)
      case Read(v, rest) => Read(Body(None, [v]), rest)
      case NoMatch => NoMatch
      case Abort => Abort
  }

  const GRAMMAR_ORDER := [Id, Name, Hash, ParentHash, Serial, ViaPort, WithInterface, WithConnectType, If, Label]

  /** `rule_attributes`: the alternatives from place `i` on. */
  function ParseAttribute(acc: Acceptor, i: nat, s: string): (r: Step<(Key, Body)>)
    ensures r.Read? ==> Consumed(s, r.rest)
    decreases |GRAMMAR_ORDER| - i
  {
    if i >= |GRAMMAR_ORDER| then NoMatch
    else
      var k := GRAMMAR_ORDER[i];
      var word := Keyword(k);
      if !StartsWith(s, word) || !BlankAhead(s[|word|..]) then ParseAttribute(acc, i + 1, s)
      else match ParseBody(acc, k, SkipBlanks(s[|word|..]))
        case Read(b, rest) => Read((k, b), rest)
        case Abort => Abort
        case NoMatch => ParseAttribute(acc, i + 1, s)
  }

  /**
   * The attribute actions: values are appended, an operator is set, and a second occurrence of an
   * attribute is an error.  For the label the duplicate check is attached to another keyword and
   * never happens.
   */
  function Install(r: Rule, k: Key, b: Body): (r': Result<Rule>) {
    var a := Get(r, k);
    if k != Label && a.values != [] then Err
    else Ok(Put(r, k, Attribute(if b.op.Some? then b.op.value else a.op, a.values + b.values)))
  }

  /** `opt<plus<blank>, list<rule_attributes, plus<blank>>>` */
  function ParseAttributes(acc: Acceptor, r: Rule, s: string): (p: Result<(Rule, string)>)
    decreases |s|
  {
    if !BlankAhead(s) then Ok((r, s))
    else match ParseAttribute(acc, 0, SkipBlanks(s))
      case NoMatch => Ok((r, s))
      case Abort => Err
      case Read((k, b), rest) =>
        match Install(r, k, b)
        case Err => Err
        case Ok(r') => ParseAttributes(acc, r', rest)
  }

  // ----- Whole rules

  const TARGETS := [Allow, Block, Reject, MatchTarget, Device]

  function ParseTarget(i: nat, s: string): (r: Step<Target>)
    ensures r.Read? ==> Consumed(s, r.rest)
    ensures !r.Abort?
    decreases |TARGETS| - i
  {
    if i >= |TARGETS| then NoMatch
    else
      var text := TargetText(TARGETS[i]).value;
      if StartsWith(s, text) then Read(TARGETS[i], s[|text|..]) else ParseTarget(i + 1, s)
  }

  predicate IsComment(s: string) {
    StartsWith(SkipBlanks(s), "#")
  }

  /** `rule`, up to the end of the text. */
  function ParseRuleBody(acc: Acceptor, target: Target, s: string): (r: Result<Rule>) {
    var rule := NEW_RULE.(target := target);
    var id := if BlankAhead(s) then ParseDeviceId(SkipBlanks(s)) else NoMatch;
    match id
    case Abort => Err
    case _ =>
      var (rule', s') := if id.Read? then (rule.(deviceId := Attribute(Equals, [id.value])), id.rest) else (rule, s);
      match ParseAttributes(acc, rule', s')
      case Err => Err
      case Ok((rule'', s'')) => if IsComment(s'') || SkipBlanks(s'') == "" then Ok(rule'') else Err
  }

  /** parseRuleFromString: `rule_grammar` on a default constructed rule. */
  function ParseRule(acc: Acceptor, text: string): (r: Result<Rule>) {
    var s := SkipBlanks(text);
    if IsComment(s) then Ok(NEW_RULE.(target := Empty))
    else match ParseTarget(0, s)
      case Read(target, rest) => ParseRuleBody(acc, target, rest)
      case _ => if s == "" then Ok(NEW_RULE) else Err
  }
}
