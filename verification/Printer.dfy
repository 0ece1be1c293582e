/** The text of rules: RulePrivate::toString, Attribute::toRuleString and the texts of the values. */
module Printer {
  import opened Text
  import opened Matching
  import opened Rules

  function TargetText(t: Target): (r: Result<string>) {
    match t
    case Allow => Ok("allow")
    case Block => Ok("block")
    case Reject => Ok("reject")
    case MatchTarget => Ok("match")
    case Device => Ok("device")
    case Empty => Ok("")
    case Unknown => Err
    case Invalid => Err
  }

  function Keyword(k: Key): (s: string)
    ensures s != ""
  {
    match k
    case Id => "id"
    case Serial => "serial"
    case Name => "name"
    case Hash => "hash"
    case ParentHash => "parent-hash"
    case ViaPort => "via-port"
    case WithInterface => "with-interface"
    case If => "if"
    case WithConnectType => "with-connect-type"
    case Label => "label"
  }

  function OperatorText(op: SetOperator): (s: string) {
    match op
    case AllOf => "all-of"
    case OneOf => "one-of"
    case NoneOf => "none-of"
    case Equals => "equals"
    case EqualsOrdered => "equals-ordered"
    case Match => "match"
    case MatchAll => "match-all"
  }

  /** The identifier a condition object carries; a rule-evaluated condition calls itself "rule-applied". */
  function Identifier(kind: ConditionKind): (s: string) {
    match kind
    case AllowedMatches => "allowed-matches"
    case Localtime => "localtime"
    case FixedTrue => "true"
    case FixedFalse => "false"
    case Random => "random"
    case RuleApplied => "rule-applied"
    case RuleEvaluated => "rule-applied"
  }

  function ArgumentText(parameter: string): (s: string) {
    if parameter != "" then "(" + parameter + ")" else ""
  }

  function FieldText(f: Option<nat>): (s: string) {
    if f.Some? then HexByte(f.value % 256) else "*"
  }

  /** The toRuleString member of each value type.  Interface numbers are bytes. */
  function ValueText(v: Value): (s: string) {
    match v
    case Str(text) => "\"" + Escape(text) + "\""
    case DeviceId(vendor, product) => vendor + ":" + product
    case Interface(c, s, p) =>
      HexByte(c % 256) + ":" + FieldText(s) + ":" + FieldText(if s.Some? then p else None)
    case Condition(kind, parameter, negated) =>
      (if negated then "!" else "") + Identifier(kind) + ArgumentText(parameter)
  }

  function ValuesText(vs: seq<Value>): (s: string) {
    if vs == [] then "" else ValueText(vs[0]) + " " + ValuesText(vs[1..])
  }

  /** What stands in front of the values in the multi-valued form. */
  function Opening(k: Key, op: SetOperator): (s: string) {
    if op != Equals then Keyword(k) + " " + OperatorText(op) + " " + "{ " else Keyword(k) + " " + "{ "
  }

  /** Attribute::toRuleString */
  function AttributeText(k: Key, a: Attribute): (s: string) {
    if |a.values| > 1 || a.op != Equals then Opening(k, a.op) + ValuesText(a.values) + "}"
    else if a.values == [] then Keyword(k)
    else Keyword(k) + " " + ValueText(a.values[0])
  }

  const PRINT_ORDER := [Id, Serial, Name, Hash, ParentHash, ViaPort, WithInterface, If, WithConnectType, Label]

  /** The non-empty attributes of `r` from place `i` of the print order on, each after a space. */
  function AttributesText(r: Rule, i: nat): (s: string)
    decreases |PRINT_ORDER| - i
  {
    if i >= |PRINT_ORDER| then ""
    else
      var k := PRINT_ORDER[i];
      (if Get(r, k).values == [] then "" else " " + AttributeText(k, Get(r, k))) + AttributesText(r, i + 1)
  }

  /** RulePrivate::toString with its default arguments. */
  function RuleText(r: Rule): (s: Result<string>) {
    var target := TargetText(r.target);
    if target.Err? then Err else Ok(target.value + AttributesText(r, 0))
  }

  lemma {:induction false} ValuesTextConcat(vs: seq<Value>, ws: seq<Value>)
    ensures ValuesText(vs + ws) == ValuesText(vs) + ValuesText(ws)
  {
    if vs == [] {
      assert vs + ws == ws;
    } else {
      assert (vs + ws)[0] == vs[0] && (vs + ws)[1..] == vs[1..] + ws;
      ValuesTextConcat(vs[1..], ws);
      Assoc(ValueText(vs[0]) + " ", ValuesText(vs[1..]), ValuesText(ws));
    }
  }

  /** toRuleString: a space after every value, and the last character dropped in the single-valued form. */
  method AttributeToRuleString(k: Key, a: Attribute) returns (result: string)
    ensures result == AttributeText(k, a)
  {
    var nondefaultOp := a.op != Equals;
    var multisetForm := |a.values| > 1 || nondefaultOp;
    result := Keyword(k) + " ";
    if multisetForm {
      if nondefaultOp {
        result := result + OperatorText(a.op) + " ";
      }
      result := result + "{ ";
    }
    result := AppendValues(result, a.values);
    if multisetForm {
      result := result + "}";
    } else {
      if |a.values| == 1 {
        assert ValuesText(a.values) == ValueText(a.values[0]) + " ";
        DropLast(Keyword(k) + " ", ValueText(a.values[0]), ' ');
      }
      result := result[..|result| - 1];
    }
  }

  lemma DropLast(s: string, t: string, c: char)
    ensures var u := s + (t + [c]); u[..|u| - 1] == s + t
  {
  }

  /** The loop of toRuleString over the values. */
  method AppendValues(head: string, vs: seq<Value>) returns (result: string)
    ensures result == head + ValuesText(vs)
  {
    result := head;
    for i := 0 to |vs|
      invariant result == head + ValuesText(vs[..i])
    {
      var text := ValueText(vs[i]) + " ";
      ValuesTextConcat(vs[..i], [vs[i]]);
      assert vs[..i + 1] == vs[..i] + [vs[i]];
      assert ValuesText([vs[i]]) == text + "" == text;
      Assoc(head, ValuesText(vs[..i]), text);
      result := result + text;
    }
    assert vs[..|vs|] == vs;
  }
}
