/** Printing a rule and parsing the text gives the rule back. */
module RoundTrip {
  import opened Text
  import opened Matching
  import opened Rules
  import opened Printer
  import opened Grammar

  // ----- Bounded strings

  /** The grammar reads the escaped form of any byte string up to the quote that ends it. */
  lemma {:induction false} UntilEscaped(s: Bytes, rest: string)
    ensures Until('"', Escape(s) + "\"" + rest) == Read(Escape(s) + "\"", rest)
  {
    var text := Escape(s) + "\"" + rest;
    if s == "" {
      assert text == "\"" + rest;
    } else {
      var c, tail := EscapeChar(s[0]), Escape(s[1..]) + "\"";
      UntilEscaped(s[1..], rest);
      assert text == c + (tail + rest);
      EscapedCharacter(s[0], tail + rest);
      assert Escape(s) + "\"" == c + tail;
    }
  }

  lemma EscapedCharacter(c: char, rest: string)
    requires c as int < 256
    ensures Character('"', EscapeChar(c) + rest) == Read(EscapeChar(c), rest)
    ensures EscapeChar(c)[0] != '"'
  {
    hide HexByte, IsHexDigit, IsDigit;
    var e := EscapeChar(c);
    var s := e + rest;
    assert s[..|e|] == e && s[|e|..] == rest;
    if c == '"' || c == '\\' {
      assert s[0] == '\\' && s[1] == c && !IsDigit(c) by { QuoteIsNoDigit(); }
    } else if IsPrintable(c) {
      assert s[0] == c;
    } else {
      var h := HexByte(c as int);
      assert e == "\\x" + h && s[0] == '\\' && s[1] == 'x' && s[2] == h[0] && s[3] == h[1];
    }
  }

  lemma QuoteIsNoDigit()
    ensures !IsDigit('"') && !IsDigit('\\')
  {
  }

  lemma CharacterExtends(boundary: char, s: string, more: string)
    requires Character(boundary, s).Read? && Character(boundary, s).rest != ""
    ensures var c := Character(boundary, s); Character(boundary, s + more) == Read(c.value, c.rest + more)
  {
    var c := Character(boundary, s);
    var n := |c.value|;
    assert s[..n] == c.value && s[n..] == c.rest;
    assert (s + more)[..n] == c.value && (s + more)[n..] == c.rest + more;
  }

  /** What follows the closing boundary does not matter to the text in front of it. */
  lemma {:induction false} UntilExtends(boundary: char, s: string, more: string)
    requires Until(boundary, s).Read?
    ensures var r := Until(boundary, s); Until(boundary, s + more) == Read(r.value, r.rest + more)
    decreases |s|
  {
    if s[0] == boundary {
      assert (s + more)[..1] == s[..1] && (s + more)[1..] == s[1..] + more;
    } else {
      CharacterExtends(boundary, s, more);
      UntilExtends(boundary, Character(boundary, s).rest, more);
    }
  }

  /** A character is read in the same way when less follows it. */
  lemma CharacterAgain(boundary: char, s: string, t: string)
    requires Character(boundary, s).Read? && t != "" && t <= Character(boundary, s).rest
    ensures var c := Character(boundary, s).value; Character(boundary, c + t) == Read(c, t)
  {
    var c := Character(boundary, s).value;
    assert s[..|c|] == c && (c + t)[..|c|] == c && (c + t)[|c|..] == t;
    assert forall i :: 0 <= i < |c + t| ==> (c + t)[i] == s[i];
  }

  /** The text that was read is read on its own as well. */
  lemma {:induction false} UntilOfRead(boundary: char, s: string)
    requires Until(boundary, s).Read?
    ensures var r := Until(boundary, s); Until(boundary, r.value) == Read(r.value, "")
    decreases |s|
  {
    hide Character;
    if s[0] != boundary {
      var c := Character(boundary, s);
      var t := Until(boundary, c.rest);
      UntilOfRead(boundary, c.rest);
      CharacterAgain(boundary, s, t.value);
      assert (c.value + t.value)[0] == c.value[0] == s[0];
      assert t.rest == "" ==> t.rest + "" == "";
    } else {
      assert s[..1][..1] == s[..1] && s[..1][1..] == "";
    }
  }

  /** The characters and escape sequences that `until` reads in front of the boundary. */
  function Characters(boundary: char, s: string): (cs: seq<string>)
    requires Until(boundary, s).Read?
    decreases |s|
  {
    if s[0] == boundary then []
    else
      var c := Character(boundary, s);
      [c.value] + Characters(boundary, c.rest)
  }

  /** Escape sequences of the grammar that unescapeString does not know. */
  predicate IsForeignEscape(c: string) {
    |c| > 1 && c[1] != 'x' && c[1] != '\\' && c[1] != '"'
  }

  lemma UnescapeCharacter(s: string, t: string)
    requires Character('"', s).Read? && s[0] != '"'
    ensures
      var c := Character('"', s).value;
      var u, w := Unescape(c + t), Unescape(t);
      if IsForeignEscape(c) then u.BadEscape? else u.Plain? == w.Plain? && u.PastEnd? == w.PastEnd?
  {
    var c := Character('"', s).value;
    assert s[..|c|] == c;
    assert (c + t)[..|c|] == c && (c + t)[|c|..] == t;
  }

  /**
   * The grammar and unescapeString run in lock step: inside an accepted string value no read passes
   * the end of the text, and unescaping fails exactly if the grammar let a foreign escape through.
   */
  lemma {:induction false} UnescapeInLockStep(s: string)
    requires Until('"', s).Read?
    ensures
      var text := Until('"', s).value;
      var u := Unescape(text[..|text| - 1]);
      !u.PastEnd? && (u.Plain? <==> forall c :: c in Characters('"', s) ==> !IsForeignEscape(c))
    decreases |s|
  {
    var text := Until('"', s).value;
    var body := text[..|text| - 1];
    if s[0] != '"' {
      var c := Character('"', s);
      var text' := Until('"', c.rest).value;
      var body' := text'[..|text'| - 1];
      UnescapeInLockStep(c.rest);
      UnescapeCharacter(s, body');
      assert body == c.value + body';
      assert Characters('"', s) == [c.value] + Characters('"', c.rest);
    }
  }

  // ----- Values

  /** What may follow a value: a blank, the closing brace of a list, a comment, or the end. */
  predicate Terminated(rest: string) {
    rest == "" || rest[0] in {' ', '\t', '}', '#'}
  }

  /** The value that comes back; it differs only for a rule-evaluated condition. */
  function NormalValue(v: Value): (w: Value) {
    if v.Condition? then v.(kind := PrintedKind(v.kind)) else v
  }

  predicate Accepted(acc: Acceptor, v: Value) {
    v.Condition? && !v.kind.FixedTrue? && !v.kind.FixedFalse? ==> acc(PrintedKind(v.kind), v.parameter)
  }

  lemma QuotedText(e: string, rest: string)
    ensures var text := "\"" + e + "\"" + rest; text[0] == '"' && text[1..] == e + "\"" + rest
    ensures var quoted := ['"'] + (e + "\""); quoted[1..|quoted| - 1] == e
  {
  }

  lemma StringReadBack(s: Bytes, rest: string)
    ensures ParseString(ValueText(Str(s)) + rest) == Read(Str(s), rest)
  {
    UntilEscaped(s, rest);
    UnescapeEscape(s);
    QuotedText(Escape(s), rest);
  }

  lemma HexOrStarReadBack(n: nat, star: bool, s: string, rest: string)
    requires IsHex(n, s) || (star && s == "*" && n > 0)
    ensures HexOrStar(n, star, s + rest) == Read(s, rest)
  {
    assert (s + rest)[..|s|] == s && (s + rest)[|s|..] == rest;
    if s == "*" && |s + rest| >= n {
      assert (s + rest)[..n][0] == '*';
    }
  }

  lemma DeviceIdReadBack(v: Value, rest: string)
    requires v.DeviceId? && Printable(v)
    ensures ParseDeviceId(ValueText(v) + rest) == Read(v, rest)
  {
    var s' := ":" + (v.product + rest);
    assert ValueText(v) + rest == v.vendor + s';
    HexOrStarReadBack(4, true, v.vendor, s');
    assert s'[..1] == ":" && s'[1..] == v.product + rest;
    HexOrStarReadBack(4, true, v.product, rest);
  }

  lemma FieldRead(f: Option<nat>)
    requires f.Some? ==> f.value < 256
    ensures IsHex(2, FieldText(f)) || FieldText(f) == "*"
    ensures HexField(FieldText(f)) == f
  {
  }

  lemma InterfaceReadBack(v: Value, rest: string)
    requires v.Interface? && Printable(v)
    ensures ParseInterface(ValueText(v) + rest) == Read(v, rest)
  {
    var c, s, p := FieldText(Some(v.cls)), FieldText(v.sub), FieldText(v.protocol);
    FieldRead(Some(v.cls));
    FieldRead(v.sub);
    FieldRead(v.protocol);
    var s2 := ":" + (p + rest);
    var s1 := ":" + (s + s2);
    assert c + ":" + s + ":" + p + rest == c + s1;
    HexOrStarReadBack(2, false, c, s1);
    assert s1[..1] == ":" && s1[1..] == s + s2;
    HexOrStarReadBack(2, true, s, s2);
    assert s2[..1] == ":" && s2[1..] == p + rest;
    HexOrStarReadBack(2, true, p, rest);
  }

  lemma {:induction false} IdentifierTailRead(t: string, rest: string)
    requires forall i :: 0 <= i < |t| ==> IsLetter(t[i])
    requires rest == "" || (!IsLetter(rest[0]) && !IsDigit(rest[0]))
    ensures IdentifierTail(t + rest) == Read(t, rest)
  {
    if t == "" {
      assert t + rest == rest;
    } else {
      IdentifierTailRead(t[1..], rest);
      var s := t + rest;
      assert s[0] == t[0] && s[1..] == t[1..] + rest;
      assert [t[0]] + t[1..] == t;
    }
  }

  lemma IdentifierRead(t: string, rest: string)
    requires t != "" && forall i :: 0 <= i < |t| ==> IsLetter(t[i])
    requires rest == "" || (!IsLetter(rest[0]) && !IsDigit(rest[0]))
    ensures ConditionIdentifier(t + rest) == Read(t, rest)
  {
    IdentifierTailRead(t[1..], rest);
    assert (t + rest)[0] == t[0] && (t + rest)[1..] == t[1..] + rest;
    assert [t[0]] + t[1..] == t;
  }

  lemma IdentifierFacts(kind: ConditionKind)
    ensures Identifier(kind) != "" && forall i :: 0 <= i < |Identifier(kind)| ==> IsLetter(Identifier(kind)[i])
    ensures KindFromIdentifier(Identifier(kind)) == Some(PrintedKind(kind))
  {
  }

  lemma Parenthesised(p: string, rest: string)
    ensures var t := "(" + p + ")";
      t + rest != "" && (t + rest)[0] == '(' && (t + rest)[1..] == (p + ")") + rest && ['('] + (p + ")") == t
  {
  }

  /** Where the parts of a condition text are found. */
  lemma PartsOfText(bang: string, identifier: string, p: string)
    requires '(' !in bang + identifier
    ensures
      var text := bang + identifier + ("(" + p + ")");
      var n := |bang| + |identifier|;
      && |text| == n + |p| + 2 && FirstIndex('(', text) == Some(n) && text[|bang|..n] == identifier
      && text[n + 1..|text| - 1] == p && text[|text| - 1] == ')'
  {
    var head := bang + identifier;
    var text := head + ("(" + p + ")");
    assert text[|head|] == '(' && text[..|head|] == head;
    FirstIndexIs('(', text, |head|);
  }

  /** getImplementation finds the parts of a condition text. */
  lemma NoArgument(acc: Acceptor, negated: bool, identifier: string)
    requires identifier != "" && identifier[0] != '!'
    requires var bang := if negated then "!" else ""; '(' !in bang + identifier
    ensures GetImplementation(acc, (if negated then "!" else "") + identifier)
      == MakeCondition(acc, identifier, "", negated)
  {
    hide MakeCondition;
    var bang := if negated then "!" else "";
    var text := bang + identifier;
    assert text[|bang|..] == identifier;
  }

  lemma WithArgument(acc: Acceptor, negated: bool, identifier: string, p: string)
    requires identifier != "" && identifier[0] != '!' && p != ""
    requires var bang := if negated then "!" else ""; '(' !in bang + identifier
    ensures GetImplementation(acc, (if negated then "!" else "") + identifier + ("(" + p + ")"))
      == MakeCondition(acc, identifier, p, negated)
  {
    hide MakeCondition, FirstIndex;
    var bang := if negated then "!" else "";
    var text := bang + identifier + ("(" + p + ")");
    PartsOfText(bang, identifier, p);
    assert text[0] == if negated then '!' else identifier[0];
  }

  lemma ConditionParts(acc: Acceptor, negated: bool, identifier: string, parameter: string)
    requires identifier != "" && forall i :: 0 <= i < |identifier| ==> IsLetter(identifier[i])
    ensures
      GetImplementation(acc, (if negated then "!" else "") + identifier + ArgumentText(parameter))
      == MakeCondition(acc, identifier, parameter, negated)
  {
    hide MakeCondition, GetImplementation;
    var bang := if negated then "!" else "";
    assert '(' !in bang + identifier && identifier[0] != '!';
    if parameter == "" {
      assert bang + identifier + "" == bang + identifier;
      NoArgument(acc, negated, identifier);
    } else {
      WithArgument(acc, negated, identifier, parameter);
    }
  }

  lemma ConditionReadBack(acc: Acceptor, v: Value, rest: string)
    requires v.Condition? && Printable(v) && Accepted(acc, v) && Terminated(rest)
    ensures ParseCondition(acc, ValueText(v) + rest) == Read(NormalValue(v), rest)
  {
    hide GetImplementation, Identifier, ArgumentText, ParsePlainCondition;
    var bang := if v.negated then "!" else "";
    PlainConditionReadBack(acc, v, rest);
    IdentifierFacts(v.kind);
    NegationSplit(bang, Identifier(v.kind), ArgumentText(v.parameter), rest);
  }

  lemma NegationSplit(bang: string, identifier: string, argument: string, rest: string)
    requires identifier != "" && IsLetter(identifier[0])
    requires bang == "" || bang == "!"
    ensures
      var text := bang + identifier + argument + rest;
      && StartsWith(text, "!") == (bang == "!")
      && text[|bang|..] == identifier + (argument + rest) && text[0..] == text
  {
    var text := bang + identifier + argument + rest;
    assert text[|bang|] == identifier[0];
  }

  lemma PlainConditionReadBack(acc: Acceptor, v: Value, rest: string)
    requires v.Condition? && Printable(v) && Accepted(acc, v) && Terminated(rest)
    ensures
      ParsePlainCondition(acc, if v.negated then "!" else "", Identifier(v.kind) + (ArgumentText(v.parameter) + rest))
      == Read(NormalValue(v), rest)
  {
    hide GetImplementation, Identifier, KindFromIdentifier;
    var bang := if v.negated then "!" else "";
    IdentifierFacts(v.kind);
    ConditionParts(acc, v.negated, Identifier(v.kind), v.parameter);
    ArgumentReadBack(v, rest);
    IdentifierRead(Identifier(v.kind), ArgumentText(v.parameter) + rest);
    if v.parameter == "" {
      assert "" + rest == rest;
      assert bang + Identifier(v.kind) + "" == bang + Identifier(v.kind);
    }
  }

  lemma ArgumentReadBack(v: Value, rest: string)
    requires v.Condition? && Printable(v) && Terminated(rest)
    ensures
      BoundedString('(', ')', ArgumentText(v.parameter) + rest)
      == if v.parameter == "" then NoMatch else Read(ArgumentText(v.parameter), rest)
  {
    if v.parameter == "" {
      assert "" + rest == rest;
    } else {
      Parenthesised(v.parameter, rest);
      UntilExtends(')', v.parameter + ")", rest);
      assert "" + rest == rest;
    }
  }

  /** Values of attribute `k` that print to a text which is read back. */
  predicate Readable(acc: Acceptor, k: Key, v: Value) {
    OfKind(k, v) && Printable(v) && Accepted(acc, v)
  }

  lemma ValueReadBack(acc: Acceptor, k: Key, v: Value, rest: string)
    requires Readable(acc, k, v) && Terminated(rest)
    ensures ParseValue(acc, k, ValueText(v) + rest) == Read(NormalValue(v), rest)
  {
    hide ValueText, ParseDeviceId, ParseInterface, ParseCondition, ParseString;
    match v
    case Str(text) => StringReadBack(text, rest);
    case DeviceId(_, _) => DeviceIdReadBack(v, rest);
    case Interface(_, _, _) => InterfaceReadBack(v, rest);
    case Condition(_, _, _) => ConditionReadBack(acc, v, rest);
  }

  // ----- Attributes

  function NormalValues(vs: seq<Value>): (ws: seq<Value>)
    ensures |ws| == |vs| && forall i :: 0 <= i < |vs| ==> ws[i] == NormalValue(vs[i])
  {
    seq(|vs|, i requires 0 <= i < |vs| => NormalValue(vs[i]))
  }

  predicate AllReadable(acc: Acceptor, k: Key, vs: seq<Value>) {
    forall i :: 0 <= i < |vs| ==> Readable(acc, k, vs[i])
  }

  lemma NoValueAtBrace(acc: Acceptor, k: Key, rest: string)
    ensures ParseValue(acc, k, "}" + rest) == NoMatch
  {
    var s := "}" + rest;
    assert s[0] == '}';
    assert |s| >= 4 ==> s[..4][0] == '}';
    assert |s| >= 2 ==> s[..2][0] == '}';
    assert s[..1] == "}";
  }

  lemma SkipOneBlank(s: string)
    requires !BlankAhead(s)
    ensures BlankAhead(" " + s) && SkipBlanks(" " + s) == s
  {
    assert (" " + s)[1..] == s;
  }

  /** No value text starts with a blank, a brace or the text of a set operator. */
  lemma ValueStart(acc: Acceptor, k: Key, v: Value, rest: string)
    requires Readable(acc, k, v)
    ensures var s := ValueText(v) + rest; !BlankAhead(s) && s != "" && s[0] != '{' && ParseOperator(0, s) == NoMatch
  {
    var s := ValueText(v) + rest;
    FirstCharacters(v);
    assert s[0] == ValueText(v)[0] && s[1] == ValueText(v)[1];
    assert |ValueText(v)| > 3 ==> s[3] == ValueText(v)[3];
    NotAnOperator(s);
  }

  /** Some place among the first four tells `s` from every operator text. */
  predicate UnlikeOperators(s: string) {
    |s| > 1 &&
    (s[0] !in {'a', 'o', 'n', 'e', 'm'} || (IsHexDigit(s[0]) && IsHexDigit(s[1])) || (|s| > 3 && s[0] == 'a'
      && s[3] == 'o'))
  }

  lemma FirstCharacters(v: Value)
    requires Printable(v)
    ensures var t := ValueText(v); UnlikeOperators(t) && t[0] != '{' && !IsBlank(t[0])
  {
    hide Escape, Until, Identifier, IsHexDigit, HexByte;
    match v
    case Str(text) =>
    case DeviceId(vendor, product) => HexStart(vendor);
    case Interface(c, _, _) => HexStart(HexByte(c % 256));
    case Condition(kind, parameter, negated) =>
      IdentifierStart(kind);
      var bang := if negated then "!" else "";
      assert ValueText(v) == bang + Identifier(kind) + ArgumentText(parameter);
  }

  lemma HexStart(s: string)
    ensures |s| >= 2 && IsHexDigit(s[0]) && IsHexDigit(s[1]) ==> s[0] != '{' && !IsBlank(s[0]) && s[0] != '*'
  {
  }

  lemma IdentifierStart(kind: ConditionKind)
    ensures var t := Identifier(kind); UnlikeOperators(t) && |t| > 3 && t[0] != '{' && !IsBlank(t[0])
  {
  }

  lemma NotAnOperator(s: string)
    requires UnlikeOperators(s)
    ensures ParseOperator(0, s) == NoMatch
  {
    forall i | 0 <= i < |OPERATORS| ensures !StartsWith(s, OperatorText(OPERATORS[i])) {
      var t := OperatorText(OPERATORS[i]);
      if |t| <= |s| {
        assert s[..|t|][0] == s[0] && s[..|t|][1] == s[1] && s[..|t|][3] == s[3];
      }
    }
    NoOperatorFrom(0, s);
  }

  lemma {:induction false} NoOperatorFrom(i: nat, s: string)
    requires forall j :: 0 <= j < |OPERATORS| ==> !StartsWith(s, OperatorText(OPERATORS[j]))
    ensures ParseOperator(i, s) == NoMatch
    decreases |OPERATORS| - i
  {
    if i < |OPERATORS| {
      NoOperatorFrom(i + 1, s);
    }
  }

  /** The text between two values, or between the last value and what follows the attribute. */
  function AfterValue(vs: seq<Value>, rest: string): (s: string) {
    " " + (ValuesText(vs) + ("}" + rest))
  }

  lemma AfterValueStep(acc: Acceptor, k: Key, vs: seq<Value>, rest: string)
    requires vs != [] && AllReadable(acc, k, vs)
    ensures var s := AfterValue(vs, rest);
      BlankAhead(s) && SkipBlanks(s) == ValueText(vs[0]) + AfterValue(vs[1..], rest)
  {
    hide ValueText, Readable;
    var t := ValueText(vs[0]) + AfterValue(vs[1..], rest);
    Regroup(ValueText(vs[0]), " ", ValuesText(vs[1..]), "}" + rest);
    ValueStart(acc, k, vs[0], AfterValue(vs[1..], rest));
    SkipOneBlank(t);
  }

  lemma Regroup(a: string, b: string, c: string, d: string)
    ensures a + b + c + d == a + (b + (c + d))
  {
  }

  lemma {:induction false} MoreValuesReadBack(acc: Acceptor, k: Key, soFar: seq<Value>, vs: seq<Value>, rest: string)
    requires AllReadable(acc, k, vs)
    ensures MoreValues(acc, k, soFar, AfterValue(vs, rest)) == Read(soFar + NormalValues(vs), AfterValue([], rest))
    decreases |vs|
  {
    hide ValueText, Readable, ParseValue, ValuesText, SkipBlanks;
    if vs == [] {
      MoreValuesEnd(acc, k, soFar, rest);
      assert soFar + NormalValues(vs) == soFar;
    } else {
      AfterValueStep(acc, k, vs, rest);
      var next := AfterValue(vs[1..], rest);
      ValueReadBack(acc, k, vs[0], next);
      MoreValuesReadBack(acc, k, soFar + [NormalValue(vs[0])], vs[1..], rest);
      NormalValuesCons(soFar, vs);
    }
  }

  lemma NormalValuesCons(soFar: seq<Value>, vs: seq<Value>)
    requires vs != []
    ensures soFar + [NormalValue(vs[0])] + NormalValues(vs[1..]) == soFar + NormalValues(vs)
  {
  }

  lemma MoreValuesEnd(acc: Acceptor, k: Key, soFar: seq<Value>, rest: string)
    ensures MoreValues(acc, k, soFar, AfterValue([], rest)) == Read(soFar, AfterValue([], rest))
  {
    hide ParseValue;
    NoValueAtBrace(acc, k, rest);
    assert "" + ("}" + rest) == "}" + rest;
    SkipOneBlank("}" + rest);
  }

  lemma AfterValueTerminated(vs: seq<Value>, rest: string)
    ensures Terminated(AfterValue(vs, rest))
  {
  }

  lemma ClosingBrace(rest: string)
    ensures var s := SkipBlanks(AfterValue([], rest)); StartsWith(s, "}") && s[1..] == rest
  {
    var s := "}" + rest;
    assert "" + s == s && s[..1] == "}" && s[1..] == rest;
    SkipOneBlank(s);
  }

  lemma BracesReadBack(acc: Acceptor, k: Key, vs: seq<Value>, rest: string)
    requires AllReadable(acc, k, vs) && vs != []
    ensures ParseBraces(acc, k, AfterValue(vs, rest)) == Read(NormalValues(vs), rest)
  {
    hide ValueText, Readable, ParseValue, MoreValues, AfterValue, SkipBlanks, NormalValue;
    AfterValueStep(acc, k, vs, rest);
    AfterValueTerminated(vs[1..], rest);
    ValueReadBack(acc, k, vs[0], AfterValue(vs[1..], rest));
    MoreValuesReadBack(acc, k, [NormalValue(vs[0])], vs[1..], rest);
    assert [NormalValue(vs[0])] + NormalValues(vs[1..]) == NormalValues(vs);
    ClosingBrace(rest);
  }

  lemma OperatorRead(op: SetOperator, rest: string)
    requires op != Match && op != Equals
    ensures ParseOperator(0, OperatorText(op) + rest) == Read(op, rest)
  {
    var t := OperatorText(op);
    var s := t + rest;
    assert s[..|t|] == t && s[|t|..] == rest;
    forall i | 0 <= i < |OPERATORS| && OPERATORS[i] != op && OPERATORS[i] != Equals
      ensures !StartsWith(s, OperatorText(OPERATORS[i]))
    {
      var u := OperatorText(OPERATORS[i]);
      assert s[0] == t[0] && t[0] != u[0];
      assert |u| <= |s| ==> s[..|u|][0] == s[0];
    }
    assert op == MatchAll ==> !StartsWith(s, OperatorText(Equals)) by {
      assert |s| >= 6 ==> s[..6][0] == s[0] == t[0];
    }
    FirstOperator(0, op, s);
  }

  lemma {:induction false} FirstOperator(i: nat, op: SetOperator, s: string)
    requires i < |OPERATORS| && op in OPERATORS[i..] && op != Equals
    requires StartsWith(s, OperatorText(op))
    requires forall j :: i <= j < |OPERATORS| && OPERATORS[j] != op && OPERATORS[j] != Equals ==>
      !StartsWith(s, OperatorText(OPERATORS[j]))
    requires op == MatchAll ==> !StartsWith(s, OperatorText(Equals))
    ensures ParseOperator(i, s) == Read(op, s[|OperatorText(op)|..])
    decreases |OPERATORS| - i
  {
    hide OperatorText;
    if OPERATORS[i] != op {
      FirstOperator(i + 1, op, s);
    }
  }

  /** An attribute that has values is readable with any operator but the one without a keyword. */
  predicate ReadableAttribute(acc: Acceptor, k: Key, a: Attribute) {
    a.values != [] && a.op != Match && AllReadable(acc, k, a.values)
  }

  function BracesText(vs: seq<Value>, rest: string): (s: string) {
    "{" + AfterValue(vs, rest)
  }

  /** The text of an attribute after its keyword and one space, followed by `rest`. */
  function BodyText(a: Attribute, rest: string): (s: string)
    requires a.values != []
  {
    if a.op != Equals then OperatorText(a.op) + (" " + BracesText(a.values, rest))
    else if |a.values| > 1 then BracesText(a.values, rest)
    else ValueText(a.values[0]) + rest
  }

  lemma AttributeTextParts(k: Key, a: Attribute, rest: string)
    requires a.values != []
    ensures AttributeText(k, a) + rest == Keyword(k) + (" " + BodyText(a, rest))
  {
    hide Keyword, OperatorText, ValueText, ValuesText;
    var vs := ValuesText(a.values);
    if a.op != Equals {
      assert Keyword(k) + " " + OperatorText(a.op) + " " + "{ " + vs + "}" + rest
        == Keyword(k) + (" " + (OperatorText(a.op) + (" " + ("{" + (" " + (vs + ("}" + rest)))))));
    } else if |a.values| > 1 {
      assert Keyword(k) + " " + "{ " + vs + "}" + rest == Keyword(k) + (" " + ("{" + (" " + (vs + ("}" + rest)))));
    } else {
      Assoc(Keyword(k), " ", ValueText(a.values[0]));
      Assoc(Keyword(k), " " + ValueText(a.values[0]), rest);
      Assoc(" ", ValueText(a.values[0]), rest);
    }
  }

  /** What the grammar reports for the text of an attribute. */
  function NormalBody(a: Attribute): (b: Body) {
    Body(if a.op != Equals then Some(a.op) else None, NormalValues(a.values))
  }

  lemma MultisetReadBack(acc: Acceptor, k: Key, a: Attribute, rest: string)
    requires ReadableAttribute(acc, k, a) && (a.op != Equals || |a.values| > 1)
    ensures ParseMultiset(acc, k, BodyText(a, rest)) == Read(NormalBody(a), rest)
  {
    hide AllReadable, ParseBraces, OperatorText;
    var braces := BracesText(a.values, rest);
    BracesReadBack(acc, k, a.values, rest);
    assert braces[..1] == "{" && braces[1..] == AfterValue(a.values, rest);
    if a.op != Equals {
      OperatorRead(a.op, " " + braces);
      SkipOneBlank(braces);
    } else {
      NotAnOperator(braces);
    }
  }

  lemma BodyReadBack(acc: Acceptor, k: Key, a: Attribute, rest: string)
    requires ReadableAttribute(acc, k, a) && Terminated(rest)
    ensures ParseBody(acc, k, BodyText(a, rest)) == Read(NormalBody(a), rest)
  {
    hide Readable, ParseBraces, OperatorText, AfterValue, ValueText, ParseValue, ParseOperator;
    if a.op != Equals || |a.values| > 1 {
      MultisetReadBack(acc, k, a, rest);
    } else {
      ValueStart(acc, k, a.values[0], rest);
      var s := ValueText(a.values[0]) + rest;
      assert s[..1][0] == s[0];
      ValueReadBack(acc, k, a.values[0], rest);
      assert NormalValues(a.values) == [NormalValue(a.values[0])];
    }
  }

  lemma BodyStart(acc: Acceptor, k: Key, a: Attribute, rest: string)
    requires ReadableAttribute(acc, k, a)
    ensures !BlankAhead(BodyText(a, rest))
  {
    hide Readable;
    if a.op == Equals && |a.values| == 1 {
      ValueStart(acc, k, a.values[0], rest);
    }
  }

  /** No keyword is the beginning of the text of another one. */
  lemma KeywordsDiffer(j: Key, k: Key)
    requires j != k
    ensures exists i :: 0 <= i < |Keyword(j)| && i < |Keyword(k)| && Keyword(j)[i] != Keyword(k)[i]
  {
    var i :=
      if j in {WithInterface, WithConnectType} && k in {WithInterface, WithConnectType} then 5
      else if j in {Id, If} && k in {Id, If} then 1
      else 0;
    assert Keyword(j)[i] != Keyword(k)[i];
  }

  lemma OtherKeyword(j: Key, k: Key, tail: string)
    requires j != k
    ensures !StartsWith(Keyword(k) + tail, Keyword(j))
  {
    hide Keyword;
    KeywordsDiffer(j, k);
    var i :| 0 <= i < |Keyword(j)| && i < |Keyword(k)| && Keyword(j)[i] != Keyword(k)[i];
    var s := Keyword(k) + tail;
    if |Keyword(j)| <= |s| {
      assert s[..|Keyword(j)|][i] == Keyword(k)[i];
    }
  }

  function Alternative(k: Key): (i: nat)
    ensures i < |GRAMMAR_ORDER| && GRAMMAR_ORDER[i] == k
  {
    match k
    case Id => 0
    case Name => 1
    case Hash => 2
    case ParentHash => 3
    case Serial => 4
    case ViaPort => 5
    case WithInterface => 6
    case WithConnectType => 7
    case If => 8
    case Label => 9
  }

  lemma OwnKeyword(acc: Acceptor, i: nat, k: Key, a: Attribute, rest: string)
    requires ReadableAttribute(acc, k, a) && Terminated(rest) && i < |GRAMMAR_ORDER| && GRAMMAR_ORDER[i] == k
    ensures ParseAttribute(acc, i, Keyword(k) + (" " + BodyText(a, rest))) == Read((k, NormalBody(a)), rest)
  {
    hide Keyword, AllReadable, BodyText, ParseBody, GRAMMAR_ORDER, SkipBlanks;
    var body := BodyText(a, rest);
    var s := Keyword(k) + (" " + body);
    assert s[..|Keyword(k)|] == Keyword(k) && s[|Keyword(k)|..] == " " + body;
    BodyStart(acc, k, a, rest);
    SkipOneBlank(body);
    BodyReadBack(acc, k, a, rest);
  }

  lemma {:induction false} AttributeReadBack(acc: Acceptor, i: nat, k: Key, a: Attribute, rest: string)
    requires ReadableAttribute(acc, k, a) && Terminated(rest)
    requires i <= Alternative(k)
    ensures ParseAttribute(acc, i, Keyword(k) + (" " + BodyText(a, rest))) == Read((k, NormalBody(a)), rest)
    decreases |GRAMMAR_ORDER| - i
  {
    hide Keyword, AllReadable, BodyText, ParseBody, GRAMMAR_ORDER, Alternative, SkipBlanks;
    var body := BodyText(a, rest);
    if GRAMMAR_ORDER[i] == k {
      OwnKeyword(acc, i, k, a, rest);
    } else {
      OtherKeyword(GRAMMAR_ORDER[i], k, " " + body);
      AttributeReadBack(acc, i + 1, k, a, rest);
    }
  }

  // ----- Rules

  /** Rules whose text is read back. */
  ghost predicate ReadableRule(acc: Acceptor, r: Rule) {
    r.target in TARGETS && forall k :: Get(r, k).values != [] ==> ReadableAttribute(acc, k, Get(r, k))
  }

  function NormalAttribute(a: Attribute): (b: Attribute) {
    if a.values == [] then NO_VALUES else Attribute(a.op, NormalValues(a.values))
  }

  function Place(k: Key): (i: nat)
    ensures i < |PRINT_ORDER| && PRINT_ORDER[i] == k
  {
    match k
    case Id => 0
    case Serial => 1
    case Name => 2
    case Hash => 3
    case ParentHash => 4
    case ViaPort => 5
    case WithInterface => 6
    case If => 7
    case WithConnectType => 8
    case Label => 9
  }

  function Part(r: Rule, i: nat, k: Key): (a: Attribute) {
    if Place(k) < i then NormalAttribute(Get(r, k)) else NO_VALUES
  }

  /** The rule under construction when the attributes in front of place `i` have been read. */
  function Upto(r: Rule, i: nat): (s: Rule)
    ensures s.id == DEFAULT_ID && s.target == r.target && forall k :: Get(s, k) == Part(r, i, k)
  {
    Rule(DEFAULT_ID, r.target, Part(r, i, Id), Part(r, i, Serial), Part(r, i, Name), Part(r, i, Hash),
         Part(r, i, ParentHash), Part(r, i, ViaPort), Part(r, i, WithInterface), Part(r, i, If),
         Part(r, i, WithConnectType), Part(r, i, Label))
  }

  /**
   * The rule that comes back: without an identifier, with the default operator on attributes that have
   * no values, and with "rule-applied" in place of "rule-evaluated".
   */
  function Normal(r: Rule): (s: Rule)
    ensures s.id == DEFAULT_ID && s.target == r.target && forall k :: Get(s, k) == NormalAttribute(Get(r, k))
  {
    Upto(r, |PRINT_ORDER|)
  }

  lemma AttributesTextStart(r: Rule, i: nat)
    ensures Terminated(AttributesText(r, i))
    decreases |PRINT_ORDER| - i
  {
    hide AttributeText, PRINT_ORDER;
    if i < |PRINT_ORDER| {
      AttributesTextStart(r, i + 1);
    }
  }

  lemma UptoStep(r: Rule, i: nat)
    requires i < |PRINT_ORDER|
    ensures var k := PRINT_ORDER[i];
      Put(Upto(r, i), k, NormalAttribute(Get(r, k))) == Upto(r, i + 1) && Get(Upto(r, i), k) == NO_VALUES
  {
    var k := PRINT_ORDER[i];
    var s, t := Put(Upto(r, i), k, NormalAttribute(Get(r, k))), Upto(r, i + 1);
    forall j ensures Get(s, j) == Get(t, j) {
      assert PRINT_ORDER[Place(j)] == j;
    }
    RuleEquality(s, t);
  }

  lemma NoAttributeStep(r: Rule, i: nat)
    requires i < |PRINT_ORDER| && Get(r, PRINT_ORDER[i]).values == []
    ensures Upto(r, i + 1) == Upto(r, i) && AttributesText(r, i) == AttributesText(r, i + 1)
  {
    hide Upto, AttributeText, PRINT_ORDER;
    UptoStep(r, i);
    RuleEquality(Upto(r, i + 1), Upto(r, i));
    assert "" + AttributesText(r, i + 1) == AttributesText(r, i + 1);
  }

  lemma KeywordStart(k: Key)
    ensures !IsBlank(Keyword(k)[0]) && !IsHexDigit(Keyword(k)[0]) && Keyword(k)[0] != '*' && Keyword(k)[0] != '#'
  {
  }

  lemma InstallNormal(r: Rule, k: Key, a: Attribute)
    requires a.values != [] && Get(r, k) == NO_VALUES
    ensures Install(r, k, NormalBody(a)) == Ok(Put(r, k, NormalAttribute(a)))
  {
    assert [] + NormalValues(a.values) == NormalValues(a.values);
  }

  lemma AttributeAfterBlank(acc: Acceptor, k: Key, a: Attribute, rest: string)
    requires ReadableAttribute(acc, k, a) && Terminated(rest)
    ensures var s := " " + AttributeText(k, a) + rest;
      BlankAhead(s) && ParseAttribute(acc, 0, SkipBlanks(s)) == Read((k, NormalBody(a)), rest)
  {
    hide AttributeText, ParseAttribute, AllReadable, Keyword, BodyText;
    var s := AttributeText(k, a) + rest;
    AttributeTextParts(k, a, rest);
    KeywordStart(k);
    Assoc(" ", AttributeText(k, a), rest);
    SkipOneBlank(s);
    AttributeReadBack(acc, 0, k, a, rest);
  }

  lemma AttributeStep(acc: Acceptor, r: Rule, i: nat)
    requires ReadableRule(acc, r) && i < |PRINT_ORDER| && Get(r, PRINT_ORDER[i]).values != []
    ensures ParseAttributes(acc, Upto(r, i), AttributesText(r, i))
      == ParseAttributes(acc, Upto(r, i + 1), AttributesText(r, i + 1))
  {
    hide Upto, AttributeText, PRINT_ORDER, ReadableAttribute, Install, SkipBlanks, ParseAttribute, NormalAttribute;
    var k := PRINT_ORDER[i];
    UptoStep(r, i);
    AttributesTextStart(r, i + 1);
    InstallNormal(Upto(r, i), k, Get(r, k));
    AttributeAfterBlank(acc, k, Get(r, k), AttributesText(r, i + 1));
  }

  lemma {:induction false} AttributesReadBack(acc: Acceptor, r: Rule, i: nat)
    requires ReadableRule(acc, r) && i <= |PRINT_ORDER|
    ensures ParseAttributes(acc, Upto(r, i), AttributesText(r, i)) == Ok((Normal(r), ""))
    decreases |PRINT_ORDER| - i
  {
    hide Upto, AttributesText, ReadableRule, ParseAttributes, PRINT_ORDER;
    if i < |PRINT_ORDER| {
      AttributesReadBack(acc, r, i + 1);
      if Get(r, PRINT_ORDER[i]).values == [] {
        NoAttributeStep(r, i);
      } else {
        AttributeStep(acc, r, i);
      }
    } else {
      NothingToRead(acc, r);
    }
  }

  lemma NothingToRead(acc: Acceptor, r: Rule)
    ensures var n := |PRINT_ORDER|; ParseAttributes(acc, Upto(r, n), AttributesText(r, n)) == Ok((Normal(r), ""))
  {
    hide Upto, PRINT_ORDER;
  }

  /** The attributes of a rule start with a keyword, if there are any. */
  lemma AttributesTextKeyword(r: Rule, i: nat)
    ensures AttributesText(r, i) == "" ||
      exists k, tail :: AttributesText(r, i) == " " + (Keyword(k) + tail)
    decreases |PRINT_ORDER| - i
  {
    hide Keyword, BodyText, AttributeText, PRINT_ORDER;
    if i < |PRINT_ORDER| {
      var k := PRINT_ORDER[i];
      var rest := AttributesText(r, i + 1);
      if Get(r, k).values == [] {
        AttributesTextKeyword(r, i + 1);
        assert "" + rest == rest;
      } else {
        AttributeTextParts(k, Get(r, k), rest);
        Assoc(" ", AttributeText(k, Get(r, k)), rest);
        assert AttributesText(r, i) == " " + (Keyword(k) + (" " + BodyText(Get(r, k), rest)));
      }
    }
  }

  lemma NoDeviceId(t: string)
    requires t != "" && !IsHexDigit(t[0]) && t[0] != '*'
    ensures ParseDeviceId(t) == NoMatch
  {
    assert |t| >= 4 ==> t[..4][0] == t[0];
    assert t[..1][0] == t[0];
  }

  lemma NoDeviceIdAhead(r: Rule)
    ensures var s := AttributesText(r, 0); BlankAhead(s) ==> ParseDeviceId(SkipBlanks(s)) == NoMatch
  {
    hide AttributesText, Keyword;
    AttributesTextKeyword(r, 0);
    var s := AttributesText(r, 0);
    if BlankAhead(s) {
      var k, tail :| s == " " + (Keyword(k) + tail);
      var t := Keyword(k) + tail;
      KeywordStart(k);
      SkipOneBlank(t);
      NoDeviceId(t);
    }
  }

  lemma TargetRead(t: Target, rest: string)
    requires t in TARGETS
    ensures var s := TargetText(t).value + rest;
      ParseTarget(0, s) == Read(t, rest) && s != "" && SkipBlanks(s) == s && !IsComment(s)
  {
    hide ParseTarget, TargetText;
    TargetFacts(t);
    var w := TargetText(t).value;
    var s := w + rest;
    assert s[0] == w[0] && s[..|w|] == w && s[|w|..] == rest;
    assert s[..1][0] == s[0];
    assert TARGETS[0..] == TARGETS;
    TargetAlternatives(t, 0, s);
  }

  lemma TargetFacts(t: Target)
    requires t in TARGETS
    ensures TargetText(t).Ok? && var w := TargetText(t).value; w != "" && w[0] != ' ' && w[0] != '\t' && w[0] != '#'
  {
  }

  /** The texts of two targets differ in their first character. */
  lemma TargetsDiffer(t: Target, u: Target)
    requires t in TARGETS && u in TARGETS && t != u
    ensures TargetText(t).value[0] != TargetText(u).value[0]
  {
  }

  lemma {:induction false} TargetAlternatives(t: Target, i: nat, s: string)
    requires i < |TARGETS| && t in TARGETS[i..] && StartsWith(s, TargetText(t).value)
    ensures ParseTarget(i, s) == Read(t, s[|TargetText(t).value|..])
    decreases |TARGETS| - i
  {
    hide TargetText;
    if TARGETS[i] != t {
      TargetFacts(t);
      TargetFacts(TARGETS[i]);
      var w, u := TargetText(t).value, TargetText(TARGETS[i]).value;
      TargetsDiffer(t, TARGETS[i]);
      assert s[..|w|][0] == w[0];
      assert |u| <= |s| ==> s[..|u|][0] == s[0];
      TargetAlternatives(t, i + 1, s);
    }
  }

  lemma UptoStart(r: Rule)
    ensures Upto(r, 0) == NEW_RULE.(target := r.target)
  {
    RuleEquality(Upto(r, 0), NEW_RULE.(target := r.target));
  }

  lemma RuleBodyReadBack(acc: Acceptor, r: Rule)
    requires ReadableRule(acc, r)
    ensures ParseRuleBody(acc, r.target, AttributesText(r, 0)) == Ok(Normal(r))
  {
    hide AttributesText, ReadableRule, ParseAttributes, Upto, Normal, ParseDeviceId;
    NoDeviceIdAhead(r);
    UptoStart(r);
    AttributesReadBack(acc, r, 0);
    assert SkipBlanks("") == "";
  }

  /** Round trip: the text of a readable rule is parsed to that rule in its normal form. */
  lemma RuleReadBack(acc: Acceptor, r: Rule)
    requires ReadableRule(acc, r)
    ensures RuleText(r).Ok? && ParseRule(acc, RuleText(r).value) == Ok(Normal(r))
  {
    hide AttributesText, ReadableAttribute, ParseTarget, ParseRuleBody, Normal;
    TargetRead(r.target, AttributesText(r, 0));
    RuleBodyReadBack(acc, r);
  }

  /** The normal form is the rule itself exactly if nothing was lost in the text. */
  lemma NormalIsIdentity(r: Rule)
    ensures Normal(r) == r <==>
      && r.id == DEFAULT_ID
      && (forall k :: Get(r, k).values == [] ==> Get(r, k).op == Equals)
      && (forall k, v :: v in Get(r, k).values ==> !(v.Condition? && v.kind == RuleEvaluated))
  {
    hide Normal;
    if Normal(r) == r {
      forall k, v | v in Get(r, k).values ensures !(v.Condition? && v.kind == RuleEvaluated) {
        var i :| 0 <= i < |Get(r, k).values| && Get(r, k).values[i] == v;
        assert Get(Normal(r), k).values[i] == NormalValue(v);
      }
    }
    if r.id == DEFAULT_ID && (forall k :: Get(r, k).values == [] ==> Get(r, k).op == Equals)
      && forall k, v :: v in Get(r, k).values ==> !(v.Condition? && v.kind == RuleEvaluated) {
      forall k ensures Get(Normal(r), k) == Get(r, k) {
        assert NormalValues(Get(r, k).values) == Get(r, k).values;
      }
      RuleEquality(Normal(r), r);
    }
  }
}
