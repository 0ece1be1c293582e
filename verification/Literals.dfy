/** Rule texts and the rules they stand for, letter by letter (doc/man/usbguard-rules.conf.5.adoc). */
module Literals {
  import opened Text
  import opened Matching
  import opened Rules
  import opened Printer
  import opened Grammar
  import opened RoundTrip
  import opened Layouts

  function One(v: Value): (a: Attribute) {
    Attribute(Equals, [v])
  }

  // ----- Attributes

  /** A rule with every attribute. */
  function FullRule(): (r: Rule) {
    Rule(DEFAULT_ID, Allow, One(DeviceId("1d6b", "*")), One(Str("a")), One(Str("b")), One(Str("c")), One(Str("d")),
         One(Str("e")), One(Interface(9, Some(1), None)), One(Condition(FixedTrue, "", true)), One(Str("f")),
         One(Str("g")))
  }

  function LastPart(): (s: string) {
    " with-interface 09:01:*" + (" if !true" + (" with-connect-type \"f\"" + (" label \"g\"" + "")))
  }

  function MiddlePart(): (s: string) {
    " hash \"c\"" + (" parent-hash \"d\"" + (" via-port \"e\"" + LastPart()))
  }

  function FullText(): (s: string) {
    "allow" + (" id 1d6b:*" + (" serial \"a\"" + (" name \"b\"" + MiddlePart())))
  }

  lemma Quoted(c: char)
    requires IsPrintable(c) && c != '"' && c != '\\'
    ensures ValueText(Str([c])) == "\"" + [c] + "\""
  {
    assert Escape([c]) == [c] + Escape([]);
  }

  lemma OneMore(r: Rule, i: nat, v: Value, text: string, rest: string)
    requires i < |PRINT_ORDER| && Get(r, PRINT_ORDER[i]) == One(v)
    requires " " + (Keyword(PRINT_ORDER[i]) + " " + ValueText(v)) == text && AttributesText(r, i + 1) == rest
    ensures AttributesText(r, i) == text + rest
  {
    hide Keyword, ValueText, PRINT_ORDER;
  }

  lemma LastTexts(r: Rule)
    requires r == FullRule()
    ensures AttributesText(r, 6) == LastPart()
  {
    hide AttributesText, ValueText, IsPrintable;
    Quoted('f');
    Quoted('g');
    assert AttributesText(r, 10) == "" by { NoMore(r); }
    OneMore(r, 9, Str("g"), " label \"g\"", "");
    OneMore(r, 8, Str("f"), " with-connect-type \"f\"", AttributesText(r, 9));
    NumberTexts();
    OneMore(r, 7, Condition(FixedTrue, "", true), " if !true", AttributesText(r, 8));
    OneMore(r, 6, Interface(9, Some(1), None), " with-interface 09:01:*", AttributesText(r, 7));
  }

  lemma NoMore(r: Rule)
    ensures AttributesText(r, 10) == ""
  {
  }

  lemma NumberTexts()
    ensures ValueText(Condition(FixedTrue, "", true)) == "!true" && ValueText(Interface(9, Some(1), None)) == "09:01:*"
    ensures ValueText(DeviceId("1d6b", "*")) == "1d6b:*"
  {
  }

  lemma MiddleTexts(r: Rule)
    requires r == FullRule()
    ensures AttributesText(r, 3) == MiddlePart()
  {
    hide AttributesText, ValueText, LastPart, IsPrintable;
    LastTexts(r);
    Quoted('c');
    Quoted('d');
    Quoted('e');
    OneMore(r, 5, Str("e"), " via-port \"e\"", LastPart());
    OneMore(r, 4, Str("d"), " parent-hash \"d\"", AttributesText(r, 5));
    OneMore(r, 3, Str("c"), " hash \"c\"", AttributesText(r, 4));
  }

  lemma FullRuleText()
    ensures RuleText(FullRule()) == Ok(FullText())
  {
    hide AttributesText, ValueText, MiddlePart, IsPrintable;
    var r := FullRule();
    MiddleTexts(r);
    NumberTexts();
    Quoted('a');
    Quoted('b');
    OneMore(r, 2, Str("b"), " name \"b\"", MiddlePart());
    OneMore(r, 1, Str("a"), " serial \"a\"", AttributesText(r, 2));
    OneMore(r, 0, DeviceId("1d6b", "*"), " id 1d6b:*", AttributesText(r, 1));
  }

  lemma FullRuleIsReadable(acc: Acceptor)
    ensures ReadableRule(acc, FullRule()) && Normal(FullRule()) == FullRule()
  {
    hide Normal, IsBytes;
    NormalIsIdentity(FullRule());
    LettersAreBytes();
  }

  lemma LettersAreBytes()
    ensures IsBytes("a") && IsBytes("b") && IsBytes("c") && IsBytes("d") && IsBytes("e") && IsBytes("f") && IsBytes("g")
  {
  }

  /** Every attribute is read into its own field, and printed from there under its own keyword. */
  lemma EveryAttribute(acc: Acceptor)
    ensures RuleText(FullRule()) == Ok(FullText()) && ParseRule(acc, FullText()) == Ok(FullRule())
  {
    hide RuleText, ParseRule, Normal, FullText, ReadableRule;
    FullRuleText();
    FullRuleIsReadable(acc);
    RuleReadBack(acc, FullRule());
  }

  // ----- Targets

  const TARGET_WORDS := [("allow", Allow), ("block", Block), ("reject", Reject), ("match", MatchTarget),
                         ("device", Device)]

  /** A target alone is a rule for every device. */
  lemma EveryTarget(acc: Acceptor, i: nat)
    requires i < |TARGET_WORDS|
    ensures ParseRule(acc, TARGET_WORDS[i].0) == Ok(NEW_RULE.(target := TARGET_WORDS[i].1))
    ensures RuleText(NEW_RULE.(target := TARGET_WORDS[i].1)) == Ok(TARGET_WORDS[i].0)
  {
    hide ParseRule, Normal, AttributesText;
    var (word, target) := TARGET_WORDS[i];
    var r := NEW_RULE.(target := target);
    NoAttributesText(r, 0);
    assert word + "" == word;
    NormalIsIdentity(r);
    RuleReadBack(acc, r);
  }

  lemma {:induction false} NoAttributesText(r: Rule, i: nat)
    requires forall k :: Get(r, k).values == []
    ensures AttributesText(r, i) == ""
    decreases |PRINT_ORDER| - i
  {
    hide PRINT_ORDER;
    if i < |PRINT_ORDER| {
      NoAttributesText(r, i + 1);
    }
  }

  /** A comment has the empty target and no text at all has none; anything else has to start with a target. */
  lemma NoTarget(acc: Acceptor, blanks: string, s: string)
    requires Blanks(blanks) && !BlankAhead(s)
    ensures s != "" && s[0] == '#' ==> ParseRule(acc, blanks + s) == Ok(NEW_RULE.(target := Empty))
    ensures s == "" ==> ParseRule(acc, blanks + s) == Ok(NEW_RULE)
    ensures s != "" && s[0] !in {'#', 'a', 'b', 'r', 'm', 'd'} ==> ParseRule(acc, blanks + s) == Err
  {
    hide ParseRuleBody;
    SkipGap(blanks, s);
    assert s != "" ==> s[..1] == [s[0]];
    if s == "" || s[0] !in {'#', 'a', 'b', 'r', 'm', 'd'} {
      assert forall i :: 0 <= i < |TARGETS| ==> !StartsWith(s, TargetText(TARGETS[i]).value) by {
        forall i | 0 <= i < |TARGETS| ensures !StartsWith(s, TargetText(TARGETS[i]).value) {
          var w := TargetText(TARGETS[i]).value;
          assert |w| <= |s| ==> s[..|w|][0] == s[0];
        }
      }
      NoTargetFrom(0, s);
    }
  }

  lemma {:induction false} NoTargetFrom(i: nat, s: string)
    requires forall j :: 0 <= j < |TARGETS| ==> !StartsWith(s, TargetText(TARGETS[j]).value)
    ensures ParseTarget(i, s) == NoMatch
    decreases |TARGETS| - i
  {
    if i < |TARGETS| {
      NoTargetFrom(i + 1, s);
    }
  }

  // ----- Operators

  const OPERATOR_WORDS := [("all-of", AllOf), ("one-of", OneOf), ("none-of", NoneOf), ("equals", Equals),
                           ("equals-ordered", EqualsOrdered), ("match-all", MatchAll)]

  /** Every operator is read under its own word, also the one that the printer leaves out. */
  lemma EveryOperator(acc: Acceptor, i: nat)
    requires i < |OPERATOR_WORDS|
    ensures ParseRule(acc, "allow" + (" name " + (OPERATOR_WORDS[i].0 + " { \"a\" }")))
      == Ok(NEW_RULE.(target := Allow, name := Attribute(OPERATOR_WORDS[i].1, [Str("a")])))
  {
    hide ParseRule, LayoutText, Said, Printable;
    var (word, op) := OPERATOR_WORDS[i];
    var l := NameLayout(op);
    NameLayoutFits(acc, op);
    NameLayoutText(acc, op, word);
    LayoutIsRead(acc, l);
    NameIsSaid(op);
    var r := ParseRule(acc, LayoutText(acc, l)).value;
    RuleEquality(r, NEW_RULE.(target := Allow, name := Attribute(op, [Str("a")])));
  }

  function NameItem(op: SetOperator): (it: Item) {
    Item(" ", Name, " ", Braces(Some(op), " ", " ", [], " "), [Str("a")])
  }

  function NameLayout(op: SetOperator): (l: Layout) {
    Layout("", Allow, None, [NameItem(op)], "")
  }

  lemma NameLayoutFits(acc: Acceptor, op: SetOperator)
    requires op != Match
    ensures Fits(acc, NameLayout(op)) && AllKeys(NameLayout(op)) == [Name]
  {
    assert Keys([NameItem(op)]) == [Name];
  }

  lemma NameLayoutText(acc: Acceptor, op: SetOperator, word: string)
    requires Fits(acc, NameLayout(op)) && OperatorText(op) == word && op != Match
    ensures LayoutText(acc, NameLayout(op)) == "allow" + (" name " + (word + " { \"a\" }"))
  {
    hide OperatorText, ValueText;
    Quoted('a');
    var it := NameItem(op);
    var list := "{" + (" " + ("\"a\"" + (" " + ("}" + ""))));
    assert list == "{ \"a\" }";
    assert MoreText([], [], " ", "") == " " + ("}" + "");
    assert ListText(it.form, it.values, "") == list;
    var form := word + (" " + list);
    assert FormText(it.form, it.values, "") == form;
    assert " " + list == " { \"a\" }";
    assert ItemsText([it], "") == " " + ("name" + (" " + form)) == " name " + form;
    assert "" + ("allow" + (" name " + form)) == "allow" + (" name " + form);
  }

  lemma NameIsSaid(op: SetOperator)
    ensures forall k ::
      Said(Start(NameLayout(op), k), [NameItem(op)], k) == if k == Name then Attribute(op, [Str("a")]) else NO_VALUES
  {
    assert [NameItem(op)][1..] == [];
    assert [] + NormalValues([Str("a")]) == [Str("a")];
  }

  // ----- Conditions

  const CONDITION_WORDS := [("allowed-matches", AllowedMatches), ("localtime", Localtime), ("true", FixedTrue),
                            ("false", FixedFalse), ("random", Random), ("rule-applied", RuleApplied),
                            ("rule-evaluated", RuleEvaluated)]

  /** Every condition is read under its own word, alone, negated and with a parameter. */
  lemma EveryCondition(acc: Acceptor, i: nat, p: string)
    requires i < |CONDITION_WORDS|
    ensures
      var (word, kind) := CONDITION_WORDS[i];
      var printed := if kind == RuleEvaluated then RuleApplied else kind;
      var fixed := kind == FixedTrue || kind == FixedFalse;
      && (fixed || acc(printed, "") ==>
            && GetImplementation(acc, word) == Ok(Condition(kind, "", false))
            && GetImplementation(acc, "!" + word) == Ok(Condition(kind, "", true)))
      && (!fixed && p != "" && acc(printed, p) ==>
            && GetImplementation(acc, word + ("(" + p + ")")) == Ok(Condition(kind, p, false))
            && GetImplementation(acc, "!" + word + ("(" + p + ")")) == Ok(Condition(kind, p, true)))
  {
    hide GetImplementation;
    var (word, kind) := CONDITION_WORDS[i];
    ConditionWord(i);
    assert "" + word == word;
    NoArgument(acc, false, word);
    NoArgument(acc, true, word);
    if p != "" {
      WithArgument(acc, false, word, p);
      WithArgument(acc, true, word, p);
    }
  }

  lemma ConditionWord(i: nat)
    requires i < |CONDITION_WORDS|
    ensures var (word, kind) := CONDITION_WORDS[i];
      KindFromIdentifier(word) == Some(kind) && word != "" && word[0] != '!' && '(' !in word && '(' !in "!" + word
  {
    var word := CONDITION_WORDS[i].0;
    assert forall c :: c in word ==> IsLetter(c);
    assert forall c :: c in "!" + word ==> c == '!' || c in word;
  }

  // ----- Texts

  lemma {:induction false} PlainText(s: string)
    requires forall i :: 0 <= i < |s| ==> IsPrintable(s[i]) && s[i] != '"' && s[i] != '\\'
    ensures Escape(s) == s
  {
    if s != "" {
      PlainText(s[1..]);
      assert s == [s[0]] + s[1..];
    }
  }

  lemma OneCharacter(c: char)
    ensures Escape([c]) == EscapeChar(c)
  {
    hide EscapeChar;
    assert [c][1..] == "" && EscapeChar(c) + "" == EscapeChar(c);
  }

  /** Printable characters stand for themselves; quotes, backslashes and other bytes are escaped. */
  lemma EscapedCharacters()
    ensures Escape("\"") == "\\\"" && Escape("\\") == "\\\\" && Escape("\n") == "\\x0a"
    ensures Escape(" ") == " " && Escape("~") == "~" && Escape([127 as char]) == "\\x7f"
  {
    hide Escape;
    OneCharacter('"');
    OneCharacter('\\');
    OneCharacter('\n');
    OneCharacter(' ');
    OneCharacter('~');
    OneCharacter(127 as char);
    assert HexByte(10) == "0a" && HexByte(127) == "7f";
  }

  /** Hexadecimal digits of both cases are understood. */
  lemma UnescapedByte()
    ensures Unescape("\\x4A") == Plain("J") && Unescape("\\x4a") == Plain("J")
  {
    assert "\\x4A"[4..] == "" && "\\x4a"[4..] == "";
    assert (4 * 16 + 10) as char == 'J' && "J" + "" == "J";
  }

  /** A documented rule: the identifier of the device stands behind the target. */
  lemma DocumentedRule(acc: Acceptor)
    ensures ParseRule(acc, "allow" + (" " + ("1050:0011" + (" name \"" + "Yubico Yubikey II" + "\""))))
      == Ok(NEW_RULE.(target := Allow, deviceId := One(DeviceId("1050", "0011")),
                      name := One(Str("Yubico Yubikey II"))))
  {
    hide ParseRule, Normal, AttributesText, Escape;
    var name := "Yubico Yubikey II";
    var r := NEW_RULE.(target := Allow, name := One(Str(name)));
    PlainText(name);
    NameText(r, name);
    NamedIsReadable(acc, r, name);
    IdBehindTarget(acc, Allow, DeviceId("1050", "0011"), r);
    assert ValueText(DeviceId("1050", "0011")) == "1050:0011";
  }

  lemma NamedIsReadable(acc: Acceptor, r: Rule, name: Bytes)
    requires r == NEW_RULE.(target := Allow, name := One(Str(name)))
    ensures ReadableRule(acc, r) && Normal(r) == r
  {
    hide Normal;
    NormalIsIdentity(r);
  }

  lemma NameText(r: Rule, name: string)
    requires r == NEW_RULE.(target := Allow, name := One(Str(name))) && Escape(name) == name
    ensures AttributesText(r, 0) == " name \"" + name + "\""
  {
    hide AttributesText, ValueText, Keyword, Escape;
    var text := " name \"" + name + "\"";
    assert AttributesText(r, 3) == "" by { RestIsEmpty(r, 3); }
    NameAlone(name);
    OneMore(r, 2, Str(name), text, "");
    AbsentText(r, 1);
    AbsentText(r, 0);
    assert text + "" == text;
  }

  lemma NameAlone(name: string)
    requires Escape(name) == name
    ensures " " + (Keyword(Name) + " " + ValueText(Str(name))) == " name \"" + name + "\""
  {
    hide Escape;
    assert " " + ("name" + " " + ("\"" + name + "\"")) == " name \"" + name + "\"";
  }

  lemma AbsentText(r: Rule, i: nat)
    requires i < |PRINT_ORDER| && Get(r, PRINT_ORDER[i]).values == []
    ensures AttributesText(r, i) == AttributesText(r, i + 1)
  {
    hide AttributeText, PRINT_ORDER;
    assert "" + AttributesText(r, i + 1) == AttributesText(r, i + 1);
  }

  lemma {:induction false} RestIsEmpty(r: Rule, i: nat)
    requires forall j :: i <= j < |PRINT_ORDER| ==> Get(r, PRINT_ORDER[j]).values == []
    ensures AttributesText(r, i) == ""
    decreases |PRINT_ORDER| - i
  {
    hide PRINT_ORDER;
    if i < |PRINT_ORDER| {
      RestIsEmpty(r, i + 1);
    }
  }
}
