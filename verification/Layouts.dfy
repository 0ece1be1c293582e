/**
 * Rule texts as people write them: attributes in any order, any blanks, a device identifier behind the
 * target, operators and braces also where the printer leaves them out, and a comment at the end
 * (src/Library/RuleParser/Grammar.hpp).
 */
module Layouts {
  import opened Text
  import opened Matching
  import opened Rules
  import opened Printer
  import opened Grammar
  import opened RoundTrip
  import opened Reprint

  predicate Blanks(s: string) {
    forall i :: 0 <= i < |s| ==> IsBlank(s[i])
  }

  predicate Gap(s: string) {
    s != "" && Blanks(s)
  }

  /** The values of an attribute: a single one, or a list in braces with or without an operator. */
  datatype Form =
    | Bare
    | Braces(op: Option<SetOperator>, opGap: string, open: string, gaps: seq<string>, close: string)

  datatype Item = Item(gap: string, key: Key, mid: string, form: Form, values: seq<Value>)

  /** A text: leading blanks, the target, an identifier behind a gap, the attributes, and what ends it. */
  datatype Layout = Layout(
    lead: string, target: Target, id: Option<(string, Value)>, items: seq<Item>, end: string)

  // ----- The text of a layout

  /** The values behind the first one, the closing brace, and what follows. */
  function MoreText(vs: seq<Value>, gaps: seq<string>, close: string, rest: string): (s: string)
    requires |gaps| == |vs|
  {
    if vs == [] then close + ("}" + rest)
    else gaps[0] + (ValueText(vs[0]) + MoreText(vs[1..], gaps[1..], close, rest))
  }

  predicate FormFits(f: Form, vs: seq<Value>) {
    && vs != []
    && match f
       case Bare => |vs| == 1
       case Braces(op, opGap, open, gaps, close) =>
         && |gaps| == |vs| - 1 && Blanks(open) && Blanks(close) && (forall i :: 0 <= i < |gaps| ==> Gap(gaps[i]))
         && (op.Some? ==> op.value != Match && Gap(opGap))
  }

  function ListText(f: Form, vs: seq<Value>, rest: string): (s: string)
    requires f.Braces? && FormFits(f, vs)
  {
    "{" + (f.open + (ValueText(vs[0]) + MoreText(vs[1..], f.gaps, f.close, rest)))
  }

  function FormText(f: Form, vs: seq<Value>, rest: string): (s: string)
    requires FormFits(f, vs)
  {
    if f.Bare? then ValueText(vs[0]) + rest
    else if f.op.Some? then OperatorText(f.op.value) + (f.opGap + ListText(f, vs, rest))
    else ListText(f, vs, rest)
  }

  predicate ItemFits(acc: Acceptor, it: Item) {
    Gap(it.gap) && Gap(it.mid) && FormFits(it.form, it.values) && AllReadable(acc, it.key, it.values)
  }

  predicate ItemsFit(acc: Acceptor, items: seq<Item>) {
    forall i :: 0 <= i < |items| ==> ItemFits(acc, items[i])
  }

  function ItemText(it: Item, rest: string): (s: string)
    requires FormFits(it.form, it.values)
  {
    it.gap + (Keyword(it.key) + (it.mid + FormText(it.form, it.values, rest)))
  }

  function ItemsText(items: seq<Item>, end: string): (s: string)
    requires forall i :: 0 <= i < |items| ==> FormFits(items[i].form, items[i].values)
  {
    if items == [] then end else ItemText(items[0], ItemsText(items[1..], end))
  }

  /** Blanks, and a comment if there is one. */
  predicate IsEnd(s: string) {
    SkipBlanks(s) == "" || SkipBlanks(s)[0] == '#'
  }

  predicate Fits(acc: Acceptor, l: Layout) {
    && Blanks(l.lead) && l.target in TARGETS && ItemsFit(acc, l.items) && IsEnd(l.end)
    && (l.id.Some? ==> Gap(l.id.value.0) && l.id.value.1.DeviceId? && Printable(l.id.value.1))
  }

  /** What stands behind the target. */
  function BehindTarget(l: Layout): (s: string)
    requires forall i :: 0 <= i < |l.items| ==> FormFits(l.items[i].form, l.items[i].values)
  {
    var rest := ItemsText(l.items, l.end);
    if l.id.Some? then l.id.value.0 + (ValueText(l.id.value.1) + rest) else rest
  }

  function LayoutText(acc: Acceptor, l: Layout): (s: string)
    requires Fits(acc, l)
  {
    l.lead + (TargetText(l.target).value + BehindTarget(l))
  }

  // ----- What a layout says

  function Keys(items: seq<Item>): (ks: seq<Key>) {
    if items == [] then [] else [items[0].key] + Keys(items[1..])
  }

  /** The attributes that are given, of which an identifier behind the target is one. */
  function AllKeys(l: Layout): (ks: seq<Key>) {
    (if l.id.Some? then [Id] else []) + Keys(l.items)
  }

  /** What the items add to the attribute `a` of key `k`: the values, and the operator that was given last. */
  function Said(a: Attribute, items: seq<Item>, k: Key): (b: Attribute)
    decreases |items|
  {
    if items == [] then a
    else if items[0].key != k then Said(a, items[1..], k)
    else
      var f := items[0].form;
      var op := if f.Braces? && f.op.Some? then f.op.value else a.op;
      Said(Attribute(op, a.values + NormalValues(items[0].values)), items[1..], k)
  }

  /** The attribute with which the items start: the identifier behind the target. */
  function Start(l: Layout, k: Key): (a: Attribute) {
    if k == Id && l.id.Some? then Attribute(Equals, [l.id.value.1]) else NO_VALUES
  }

  // ----- Blanks

  lemma {:induction false} SkipGap(gap: string, s: string)
    requires Blanks(gap) && !BlankAhead(s)
    ensures SkipBlanks(gap + s) == s && (gap != "" ==> BlankAhead(gap + s))
  {
    if gap == "" {
      assert gap + s == s;
    } else {
      SkipGap(gap[1..], s);
      assert (gap + s)[0] == gap[0] && (gap + s)[1..] == gap[1..] + s;
    }
  }

  lemma GapTerminates(gap: string, s: string)
    requires Gap(gap)
    ensures Terminated(gap + s)
  {
    assert (gap + s)[0] == gap[0];
  }

  lemma EndTerminates(s: string)
    requires IsEnd(s)
    ensures Terminated(s)
  {
  }

  // ----- Lists

  lemma MoreTerminates(vs: seq<Value>, gaps: seq<string>, close: string, rest: string)
    requires |gaps| == |vs| && Blanks(close) && forall i :: 0 <= i < |gaps| ==> Gap(gaps[i])
    ensures Terminated(MoreText(vs, gaps, close, rest))
  {
    hide ValueText;
    if vs != [] {
      GapTerminates(gaps[0], ValueText(vs[0]) + MoreText(vs[1..], gaps[1..], close, rest));
    } else if close != "" {
      GapTerminates(close, "}" + rest);
    } else {
      assert close + ("}" + rest) == "}" + rest;
    }
  }

  lemma {:induction false} MoreRead(acc: Acceptor, k: Key, soFar: seq<Value>, vs: seq<Value>, gaps: seq<string>,
                                    close: string, rest: string)
    requires AllReadable(acc, k, vs) && |gaps| == |vs| && Blanks(close) && forall i :: 0 <= i < |gaps| ==> Gap(gaps[i])
    ensures MoreValues(acc, k, soFar, MoreText(vs, gaps, close, rest))
      == Read(soFar + NormalValues(vs), close + ("}" + rest))
    decreases |vs|
  {
    hide ValueText, Readable, ParseValue, SkipBlanks, Blanks, NormalValue;
    if vs == [] {
      assert soFar + NormalValues(vs) == soFar;
      NoMoreValues(acc, k, soFar, close, rest);
    } else {
      var next := MoreText(vs[1..], gaps[1..], close, rest);
      ValueStart(acc, k, vs[0], next);
      SkipGap(gaps[0], ValueText(vs[0]) + next);
      MoreTerminates(vs[1..], gaps[1..], close, rest);
      ValueReadBack(acc, k, vs[0], next);
      MoreRead(acc, k, soFar + [NormalValue(vs[0])], vs[1..], gaps[1..], close, rest);
      NormalValuesCons(soFar, vs);
    }
  }

  lemma NoMoreValues(acc: Acceptor, k: Key, soFar: seq<Value>, close: string, rest: string)
    requires Blanks(close)
    ensures MoreValues(acc, k, soFar, close + ("}" + rest)) == Read(soFar, close + ("}" + rest))
  {
    hide ParseValue, SkipBlanks;
    NoValueAtBrace(acc, k, rest);
    SkipGap(close, "}" + rest);
    if close == "" {
      assert (close + ("}" + rest))[0] == '}';
    }
  }

  lemma ListRead(acc: Acceptor, k: Key, f: Form, vs: seq<Value>, rest: string)
    requires f.Braces? && FormFits(f, vs) && AllReadable(acc, k, vs)
    ensures ParseBraces(acc, k, ListText(f, vs, rest)[1..]) == Read(NormalValues(vs), rest)
  {
    hide ValueText, Readable, ParseValue, MoreValues, ParseBraces, SkipBlanks, Blanks, NormalValue, MoreText,
      Terminated;
    var more := MoreText(vs[1..], f.gaps, f.close, rest);
    var s := f.open + (ValueText(vs[0]) + more);
    assert ListText(f, vs, rest)[1..] == s;
    ValueStart(acc, k, vs[0], more);
    SkipGap(f.open, ValueText(vs[0]) + more);
    MoreTerminates(vs[1..], f.gaps, f.close, rest);
    ValueReadBack(acc, k, vs[0], more);
    MoreRead(acc, k, [NormalValue(vs[0])], vs[1..], f.gaps, f.close, rest);
    assert [NormalValue(vs[0])] + NormalValues(vs[1..]) == NormalValues(vs);
    ClosedList(acc, k, s, NormalValue(vs[0]), more, NormalValues(vs), f.close, rest);
  }

  /** The parts of a list put together. */
  lemma ClosedList(acc: Acceptor, k: Key, s: string, v: Value, more: string, vs: seq<Value>, close: string,
                   rest: string)
    requires ParseValue(acc, k, SkipBlanks(s)) == Read(v, more) && Blanks(close)
    requires MoreValues(acc, k, [v], more) == Read(vs, close + ("}" + rest))
    ensures ParseBraces(acc, k, s) == Read(vs, rest)
  {
    hide ParseValue, MoreValues, SkipBlanks, IsTail;
    var brace := "}" + rest;
    SkipGap(close, brace);
    assert brace[..1] == "}" && brace[1..] == rest;
  }

  /** Every operator is read, also the default one; what follows it tells it from a longer one. */
  lemma AnyOperatorRead(op: SetOperator, gap: string, s: string)
    requires op != Match && Gap(gap)
    ensures ParseOperator(0, OperatorText(op) + (gap + s)) == Read(op, gap + s) && BlankAhead(gap + s)
  {
    assert (gap + s)[0] == gap[0];
    if op == Equals {
      EqualsRead(gap + s);
    } else {
      OperatorRead(op, gap + s);
    }
  }

  lemma EqualsRead(s: string)
    requires BlankAhead(s)
    ensures ParseOperator(0, OperatorText(Equals) + s) == Read(Equals, s)
  {
    var t := OperatorText(Equals) + s;
    assert t[..6] == "equals" && t[6..] == s && t[6] == s[0];
    assert |t| >= 14 ==> t[..14][6] == t[6];
    assert t[0] == 'e' && t[..6][0] == 'e' && (|t| >= 7 ==> t[..7][0] == 'e');
    assert !StartsWith(t, "all-of") && !StartsWith(t, "one-of") && !StartsWith(t, "none-of");
    assert !StartsWith(t, "equals-ordered");
    assert ParseOperator(4, t) == Read(Equals, s);
    assert ParseOperator(3, t) == ParseOperator(4, t);
    assert ParseOperator(2, t) == ParseOperator(3, t);
    assert ParseOperator(1, t) == ParseOperator(2, t);
  }

  /** What the grammar reports for the values of an item. */
  function ItemBody(it: Item): (b: Body) {
    Body(if it.form.Braces? then it.form.op else None, NormalValues(it.values))
  }

  lemma FormRead(acc: Acceptor, it: Item, rest: string)
    requires ItemFits(acc, it) && Terminated(rest)
    ensures ParseBody(acc, it.key, FormText(it.form, it.values, rest)) == Read(ItemBody(it), rest)
  {
    hide Readable, ParseBraces, OperatorText, ValueText, ParseValue, ParseOperator, MoreText;
    var f, vs := it.form, it.values;
    if f.Bare? {
      ValueStart(acc, it.key, vs[0], rest);
      var s := ValueText(vs[0]) + rest;
      assert s[..1][0] == s[0];
      ValueReadBack(acc, it.key, vs[0], rest);
      assert NormalValues(vs) == [NormalValue(vs[0])];
    } else {
      var list := ListText(f, vs, rest);
      ListRead(acc, it.key, f, vs, rest);
      assert list[..1] == "{" && list[0] == '{';
      if f.op.Some? {
        AnyOperatorRead(f.op.value, f.opGap, list);
        SkipGap(f.opGap, list);
      } else {
        BraceIsNoOperator(f, vs, rest);
      }
    }
  }

  lemma BraceIsNoOperator(f: Form, vs: seq<Value>, rest: string)
    requires f.Braces? && FormFits(f, vs)
    ensures ParseOperator(0, ListText(f, vs, rest)) == NoMatch
  {
    hide ValueText, MoreText, OperatorText;
    var list := ListText(f, vs, rest);
    assert list[0] == '{';
    forall j | 0 <= j < |OPERATORS| ensures !StartsWith(list, OperatorText(OPERATORS[j])) {
      OperatorStart(OPERATORS[j]);
      var t := OperatorText(OPERATORS[j]);
      assert |t| <= |list| ==> list[..|t|][0] == list[0];
    }
    NoOperatorFrom(0, list);
  }

  lemma OperatorStart(op: SetOperator)
    ensures OperatorText(op) != "" && OperatorText(op)[0] !in {'{', ' ', '\t'}
  {
  }

  lemma FormStart(acc: Acceptor, it: Item, rest: string)
    requires ItemFits(acc, it)
    ensures !BlankAhead(FormText(it.form, it.values, rest))
  {
    hide Readable, ValueText, MoreText, OperatorText;
    if it.form.Bare? {
      ValueStart(acc, it.key, it.values[0], rest);
    } else if it.form.op.Some? {
      OperatorStart(it.form.op.value);
    }
  }

  // ----- Attributes

  lemma {:induction false} KeywordRead(acc: Acceptor, i: nat, it: Item, rest: string)
    requires ItemFits(acc, it) && Terminated(rest) && i <= Alternative(it.key)
    ensures ParseAttribute(acc, i, Keyword(it.key) + (it.mid + FormText(it.form, it.values, rest)))
      == Read((it.key, ItemBody(it)), rest)
    decreases |GRAMMAR_ORDER| - i
  {
    hide Keyword, AllReadable, FormText, ParseBody, GRAMMAR_ORDER, Alternative, SkipBlanks, FormFits;
    var body := FormText(it.form, it.values, rest);
    var k := it.key;
    if GRAMMAR_ORDER[i] == k {
      var s := Keyword(k) + (it.mid + body);
      assert s[..|Keyword(k)|] == Keyword(k) && s[|Keyword(k)|..] == it.mid + body;
      FormStart(acc, it, rest);
      SkipGap(it.mid, body);
      FormRead(acc, it, rest);
    } else {
      OtherKeyword(GRAMMAR_ORDER[i], k, it.mid + body);
      KeywordRead(acc, i + 1, it, rest);
    }
  }

  lemma ItemRead(acc: Acceptor, it: Item, rest: string)
    requires ItemFits(acc, it) && Terminated(rest)
    ensures var s := ItemText(it, rest);
      BlankAhead(s) && ParseAttribute(acc, 0, SkipBlanks(s)) == Read((it.key, ItemBody(it)), rest)
  {
    hide Keyword, AllReadable, FormText, ParseAttribute, SkipBlanks, FormFits;
    var s := Keyword(it.key) + (it.mid + FormText(it.form, it.values, rest));
    KeywordStart(it.key);
    SkipGap(it.gap, s);
    KeywordRead(acc, 0, it, rest);
  }

  lemma ItemsTerminate(acc: Acceptor, items: seq<Item>, end: string)
    requires ItemsFit(acc, items) && IsEnd(end)
    ensures Terminated(ItemsText(items, end))
  {
    hide FormText, Keyword, FormFits, AllReadable;
    if items == [] {
      EndTerminates(end);
    } else {
      var it := items[0];
      assert ItemFits(acc, it);
      GapTerminates(it.gap, Keyword(it.key) + (it.mid + FormText(it.form, it.values, ItemsText(items[1..], end))));
    }
  }

  lemma EndRead(acc: Acceptor, r: Rule, end: string)
    requires IsEnd(end)
    ensures ParseAttributes(acc, r, end) == Ok((r, end))
  {
    hide ParseAttribute, Keyword, SkipBlanks;
    NoKeywordAtEnd(SkipBlanks(end));
    NoAttributeFrom(acc, 0, SkipBlanks(end));
  }

  lemma NoIdAtEnd(s: string)
    requires s == "" || s[0] == '#'
    ensures ParseDeviceId(s) == NoMatch
  {
    hide ParseDeviceId, IsHexDigit;
    if s == "" {
      NoIdInNothing();
    } else {
      assert !IsHexDigit(s[0]) by { HashIsNoDigit(); }
      NoDeviceId(s);
    }
  }

  lemma NoKeywordAtEnd(s: string)
    requires s == "" || s[0] == '#'
    ensures forall k :: !StartsWith(s, Keyword(k))
  {
    hide Keyword;
    forall k ensures !StartsWith(s, Keyword(k)) {
      KeywordStart(k);
      assert |Keyword(k)| <= |s| ==> s[..|Keyword(k)|][0] == s[0];
    }
  }

  lemma NoIdInNothing()
    ensures ParseDeviceId("") == NoMatch
  {
  }

  lemma HashIsNoDigit()
    ensures !IsHexDigit('#')
  {
  }

  lemma {:induction false} NoAttributeFrom(acc: Acceptor, i: nat, s: string)
    requires forall k :: !StartsWith(s, Keyword(k))
    ensures ParseAttribute(acc, i, s) == NoMatch
    decreases |GRAMMAR_ORDER| - i
  {
    hide Keyword, GRAMMAR_ORDER, ParseBody;
    if i < |GRAMMAR_ORDER| {
      NoAttributeFrom(acc, i + 1, s);
    }
  }

  /** The items are installed one after the other. */
  lemma {:induction false} ItemsRead(acc: Acceptor, r: Rule, items: seq<Item>, end: string)
    requires ItemsFit(acc, items) && IsEnd(end)
    ensures
      var p := ParseAttributes(acc, r, ItemsText(items, end));
      && (p.Ok? <==> GivenOnce(r, Keys(items)))
      && (p.Ok? ==> p.value.1 == end && p.value.0.id == r.id && p.value.0.target == r.target)
      && (p.Ok? ==> forall k :: Get(p.value.0, k) == Said(Get(r, k), items, k))
    decreases |items|
  {
    hide ItemText, ParseAttribute, GivenOnce, Install, SkipBlanks, FormFits, ItemBody;
    if items == [] {
      EndRead(acc, r, end);
      NothingGiven(r);
    } else {
      var it := items[0];
      assert ItemFits(acc, it) && forall i :: 0 <= i < |items[1..]| ==> items[1..][i] == items[i + 1];
      var rest := ItemsText(items[1..], end);
      ItemsTerminate(acc, items[1..], end);
      ItemRead(acc, it, rest);
      BodyHasValues(it);
      OneMoreKey(r, it.key, ItemBody(it), Keys(items[1..]));
      if Install(r, it.key, ItemBody(it)).Ok? {
        ItemsRead(acc, Install(r, it.key, ItemBody(it)).value, items[1..], end);
        InstalledIsSaid(r, it, items[1..]);
      }
    }
  }

  lemma BodyHasValues(it: Item)
    requires FormFits(it.form, it.values)
    ensures ItemBody(it).values != []
  {
  }

  lemma InstalledIsSaid(r: Rule, it: Item, items: seq<Item>)
    requires Install(r, it.key, ItemBody(it)).Ok?
    ensures var r' := Install(r, it.key, ItemBody(it)).value;
      && r'.id == r.id && r'.target == r.target
      && forall k :: Said(Get(r', k), items, k) == Said(Get(r, k), [it] + items, k)
  {
    hide Put;
    assert ([it] + items)[1..] == items;
  }

  // ----- Whole texts

  lemma NoIdAhead(acc: Acceptor, items: seq<Item>, end: string)
    requires ItemsFit(acc, items) && IsEnd(end)
    ensures var s := ItemsText(items, end); BlankAhead(s) ==> ParseDeviceId(SkipBlanks(s)) == NoMatch
  {
    hide FormText, Keyword, FormFits, AllReadable, SkipBlanks, ParseDeviceId, IsHexDigit;
    if items == [] {
      NoIdAtEnd(SkipBlanks(end));
    } else {
      var it := items[0];
      assert ItemFits(acc, it);
      var t := Keyword(it.key) + (it.mid + FormText(it.form, it.values, ItemsText(items[1..], end)));
      KeywordStart(it.key);
      assert t[0] == Keyword(it.key)[0];
      SkipGap(it.gap, t);
      NoDeviceId(t);
    }
  }

  lemma IdRead(gap: string, v: Value, rest: string)
    requires Gap(gap) && v.DeviceId? && Printable(v)
    ensures var s := gap + (ValueText(v) + rest);
      BlankAhead(s) && ParseDeviceId(SkipBlanks(s)) == Read(v, rest)
  {
    hide ValueText, ParseDeviceId, SkipBlanks;
    FirstCharacters(v);
    assert (ValueText(v) + rest)[0] == ValueText(v)[0];
    SkipGap(gap, ValueText(v) + rest);
    DeviceIdReadBack(v, rest);
  }

  /**
   * Every layout of a rule is read as what it says, with the identifier behind the target and whatever
   * order, blanks, braces, operators and comment it has; it is refused exactly if it gives an attribute
   * other than the label twice.
   */
  lemma LayoutIsRead(acc: Acceptor, l: Layout)
    requires Fits(acc, l)
    ensures
      var p := ParseRule(acc, LayoutText(acc, l));
      && (p.Ok? <==> forall k :: k != Label ==> multiset(AllKeys(l))[k] <= 1)
      && (p.Ok? ==> p.value.id == DEFAULT_ID && p.value.target == l.target)
      && (p.Ok? ==> forall k :: Get(p.value, k) == Said(Start(l, k), l.items, k))
  {
    hide ItemsText, ParseTarget, ParseRuleBody, AllReadable, FormFits, IsEnd, TargetText, SkipBlanks, Said;
    TargetFacts(l.target);
    var body := BehindTarget(l);
    var s := TargetText(l.target).value + body;
    TargetRead(l.target, body);
    assert !BlankAhead(s) by { assert s[0] == TargetText(l.target).value[0]; }
    SkipGap(l.lead, s);
    BodyRead(acc, l);
  }

  lemma BodyRead(acc: Acceptor, l: Layout)
    requires Fits(acc, l)
    ensures
      var p := ParseRuleBody(acc, l.target, BehindTarget(l));
      && (p.Ok? <==> forall k :: k != Label ==> multiset(AllKeys(l))[k] <= 1)
      && (p.Ok? ==> p.value.id == DEFAULT_ID && p.value.target == l.target)
      && (p.Ok? ==> forall k :: Get(p.value, k) == Said(Start(l, k), l.items, k))
  {
    hide ItemsText, ParseAttributes, AllReadable, FormFits, ParseDeviceId, SkipBlanks, Said, ValueText, Printable,
      IsEnd, GivenOnce, IsComment, AllKeys;
    var rule := FirstRule(l);
    ItemsRead(acc, rule, l.items, l.end);
    StartsAsSaid(l);
    OnceIsOnce(l);
    EndIsFine(l.end);
    if l.id.Some? {
      IdRead(l.id.value.0, l.id.value.1, ItemsText(l.items, l.end));
    } else {
      NoIdAhead(acc, l.items, l.end);
    }
  }

  /** The rule before its attributes are read. */
  function FirstRule(l: Layout): (r: Rule) {
    var rule := NEW_RULE.(target := l.target);
    if l.id.Some? then rule.(deviceId := Attribute(Equals, [l.id.value.1])) else rule
  }

  lemma StartsAsSaid(l: Layout)
    ensures forall k :: Get(FirstRule(l), k) == Start(l, k)
  {
  }

  lemma OnceIsOnce(l: Layout)
    ensures GivenOnce(FirstRule(l), Keys(l.items)) <==>
      forall k :: k != Label ==> multiset(AllKeys(l))[k] <= 1
  {
    hide Keys;
    if l.id.Some? {
      assert AllKeys(l) == [Id] + Keys(l.items);
      OnceBehindId(FirstRule(l), Keys(l.items));
    } else {
      assert AllKeys(l) == Keys(l.items);
      assert forall k :: Get(FirstRule(l), k).values == [];
    }
  }

  // ----- The identifier behind the target of a printed rule

  lemma {:induction false} SameAttributesText(r: Rule, s: Rule, i: nat)
    requires forall j :: i <= j < |PRINT_ORDER| ==> Get(r, PRINT_ORDER[j]) == Get(s, PRINT_ORDER[j])
    ensures AttributesText(r, i) == AttributesText(s, i)
    decreases |PRINT_ORDER| - i
  {
    hide AttributeText, PRINT_ORDER;
    if i < |PRINT_ORDER| {
      SameAttributesText(r, s, i + 1);
    }
  }

  /**
   * A device identifier may stand behind the target instead of in an attribute; the printed attributes of
   * any other readable rule then follow it, and the rule has both.
   */
  lemma IdBehindTarget(acc: Acceptor, t: Target, v: Value, r: Rule)
    requires t in TARGETS && v.DeviceId? && Printable(v) && ReadableRule(acc, r) && r.deviceId.values == []
    ensures ParseRule(acc, TargetText(t).value + (" " + (ValueText(v) + AttributesText(r, 0))))
      == Ok(Normal(r).(target := t, deviceId := Attribute(Equals, [v])))
  {
    hide AttributesText, ParseTarget, ParseRuleBody, SkipBlanks, TargetText, ValueText, Normal, ReadableRule, Printable;
    TargetRead(t, " " + (ValueText(v) + AttributesText(r, 0)));
    IdBehindTargetBody(acc, t, v, r);
  }

  lemma IdBehindTargetBody(acc: Acceptor, t: Target, v: Value, r: Rule)
    requires t in TARGETS && v.DeviceId? && Printable(v) && ReadableRule(acc, r) && r.deviceId.values == []
    ensures ParseRuleBody(acc, t, " " + (ValueText(v) + AttributesText(r, 0)))
      == Ok(Normal(r).(target := t, deviceId := Attribute(Equals, [v])))
  {
    hide AttributesText, ParseAttributes, ParseRuleBody, ParseDeviceId, SkipBlanks, BlankAhead, ValueText, Normal,
      ReadableRule, Upto, Printable;
    IdRead(" ", v, AttributesText(r, 0));
    AttributesBehindId(acc, t, v, r);
    BodyWithId(acc, t, v, " " + (ValueText(v) + AttributesText(r, 0)), AttributesText(r, 0),
               Normal(r).(target := t, deviceId := Attribute(Equals, [v])));
  }

  lemma AttributesBehindId(acc: Acceptor, t: Target, v: Value, r: Rule)
    requires t in TARGETS && v.DeviceId? && Printable(v) && ReadableRule(acc, r) && r.deviceId.values == []
    ensures ParseAttributes(acc, NEW_RULE.(target := t, deviceId := Attribute(Equals, [v])), AttributesText(r, 0))
      == Ok((Normal(r).(target := t, deviceId := Attribute(Equals, [v])), ""))
  {
    hide AttributesText, ParseAttributes, Normal, ReadableRule, Upto, Printable, PRINT_ORDER;
    WithId(acc, t, v, r);
    assert 1 <= |PRINT_ORDER| by { TenAttributes(); }
    AttributesReadBack(acc, r.(target := t, deviceId := Attribute(Equals, [v])), 1);
  }

  /** A text whose identifier and attributes have been read to the end. */
  lemma BodyWithId(acc: Acceptor, t: Target, v: Value, s: string, rest: string, r: Rule)
    requires BlankAhead(s) && ParseDeviceId(SkipBlanks(s)) == Read(v, rest)
    requires ParseAttributes(acc, NEW_RULE.(target := t, deviceId := Attribute(Equals, [v])), rest) == Ok((r, ""))
    ensures ParseRuleBody(acc, t, s) == Ok(r)
  {
    hide ParseAttributes, ParseDeviceId, SkipBlanks, BlankAhead, IsComment;
    NothingLeft();
  }

  lemma TenAttributes()
    ensures |PRINT_ORDER| == 10
  {
  }

  lemma WithId(acc: Acceptor, t: Target, v: Value, r: Rule)
    requires t in TARGETS && v.DeviceId? && Printable(v) && ReadableRule(acc, r) && r.deviceId.values == []
    ensures
      var s := r.(target := t, deviceId := Attribute(Equals, [v]));
      && ReadableRule(acc, s) && AttributesText(s, 1) == AttributesText(r, 0)
      && Upto(s, 1) == NEW_RULE.(target := t, deviceId := Attribute(Equals, [v]))
      && Normal(s) == Normal(r).(target := t, deviceId := Attribute(Equals, [v]))
  {
    hide AttributesText, Normal, Upto, ReadableAttribute, Printable, NormalAttribute, ReadableRule;
    var s := r.(target := t, deviceId := Attribute(Equals, [v]));
    IdIsReadable(acc, t, v, r);
    NoAttributeStep(r, 0);
    SameAttributesText(r, s, 1);
    IdIsFirst(v, s);
    IdIsNormal(t, v, r);
  }

  lemma IdIsReadable(acc: Acceptor, t: Target, v: Value, r: Rule)
    requires t in TARGETS && v.DeviceId? && Printable(v) && ReadableRule(acc, r)
    ensures ReadableRule(acc, r.(target := t, deviceId := Attribute(Equals, [v])))
  {
    hide ReadableAttribute, Printable;
    OneIdIsReadable(acc, v);
    var s := r.(target := t, deviceId := Attribute(Equals, [v]));
    assert forall k :: Get(s, k) == if k == Id then Attribute(Equals, [v]) else Get(r, k);
  }

  lemma IdIsFirst(v: Value, s: Rule)
    requires v.DeviceId? && s.deviceId == Attribute(Equals, [v])
    ensures Upto(s, 1) == NEW_RULE.(target := s.target, deviceId := Attribute(Equals, [v]))
  {
    hide Upto;
    assert NormalValues([v]) == [v];
    RuleEquality(Upto(s, 1), NEW_RULE.(target := s.target, deviceId := Attribute(Equals, [v])));
  }

  lemma IdIsNormal(t: Target, v: Value, r: Rule)
    requires v.DeviceId?
    ensures Normal(r.(target := t, deviceId := Attribute(Equals, [v])))
      == Normal(r).(target := t, deviceId := Attribute(Equals, [v]))
  {
    hide Normal;
    var s := r.(target := t, deviceId := Attribute(Equals, [v]));
    assert NormalValues([v]) == [v];
    assert forall k :: Get(s, k) == if k == Id then Attribute(Equals, [v]) else Get(r, k);
    RuleEquality(Normal(s), Normal(r).(target := t, deviceId := Attribute(Equals, [v])));
  }

  lemma OneIdIsReadable(acc: Acceptor, v: Value)
    requires v.DeviceId? && Printable(v)
    ensures ReadableAttribute(acc, Id, Attribute(Equals, [v]))
    ensures NormalAttribute(Attribute(Equals, [v])) == Attribute(Equals, [v])
  {
    assert NormalValues([v]) == [v];
  }

  lemma EndIsFine(end: string)
    requires IsEnd(end)
    ensures IsComment(end) || SkipBlanks(end) == ""
  {
    var s := SkipBlanks(end);
    assert s != "" ==> s[..1] == [s[0]];
  }
}
