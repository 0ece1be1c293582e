/** Saving access control values and loading them again. */
module AccessText {
  import opened Text
  import opened Paths
  import opened AccessControl

  const DELIMITERS := " ,"

  predicate AllSingle(ps: seq<Bits>) {
    forall k :: 0 <= k < |ps| ==> IsSingle(ps[k])
  }

  function Names(ps: seq<Bits>): (ns: seq<string>)
    requires AllSingle(ps)
    ensures |ns| == |ps| && forall i :: 0 <= i < |ps| ==> ns[i] == PrivilegeText(ps[i])
  {
    seq(|ps|, i requires 0 <= i < |ps| => PrivilegeText(ps[i]))
  }

  lemma PrivilegeReadBack(p: Bits)
    requires IsSingle(p)
    ensures PrivilegeFrom(PrivilegeText(p), 0) == Ok(p)
    ensures Undelimited(PrivilegeText(p), DELIMITERS) && PrivilegeText(p) != "" && '\n' !in PrivilegeText(p)
  {
    assert PrivilegeFrom(PrivilegeText(p), 3) == if p == LISTEN then Ok(LISTEN) else PrivilegeFrom(PrivilegeText(p), 4);
    assert PrivilegeFrom(PrivilegeText(p), 2) == if p == LIST then Ok(LIST) else PrivilegeFrom(PrivilegeText(p), 3) by {
      assert "list" != "listen" && "modify" != "list" by { assert |"list"| < |"listen"| && |"list"| < |"modify"|; }
    }
    assert PrivilegeFrom(PrivilegeText(p), 1)
      == if p == MODIFY then Ok(MODIFY) else PrivilegeFrom(PrivilegeText(p), 2) by {
      assert "list"[0] != "modify"[0] && "listen"[0] != "modify"[0];
    }
    assert |"ALL"| == 3;
  }

  lemma SectionIsTrimmed(section: Section)
    requires IsProper(section)
    ensures Trim(SectionText(section)) == SectionText(section)
    ensures '=' !in SectionText(section) && '\n' !in SectionText(section)
  {
  }

  lemma SectionReadBack(section: Section)
    requires IsProper(section)
    ensures SectionFrom(SectionText(section), 0) == Ok(section)
    ensures Trim(SectionText(section)) == SectionText(section)
    ensures '=' !in SectionText(section) && '\n' !in SectionText(section)
  {
    hide Trim;
    SectionIsTrimmed(section);
    var t := SectionText(section);
    assert SectionFrom(t, 4) == if section == Exceptions then Ok(Exceptions) else SectionFrom(t, 5);
    assert SectionFrom(t, 3) == if section == Devices then Ok(Devices) else SectionFrom(t, 4);
    assert SectionFrom(t, 2) == if section == Parameters then Ok(Parameters) else SectionFrom(t, 3);
    assert SectionFrom(t, 1) == if section == Policy then Ok(Policy) else SectionFrom(t, 2);
    assert |"ALL"| == 3;
  }

  /** The list of privileges of a line is split into their names again. */
  lemma {:induction false} NamesReadBack(ps: seq<Bits>)
    requires AllSingle(ps)
    ensures Tokens(CommaText(ps), DELIMITERS, true, 0) == Names(ps) && '\n' !in CommaText(ps)
    decreases |ps|
  {
    hide Tokens, PrivilegeText, Undelimited, IsSingle, PrivilegeFrom;
    if ps == [] {
      assert Undelimited("", DELIMITERS) by { NothingIsPlain(); }
      TokensPlain("", DELIMITERS, true);
    } else {
      PrivilegeReadBack(ps[0]);
      if |ps| == 1 {
        TokensPlain(PrivilegeText(ps[0]), DELIMITERS, true);
        assert Names(ps) == [PrivilegeText(ps[0])];
      } else {
        NamesReadBack(ps[1..]);
        assert ',' in DELIMITERS by { assert DELIMITERS[1] == ','; }
        TokensSplit(PrivilegeText(ps[0]), ',', CommaText(ps[1..]), DELIMITERS, true);
        assert Names(ps) == [PrivilegeText(ps[0])] + Names(ps[1..]);
      }
    }
  }

  lemma NothingIsPlain()
    ensures Undelimited("", DELIMITERS)
  {
  }

  lemma LineReadBack(s: Store, section: Section, ps: seq<Bits>)
    requires IsProper(section) && AllSingle(ps)
    ensures LoadLine(s, SectionText(section) + "=" + CommaText(ps)) == SetNamed(s, section, Names(ps))
  {
    hide Tokens, SetNamed, SectionFrom, Trim, SectionText, CommaText;
    var head, tail := SectionText(section), CommaText(ps);
    var line := head + "=" + tail;
    SectionReadBack(section);
    NamesReadBack(ps);
    assert line[..|head|] == head && line[|head|] == '=' && line[|head| + 1..] == tail;
    FirstIndexIs('=', line, |head|);
  }

  /** A documented line gives the privileges that its words name, and no others. */
  lemma DocumentedLine(s: Store, x: Section, q: Bits)
    requires IsProper(x) && IsSingle(q)
    ensures
      var r := LoadLine(s, "Devices" + "=" + ("modify" + [','] + ("list" + [','] + "listen")));
      && r.ok
      && (HasPrivilege(r.store, x, q) == Ok(true) <==> x == Devices || HasPrivilege(s, x, q) == Ok(true))
    ensures
      var r := LoadLine(s, "Policy" + "=" + "list");
      r.ok && (HasPrivilege(r.store, x, q) == Ok(true) <==>
                 (x == Policy && q == LIST) || HasPrivilege(s, x, q) == Ok(true))
    ensures
      var r := LoadLine(s, "Parameters" + "=" + "modify");
      r.ok && (HasPrivilege(r.store, x, q) == Ok(true) <==>
                 (x == Parameters && q == MODIFY) || HasPrivilege(s, x, q) == Ok(true))
    ensures
      var r := LoadLine(s, "Exceptions" + "=" + "listen");
      r.ok && (HasPrivilege(r.store, x, q) == Ok(true) <==>
                 (x == Exceptions && q == LISTEN) || HasPrivilege(s, x, q) == Ok(true))
  {
    hide LoadLine, SetNamed, HasPrivilege, Names;
    LineReadBack(s, Devices, [MODIFY, LIST, LISTEN]);
    assert [MODIFY, LIST, LISTEN][1..] == [LIST, LISTEN] && [LIST, LISTEN][1..] == [LISTEN];
    LineReadBack(s, Policy, [LIST]);
    LineReadBack(s, Parameters, [MODIFY]);
    LineReadBack(s, Exceptions, [LISTEN]);
    OneNamed(s, Policy, LIST, x, q);
    OneNamed(s, Parameters, MODIFY, x, q);
    OneNamed(s, Exceptions, LISTEN, x, q);
    AllNamed(s, x, q);
  }

  /** Lines without an equals sign are passed over, and an unknown section is an error that changes nothing. */
  lemma OtherLines(s: Store, word: string, rest: string)
    requires '=' !in word
    ensures LoadLine(s, word) == Loading(true, s)
    ensures Trim(word) !in {"ALL", "Policy", "Parameters", "Devices", "Exceptions", "None"} ==>
      LoadLine(s, word + "=" + rest) == Loading(false, s)
  {
    hide Trim, Tokens;
    var line, w := word + "=" + rest, Trim(word);
    assert line[..|word|] == word && line[|word|] == '=';
    FirstIndexIs('=', line, |word|);
    if w !in {"ALL", "Policy", "Parameters", "Devices", "Exceptions", "None"} {
      assert SectionFrom(w, 6) == Err && SectionFrom(w, 5) == Err && SectionFrom(w, 4) == Err;
      assert SectionFrom(w, 3) == Err && SectionFrom(w, 2) == Err && SectionFrom(w, 1) == Err;
    }
  }

  /** The line that is saved for a section with all three privileges. */
  lemma SavedLine()
    ensures SectionLine(map[Devices := 0x0b], Devices)
      == "Devices" + "=" + ("list" + [','] + ("modify" + [','] + "listen")) + "\n"
  {
    var s: Store := map[Devices := 0x0b];
    assert Held(s, Devices, 3) == [] && Held(s, Devices, 2) == [LISTEN];
    assert Held(s, Devices, 1) == [MODIFY, LISTEN] && Held(s, Devices, 0) == [LIST, MODIFY, LISTEN];
    assert [LIST, MODIFY, LISTEN][1..] == [MODIFY, LISTEN] && [MODIFY, LISTEN][1..] == [LISTEN];
    assert CommaText([MODIFY, LISTEN]) == "modify" + [','] + "listen";
  }

  /** The words for all sections, all privileges and none. */
  lemma SpecialWords()
    ensures SectionFrom("ALL", 0) == Ok(AllSections) && PrivilegeFrom("ALL", 0) == Ok(ALL)
    ensures PrivilegeFrom("none", 0) == Ok(NONE)
  {
    assert |"none"| == 4 && "none"[0] == 'n' && "list"[0] == 'l' && |"ALL"| == 3 && |"modify"| == 6 && |"listen"| == 6;
    assert PrivilegeFrom("none", 4) == Ok(NONE) && PrivilegeFrom("none", 3) == PrivilegeFrom("none", 4);
    assert PrivilegeFrom("none", 2) == PrivilegeFrom("none", 3) && PrivilegeFrom("none", 1) == PrivilegeFrom("none", 2);
  }

  lemma OneNamed(s: Store, section: Section, p: Bits, x: Section, q: Bits)
    requires IsProper(section) && IsSingle(p) && Means(section, p) && IsProper(x) && IsSingle(q)
    ensures
      var r := SetNamed(s, section, Names([p]));
      && r.ok
      && (HasPrivilege(r.store, x, q) == Ok(true) <==> (x == section && q == p) || HasPrivilege(s, x, q) == Ok(true))
  {
    hide HasPrivilege, SetPrivilege, PrivilegeFrom, PrivilegeText;
    PrivilegeReadBack(p);
    SetInSection(s, section, p, x, q);
    assert Names([p])[1..] == [];
  }

  lemma AllNamed(s: Store, x: Section, q: Bits)
    requires IsProper(x) && IsSingle(q)
    ensures
      var r := SetNamed(s, Devices, Names([MODIFY, LIST, LISTEN]));
      r.ok && (HasPrivilege(r.store, x, q) == Ok(true) <==> x == Devices || HasPrivilege(s, x, q) == Ok(true))
  {
    hide HasPrivilege, SetPrivilege, PrivilegeFrom, PrivilegeText;
    PrivilegeReadBack(MODIFY);
    PrivilegeReadBack(LIST);
    PrivilegeReadBack(LISTEN);
    var names := Names([MODIFY, LIST, LISTEN]);
    assert names == [PrivilegeText(MODIFY), PrivilegeText(LIST), PrivilegeText(LISTEN)];
    assert names[1..][1..][1..] == [];
    SetInSection(s, Devices, MODIFY, x, q);
    var s1 := SetPrivilege(s, Devices, MODIFY).value;
    SetInSection(s1, Devices, LIST, x, q);
    var s2 := SetPrivilege(s1, Devices, LIST).value;
    SetInSection(s2, Devices, LISTEN, x, q);
    var s3 := SetPrivilege(s2, Devices, LISTEN).value;
    assert SetNamed(s2, Devices, names[1..][1..]) == SetNamed(s3, Devices, []);
    assert SetNamed(s, Devices, names) == SetNamed(s1, Devices, names[1..]) == SetNamed(s2, Devices, names[1..][1..]);
  }

  function OrAll(b: Bits, ps: seq<Bits>): (r: Bits)
    decreases |ps|
  {
    if ps == [] then b else OrAll(Or(b, ps[0]), ps[1..])
  }

  lemma SetSingle(s: Store, section: Section, p: Bits)
    requires IsProper(section) && IsSingle(p) && Apart(p, Mask(section))
    ensures SetPrivilege(s, section, p) == Ok(s[section := Or(BitsOf(s, section), p)])
  {
    assert Minus(p, Mask(section)) == p;
  }

  /** Setting the named privileges adds exactly their bits. */
  lemma {:induction false} SetNamedAdds(s: Store, section: Section, ps: seq<Bits>)
    requires IsProper(section) && AllSingle(ps)
    requires forall k :: 0 <= k < |ps| ==> Apart(ps[k], Mask(section))
    ensures SetNamed(s, section, Names(ps)) ==
      Loading(true, if ps == [] then s else s[section := OrAll(BitsOf(s, section), ps)])
    decreases |ps|
  {
    hide Mask, Apart, Or, PrivilegeText, PrivilegeFrom, SetPrivilege, IsSingle;
    if ps != [] {
      PrivilegeReadBack(ps[0]);
      SetSingle(s, section, ps[0]);
      SetNamedAdds(s[section := Or(BitsOf(s, section), ps[0])], section, ps[1..]);
      assert Names(ps)[1..] == Names(ps[1..]);
    }
  }

  function OneIf(b: Bits, p: Bits): (ps: seq<Bits>) {
    if Includes(b, p) then [p] else []
  }

  lemma HeldIs(s: Store, section: Section)
    requires IsProper(section)
    ensures var b := BitsOf(s, section); Held(s, section, 0) == OneIf(b, LIST) + (OneIf(b, MODIFY) + OneIf(b, LISTEN))
  {
    hide Includes, IsSingle;
    var b := BitsOf(s, section);
    assert LIST != NONE && MODIFY != NONE && LISTEN != NONE;
    NothingIncluded(LIST);
    NothingIncluded(MODIFY);
    NothingIncluded(LISTEN);
    assert Held(s, section, 3) == [];
    assert Held(s, section, 2) == OneIf(b, LISTEN) + [];
    assert Held(s, section, 1) == OneIf(b, MODIFY) + OneIf(b, LISTEN);
  }

  /** The printed privileges of a section make up its bits. */
  lemma HeldIsAll(s: Store, section: Section)
    requires Permitted(s) && IsProper(section)
    ensures OrAll(0, Held(s, section, 0)) == BitsOf(s, section)
    ensures forall k :: 0 <= k < |Held(s, section, 0)| ==> Apart(Held(s, section, 0)[k], Mask(section))
    ensures Held(s, section, 0) == [] ==> BitsOf(s, section) == 0
  {
    hide Held, OrAll, Mask, Apart, OneIf;
    var b := BitsOf(s, section);
    HeldIs(s, section);
    assert Apart(b, Mask(section)) by { ZeroIsApart(Mask(section)); }
    ThreeBits(b, Mask(section), OneIf(b, LIST), OneIf(b, MODIFY), OneIf(b, LISTEN));
    MeaningfulBits(section);
    OrNone();
  }

  lemma OrNone()
    ensures OrAll(0, []) == 0
  {
  }

  lemma ZeroIsApart(mask: Bits)
    ensures Apart(0, mask)
  {
  }

  lemma MeaningfulBits(section: Section)
    requires IsProper(section)
    ensures forall b: Bits {:trigger Apart(b, Mask(section))} :: Apart(b, Mask(section)) ==> b & 0xf4 == 0
  {
  }

  lemma ThreeBits(b: Bits, mask: Bits, x: seq<Bits>, y: seq<Bits>, z: seq<Bits>)
    requires Apart(b, mask)
    requires x == OneIf(b, LIST) && y == OneIf(b, MODIFY) && z == OneIf(b, LISTEN)
    ensures forall p :: p in x + (y + z) ==> Apart(p, mask)
    ensures b & 0xf4 == 0 ==> OrAll(0, x + (y + z)) == b
  {
    assert OrAll(0, x + (y + z)) == (b & LIST) | (b & MODIFY) | (b & LISTEN) by {
      OrAllConcat(0, x, y + z);
      OrAllConcat(OrAll(0, x), y, z);
      assert OrAll(0, x) == b & LIST;
      assert OrAll(b & LIST, y) == (b & LIST) | (b & MODIFY);
    }
  }

  lemma {:induction false} OrAllConcat(b: Bits, x: seq<Bits>, y: seq<Bits>)
    ensures OrAll(b, x + y) == OrAll(OrAll(b, x), y)
    decreases |x|
  {
    hide Or;
    if x == [] {
      assert x + y == y;
    } else {
      assert (x + y)[0] == x[0] && (x + y)[1..] == x[1..] + y;
      OrAllConcat(Or(b, x[0]), x[1..], y);
    }
  }

  lemma FirstLineLoads(s: Store, line: string, rest: string)
    requires '\n' !in line && LoadLine(s, line).ok
    ensures LoadText(s, line + ("\n" + rest)) == LoadText(LoadLine(s, line).store, rest)
  {
    hide LoadLine, FirstIndex;
    var text := line + ("\n" + rest);
    assert text[..|line|] == line && text[|line|] == '\n' && text[|line| + 1..] == rest;
    FirstIndexIs('\n', text, |line|);
  }

  /** Loading one saved section restores its bits and leaves the other sections alone. */
  lemma SectionRestored(a: Store, s: Store, section: Section, rest: string)
    requires Permitted(a) && IsProper(section) && BitsOf(s, section) == 0
    ensures exists s' ::
      && BitsOf(s', section) == BitsOf(a, section) && (forall x :: x != section ==> BitsOf(s', x) == BitsOf(s, x))
      && LoadText(s, SectionLine(a, section) + rest) == LoadText(s', rest)
  {
    hide Held, Permitted, SetNamed, LoadLine, CommaText, SectionText, LoadText, OrAll;
    var ps := Held(a, section, 0);
    HeldIsAll(a, section);
    var text := SectionLine(a, section) + rest;
    if ps == [] {
      assert text == rest;
      assert BitsOf(s, section) == BitsOf(a, section);
    } else {
      var line := SectionText(section) + "=" + CommaText(ps);
      NamesReadBack(ps);
      SectionReadBack(section);
      LineReadBack(s, section, ps);
      SetNamedAdds(s, section, ps);
      var s' := s[section := OrAll(BitsOf(s, section), ps)];
      assert '\n' !in line;
      Assoc(line, "\n", rest);
      FirstLineLoads(s, line, rest);
      assert BitsOf(s', section) == BitsOf(a, section);
    }
  }

  predicate Listed(section: Section, i: nat) {
    exists j :: i <= j < |SAVE_SECTIONS| && SAVE_SECTIONS[j] == section
  }

  /** Loading the sections from `i` on into a value that has nothing in them. */
  lemma {:induction false} SavedFrom(a: Store, s: Store, i: nat)
    requires Permitted(a) && i <= |SAVE_SECTIONS|
    requires forall j :: i <= j < |SAVE_SECTIONS| ==> BitsOf(s, SAVE_SECTIONS[j]) == 0
    ensures
      var r := LoadText(s, SaveFrom(a, i));
      r.ok && forall x :: BitsOf(r.store, x) == if Listed(x, i) then BitsOf(a, x) else BitsOf(s, x)
    decreases |SAVE_SECTIONS| - i
  {
    hide LoadText, SectionLine, Permitted;
    if i == |SAVE_SECTIONS| {
      NothingLoaded(s);
    } else {
      var section := SAVE_SECTIONS[i];
      SectionRestored(a, s, section, SaveFrom(a, i + 1));
      var s' :|
        && BitsOf(s', section) == BitsOf(a, section) && (forall x :: x != section ==> BitsOf(s', x) == BitsOf(s, x))
        && LoadText(s, SectionLine(a, section) + SaveFrom(a, i + 1)) == LoadText(s', SaveFrom(a, i + 1));
      forall j | i < j < |SAVE_SECTIONS| ensures SAVE_SECTIONS[j] != section {
      }
      SavedFrom(a, s', i + 1);
      assert !Listed(section, i + 1) && Listed(section, i);
      assert forall x :: x != section ==> (Listed(x, i) <==> Listed(x, i + 1));
    }
  }

  lemma NothingLoaded(s: Store)
    ensures LoadText(s, "") == Loading(true, s)
  {
  }

  lemma AllListed(section: Section)
    ensures Listed(section, 0) <==> IsProper(section)
  {
    assert SAVE_SECTIONS[0] == Devices && SAVE_SECTIONS[1] == Policy && SAVE_SECTIONS[2] == Parameters
      && SAVE_SECTIONS[3] == Exceptions;
  }

  /**
   * Saving a reachable value and loading the text gives a value with the same bits in every section, so
   * it answers every query in the same way.
   */
  lemma SaveLoad(a: Store, section: Section, p: Bits)
    requires Permitted(a)
    ensures var r := LoadText(map[], SaveFrom(a, 0));
      r.ok && BitsOf(r.store, section) == BitsOf(a, section)
        && HasPrivilege(r.store, section, p) == HasPrivilege(a, section, p)
  {
    hide LoadText, SaveFrom, Includes;
    SavedFrom(a, map[], 0);
    AllListed(section);
    if p != NONE {
      assert !Includes(0, p) by { NothingIncluded(p); }
    }
  }

  lemma NothingIncluded(p: Bits)
    requires p != NONE
    ensures !Includes(0, p)
  {
  }

  /** Loading keeps the values reachable. */
  lemma {:induction false} NamedKeepsPermitted(s: Store, section: Section, names: seq<string>)
    requires Permitted(s)
    ensures Permitted(SetNamed(s, section, names).store)
    decreases |names|
  {
    hide Permitted, SetPrivilege, PrivilegeFrom;
    if names != [] && PrivilegeFrom(names[0], 0).Ok? {
      var p := PrivilegeFrom(names[0], 0).value;
      SetKeepsPermitted(s, section, p);
      if SetPrivilege(s, section, p).Ok? {
        NamedKeepsPermitted(SetPrivilege(s, section, p).value, section, names[1..]);
      }
    }
  }

  lemma LineKeepsPermitted(s: Store, line: string)
    requires Permitted(s)
    ensures Permitted(LoadLine(s, line).store)
  {
    hide Permitted, SetNamed, Tokens, SectionFrom, Trim, FirstIndex;
    var eq := FirstIndex('=', line);
    if eq.Some? && SectionFrom(Trim(line[..eq.value]), 0).Ok? {
      NamedKeepsPermitted(s, SectionFrom(Trim(line[..eq.value]), 0).value,
                          Tokens(line[eq.value + 1..], DELIMITERS, true, 0));
    }
  }

  lemma {:induction false} LoadKeepsPermitted(s: Store, text: string)
    requires Permitted(s)
    ensures Permitted(LoadText(s, text).store)
    decreases |text|
  {
    hide Permitted, LoadLine, FirstIndex;
    if text != "" {
      var end := FirstIndex('\n', text);
      var line := if end.Some? then text[..end.value] else text;
      LineKeepsPermitted(s, line);
      LoadKeepsPermitted(LoadLine(s, line).store, if end.Some? then text[end.value + 1..] else "");
    }
  }
}
