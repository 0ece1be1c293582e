/** Privileges of IPC clients as bit sets by section (src/Library/public/usbguard/IPCServer.cpp). */
module AccessControl {
  import opened Text
  import opened Paths

  datatype Section = NoSection | Devices | Policy | Parameters | Exceptions | AllSections

  type Bits = bv8

  const NONE: Bits := 0x00
  const LIST: Bits := 0x01
  const MODIFY: Bits := 0x02
  const LISTEN: Bits := 0x08
  const ALL: Bits := 0xff

  /** The values of the enumeration of privileges. */
  predicate IsPrivilege(p: Bits) {
    p == NONE || p == ALL || IsSingle(p)
  }

  predicate IsSingle(p: Bits) {
    p == LIST || p == MODIFY || p == LISTEN
  }

  // Bitwise operations under names of their own.

  function Or(a: Bits, b: Bits): (r: Bits) {
    a | b
  }

  function Minus(a: Bits, mask: Bits): (r: Bits) {
    a & !mask
  }

  predicate Includes(a: Bits, p: Bits) {
    a & p == p
  }

  predicate Apart(a: Bits, mask: Bits) {
    a & mask == 0
  }

  lemma BitLaws(a: Bits, b: Bits, p: Bits, mask: Bits)
    ensures Or(a, 0) == a == Or(0, a) && Apart(0, mask) && (IsSingle(p) ==> !Includes(0, p))
    ensures Apart(a, mask) ==> Apart(Or(a, Minus(p, mask)), mask)
    ensures Apart(a, mask) && Apart(b, mask) ==> Apart(Or(a, b), mask)
    ensures IsSingle(p) ==> (Includes(Or(a, b), p) <==> Includes(a, p) || Includes(b, p))
  {
  }

  type Store = map<Section, Bits>

  function BitsOf(s: Store, section: Section): (b: Bits) {
    if section in s then s[section] else 0
  }

  /** ac_mask: the bits that have no meaning in a section. */
  function Mask(section: Section): (m: Bits) {
    match section
    case Devices => !(MODIFY | LIST | LISTEN)
    case Policy => !(MODIFY | LIST)
    case Exceptions => !LISTEN
    case Parameters => !(MODIFY | LIST | LISTEN)
    case _ => 0xff
  }

  predicate IsProper(section: Section) {
    section != NoSection && section != AllSections
  }

  function HasPrivilege(s: Store, section: Section, p: Bits): (r: Result<bool>) {
    if p == NONE then Ok(true)
    else if !IsProper(section) then Err
    else Ok(section in s && Includes(s[section], p))
  }

  function Granted(s: Store, section: Section, p: Bits): (r: Store) {
    s[section := Or(BitsOf(s, section), Minus(p, Mask(section)))]
  }

  const ALL_ORDER := [Policy, Parameters, Exceptions, Devices]

  /** The privilege in all sections, from entry `i` of the list on. */
  function GrantedFrom(s: Store, p: Bits, i: nat): (r: Store)
    decreases |ALL_ORDER| - i
  {
    if i >= |ALL_ORDER| then s else GrantedFrom(Granted(s, ALL_ORDER[i], p), p, i + 1)
  }

  function SetPrivilege(s: Store, section: Section, p: Bits): (r: Result<Store>) {
    if section == NoSection then Err
    else if section == AllSections then Ok(GrantedFrom(s, p, 0))
    else if p != ALL && !Apart(p, Mask(section)) then Err
    else Ok(Granted(s, section, p))
  }

  function Merge(a: Store, b: Store): (r: Store)
    ensures forall x :: BitsOf(r, x) == Or(BitsOf(a, x), BitsOf(b, x))
    ensures forall x :: x in r <==> x in a || x in b
  {
    BitLaws(0, 0, 0, 0);
    map x | x in a.Keys + b.Keys :: Or(BitsOf(a, x), BitsOf(b, x))
  }

  // ----- What reachable values keep

  /** Only bits that mean something in their section, and only proper sections. */
  predicate Permitted(s: Store) {
    forall x :: x in s ==> IsProper(x) && Apart(s[x], Mask(x))
  }

  lemma GrantedKeeps(s: Store, section: Section, p: Bits)
    requires Permitted(s) && IsProper(section)
    ensures Permitted(Granted(s, section, p))
  {
    hide Mask, Apart, Or, Minus;
    BitLaws(BitsOf(s, section), 0, p, Mask(section));
  }

  lemma {:induction false} GrantedFromKeeps(s: Store, p: Bits, i: nat)
    requires Permitted(s)
    ensures Permitted(GrantedFrom(s, p, i))
    decreases |ALL_ORDER| - i
  {
    hide Permitted, Granted;
    if i < |ALL_ORDER| {
      GrantedKeeps(s, ALL_ORDER[i], p);
      GrantedFromKeeps(Granted(s, ALL_ORDER[i], p), p, i + 1);
    }
  }

  lemma SetKeepsPermitted(s: Store, section: Section, p: Bits)
    requires Permitted(s)
    ensures SetPrivilege(s, section, p).Ok? ==> Permitted(SetPrivilege(s, section, p).value)
  {
    hide Permitted, Granted, GrantedFrom;
    GrantedFromKeeps(s, p, 0);
    if IsProper(section) {
      GrantedKeeps(s, section, p);
    }
  }

  /** The privileges that mean something in a section. */
  predicate Means(section: Section, p: Bits) {
    match section
    case Devices => p in {LIST, MODIFY, LISTEN}
    case Policy => p in {LIST, MODIFY}
    case Parameters => p in {LIST, MODIFY, LISTEN}
    case Exceptions => p == LISTEN
    case _ => false
  }

  lemma MaskMeans(section: Section, p: Bits)
    requires IsSingle(p)
    ensures Apart(p, Mask(section)) <==> Means(section, p)
    ensures forall a: Bits :: Includes(Or(a, Minus(p, Mask(section))), p) <==> Includes(a, p) || Means(section, p)
    ensures forall a: Bits :: Includes(Or(a, Minus(ALL, Mask(section))), p) <==> Includes(a, p) || Means(section, p)
    ensures forall a: Bits, q ::
      IsSingle(q) && q != p ==> (Includes(Or(a, Minus(p, Mask(section))), q) <==> Includes(a, q))
  {
  }

  /**
   * Setting a privilege in one section gives exactly that privilege there, or with ALL every one that means
   * something there.  It fails exactly for a privilege that means nothing in the section.
   */
  lemma SetInSection(s: Store, section: Section, p: Bits, x: Section, q: Bits)
    requires IsProper(section) && (IsSingle(p) || p == ALL) && IsProper(x) && IsSingle(q)
    ensures
      var r := SetPrivilege(s, section, p);
      && (r.Err? <==> p != ALL && !Means(section, p))
      && (r.Ok? ==> (HasPrivilege(r.value, x, q) == Ok(true) <==>
            HasPrivilege(s, x, q) == Ok(true) || (x == section && (p == ALL || p == q) && Means(section, q))))
  {
    hide Mask, Apart, Includes, Or, Minus, Means;
    MaskMeans(section, q);
    if p != ALL {
      MaskMeans(section, p);
    }
    SingleIsSomething(q);
    BitLaws(BitsOf(s, section), 0, q, 0);
  }

  /** Setting a privilege in all sections gives it in every section in which it means something. */
  lemma SetInAllSections(s: Store, p: Bits, x: Section, q: Bits)
    requires (IsSingle(p) || p == ALL) && IsProper(x) && IsSingle(q)
    ensures
      var r := SetPrivilege(s, AllSections, p);
      && r.Ok?
      && (HasPrivilege(r.value, x, q) == Ok(true) <==>
            HasPrivilege(s, x, q) == Ok(true) || ((p == ALL || p == q) && Means(x, q)))
  {
    hide Mask, Apart, Includes, Or, Minus, Means, Granted;
    var s1 := Granted(s, Policy, p);
    var s2 := Granted(s1, Parameters, p);
    var s3 := Granted(s2, Exceptions, p);
    assert GrantedFrom(s3, p, 3) == Granted(s3, Devices, p);
    assert GrantedFrom(s, p, 0) == GrantedFrom(s1, p, 1) == GrantedFrom(s2, p, 2) == GrantedFrom(s3, p, 3);
    GrantedMeans(s, Policy, p, x, q);
    GrantedMeans(s1, Parameters, p, x, q);
    GrantedMeans(s2, Exceptions, p, x, q);
    GrantedMeans(s3, Devices, p, x, q);
  }

  lemma GrantedMeans(s: Store, section: Section, p: Bits, x: Section, q: Bits)
    requires IsProper(section) && (IsSingle(p) || p == ALL) && IsProper(x) && IsSingle(q)
    ensures HasPrivilege(Granted(s, section, p), x, q) == Ok(true) <==>
      HasPrivilege(s, x, q) == Ok(true) || (x == section && (p == ALL || p == q) && Means(section, q))
  {
    hide Mask, Apart, Includes, Or, Minus, Means;
    MaskMeans(section, q);
    if p != ALL {
      MaskMeans(section, p);
    }
    SingleIsSomething(q);
    BitLaws(BitsOf(s, section), 0, q, 0);
  }

  lemma MergeKeepsPermitted(a: Store, b: Store)
    requires Permitted(a) && Permitted(b)
    ensures Permitted(Merge(a, b))
  {
    hide Mask, Merge, Or, Apart;
    var r := Merge(a, b);
    forall x | x in r ensures IsProper(x) && Apart(r[x], Mask(x)) {
      assert r[x] == BitsOf(r, x);
      BitLaws(BitsOf(a, x), BitsOf(b, x), 0, Mask(x));
    }
  }

  /** No value answers a query for all privileges with yes, since no section has all eight bits. */
  lemma AllIsNeverHeld(s: Store, section: Section)
    requires Permitted(s) && IsProper(section)
    ensures HasPrivilege(s, section, ALL) == Ok(false)
  {
  }

  /** A query for nothing is always granted, and any other is an error outside the four sections. */
  lemma QueriesOutside(s: Store, section: Section, p: Bits)
    ensures HasPrivilege(s, section, NONE) == Ok(true)
    ensures HasPrivilege(s, section, p) == Err <==> p != NONE && section in {NoSection, AllSections}
    ensures SetPrivilege(s, NoSection, p) == Err
  {
  }

  /** Merging is the union of the privileges. */
  lemma MergeIsUnion(a: Store, b: Store, section: Section, p: Bits)
    requires IsSingle(p) && IsProper(section)
    ensures HasPrivilege(Merge(a, b), section, p)
      == Ok(HasPrivilege(a, section, p).value || HasPrivilege(b, section, p).value)
  {
    hide Merge, Or, Includes, IsSingle;
    BitLaws(BitsOf(a, section), BitsOf(b, section), p, 0);
    assert p != NONE by { SingleIsSomething(p); }
    var r := Merge(a, b);
    assert section in r ==> r[section] == BitsOf(r, section);
  }

  lemma SingleIsSomething(p: Bits)
    requires IsSingle(p)
    ensures p != NONE && p != ALL
  {
  }

  /** The answers to all queries follow from the answers about single privileges. */
  lemma SinglesDecide(a: Store, b: Store)
    requires Permitted(a) && Permitted(b)
    requires forall x, p | IsProper(x) && IsSingle(p) :: HasPrivilege(a, x, p) == HasPrivilege(b, x, p)
    ensures forall x, p | IsPrivilege(p) :: HasPrivilege(a, x, p) == HasPrivilege(b, x, p)
  {
    forall x, p | IsPrivilege(p) ensures HasPrivilege(a, x, p) == HasPrivilege(b, x, p) {
      if p == ALL && IsProper(x) {
        AllIsNeverHeld(a, x);
        AllIsNeverHeld(b, x);
      }
    }
  }

  // ----- The text of access control files

  function SectionText(section: Section): (t: string) {
    match section
    case AllSections => "ALL"
    case Policy => "Policy"
    case Parameters => "Parameters"
    case Devices => "Devices"
    case Exceptions => "Exceptions"
    case NoSection => "None"
  }

  const SECTIONS := [AllSections, Policy, Parameters, Devices, Exceptions, NoSection]

  /** The table is searched from entry `i` on. */
  function SectionFrom(t: string, i: nat): (r: Result<Section>)
    decreases |SECTIONS| - i
  {
    if i >= |SECTIONS| then Err else if SectionText(SECTIONS[i]) == t then Ok(SECTIONS[i]) else SectionFrom(t, i + 1)
  }

  const PRIVILEGES: seq<(string, Bits)> :=
    [("ALL", ALL), ("modify", MODIFY), ("list", LIST), ("listen", LISTEN), ("none", NONE)]

  function PrivilegeFrom(t: string, i: nat): (r: Result<Bits>)
    decreases |PRIVILEGES| - i
  {
    if i >= |PRIVILEGES| then Err else if PRIVILEGES[i].0 == t then Ok(PRIVILEGES[i].1) else PrivilegeFrom(t, i + 1)
  }

  function PrivilegeText(p: Bits): (t: string)
    requires IsSingle(p)
  {
    if p == LIST then "list" else if p == MODIFY then "modify" else "listen"
  }

  const BLANKS := " \U{0C}\n\r\t\U{0B}"

  function TrimLeft(s: string): (r: string)
    ensures |r| <= |s|
  {
    if s == "" || s[0] !in BLANKS then s else TrimLeft(s[1..])
  }

  function TrimRight(s: string): (r: string)
    ensures |r| <= |s|
  {
    if s == "" || s[|s| - 1] !in BLANKS then s else TrimRight(s[..|s| - 1])
  }

  function Trim(s: string): (r: string) {
    TrimRight(TrimLeft(s))
  }

  /** What loading leaves; after an error it is what was read before. */
  datatype Loading = Loading(ok: bool, store: Store)

  function SetNamed(s: Store, section: Section, names: seq<string>): (r: Loading)
    decreases |names|
  {
    if names == [] then Loading(true, s)
    else
      var p := PrivilegeFrom(names[0], 0);
      if p.Err? then Loading(false, s)
      else
        var s' := SetPrivilege(s, section, p.value);
        if s'.Err? then Loading(false, s) else SetNamed(s'.value, section, names[1..])
  }

  function LoadLine(s: Store, line: string): (r: Loading) {
    match FirstIndex('=', line)
    case None => Loading(true, s)
    case Some(i) =>
      match SectionFrom(Trim(line[..i]), 0)
      case Err => Loading(false, s)
      case Ok(section) => SetNamed(s, section, Tokens(line[i + 1..], " ,", true, 0))
  }

  function LoadText(s: Store, text: string): (r: Loading)
    decreases |text|
  {
    if text == "" then Loading(true, s)
    else
      var end := FirstIndex('\n', text);
      var line := if end.Some? then text[..end.value] else text;
      var r := LoadLine(s, line);
      if r.ok then LoadText(r.store, if end.Some? then text[end.value + 1..] else "") else r
  }

  const SAVE_SECTIONS := [Devices, Policy, Parameters, Exceptions]
  const SAVE_PRIVILEGES: seq<Bits> := [LIST, MODIFY, LISTEN]

  /** The privileges of a section that are printed, from entry `i` on. */
  function Held(s: Store, section: Section, i: nat): (ps: seq<Bits>)
    requires IsProper(section)
    ensures forall k :: 0 <= k < |ps| ==> IsSingle(ps[k]) && HasPrivilege(s, section, ps[k]) == Ok(true)
    decreases |SAVE_PRIVILEGES| - i
  {
    if i >= |SAVE_PRIVILEGES| then []
    else
      var p := SAVE_PRIVILEGES[i];
      (if HasPrivilege(s, section, p).value then [p] else []) + Held(s, section, i + 1)
  }

  function CommaText(ps: seq<Bits>): (t: string)
    requires forall k :: 0 <= k < |ps| ==> IsSingle(ps[k])
  {
    if ps == [] then ""
    else if |ps| == 1 then PrivilegeText(ps[0])
    else PrivilegeText(ps[0]) + [','] + CommaText(ps[1..])
  }

  function SectionLine(s: Store, section: Section): (t: string)
    requires IsProper(section)
  {
    var ps := Held(s, section, 0);
    if ps == [] then "" else SectionText(section) + "=" + CommaText(ps) + "\n"
  }

  function SaveFrom(s: Store, i: nat): (t: string)
    decreases |SAVE_SECTIONS| - i
  {
    if i >= |SAVE_SECTIONS| then "" else SectionLine(s, SAVE_SECTIONS[i]) + SaveFrom(s, i + 1)
  }

  // ----- The class

  class Control {
    var store: Store

    constructor ()
      ensures store == map[]
    {
      store := map[];
    }

    method Has(section: Section, p: Bits) returns (r: Result<bool>)
      ensures r == HasPrivilege(store, section, p)
    {
      if p == NONE {
        return Ok(true);
      }
      if section == AllSections || section == NoSection {
        return Err;
      }
      if section !in store {
        return Ok(false);
      }
      return Ok(Includes(store[section], p));
    }

    method Set(section: Section, p: Bits) returns (ok: bool)
      modifies this
      ensures match SetPrivilege(old(store), section, p)
        case Err => !ok && store == old(store)
        case Ok(s) => ok && store == s
    {
      hide Mask, Or, Minus, Apart;
      if section == NoSection {
        return false;
      }
      if section == AllSections {
        for i := 0 to |ALL_ORDER|
          invariant GrantedFrom(store, p, i) == GrantedFrom(old(store), p, 0)
        {
          store := Granted(store, ALL_ORDER[i], p);
        }
      } else {
        if p != ALL && !Apart(p, Mask(section)) {
          return false;
        }
        store := Granted(store, section, p);
      }
      return true;
    }

    /** The loop over the entries of the other object, in the order of its hash table. */
    method MergeFrom(rhs: Store)
      modifies this
      ensures store == Merge(old(store), rhs)
    {
      hide Or, Merge;
      forall b: Bits ensures Or(b, 0) == b {
        BitLaws(b, 0, 0, 0);
      }
      var left := rhs.Keys;
      while left != {}
        invariant left <= rhs.Keys
        invariant forall x :: x in store <==> x in old(store) || x in rhs.Keys - left
        invariant forall x :: x in left ==> BitsOf(store, x) == BitsOf(old(store), x)
        invariant forall x :: x !in left ==> BitsOf(store, x) == Or(BitsOf(old(store), x), BitsOf(rhs, x))
        decreases |left|
      {
        var x :| x in left;
        store := store[x := Or(BitsOf(store, x), rhs[x])];
        left := left - {x};
      }
      assert forall x :: x in store ==> store[x] == BitsOf(store, x) == BitsOf(Merge(old(store), rhs), x);
      assert store == Merge(old(store), rhs);
    }

    method Load(text: string) returns (ok: bool)
      modifies this
      ensures Loading(ok, store) == LoadText(old(store), text)
    {
      hide SetPrivilege, PrivilegeFrom, SectionFrom, Tokens, Trim;
      var rest := text;
      while rest != ""
        invariant LoadText(store, rest) == LoadText(old(store), text)
        decreases |rest|
      {
        var end := FirstIndex('\n', rest);
        var line := if end.Some? then rest[..end.value] else rest;
        ghost var before := store;
        var next := if end.Some? then rest[end.value + 1..] else "";
        var eq := FirstIndex('=', line);
        if eq.Some? {
          var section := SectionFrom(Trim(line[..eq.value]), 0);
          if section.Err? {
            return false;
          }
          var names := TokenizeString(line[eq.value + 1..], " ,", true);
          ok := SetNames(section.value, names);
          if !ok {
            return;
          }
        }
        rest := next;
      }
      return true;
    }

    method SetNames(section: Section, names: seq<string>) returns (ok: bool)
      modifies this
      ensures Loading(ok, store) == SetNamed(old(store), section, names)
    {
      hide SetPrivilege, PrivilegeFrom;
      assert names[0..] == names;
      for i := 0 to |names|
        invariant SetNamed(store, section, names[i..]) == SetNamed(old(store), section, names)
      {
        assert names[i..][0] == names[i] && names[i..][1..] == names[i + 1..];
        var p := PrivilegeFrom(names[i], 0);
        if p.Err? {
          return false;
        }
        ok := Set(section, p.value);
        if !ok {
          return;
        }
      }
      return true;
    }

    method Save() returns (text: string)
      ensures text == SaveFrom(store, 0)
    {
      hide SectionLine;
      text := "";
      for i := 0 to |SAVE_SECTIONS|
        invariant text + SaveFrom(store, i) == SaveFrom(store, 0)
      {
        var line := SaveSection(SAVE_SECTIONS[i]);
        Assoc(text, line, SaveFrom(store, i + 1));
        text := text + line;
      }
      assert text + "" == text;
    }

    /** One line: every privilege is followed by a comma, and the last comma is taken off again. */
    method SaveSection(section: Section) returns (line: string)
      requires IsProper(section)
      ensures line == SectionLine(store, section)
    {
      hide Held, HeldUpto, WithCommas, PrivilegeText, HasPrivilege, IsSingle, SectionLine;
      var empty, names := true, "";
      ghost var all := Held(store, section, 0);
      NothingYet(store, section);
      for i := 0 to |SAVE_PRIVILEGES|
        invariant i <= |SAVE_PRIVILEGES| && all == HeldUpto(store, section, i) + Held(store, section, i)
        invariant names == WithCommas(HeldUpto(store, section, i)) && empty == (HeldUpto(store, section, i) == [])
      {
        var p := SAVE_PRIVILEGES[i];
        SaveStep(store, section, i);
        var has := Has(section, p);
        if has.value {
          names := names + PrivilegeText(p) + ",";
          empty := false;
        }
      }
      line := TakeOff(section, empty, names, all);
    }

    method TakeOff(section: Section, empty: bool, names: string, ghost all: seq<Bits>) returns (line: string)
      requires IsProper(section) && all == Held(store, section, 0) && names == WithCommas(all) && empty == (all == [])
      ensures line == SectionLine(store, section)
    {
      hide Held, CommaText, WithCommas, SectionText;
      if empty {
        return "";
      }
      CommaOff(all);
      var full := SectionText(section) + "=" + names;
      assert full[..|full| - 1] == SectionText(section) + "=" + CommaText(all);
      return full[..|full| - 1] + "\n";
    }
  }

  lemma NothingYet(s: Store, section: Section)
    requires IsProper(section)
    ensures HeldUpto(s, section, 0) == [] && WithCommas(HeldUpto(s, section, 0)) == "" && SAVE_PRIVILEGES != []
    ensures HeldUpto(s, section, 0) + Held(s, section, 0) == Held(s, section, 0)
    ensures HeldUpto(s, section, |SAVE_PRIVILEGES|) + Held(s, section, |SAVE_PRIVILEGES|)
      == HeldUpto(s, section, |SAVE_PRIVILEGES|)
  {
    hide HasPrivilege, IsSingle;
    assert Held(s, section, |SAVE_PRIVILEGES|) == [] && HeldUpto(s, section, 0) == [];
  }

  lemma ProperSectionsAnswer(s: Store, section: Section, p: Bits)
    requires IsProper(section)
    ensures HasPrivilege(s, section, p).Ok?
  {
  }

  lemma SaveStep(s: Store, section: Section, i: nat)
    requires IsProper(section) && i < |SAVE_PRIVILEGES|
    ensures IsSingle(SAVE_PRIVILEGES[i]) && HasPrivilege(s, section, SAVE_PRIVILEGES[i]).Ok?
    ensures
      var before, after, p := HeldUpto(s, section, i), HeldUpto(s, section, i + 1), SAVE_PRIVILEGES[i];
      && after + Held(s, section, i + 1) == before + Held(s, section, i)
      && if HasPrivilege(s, section, p).value
         then after != [] && WithCommas(after) == WithCommas(before) + PrivilegeText(p) + ","
         else after == before
  {
    hide WithCommas, PrivilegeText, HasPrivilege, IsSingle, SAVE_PRIVILEGES;
    var p := SAVE_PRIVILEGES[i];
    SavedIsSingle(i);
    assert HasPrivilege(s, section, p).Ok? by { ProperSectionsAnswer(s, section, p); }
    OneMoreComma(HeldUpto(s, section, i), p);
    var before, one := HeldUpto(s, section, i), if HasPrivilege(s, section, p).value then [p] else [];
    assert HeldUpto(s, section, i + 1) == before + one && Held(s, section, i) == one + Held(s, section, i + 1);
    assert before + one + Held(s, section, i + 1) == before + (one + Held(s, section, i + 1));
    assert before + [] == before;
  }

  lemma SavedIsSingle(i: nat)
    requires i < |SAVE_PRIVILEGES|
    ensures IsSingle(SAVE_PRIVILEGES[i]) && SAVE_PRIVILEGES[i] != NONE
  {
  }

  function HeldUpto(s: Store, section: Section, n: nat): (ps: seq<Bits>)
    requires IsProper(section) && n <= |SAVE_PRIVILEGES|
    ensures forall k :: 0 <= k < |ps| ==> IsSingle(ps[k])
  {
    if n == 0 then []
    else
      var p := SAVE_PRIVILEGES[n - 1];
      HeldUpto(s, section, n - 1) + if HasPrivilege(s, section, p).value then [p] else []
  }

  function WithCommas(ps: seq<Bits>): (t: string)
    requires forall k :: 0 <= k < |ps| ==> IsSingle(ps[k])
  {
    if ps == [] then "" else PrivilegeText(ps[0]) + ([','] + WithCommas(ps[1..]))
  }

  lemma {:induction false} OneMoreComma(ps: seq<Bits>, p: Bits)
    requires IsSingle(p) && forall k :: 0 <= k < |ps| ==> IsSingle(ps[k])
    ensures WithCommas(ps + [p]) == WithCommas(ps) + PrivilegeText(p) + ","
    decreases |ps|
  {
    hide PrivilegeText, IsSingle;
    if ps == [] {
      assert ps + [p] == [p] && [p][1..] == [];
    } else {
      var x, w, t := PrivilegeText(ps[0]), WithCommas(ps[1..]), PrivilegeText(p);
      OneMoreComma(ps[1..], p);
      assert (ps + [p])[0] == ps[0] && (ps + [p])[1..] == ps[1..] + [p];
      Assoc([','], w + t, ",");
      Assoc([','], w, t);
      Assoc(x, [','] + w + t, ",");
      Assoc(x, [','] + w, t);
    }
  }

  lemma {:induction false} CommaOff(ps: seq<Bits>)
    requires ps != [] && forall k :: 0 <= k < |ps| ==> IsSingle(ps[k])
    ensures WithCommas(ps) == CommaText(ps) + ","
    decreases |ps|
  {
    hide PrivilegeText, IsSingle;
    if |ps| == 1 {
      assert ps[1..] == [];
    } else {
      CommaOff(ps[1..]);
    }
  }
}
