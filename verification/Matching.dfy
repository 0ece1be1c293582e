/**
 * Attribute values and the set operators that compare them (src/Library/public/usbguard/Rule.hpp,
 * Predicates.hpp and USB.cpp).
 */
module Matching {
  import opened Text

  datatype SetOperator = AllOf | OneOf | NoneOf | Equals | EqualsOrdered | Match | MatchAll

  datatype ConditionKind =
    AllowedMatches | Localtime | FixedTrue | FixedFalse | Random | RuleApplied | RuleEvaluated

  /** The value types for which the attribute template is instantiated. */
  datatype Value =
    | Str(text: string)
    | DeviceId(vendor: string, product: string)
    | Interface(cls: nat, sub: Option<nat>, protocol: Option<nat>)
    | Condition(kind: ConditionKind, parameter: string, negated: bool)

  datatype Attribute = Attribute(op: SetOperator, values: seq<Value>)

  const NO_VALUES := Attribute(Equals, [])

  predicate IsWildcard(s: string) {
    s == "" || s == "*"
  }

  /** Predicates::isSubsetOf */
  predicate Subset(a: Value, b: Value) {
    match (a, b)
    case (DeviceId(v, p), DeviceId(v', p')) =>
      IsWildcard(v) || (v == v' && (IsWildcard(p) || p == p'))
    case (Interface(c, s, p), Interface(c', s', p')) =>
      c == c' && (s.None? || s.value == Field(s')) && (p.None? || p.value == Field(p'))
    case _ => a == b
  }

  /** The number stored for a field of an interface type; a masked-out field is stored as zero. */
  function Field(f: Option<nat>): (n: nat) {
    if f.Some? then f.value else 0
  }

  /** Predicates::isSupersetOf, whose generic form is a stub that returns true. */
  predicate Superset(a: Value, b: Value) {
    match (a, b)
    case (DeviceId(_, _), DeviceId(_, _)) => Subset(b, a)
    case (Interface(_, _, _), Interface(_, _, _)) => Subset(a, b)
    case _ => true
  }

  lemma SubsetReflexive(v: Value)
    ensures Subset(v, v)
  {
  }

  /** The devices that an identifier with wildcards stands for. */
  predicate StandsForId(a: Value, vendor: string, product: string)
    requires a.DeviceId?
  {
    (IsWildcard(a.vendor) || a.vendor == vendor) && (IsWildcard(a.product) || a.product == product)
  }

  /** A wildcard for the vendor comes with one for the product. */
  predicate IsIdPattern(a: Value) {
    a.DeviceId? && (IsWildcard(a.vendor) ==> IsWildcard(a.product))
  }

  ghost predicate CoversId(a: Value, b: Value)
    requires a.DeviceId? && b.DeviceId?
  {
    forall v, p :: !IsWildcard(v) && !IsWildcard(p) && StandsForId(b, v, p) ==> StandsForId(a, v, p)
  }

  lemma Another(s: string)
    ensures !IsWildcard(s + "x") && s + "x" != s
  {
    assert (s + "x")[|s|] == 'x' && |s + "x"| == |s| + 1;
  }

  /** On identifiers the test called "subset" holds exactly if the first covers the second. */
  lemma DeviceIdCoverage(a: Value, b: Value)
    requires IsIdPattern(a) && IsIdPattern(b)
    ensures Subset(a, b) <==> CoversId(a, b)
  {
    Another(a.vendor);
    Another(a.product);
    var v := if !IsWildcard(b.vendor) then b.vendor else a.vendor + "x";
    var p := if !IsWildcard(b.product) then b.product else a.product + "x";
    assert !IsWildcard(v) && !IsWildcard(p) && StandsForId(b, v, p);
    assert CoversId(a, b) ==> StandsForId(a, v, p);
  }

  predicate StandsForInterface(a: Value, cls: nat, sub: nat, protocol: nat)
    requires a.Interface?
  {
    a.cls == cls && (a.sub.None? || a.sub.value == sub) && (a.protocol.None? || a.protocol.value == protocol)
  }

  ghost predicate CoversInterface(a: Value, b: Value)
    requires a.Interface? && b.Interface?
  {
    forall c, s, p :: StandsForInterface(b, c, s, p) ==> StandsForInterface(a, c, s, p)
  }

  /** The value zero is compared with a field that the other interface type leaves open. */
  predicate ZeroAgainstOpen(f: Option<nat>, g: Option<nat>) {
    f == Some(0) && g.None?
  }

  /**
   * On interface types the same test is coverage except that an open field counts as zero; interface
   * types of devices have no open fields.
   */
  lemma InterfaceCoverage(a: Value, b: Value)
    requires a.Interface? && b.Interface?
    ensures CoversInterface(a, b) <==>
      Subset(a, b) && !ZeroAgainstOpen(a.sub, b.sub) && !ZeroAgainstOpen(a.protocol, b.protocol)
  {
    var s := if b.sub.Some? then b.sub.value else Field(a.sub) + 1;
    var p := if b.protocol.Some? then b.protocol.value else Field(a.protocol) + 1;
    assert StandsForInterface(b, b.cls, s, p);
    assert CoversInterface(a, b) ==> StandsForInterface(a, b.cls, s, p);
  }

  predicate MatchedBy(v: Value, targets: seq<Value>) {
    exists i :: 0 <= i < |targets| && Subset(v, targets[i])
  }

  predicate Covers(sources: seq<Value>, v: Value) {
    exists i :: 0 <= i < |sources| && Superset(sources[i], v)
  }

  /** What each operator means for the values of a rule (`source`) and of a device (`target`). */
  predicate Solves(op: SetOperator, source: seq<Value>, target: seq<Value>) {
    match op
    case AllOf => forall i :: 0 <= i < |source| ==> MatchedBy(source[i], target)
    case OneOf => exists i :: 0 <= i < |source| && MatchedBy(source[i], target)
    case NoneOf => forall i :: 0 <= i < |source| ==> !MatchedBy(source[i], target)
    case Equals => |source| == |target| && forall i :: 0 <= i < |source| ==> MatchedBy(source[i], target)
    case EqualsOrdered => |source| == |target| && forall i :: 0 <= i < |source| ==> Subset(source[i], target[i])
    case MatchAll => forall i :: 0 <= i < |target| ==> Covers(source, target[i])
    case Match => true
  }

  /** Attribute::appliesTo */
  predicate Applies(a: Attribute, target: Attribute) {
    a.values == [] || Solves(a.op, a.values, target.values)
  }

  /** setSolveAllOf, and the second half of setSolveEquals. */
  method SolveAllOf(source: seq<Value>, target: seq<Value>) returns (r: bool)
    ensures r == Solves(AllOf, source, target)
  {
    for i := 0 to |source|
      invariant forall k :: 0 <= k < i ==> MatchedBy(source[k], target)
    {
      var matched := false;
      for j := 0 to |target|
        invariant !matched
        invariant forall k :: 0 <= k < j ==> !Subset(source[i], target[k])
      {
        if Subset(source[i], target[j]) {
          matched := true;
          break;
        }
      }
      if !matched {
        return false;
      }
    }
    return true;
  }

  /** setSolveOneOf; setSolveNoneOf is the same pair of loops with the two results exchanged. */
  method SolveOneOf(source: seq<Value>, target: seq<Value>) returns (r: bool)
    ensures r == Solves(OneOf, source, target) == !Solves(NoneOf, source, target)
  {
    for i := 0 to |source|
      invariant forall k :: 0 <= k < i ==> !MatchedBy(source[k], target)
    {
      for j := 0 to |target|
        invariant forall k :: 0 <= k < j ==> !Subset(source[i], target[k])
      {
        if Subset(source[i], target[j]) {
          return true;
        }
      }
    }
    return false;
  }

  /** setSolveEqualsOrdered */
  method SolveEqualsOrdered(source: seq<Value>, target: seq<Value>) returns (r: bool)
    ensures r == Solves(EqualsOrdered, source, target)
  {
    if |source| != |target| {
      return false;
    }
    for i := 0 to |source|
      invariant forall k :: 0 <= k < i ==> Subset(source[k], target[k])
    {
      if !Subset(source[i], target[i]) {
        return false;
      }
    }
    return true;
  }

  /** setSolveMatchAll, which counts the covered device values and compares the count at the end. */
  method SolveMatchAll(source: seq<Value>, target: seq<Value>) returns (r: bool)
    ensures r == Solves(MatchAll, source, target)
  {
    var count := 0;
    for i := 0 to |target|
      invariant 0 <= count <= i
      invariant count == i <==> forall k :: 0 <= k < i ==> Covers(source, target[k])
    {
      ghost var before := count;
      for j := 0 to |source|
        invariant count == before
        invariant forall k :: 0 <= k < j ==> !Superset(source[k], target[i])
      {
        if Superset(source[j], target[i]) {
          assert Covers(source, target[i]);
          count := count + 1;
          break;
        }
      }
    }
    return count == |target|;
  }

  /** appliesTo of an attribute: nothing applies to anything, and otherwise the operator chooses the solver. */
  method AttributeAppliesTo(a: Attribute, target: Attribute) returns (r: bool)
    ensures r == Applies(a, target)
  {
    if a.values == [] {
      return true;
    }
    match a.op
    case Match => r := true;
    case AllOf => r := SolveAllOf(a.values, target.values);
    case OneOf => r := SolveOneOf(a.values, target.values);
    case NoneOf =>
      r := SolveOneOf(a.values, target.values);
      r := !r;
    case Equals =>
      r := |a.values| == |target.values|;
      if r {
        r := SolveAllOf(a.values, target.values);
      }
    case EqualsOrdered => r := SolveEqualsOrdered(a.values, target.values);
    case MatchAll => r := SolveMatchAll(a.values, target.values);
  }

  /** What each operator says about the values of a rule and of a device. */
  lemma OperatorMeaning(a: Attribute, target: Attribute)
    ensures a.values == [] ==> Applies(a, target)
    ensures a.values != [] ==>
      var vs, ts := a.values, target.values;
      (Applies(a, target) <==>
        match a.op
        case AllOf => forall v :: v in vs ==> exists t :: t in ts && Subset(v, t)
        case OneOf => exists v, t :: v in vs && t in ts && Subset(v, t)
        case NoneOf => forall v, t :: v in vs && t in ts ==> !Subset(v, t)
        case Equals => |vs| == |ts| && forall v :: v in vs ==> exists t :: t in ts && Subset(v, t)
        case EqualsOrdered => |vs| == |ts| && forall i :: 0 <= i < |vs| ==> Subset(vs[i], ts[i])
        case MatchAll => forall t :: t in ts ==> exists v :: v in vs && Superset(v, t)
        case Match => true)
  {
    if a.values != [] {
      match a.op
      case OneOf => OneOfMeaning(a.values, target.values);
      case NoneOf => OneOfMeaning(a.values, target.values);
      case AllOf => AllOfMeaning(a.values, target.values);
      case Equals => AllOfMeaning(a.values, target.values);
      case MatchAll => MatchAllMeaning(a.values, target.values);
      case _ =>
    }
  }

  lemma OneOfMeaning(vs: seq<Value>, ts: seq<Value>)
    ensures (exists i :: 0 <= i < |vs| && MatchedBy(vs[i], ts)) <==> exists v, t :: v in vs && t in ts && Subset(v, t)
  {
    hide Subset;
    if v, t :| v in vs && t in ts && Subset(v, t) {
      var i :| 0 <= i < |vs| && vs[i] == v;
      var j :| 0 <= j < |ts| && ts[j] == t;
      assert MatchedBy(vs[i], ts);
    }
  }

  lemma AllOfMeaning(vs: seq<Value>, ts: seq<Value>)
    ensures (forall i :: 0 <= i < |vs| ==> MatchedBy(vs[i], ts)) <==>
      forall v :: v in vs ==> exists t :: t in ts && Subset(v, t)
  {
    hide Subset;
    if forall v :: v in vs ==> exists t :: t in ts && Subset(v, t) {
      forall i | 0 <= i < |vs| ensures MatchedBy(vs[i], ts) {
        assert vs[i] in vs;
        var t :| t in ts && Subset(vs[i], t);
        var j :| 0 <= j < |ts| && ts[j] == t;
      }
    }
  }

  lemma MatchAllMeaning(vs: seq<Value>, ts: seq<Value>)
    ensures (forall j :: 0 <= j < |ts| ==> Covers(vs, ts[j])) <==>
      forall t :: t in ts ==> exists v :: v in vs && Superset(v, t)
  {
    hide Superset;
    if forall t :: t in ts ==> exists v :: v in vs && Superset(v, t) {
      forall j | 0 <= j < |ts| ensures Covers(vs, ts[j]) {
        assert ts[j] in ts;
        var v :| v in vs && Superset(v, ts[j]);
        var i :| 0 <= i < |vs| && vs[i] == v;
      }
    }
  }

  /** What match-all compares: coverage the other way round for identifiers, nothing at all for texts. */
  lemma SupersetMeaning(a: Value, b: Value)
    ensures IsIdPattern(a) && IsIdPattern(b) ==> (Superset(a, b) <==> CoversId(b, a))
    ensures a.Interface? && b.Interface? ==>
      (CoversInterface(a, b) <==>
        Superset(a, b) && !ZeroAgainstOpen(a.sub, b.sub) && !ZeroAgainstOpen(a.protocol, b.protocol))
    ensures a.Str? || a.Condition? ==> Superset(a, b)
    ensures a.Str? || a.Condition? ==> (Subset(a, b) <==> a == b)
  {
    if IsIdPattern(a) && IsIdPattern(b) {
      DeviceIdCoverage(b, a);
    }
    if a.Interface? && b.Interface? {
      InterfaceCoverage(a, b);
    }
  }

  /** From the strictest operator to the weakest; none-of is the negation of one-of. */
  lemma OperatorStrength(source: seq<Value>, target: seq<Value>)
    ensures Solves(EqualsOrdered, source, target) ==> Solves(Equals, source, target)
    ensures Solves(Equals, source, target) ==> Solves(AllOf, source, target)
    ensures Solves(AllOf, source, target) && source != [] ==> Solves(OneOf, source, target)
    ensures Solves(NoneOf, source, target) <==> !Solves(OneOf, source, target)
  {
    if Solves(EqualsOrdered, source, target) {
      forall i | 0 <= i < |source| ensures MatchedBy(source[i], target) {
        assert Subset(source[i], target[i]);
      }
    }
    if Solves(AllOf, source, target) && source != [] {
      assert MatchedBy(source[0], target);
    }
  }

  ghost predicate AllText(vs: seq<Value>) {
    forall i :: 0 <= i < |vs| ==> vs[i].Str?
  }

  ghost predicate Distinct(vs: seq<Value>) {
    forall i, j :: 0 <= i < j < |vs| ==> vs[i] != vs[j]
  }

  /**
   * `equals` on string attributes compares sizes and looks for every rule value among the device
   * values.  When the rule values are pairwise distinct this is the same as being a permutation.
   */
  lemma EqualsIsPermutation(source: seq<Value>, target: seq<Value>)
    requires AllText(source) && Distinct(source)
    ensures Solves(Equals, source, target) <==> multiset(source) == multiset(target)
  {
    if Solves(Equals, source, target) {
      forall v | v in source ensures v in target {
        var i :| 0 <= i < |source| && source[i] == v;
        assert MatchedBy(source[i], target);
      }
      Pigeonhole(source, target);
    }
    if multiset(source) == multiset(target) {
      assert |source| == |multiset(source)| == |target|;
      forall i | 0 <= i < |source| ensures MatchedBy(source[i], target) {
        assert source[i] in multiset(target);
        var j :| 0 <= j < |target| && target[j] == source[i];
        assert Subset(source[i], target[j]);
      }
    }
  }

  lemma {:induction false} Pigeonhole(source: seq<Value>, target: seq<Value>)
    requires Distinct(source) && |source| == |target|
    requires forall v :: v in source ==> v in target
    ensures multiset(source) == multiset(target)
  {
    if source == [] {
      assert target == [];
    } else {
      var v, rest := source[0], source[1..];
      assert source == [v] + rest;
      assert v in target;
      var k :| 0 <= k < |target| && target[k] == v;
      var target' := target[..k] + target[k + 1..];
      assert target == target[..k] + [v] + target[k + 1..];
      forall w | w in rest ensures w in target' {
        var i :| 0 <= i < |rest| && rest[i] == w;
        assert source[i + 1] == w && w != v && w in source;
        OtherStays(target, k, w);
      }
      assert Distinct(rest);
      Pigeonhole(rest, target');
    }
  }

  lemma OtherStays(target: seq<Value>, k: nat, w: Value)
    requires k < |target| && w in target && w != target[k]
    ensures w in target[..k] + target[k + 1..]
  {
    var j :| 0 <= j < |target| && target[j] == w;
    assert (target[..k] + target[k + 1..])[if j < k then j else j - 1] == w;
  }

  /** A text that is longer than every one of `vs`. */
  function Longer(vs: seq<Value>): (t: string)
    requires forall i :: 0 <= i < |vs| ==> vs[i].Str?
    ensures forall i :: 0 <= i < |vs| ==> |vs[i].text| < |t|
    ensures t != ""
  {
    if vs == [] then "x"
    else
      assert forall i :: 0 < i < |vs| ==> vs[i] == vs[1..][i - 1];
      vs[0].text + Longer(vs[1..])
  }

  /** A repeated rule value leaves room for a device value that is none of the rule values. */
  lemma RepeatsLeaveRoom(source: seq<Value>, i: nat, j: nat)
    requires AllText(source) && i < j < |source| && source[i] == source[j]
    ensures var target := source[j := Str(Longer(source))];
      Solves(Equals, source, target) && multiset(source) != multiset(target)
  {
    var other := Str(Longer(source));
    var target := source[j := other];
    forall k | 0 <= k < |source| ensures MatchedBy(source[k], target) {
      assert Subset(source[k], target[if k == j then i else k]);
    }
    assert target[j] == other && other in multiset(target);
    assert other !in source;
  }

  /** `equals` on string attributes means being a permutation exactly if the rule values are distinct. */
  lemma EqualsIsPermutationIff(source: seq<Value>)
    requires AllText(source)
    ensures (forall target :: Solves(Equals, source, target) <==> multiset(source) == multiset(target)) <==>
      Distinct(source)
  {
    if Distinct(source) {
      forall target ensures Solves(Equals, source, target) <==> multiset(source) == multiset(target) {
        EqualsIsPermutation(source, target);
      }
    } else {
      var i, j :| 0 <= i < j < |source| && source[i] == source[j];
      RepeatsLeaveRoom(source, i, j);
    }
  }
}
