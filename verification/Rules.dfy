/** Rules, when they apply, and the state of their conditions (src/Library/RulePrivate.cpp). */
module Rules {
  import opened Text
  import opened Matching

  datatype Target = Allow | Block | Reject | MatchTarget | Unknown | Device | Empty | Invalid

  /** Rule identifiers are 32-bit unsigned integers. */
  const UINT32 := 0x1_0000_0000
  const ROOT_ID := 0
  const DEFAULT_ID := UINT32 - 1
  const IMPLICIT_ID := UINT32 - 2
  const LAST_ID := UINT32 - 3

  /** The attributes of a rule, in the order in which toString prints them. */
  datatype Key =
    Id | Serial | Name | Hash | ParentHash | ViaPort | WithInterface | If | WithConnectType | Label

  datatype Rule = Rule(
    id: nat, target: Target,
    deviceId: Attribute, serial: Attribute, name: Attribute, hash: Attribute, parentHash: Attribute,
    viaPort: Attribute, withInterface: Attribute, conditions: Attribute, withConnectType: Attribute,
    labels: Attribute)

  /** A default constructed rule. */
  const NEW_RULE := Rule(DEFAULT_ID, Invalid, NO_VALUES, NO_VALUES, NO_VALUES, NO_VALUES, NO_VALUES,
                         NO_VALUES, NO_VALUES, NO_VALUES, NO_VALUES, NO_VALUES)

  function Get(r: Rule, k: Key): (a: Attribute) {
    match k
    case Id => r.deviceId
    case Serial => r.serial
    case Name => r.name
    case Hash => r.hash
    case ParentHash => r.parentHash
    case ViaPort => r.viaPort
    case WithInterface => r.withInterface
    case If => r.conditions
    case WithConnectType => r.withConnectType
    case Label => r.labels
  }

  function Put(r: Rule, k: Key, a: Attribute): (r': Rule)
    ensures r'.id == r.id && r'.target == r.target
    ensures forall j :: Get(r', j) == if j == k then a else Get(r, j)
  {
    match k
    case Id => r.(deviceId := a)
    case Serial => r.(serial := a)
    case Name => r.(name := a)
    case Hash => r.(hash := a)
    case ParentHash => r.(parentHash := a)
    case ViaPort => r.(viaPort := a)
    case WithInterface => r.(withInterface := a)
    case If => r.(conditions := a)
    case WithConnectType => r.(withConnectType := a)
    case Label => r.(labels := a)
  }

  /** A rule is its identifier, its target and its ten attributes. */
  lemma RuleEquality(r: Rule, s: Rule)
    requires r.id == s.id && r.target == s.target
    requires forall k :: Get(r, k) == Get(s, k)
    ensures r == s
  {
    assert Get(r, Id) == Get(s, Id) && Get(r, Serial) == Get(s, Serial) && Get(r, Name) == Get(s, Name);
    assert Get(r, Hash) == Get(s, Hash) && Get(r, ParentHash) == Get(s, ParentHash);
    assert Get(r, ViaPort) == Get(s, ViaPort) && Get(r, WithInterface) == Get(s, WithInterface);
    assert Get(r, If) == Get(s, If) && Get(r, WithConnectType) == Get(s, WithConnectType);
    assert Get(r, Label) == Get(s, Label);
  }

  /** RulePrivate::appliesTo; conditions and the label take no part in it. */
  predicate AppliesTo(r: Rule, device: Rule, parentInsensitive: bool) {
    && Applies(r.deviceId, device.deviceId)
    && Applies(r.serial, device.serial)
    && Applies(r.withConnectType, device.withConnectType)
    && Applies(r.name, device.name)
    && Applies(r.hash, device.hash)
    && (parentInsensitive || Applies(r.parentHash, device.parentHash))
    && (parentInsensitive || Applies(r.viaPort, device.viaPort))
    && Applies(r.withInterface, device.withInterface)
  }

  /** Every attribute but the conditions and the label must apply, the two of the place only if asked for. */
  lemma AppliesInEveryAttribute(r: Rule, device: Rule, insensitive: bool)
    ensures AppliesTo(r, device, insensitive) <==>
      forall k :: k in {If, Label} || (insensitive && k in {ParentHash, ViaPort}) || Applies(Get(r, k), Get(device, k))
  {
    hide Applies;
    if forall k ::
      k in {If, Label} || (insensitive && k in {ParentHash, ViaPort}) || Applies(Get(r, k), Get(device, k)) {
      assert Applies(Get(r, Id), Get(device, Id)) && Applies(Get(r, Serial), Get(device, Serial));
      assert Applies(Get(r, Name), Get(device, Name)) && Applies(Get(r, Hash), Get(device, Hash));
      assert Applies(Get(r, WithInterface), Get(device, WithInterface));
      assert Applies(Get(r, WithConnectType), Get(device, WithConnectType));
      assert insensitive || (Applies(Get(r, ParentHash), Get(device, ParentHash))
        && Applies(Get(r, ViaPort), Get(device, ViaPort)));
    }
  }

  // ----- Conditions

  /** What the `update` member of each condition returns while one lookup is in progress. */
  type Oracle = Value -> bool

  function Evaluate(o: Oracle, c: Value): bool {
    if c.Condition? && c.negated then !o(c) else o(c)
  }

  function Evaluations(o: Oracle, cs: seq<Value>): (r: seq<bool>)
    ensures |r| == |cs| && forall i :: 0 <= i < |cs| ==> r[i] == Evaluate(o, cs[i])
  {
    if cs == [] then [] else [Evaluate(o, cs[0])] + Evaluations(o, cs[1..])
  }

  function Pow2(n: nat): (p: nat)
    ensures p > 0
  {
    if n == 0 then 1 else 2 * Pow2(n - 1)
  }

  const WORD := 64

  /** The number whose bit `i` is the `i`-th result. */
  function Mask(results: seq<bool>): (m: nat)
    ensures m < Pow2(|results|)
  {
    if results == [] then 0
    else
      var n := |results| - 1;
      Mask(results[..n]) + (if results[n] then Pow2(n) else 0)
  }

  /** updateConditionsState: the new state word, or an error for more conditions than the word has bits. */
  method UpdateConditionsState(o: Oracle, conditions: seq<Value>) returns (r: Result<nat>)
    ensures r == if |conditions| > WORD then Err else Ok(Mask(Evaluations(o, conditions)))
  {
    var state, i := 0, 0;
    ghost var results := Evaluations(o, conditions);
    while i < |conditions|
      invariant 0 <= i <= |conditions| && i <= WORD
      invariant state == Mask(results[..i])
    {
      if i >= WORD {
        return Err;
      }
      // The state is below 2^i, so adding the bit is the same as or-ing it in.
      assert results[..i + 1][..i] == results[..i];
      if Evaluate(o, conditions[i]) {
        state := state + Pow2(i);
      }
      i := i + 1;
    }
    assert results[..i] == results;
    return Ok(state);
  }

  /**
   * The test of meetsConditions on the updated state.  With exactly 64 conditions the all-style
   * operators shift a 64-bit one by 64 places, which C++ leaves undefined; it is an error here, like
   * the operator that cannot be used for conditions.
   */
  function MeetsConditions(o: Oracle, a: Attribute): (r: Result<bool>) {
    var n := |a.values|;
    var state := Mask(Evaluations(o, a.values));
    if n > WORD then Err
    else match a.op
      case OneOf => Ok(state > 0)
      case NoneOf => Ok(state == 0)
      case Match => Err
      case _ => if n == WORD then Err else Ok(state == Pow2(n) - 1)
  }

  lemma {:induction false} MaskExtremes(results: seq<bool>)
    ensures Mask(results) == 0 <==> forall i :: 0 <= i < |results| ==> !results[i]
    ensures Mask(results) == Pow2(|results|) - 1 <==> forall i :: 0 <= i < |results| ==> results[i]
  {
    if results != [] {
      var n := |results| - 1;
      MaskExtremes(results[..n]);
      assert forall i :: 0 <= i < n ==> results[..n][i] == results[i];
      assert Pow2(n + 1) == 2 * Pow2(n);
    }
  }

  predicate IsNegated(c: Value) {
    c.Condition? && c.negated
  }

  /**
   * The comparisons of the state word mean what the operators say about the single conditions, of which
   * those with a negation hold when what they negate does not.
   */
  lemma ConditionsMeanQuantifiers(o: Oracle, a: Attribute)
    ensures |a.values| <= WORD && a.op.OneOf? ==>
      MeetsConditions(o, a) == Ok(exists i :: 0 <= i < |a.values| && o(a.values[i]) != IsNegated(a.values[i]))
    ensures |a.values| <= WORD && a.op.NoneOf? ==>
      MeetsConditions(o, a) == Ok(forall i :: 0 <= i < |a.values| ==> o(a.values[i]) == IsNegated(a.values[i]))
    ensures |a.values| < WORD && !a.op.OneOf? && !a.op.NoneOf? && !a.op.Match? ==>
      MeetsConditions(o, a) == Ok(forall i :: 0 <= i < |a.values| ==> o(a.values[i]) != IsNegated(a.values[i]))
    ensures MeetsConditions(o, a) == Err <==>
      |a.values| > WORD || a.op.Match? || (|a.values| == WORD && !a.op.OneOf? && !a.op.NoneOf?)
  {
    hide Mask, Pow2, Evaluate;
    MaskExtremes(Evaluations(o, a.values));
    forall i | 0 <= i < |a.values|
      ensures Evaluations(o, a.values)[i] == (o(a.values[i]) != IsNegated(a.values[i]))
    {
      EvaluateIs(o, a.values[i]);
    }
  }

  lemma EvaluateIs(o: Oracle, c: Value)
    ensures Evaluate(o, c) == (o(c) != IsNegated(c))
  {
  }

  /** RulePrivate::appliesToWithConditions: conditions are looked at only when the attributes apply. */
  function AppliesWithConditions(r: Rule, device: Rule, o: Oracle): (b: Result<bool>) {
    if AppliesTo(r, device, false) then MeetsConditions(o, r.conditions) else Ok(false)
  }

  /**
   * A rule is met exactly if each of its matching attributes applies and its conditions hold in the way its
   * operator says.  Conditions of a rule whose attributes do not apply are never an error.
   */
  lemma RuleIsMet(r: Rule, device: Rule, o: Oracle)
    ensures
      var a, met := r.conditions, AppliesWithConditions(r, device, o);
      if exists k :: k !in {If, Label} && !Applies(Get(r, k), Get(device, k)) then met == Ok(false)
      else if |a.values| > WORD || a.op.Match? || (|a.values| == WORD && !a.op.OneOf? && !a.op.NoneOf?) then met == Err
      else if a.op.OneOf?
      then met == Ok(exists i :: 0 <= i < |a.values| && o(a.values[i]) != IsNegated(a.values[i]))
      else if a.op.NoneOf?
      then met == Ok(forall i :: 0 <= i < |a.values| ==> o(a.values[i]) == IsNegated(a.values[i]))
      else met == Ok(forall i :: 0 <= i < |a.values| ==> o(a.values[i]) != IsNegated(a.values[i]))
  {
    hide Applies, AppliesTo, MeetsConditions, IsNegated;
    AppliesInEveryAttribute(r, device, false);
    ConditionsMeanQuantifiers(o, r.conditions);
  }
}
