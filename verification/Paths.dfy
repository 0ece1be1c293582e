/** Splitting strings and normalising paths (src/Common/Utility.hpp and src/Common/Utility.cpp). */
module Paths {
  import opened Text

  // ----- Tokens

  predicate Undelimited(s: string, delimiters: string) {
    forall i :: 0 <= i < |s| ==> s[i] !in delimiters
  }

  /** `find_first_of` from a position on; the length of the string if there is no delimiter. */
  function FirstOf(s: string, delimiters: string, from: nat): (i: nat)
    requires from <= |s|
    ensures from <= i <= |s| && Undelimited(s[from..i], delimiters) && (i < |s| ==> s[i] in delimiters)
    decreases |s| - from
  {
    if from == |s| || s[from] in delimiters then from
    else
      var i := FirstOf(s, delimiters, from + 1);
      assert s[from..i] == [s[from]] + s[from + 1..i];
      i
  }

  function Keep(token: string, trimEmpty: bool): (tokens: seq<string>) {
    if trimEmpty && token == "" then [] else [token]
  }

  /** The tokens of a string from a position on. */
  function Tokens(s: string, delimiters: string, trimEmpty: bool, from: nat): (tokens: seq<string>)
    requires from <= |s|
    decreases |s| - from
  {
    var i := FirstOf(s, delimiters, from);
    Keep(s[from..i], trimEmpty) + if i == |s| then [] else Tokens(s, delimiters, trimEmpty, i + 1)
  }

  lemma TokensStep(tokens: seq<string>, s: string, delimiters: string, trimEmpty: bool, from: nat, rest: seq<string>)
    requires from <= |s|
    requires var i := FirstOf(s, delimiters, from);
      rest == if i == |s| then [] else Tokens(s, delimiters, trimEmpty, i + 1)
    ensures tokens + Tokens(s, delimiters, trimEmpty, from)
      == tokens + Keep(s[from..FirstOf(s, delimiters, from)], trimEmpty) + rest
    ensures tokens + [] == tokens
  {
    hide FirstOf, Undelimited, Keep;
    var kept := Keep(s[from..FirstOf(s, delimiters, from)], trimEmpty);
    assert Tokens(s, delimiters, trimEmpty, from) == kept + rest;
    assert tokens + (kept + rest) == tokens + kept + rest;
  }

  method TokenizeString(s: string, delimiters: string, trimEmpty: bool) returns (tokens: seq<string>)
    ensures tokens == Tokens(s, delimiters, trimEmpty, 0)
  {
    hide FirstOf, Undelimited, Tokens;
    var lastPos := 0;
    tokens := [];
    while true
      invariant lastPos <= |s|
      invariant tokens + Tokens(s, delimiters, trimEmpty, lastPos) == Tokens(s, delimiters, trimEmpty, 0)
      decreases |s| - lastPos
    {
      var pos := FirstOf(s, delimiters, lastPos);
      ghost var rest := if pos == |s| then [] else Tokens(s, delimiters, trimEmpty, pos + 1);
      TokensStep(tokens, s, delimiters, trimEmpty, lastPos, rest);
      if pos != lastPos || !trimEmpty {
        tokens := tokens + [s[lastPos..pos]];
      }
      if pos == |s| {
        break;
      }
      lastPos := pos + 1;
    }
  }

  lemma FirstOfIs(s: string, delimiters: string, from: nat, i: nat)
    requires from <= i <= |s| && Undelimited(s[from..i], delimiters) && (i < |s| ==> s[i] in delimiters)
    ensures FirstOf(s, delimiters, from) == i
  {
  }

  lemma {:induction false} FirstOfShift(a: string, b: string, delimiters: string, from: nat)
    requires from <= |b|
    ensures FirstOf(a + b, delimiters, |a| + from) == |a| + FirstOf(b, delimiters, from)
  {
    var i := FirstOf(b, delimiters, from);
    assert (a + b)[|a| + from..|a| + i] == b[from..i];
    FirstOfIs(a + b, delimiters, |a| + from, |a| + i);
  }

  /** Tokens behind a prefix are the tokens of the rest. */
  lemma {:induction false} TokensShift(a: string, b: string, delimiters: string, trimEmpty: bool, from: nat)
    requires from <= |b|
    ensures Tokens(a + b, delimiters, trimEmpty, |a| + from) == Tokens(b, delimiters, trimEmpty, from)
    decreases |b| - from
  {
    hide FirstOf, Keep, Undelimited;
    var i := FirstOf(b, delimiters, from);
    FirstOfShift(a, b, delimiters, from);
    assert (a + b)[|a| + from..|a| + i] == b[from..i];
    if i < |b| {
      TokensShift(a, b, delimiters, trimEmpty, i + 1);
    }
  }

  /** The first token of a string that starts with plain text and a delimiter. */
  lemma TokensSplit(a: string, d: char, b: string, delimiters: string, trimEmpty: bool)
    requires Undelimited(a, delimiters) && d in delimiters
    ensures Tokens(a + [d] + b, delimiters, trimEmpty, 0) == Keep(a, trimEmpty) + Tokens(b, delimiters, trimEmpty, 0)
  {
    var s := a + [d] + b;
    assert s[0..|a|] == a && s[|a|] == d;
    FirstOfIs(s, delimiters, 0, |a|);
    TokensShift(a + [d], b, delimiters, trimEmpty, 0);
  }

  lemma TokensPlain(a: string, delimiters: string, trimEmpty: bool)
    requires Undelimited(a, delimiters)
    ensures Tokens(a, delimiters, trimEmpty, 0) == Keep(a, trimEmpty)
  {
    assert a[0..|a|] == a;
    FirstOfIs(a, delimiters, 0, |a|);
    assert Keep(a, trimEmpty) + [] == Keep(a, trimEmpty);
  }

  // ----- Paths

  /** What the components of a path lead to, one component after the other. */
  function Resolve(soFar: seq<string>, components: seq<string>): (r: seq<string>)
    decreases |components|
  {
    if components == [] then soFar
    else
      var c := components[0];
      Resolve(if c == "." then soFar
              else if c == ".." then (if soFar == [] then [] else soFar[..|soFar| - 1])
              else soFar + [c], components[1..])
  }

  /** A dot stays, two dots undo the step before them and do nothing at the start. */
  lemma ResolveLaws(soFar: seq<string>, name: string, cs: seq<string>)
    ensures Resolve(soFar, ["."] + cs) == Resolve(soFar, cs)
    ensures Resolve([], [".."] + cs) == Resolve([], cs)
    ensures name != "." && name != ".." ==> Resolve(soFar, [name, ".."] + cs) == Resolve(soFar, cs)
  {
    assert (["."] + cs)[1..] == cs && ([".."] + cs)[1..] == cs;
    assert ([name, ".."] + cs)[1..] == [".."] + cs;
    assert (soFar + [name])[..|soFar|] == soFar;
  }

  function Join(components: seq<string>): (s: string) {
    if components == [] then ""
    else if |components| == 1 then components[0]
    else components[0] + ['/'] + Join(components[1..])
  }

  predicate IsAbsolute(path: string) {
    path != "" && path[0] == '/'
  }

  function Components(path: string): (cs: seq<string>) {
    Tokens(path, "/", true, 0)
  }

  /** The place a path names: from the root or from the working directory, and the way down from there. */
  function Meaning(path: string): (m: (bool, seq<string>)) {
    (IsAbsolute(path), Resolve([], Components(path)))
  }

  function Normalized(path: string): (r: string) {
    (if IsAbsolute(path) then "/" else "") + Join(Resolve([], Components(path)))
  }

  /** normalizePath: components are erased from the list in place. */
  method NormalizePath(path: string) returns (r: string)
    ensures r == Normalized(path)
  {
    hide Resolve, Join, Tokens;
    var isAbsolute := IsAbsolute(path);
    var components := TokenizeString(path, "/", true);
    var it := 0;
    assert components[..0] == [] && components[0..] == components;
    while it < |components|
      invariant 0 <= it <= |components|
      invariant Resolve(components[..it], components[it..]) == Resolve([], Components(path))
      decreases |components| - it
    {
      ResolveStep(components, it);
      if components[it] == "." {
        components := components[..it] + components[it + 1..];
      } else if components[it] == ".." {
        if it != 0 {
          components := components[..it - 1] + components[it..];
          it := it - 1;
        }
        components := components[..it] + components[it + 1..];
      } else {
        it := it + 1;
      }
    }
    ResolveEnd(components);
    assert components[..it] == components && components[it..] == [];
    r := JoinComponents(if isAbsolute then "/" else "", components);
  }

  /** Erasing and moving on at position `it` do not change what the components resolve to. */
  lemma ResolveStep(cs: seq<string>, it: nat)
    requires it < |cs|
    ensures
      var was := Resolve(cs[..it], cs[it..]);
      if cs[it] == "." then
        var cs' := cs[..it] + cs[it + 1..]; Resolve(cs'[..it], cs'[it..]) == was
      else if cs[it] == ".." then
        if it == 0 then var cs' := cs[..it] + cs[it + 1..]; Resolve(cs'[..it], cs'[it..]) == was
        else
          var cs1 := cs[..it - 1] + cs[it..];
          var cs2 := cs1[..it - 1] + cs1[it..];
          Resolve(cs2[..it - 1], cs2[it - 1..]) == was
      else Resolve(cs[..it + 1], cs[it + 1..]) == was
  {
    var soFar, rest := cs[..it], cs[it..];
    assert rest[0] == cs[it] && rest[1..] == cs[it + 1..];
    if cs[it] == ".." && it > 0 {
      var cs1 := cs[..it - 1] + cs[it..];
      var cs2 := cs1[..it - 1] + cs1[it..];
      assert cs2[..it - 1] == soFar[..it - 1] && cs2[it - 1..] == rest[1..];
    } else if cs[it] == "." || cs[it] == ".." {
      var cs' := cs[..it] + cs[it + 1..];
      assert cs'[..it] == soFar && cs'[it..] == rest[1..];
    } else {
      assert cs[..it + 1] == soFar + [rest[0]];
    }
  }

  lemma ResolveEnd(cs: seq<string>)
    ensures Resolve(cs, []) == cs
  {
  }

  /** The last loop: the components with separators between them. */
  method JoinComponents(start: string, components: seq<string>) returns (r: string)
    ensures r == start + Join(components)
  {
    r := start;
    assert components[0..] == components;
    for k := 0 to |components|
      invariant start + Join(components) == r + Join(components[k..])
    {
      assert components[k..][0] == components[k] && components[k..][1..] == components[k + 1..];
      Assoc(r, components[k], ['/'] + Join(components[k + 1..]));
      Assoc(components[k], ['/'], Join(components[k + 1..]));
      Assoc(r + components[k], ['/'], Join(components[k + 1..]));
      r := r + components[k];
      if k + 1 != |components| {
        r := r + "/";
      }
    }
  }

  /** A component that can stand in a normalised path. */
  predicate Proper(c: string) {
    c != "" && c != "." && c != ".." && '/' !in c
  }

  predicate AllProper(cs: seq<string>) {
    forall i :: 0 <= i < |cs| ==> Proper(cs[i])
  }

  predicate AllNames(cs: seq<string>) {
    forall i :: 0 <= i < |cs| ==> cs[i] != "" && '/' !in cs[i]
  }

  lemma {:induction false} TokensAreNames(path: string, from: nat)
    requires from <= |path|
    ensures AllNames(Tokens(path, "/", true, from))
    decreases |path| - from
  {
    hide FirstOf, Undelimited;
    var i := FirstOf(path, "/", from);
    PlainIsName(path[from..i]);
    if i < |path| {
      TokensAreNames(path, i + 1);
    }
  }

  lemma PlainIsName(c: string)
    requires Undelimited(c, "/")
    ensures '/' !in c
  {
    assert '/' in "/" by { assert "/"[0] == '/'; }
  }

  lemma {:induction false} ResolveIsProper(soFar: seq<string>, cs: seq<string>)
    requires AllProper(soFar) && AllNames(cs)
    ensures AllProper(Resolve(soFar, cs))
    decreases |cs|
  {
    if cs != [] {
      var c := cs[0];
      var up := if soFar == [] then [] else soFar[..|soFar| - 1];
      ResolveIsProper(if c == "." then soFar else if c == ".." then up else soFar + [c], cs[1..]);
    }
  }

  /** Components without dots resolve to themselves. */
  lemma {:induction false} ResolveProper(soFar: seq<string>, cs: seq<string>)
    requires AllProper(cs)
    ensures Resolve(soFar, cs) == soFar + cs
    decreases |cs|
  {
    if cs == [] {
      assert soFar + cs == soFar;
    } else {
      ResolveProper(soFar + [cs[0]], cs[1..]);
      assert soFar + [cs[0]] + cs[1..] == soFar + cs;
    }
  }

  lemma NameIsPlain(c: string)
    requires '/' !in c
    ensures Undelimited(c, "/")
  {
  }

  /** Splitting undoes joining. */
  lemma {:induction false} TokensOfJoin(cs: seq<string>)
    requires AllNames(cs)
    ensures Components(Join(cs)) == cs
  {
    if cs == [] {
      TokensPlain("", "/", true);
    } else {
      NameIsPlain(cs[0]);
      if |cs| == 1 {
        TokensPlain(cs[0], "/", true);
      } else {
        TokensOfJoin(cs[1..]);
        assert '/' in "/" by { assert "/"[0] == '/'; }
        TokensSplit(cs[0], '/', Join(cs[1..]), "/", true);
        assert cs == [cs[0]] + cs[1..];
      }
    }
  }

  lemma RootedComponents(s: string)
    ensures Components("/" + s) == Components(s)
  {
    hide Tokens;
    assert '/' in "/" by { assert "/"[0] == '/'; }
    NameIsPlain("");
    TokensSplit("", '/', s, "/", true);
    assert "" + ['/'] + s == "/" + s;
    assert [] + Tokens(s, "/", true, 0) == Tokens(s, "/", true, 0);
  }

  lemma JoinStart(cs: seq<string>)
    requires AllProper(cs)
    ensures !IsAbsolute(Join(cs))
  {
    if cs != [] {
      assert Proper(cs[0]) && Join(cs)[0] == cs[0][0];
    }
  }

  /** The components of a normalised path are the resolved ones, and none is empty or made of dots. */
  lemma NormalizedComponents(path: string)
    ensures Components(Normalized(path)) == Resolve([], Components(path)) && AllProper(Components(Normalized(path)))
    ensures IsAbsolute(Normalized(path)) == IsAbsolute(path)
  {
    hide Tokens;
    var cs := Resolve([], Components(path));
    TokensAreNames(path, 0);
    ResolveIsProper([], Components(path));
    TokensOfJoin(cs);
    RootedComponents(Join(cs));
    JoinStart(cs);
    assert "" + Join(cs) == Join(cs);
  }

  /**
   * Normalising a path keeps what it names, does nothing to a normalised path, and gives two paths the
   * same text exactly if they name the same place.
   */
  lemma NormalFormIsCanonical(path: string, other: string)
    ensures Meaning(Normalized(path)) == Meaning(path)
    ensures Normalized(Normalized(path)) == Normalized(path)
    ensures Normalized(path) == Normalized(other) <==> Meaning(path) == Meaning(other)
  {
    hide Components, Join;
    NormalizedComponents(path);
    NormalizedComponents(other);
    ResolveProper([], Components(Normalized(path)));
    assert [] + Components(Normalized(path)) == Components(Normalized(path));
  }
}
