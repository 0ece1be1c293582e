/** Byte strings, hexadecimal bytes, and the escaping of string values (src/Library/Utility.cpp). */
module Text {

  datatype Option<+T> = None | Some(value: T)

  /** `Err` stands for any exception thrown by the modelled code. */
  datatype Result<+T> = Ok(value: T) | Err

  predicate IsBytes(s: string) {
    forall i :: 0 <= i < |s| ==> s[i] as int < 256
  }

  /** The contents of a `std::string`. */
  type Bytes = s: string | IsBytes(s)

  lemma Assoc(a: string, b: string, c: string)
    ensures (a + b) + c == a + (b + c)
  {
  }

  /** `find` of a character: its first place. */
  function FirstIndex(c: char, s: string): (r: Option<nat>)
    ensures r.None? ==> c !in s
    ensures r.Some? ==> r.value < |s| && s[r.value] == c && c !in s[..r.value]
  {
    if s == "" then None
    else if s[0] == c then Some(0)
    else match FirstIndex(c, s[1..])
      case None => None
      case Some(i) => assert s[..i + 1] == [s[0]] + s[1..][..i]; Some(i + 1)
  }

  lemma FirstIndexIs(c: char, s: string, n: nat)
    requires n < |s| && s[n] == c && c !in s[..n]
    ensures FirstIndex(c, s) == Some(n)
  {
  }

  predicate IsDigit(c: char) {
    '0' <= c <= '9'
  }

  predicate IsHexDigit(c: char) {
    IsDigit(c) || 'a' <= c <= 'f' || 'A' <= c <= 'F'
  }

  /** `isprint` in the "C" locale. */
  predicate IsPrintable(c: char) {
    ' ' <= c <= '~'
  }

  function HexValue(c: char): (n: nat)
    requires IsHexDigit(c)
    ensures n < 16
  {
    if IsDigit(c) then c as int - '0' as int
    else if 'a' <= c <= 'f' then c as int - 'a' as int + 10
    else c as int - 'A' as int + 10
  }

  function HexDigit(n: nat): (c: char)
    requires n < 16
    ensures IsHexDigit(c) && HexValue(c) == n
  {
    if n < 10 then (n + '0' as int) as char else (n - 10 + 'a' as int) as char
  }

  /** `numberToString(n, "", 16, 2, '0')`: two lower-case hexadecimal digits. */
  function HexByte(n: nat): (s: string)
    requires n < 256
    ensures |s| == 2 && IsHexDigit(s[0]) && IsHexDigit(s[1])
    ensures HexValue(s[0]) * 16 + HexValue(s[1]) == n
  {
    [HexDigit(n / 16), HexDigit(n % 16)]
  }

  function EscapeChar(c: char): (s: string) {
    if c == '"' then "\\\""
    else if c == '\\' then "\\\\"
    else if IsPrintable(c) then [c]
    else "\\x" + HexByte(c as int % 256)
  }

  function Escape(s: string): (e: string) {
    if s == "" then "" else EscapeChar(s[0]) + Escape(s[1..])
  }

  lemma {:induction false} EscapeConcat(s: string, t: string)
    ensures Escape(s + t) == Escape(s) + Escape(t)
  {
    if s == "" {
      assert s + t == t;
    } else {
      hide EscapeChar;
      EscapeConcat(s[1..], t);
      assert (s + t)[0] == s[0] && (s + t)[1..] == s[1..] + t;
      Assoc(EscapeChar(s[0]), Escape(s[1..]), Escape(t));
    }
  }

  /** escapeString */
  method EscapeString(raw: string) returns (result: string)
    ensures result == Escape(raw)
  {
    result := "";
    for i := 0 to |raw|
      invariant result == Escape(raw[..i])
    {
      var c := raw[i];
      EscapeConcat(raw[..i], [c]);
      assert raw[..i + 1] == raw[..i] + [c];
      assert Escape([c]) == EscapeChar(c) + "" == EscapeChar(c);
      if c == '"' {
        result := result + "\\\"";
      } else if c == '\\' {
        result := result + "\\\\";
      } else if IsPrintable(c) {
        result := result + [c];
      } else {
        result := result + "\\x" + HexByte(c as int % 256);
      }
    }
    assert raw[..|raw|] == raw;
  }

  /**
   * The outcomes of unescapeString.  `PastEnd` is the case in which the two characters after `\x`
   * are read although the text has ended: the length test in front of that read compares a
   * distance that is never positive, so it does not prevent it.
   */
  datatype Unescaped = Plain(text: string) | BadEscape | PastEnd

  function Prepend(s: string, u: Unescaped): (r: Unescaped) {
    if u.Plain? then Plain(s + u.text) else u
  }

  /** unescapeString as a function of the text that is still to be read. */
  function Unescape(s: string): (u: Unescaped) {
    if s == "" then Plain("")
    else if s[0] != '\\' then Prepend([s[0]], Unescape(s[1..]))
    else if |s| == 1 then BadEscape
    else if s[1] == '"' || s[1] == '\\' then Prepend([s[1]], Unescape(s[2..]))
    else if s[1] != 'x' then BadEscape
    else if |s| < 4 then PastEnd
    else if !IsHexDigit(s[2]) || !IsHexDigit(s[3]) then BadEscape
    else Prepend([(HexValue(s[2]) * 16 + HexValue(s[3])) as char], Unescape(s[4..]))
  }

  lemma PrependAssoc(a: string, b: string, u: Unescaped)
    ensures Prepend(a, Prepend(b, u)) == Prepend(a + b, u)
    ensures u.Plain? <==> Prepend(b, u).Plain?
    ensures !u.Plain? ==> Prepend(a, u) == u
  {
    if u.Plain? {
      Assoc(a, b, u.text);
    }
  }

  lemma PrependNothing(u: Unescaped)
    ensures Prepend("", u) == u
  {
    assert u.Plain? ==> "" + u.text == u.text;
  }

  lemma PrependToNothing(s: string)
    ensures Prepend(s, Plain("")) == Plain(s) && Prepend(s, BadEscape) == BadEscape && Prepend(s, PastEnd) == PastEnd
  {
    assert s + "" == s;
  }

  /** unescapeString: one pass with an `escaped` flag and jumps of the read position. */
  method UnescapeString(text: string) returns (r: Unescaped)
    ensures r == Unescape(text)
  {
    hide Prepend, HexValue, IsHexDigit;
    var result, escaped, i := "", false, 0;
    PrependNothing(Unescape(text));
    assert text[0..] == text;
    while i < |text|
      invariant 0 <= i <= |text|
      invariant escaped ==> i > 0 && text[i - 1] == '\\'
      invariant Unescape(text) == Prepend(result, Unescape(text[if escaped then i - 1 else i..]))
    {
      var c := text[i];
      if escaped {
        ghost var rest := text[i - 1..];
        assert rest[0] == '\\' && rest[1] == c && rest[2..] == text[i + 1..];
        if c == '"' || c == '\\' {
          PrependAssoc(result, [c], Unescape(text[i + 1..]));
          result := result + [c];
        } else if c == 'x' {
          PrependToNothing(result);
          if i + 2 >= |text| {
            return PastEnd;
          }
          assert rest[2] == text[i + 1] && rest[3] == text[i + 2] && rest[4..] == text[i + 3..];
          if !IsHexDigit(text[i + 1]) || !IsHexDigit(text[i + 2]) {
            return BadEscape;
          }
          PrependAssoc(result, [(HexValue(text[i + 1]) * 16 + HexValue(text[i + 2])) as char], Unescape(text[i + 3..]));
          result := result + [(HexValue(text[i + 1]) * 16 + HexValue(text[i + 2])) as char];
          i := i + 2;
        } else {
          PrependToNothing(result);
          return BadEscape;
        }
        escaped := false;
      } else if c == '\\' {
        escaped := true;
      } else {
        assert text[i..][0] == c && text[i..][1..] == text[i + 1..];
        PrependAssoc(result, [c], Unescape(text[i + 1..]));
        result := result + [c];
      }
      i := i + 1;
    }
    if escaped {
      assert text[i - 1..] == "\\";
      PrependToNothing(result);
      return BadEscape;
    }
    assert text[i..] == "";
    PrependToNothing(result);
    return Plain(result);
  }

  /** Every byte string survives escaping and unescaping. */
  lemma UnescapeHex(c: char, t: string)
    requires c as int < 256 && c != '"' && c != '\\' && !IsPrintable(c)
    ensures Unescape(EscapeChar(c) + t) == Prepend([c], Unescape(t))
  {
    hide IsHexDigit, HexValue, HexByte, Prepend;
    var h := HexByte(c as int);
    var e := EscapeChar(c) + t;
    assert EscapeChar(c) == "\\x" + h;
    assert e[0] == '\\' && e[1] == 'x';
    assert e[2] == h[0] && e[3] == h[1];
    assert e[4..] == t;
    assert (c as int) as char == c;
  }

  lemma {:induction false} UnescapeEscape(s: Bytes)
    ensures Unescape(Escape(s)) == Plain(s)
  {
    if s != "" {
      var c, t := s[0], Escape(s[1..]);
      UnescapeEscape(s[1..]);
      var e := EscapeChar(c) + t;
      assert s == [c] + s[1..];
      if c == '"' || c == '\\' {
        assert e[0] == '\\' && e[1] == c && e[2..] == t;
      } else if IsPrintable(c) {
        assert e[0] == c && e[1..] == t;
      } else {
        UnescapeHex(c, t);
      }
    }
  }
}
