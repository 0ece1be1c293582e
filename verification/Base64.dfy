/** Base64 as section 4 of RFC 4648 defines it (src/Library/Base64.cpp); bit operations are written as arithmetic. */
module Base64 {
  import opened Text

  type Byte = n: nat | n < 256
  type Sextet = n: nat | n < 64

  const PADDING := '='

  /** The encode map. */
  function Digit(v: Sextet): (c: char)
    ensures InAlphabet(c) && Value(c) == v
  {
    if v < 26 then ('A' as int + v) as char
    else if v < 52 then ('a' as int + v - 26) as char
    else if v < 62 then ('0' as int + v - 52) as char
    else if v == 62 then '+' else '/'
  }

  /** The decode map; other characters have the value 0. */
  function Value(c: char): (v: Sextet) {
    if 'A' <= c <= 'Z' then c as int - 'A' as int
    else if 'a' <= c <= 'z' then c as int - 'a' as int + 26
    else if '0' <= c <= '9' then c as int - '0' as int + 52
    else if c == '+' then 62 else if c == '/' then 63 else 0
  }

  /** The tests of the input check, one range after the other. */
  predicate InAlphabet(c: char) {
    !(c < '+' || c > 'z') && !(c > 'Z' && c < 'a') && !(c > '9' && c < 'A') && !(c > '+' && c < '/')
  }

  lemma DigitOfValue(c: char)
    requires InAlphabet(c)
    ensures Digit(Value(c)) == c && c != PADDING
  {
  }

  predicate AllInAlphabet(s: string) {
    forall i :: 0 <= i < |s| ==> InAlphabet(s[i])
  }

  // ----- Blocks

  function Enc3(a: Byte, b: Byte, c: Byte): (s: string)
    ensures |s| == 4 && AllInAlphabet(s)
  {
    [Digit(a / 4), Digit(a % 4 * 16 + b / 16), Digit(b % 16 * 4 + c / 64), Digit(c % 64)]
  }

  function Enc2(a: Byte, b: Byte): (s: string)
    ensures |s| == 4 && AllInAlphabet(s[..3]) && s[3] == PADDING
  {
    [Digit(a / 4), Digit(a % 4 * 16 + b / 16), Digit(b % 16 * 4), PADDING]
  }

  function Enc1(a: Byte): (s: string)
    ensures |s| == 4 && AllInAlphabet(s[..2]) && s[2] == s[3] == PADDING
  {
    [Digit(a / 4), Digit(a % 4 * 16), PADDING, PADDING]
  }

  function Dec4(s: string): (r: Result<seq<Byte>>)
    requires |s| == 4
    ensures r.Ok? ==> |r.value| == 3
  {
    var u, v, w, x := Value(s[0]), Value(s[1]), Value(s[2]), Value(s[3]);
    if AllInAlphabet(s) then Ok([u * 4 + v / 16, v % 16 * 16 + w / 4, w % 4 * 64 + x]) else Err
  }

  function Dec3(s: string): (r: Result<seq<Byte>>)
    requires |s| == 3
    ensures r.Ok? ==> |r.value| == 2
  {
    var u, v, w := Value(s[0]), Value(s[1]), Value(s[2]);
    if AllInAlphabet(s) then Ok([u * 4 + v / 16, v % 16 * 16 + w / 4]) else Err
  }

  function Dec2(s: string): (r: Result<seq<Byte>>)
    requires |s| == 2
    ensures r.Ok? ==> |r.value| == 1
  {
    var u, v := Value(s[0]), Value(s[1]);
    if AllInAlphabet(s) then Ok([u * 4 + v / 16 % 4]) else Err
  }

  lemma Dec4Enc3(a: Byte, b: Byte, c: Byte)
    ensures Dec4(Enc3(a, b, c)) == Ok([a, b, c])
  {
    hide Digit, Value, InAlphabet;
    Ungroup(a, b, c);
  }

  lemma Ungroup(a: Byte, b: Byte, c: Byte)
    ensures var u, v, w, x := a / 4, a % 4 * 16 + b / 16, b % 16 * 4 + c / 64, c % 64;
      && 0 <= u < 64 && 0 <= v < 64 && 0 <= w < 64 && 0 <= x < 64
      && u * 4 + v / 16 == a && v % 16 * 16 + w / 4 == b && w % 4 * 64 + x == c
  {
  }

  lemma Dec3Enc2(a: Byte, b: Byte)
    ensures Dec3(Enc2(a, b)[..3]) == Ok([a, b])
  {
    hide Digit, Value, InAlphabet, AllInAlphabet;
    Ungroup(a, b, 0);
    var s := Enc2(a, b)[..3];
    assert s[0] == Digit(a / 4) && s[1] == Digit(a % 4 * 16 + b / 16) && s[2] == Digit(b % 16 * 4);
  }

  lemma Dec2Enc1(a: Byte)
    ensures Dec2(Enc1(a)[..2]) == Ok([a])
  {
    hide Digit, Value, InAlphabet;
    Ungroup(a, 0, 0);
  }

  /** Regrouping bits is lossless. */
  lemma Regroup(u: Sextet, v: Sextet, w: Sextet, x: Sextet)
    ensures var a, b, c := u * 4 + v / 16, v % 16 * 16 + w / 4, w % 4 * 64 + x;
      a / 4 == u && a % 4 * 16 + b / 16 == v && b % 16 * 4 + c / 64 == w && c % 64 == x && b % 16 * 4 == w / 4 * 4
  {
  }

  lemma Enc3Dec4(s: string)
    requires |s| == 4 && Dec4(s).Ok?
    ensures var x := Dec4(s).value; Enc3(x[0], x[1], x[2]) == s
  {
    hide Digit, Value, InAlphabet;
    Regroup(Value(s[0]), Value(s[1]), Value(s[2]), Value(s[3]));
    DigitOfValue(s[0]);
    DigitOfValue(s[1]);
    DigitOfValue(s[2]);
    DigitOfValue(s[3]);
  }

  lemma Enc2Dec3(s: string)
    requires |s| == 3 && Dec3(s).Ok?
    ensures var x := Dec3(s).value; Enc2(x[0], x[1]) == s + "=" <==> Value(s[2]) % 4 == 0
  {
    hide Digit, Value, InAlphabet;
    DigitOfValue(s[0]);
    DigitOfValue(s[1]);
    DigitOfValue(s[2]);
    Regroup(Value(s[0]), Value(s[1]), Value(s[2]), 0);
    var x := Dec3(s).value;
    var w := x[1] % 16 * 4;
    assert w == Value(s[2]) / 4 * 4;
    assert Value(Digit(w)) == w;
    assert Enc2(x[0], x[1])[2] == Digit(w) && (s + "=")[2] == s[2];
  }

  lemma Enc1Dec2(s: string)
    requires |s| == 2 && Dec2(s).Ok?
    ensures var x := Dec2(s).value; Enc1(x[0]) == s + "==" <==> Value(s[1]) % 16 == 0
  {
    DigitOfValue(s[0]);
    DigitOfValue(s[1]);
    var x := Dec2(s).value;
    var v := x[0] % 4 * 16;
    assert v == Value(s[1]) / 16 * 16;
    assert Value(Digit(v)) == v;
    assert Enc1(x[0])[1] == Digit(v) && (s + "==")[1] == s[1];
  }

  // ----- Whole values

  function EncodedSize(n: nat): (m: nat) {
    n / 3 * 4 + if n % 3 == 0 then 0 else 4
  }

  function DecodedSize(n: nat): (m: nat) {
    n / 4 * 3 + n % 4
  }

  function Encode(x: seq<Byte>): (s: string)
    ensures |s| == EncodedSize(|x|)
  {
    hide Enc1, Enc2, Enc3;
    if x == [] then ""
    else if |x| == 1 then Enc1(x[0])
    else if |x| == 2 then Enc2(x[0], x[1])
    else Enc3(x[0], x[1], x[2]) + Encode(x[3..])
  }

  function Both(a: Result<seq<Byte>>, b: Result<seq<Byte>>): (r: Result<seq<Byte>>) {
    if a.Err? || b.Err? then Err else Ok(a.value + b.value)
  }

  /** Blocks of four digits. */
  function DecodeFull(s: string): (r: Result<seq<Byte>>)
    requires |s| % 4 == 0
    ensures r.Ok? ==> |r.value| == |s| / 4 * 3
  {
    if s == "" then Ok([]) else Both(Dec4(s[..4]), DecodeFull(s[4..]))
  }

  /** The last block, which has one or two padding characters. */
  function DecodePadded(s: string): (r: Result<seq<Byte>>)
    requires |s| == 4
  {
    if s[2] == PADDING then Dec2(s[..2]) else Dec3(s[..3])
  }

  function Decode(s: string): (r: Result<seq<Byte>>) {
    if |s| == 0 || |s| % 4 != 0 then Err
    else if s[|s| - 1] == PADDING then Both(DecodeFull(s[..|s| - 4]), DecodePadded(s[|s| - 4..]))
    else DecodeFull(s)
  }

  lemma {:induction false} EncodeConcat(x: seq<Byte>, y: seq<Byte>)
    requires |x| % 3 == 0
    ensures Encode(x + y) == Encode(x) + Encode(y)
  {
    hide Enc3, Enc2, Enc1;
    if x == [] {
      assert x + y == y && "" + Encode(y) == Encode(y);
    } else {
      EncodeConcat(x[3..], y);
      assert (x + y)[3..] == x[3..] + y;
      Assoc(Enc3(x[0], x[1], x[2]), Encode(x[3..]), Encode(y));
    }
  }

  lemma {:induction false} DecodeFullConcat(s: string, t: string)
    requires |s| % 4 == 0 && |t| % 4 == 0
    ensures DecodeFull(s + t) == Both(DecodeFull(s), DecodeFull(t))
  {
    hide Dec4;
    if s == "" {
      assert s + t == t;
      assert DecodeFull(t).Ok? ==> [] + DecodeFull(t).value == DecodeFull(t).value;
    } else {
      DecodeFullConcat(s[4..], t);
      assert (s + t)[..4] == s[..4] && (s + t)[4..] == s[4..] + t;
      BothAssoc(Dec4(s[..4]), DecodeFull(s[4..]), DecodeFull(t));
    }
  }

  lemma BothAssoc(a: Result<seq<Byte>>, b: Result<seq<Byte>>, c: Result<seq<Byte>>)
    ensures Both(Both(a, b), c) == Both(a, Both(b, c))
  {
    if a.Ok? && b.Ok? && c.Ok? {
      assert a.value + b.value + c.value == a.value + (b.value + c.value);
    }
  }

  lemma {:induction false} DecodeEncodeFull(x: seq<Byte>)
    requires |x| % 3 == 0
    ensures DecodeFull(Encode(x)) == Ok(x) && AllInAlphabet(Encode(x))
  {
    hide Enc3, Dec4;
    if x != [] {
      DecodeEncodeFull(x[3..]);
      Dec4Enc3(x[0], x[1], x[2]);
      var s := Encode(x);
      assert s[..4] == Enc3(x[0], x[1], x[2]) && s[4..] == Encode(x[3..]);
      assert [x[0], x[1], x[2]] + x[3..] == x;
    }
  }

  /** Decoding what was encoded gives every value back that can be encoded. */
  lemma DecodeEncode(x: seq<Byte>)
    requires x != []
    ensures Decode(Encode(x)) == Ok(x)
  {
    hide Encode, InAlphabet, DecodePadded, DecodeFull;
    var n := |x| - |x| % 3;
    var a, b := x[..n], x[n..];
    assert x == a + b;
    EncodeConcat(a, b);
    DecodeEncodeFull(a);
    var s := Encode(x);
    if b == [] {
      assert a == x;
      EndsInAlphabet(s);
    } else {
      PaddedReadBack(b);
      DecodeWithPadding(Encode(a), Encode(b));
    }
  }

  /** Known values: test vectors of section 10 of RFC 4648, and one with the last two digits. */
  lemma KnownValues()
    ensures Encode([0x66]) == "Zg==" && Encode([0x66, 0x6f]) == "Zm8="
    ensures Encode([0x66, 0x6f, 0x6f]) == "Zm9v" && Encode([0xfb, 0xff, 0xbf]) == "+/+/"
    ensures Encode([0x66, 0x6f, 0x6f, 0x62, 0x61, 0x72]) == "Zm9v" + "YmFy"
  {
    hide Value, InAlphabet;
    var x: seq<Byte> := [0x66, 0x6f, 0x6f, 0x62, 0x61, 0x72];
    assert x[3..] == [0x62, 0x61, 0x72] && x[3..][3..] == [];
    assert Enc3(0x66, 0x6f, 0x6f) == "Zm9v" && Enc3(0x62, 0x61, 0x72) == "YmFy";
    assert Encode(x[3..]) == "YmFy" + Encode(x[3..][3..]);
    var a: seq<Byte>, b: seq<Byte> := [0x66, 0x6f, 0x6f], [0xfb, 0xff, 0xbf];
    assert a[3..] == [] && b[3..] == [];
    assert Enc3(0xfb, 0xff, 0xbf) == "+/+/";
    assert Encode(a) == "Zm9v" + "" && Encode(b) == "+/+/" + "";
  }

  lemma EndsInAlphabet(s: string)
    requires AllInAlphabet(s) && s != "" && |s| % 4 == 0
    ensures Decode(s) == DecodeFull(s)
  {
    DigitOfValue(s[|s| - 1]);
  }

  lemma FourMore(n: nat)
    requires n % 4 == 0
    ensures (n + 4) % 4 == 0
  {
  }

  lemma DecodeWithPadding(s: string, t: string)
    requires |s| % 4 == 0 && |t| == 4 && t[3] == PADDING
    ensures Decode(s + t) == Both(DecodeFull(s), DecodePadded(t))
  {
    hide DecodeFull, DecodePadded, Both;
    var st := s + t;
    FourMore(|s|);
    assert st[|st| - 1] == t[3];
    assert st[..|st| - 4] == s;
    assert st[|st| - 4..] == t;
  }

  lemma PaddedReadBack(b: seq<Byte>)
    requires |b| == 1 || |b| == 2
    ensures |Encode(b)| == 4 && Encode(b)[3] == PADDING && DecodePadded(Encode(b)) == Ok(b)
  {
    hide Dec3, Dec2;
    if |b| == 1 {
      Dec2Enc1(b[0]);
      assert b == [b[0]];
    } else {
      Dec3Enc2(b[0], b[1]);
      assert b == [b[0], b[1]] && InAlphabet(Enc2(b[0], b[1])[..3][2]);
      DigitOfValue(Enc2(b[0], b[1])[2]);
    }
  }

  lemma {:induction false} EncodeDecodeFull(s: string)
    requires |s| % 4 == 0 && DecodeFull(s).Ok?
    ensures Encode(DecodeFull(s).value) == s && |DecodeFull(s).value| % 3 == 0
  {
    hide Enc3, Dec4;
    if s != "" {
      EncodeDecodeFull(s[4..]);
      Enc3Dec4(s[..4]);
      var x := DecodeFull(s).value;
      assert x[3..] == DecodeFull(s[4..]).value && s == s[..4] + s[4..];
    }
  }

  /** The bits of the last digit that no byte takes are zero. */
  predicate UnusedBitsAreZero(s: string)
    requires |s| >= 4
  {
    var n := |s|;
    if s[n - 1] != PADDING then true
    else if s[n - 2] == PADDING then Value(s[n - 3]) % 16 == 0
    else Value(s[n - 2]) % 4 == 0
  }

  lemma PaddedWrittenBack(s: string)
    requires |s| == 4 && s[3] == PADDING && DecodePadded(s).Ok?
    ensures var x := DecodePadded(s).value; 1 <= |x| <= 2 && (Encode(x) == s <==> UnusedBitsAreZero(s))
  {
    if s[2] == PADDING {
      Enc1Dec2(s[..2]);
      assert s == s[..2] + "==";
    } else {
      Enc2Dec3(s[..3]);
      assert s == s[..3] + "=";
    }
  }

  /** Encoding what was decoded gives the text back exactly if its unused bits are zero. */
  lemma EncodeDecode(s: string)
    requires Decode(s).Ok?
    ensures Encode(Decode(s).value) == s <==> UnusedBitsAreZero(s)
  {
    hide Encode, DecodeFull, DecodePadded;
    var n := |s| - 4;
    if s[|s| - 1] == PADDING {
      var head, tail := s[..n], s[n..];
      EncodeDecodeFull(head);
      PaddedWrittenBack(tail);
      EncodeConcat(DecodeFull(head).value, DecodePadded(tail).value);
      assert s == head + tail;
      var t := Encode(DecodePadded(tail).value);
      assert head + t == s <==> t == tail by { assert (head + t)[n..] == t; }
    } else {
      EncodeDecodeFull(s);
    }
  }

  // ----- The methods, which fill a buffer of the computed size

  method Base64Encode(data: seq<Byte>) returns (r: Result<string>)
    ensures r == if data == [] then Err else Ok(Encode(data))
  {
    hide Encode, Enc3, Enc2, Enc1;
    if |data| == 0 {
      return Err;
    }
    var size := EncodedSize(|data|);
    var remainder := |data| % 3;
    var count := (|data| - remainder) / 3;
    assert |data| == count * 3 + remainder && size == count * 4 + if remainder == 0 then 0 else 4;
    var buffer := new char[size];
    EncodeBlocks(data, count, buffer);
    if remainder != 0 {
      EncodeBlock(data, count * 3, remainder);
      PutBlock(buffer, count * 4,
               if remainder == 2 then Enc2(data[count * 3], data[count * 3 + 1]) else Enc1(data[count * 3]));
    }
    assert data[..|data|] == data && buffer[..] == buffer[..size];
    return Ok(buffer[..]);
  }

  /** The loop over the blocks of three bytes. */
  method EncodeBlocks(data: seq<Byte>, count: nat, buffer: array<char>)
    requires count * 3 <= |data| && count * 4 <= buffer.Length
    modifies buffer
    ensures buffer[..count * 4] == Encode(data[..count * 3])
  {
    hide Encode, Enc3;
    EncodeNothing();
    assert buffer[..0] == "" && data[..0] == [];
    for i := 0 to count
      invariant buffer[..i * 4] == Encode(data[..i * 3])
    {
      EncodeBlock(data, i * 3, 3);
      PutBlock(buffer, i * 4, Enc3(data[i * 3], data[i * 3 + 1], data[i * 3 + 2]));
    }
  }

  /** The four characters that an encoder of a block writes. */
  method PutBlock(buffer: array<char>, at: nat, block: string)
    requires |block| == 4 && at + 4 <= buffer.Length
    modifies buffer
    ensures buffer[..at + 4] == old(buffer[..at]) + block
  {
    buffer[at], buffer[at + 1], buffer[at + 2], buffer[at + 3] := block[0], block[1], block[2], block[3];
    assert buffer[..at] == old(buffer[..at]);
  }

  lemma EncodeNothing()
    ensures Encode([]) == ""
  {
  }

  lemma EncodeBlock(data: seq<Byte>, from: nat, n: nat)
    requires from % 3 == 0 && from + n <= |data| && 1 <= n <= 3
    ensures Encode(data[..from + n]) == Encode(data[..from]) +
      if n == 3 then Enc3(data[from], data[from + 1], data[from + 2])
      else if n == 2 then Enc2(data[from], data[from + 1]) else Enc1(data[from])
  {
    hide Enc3, Enc2, Enc1;
    var block := data[from..from + n];
    assert data[..from + n] == data[..from] + block;
    EncodeConcat(data[..from], block);
    if n == 3 {
      assert block[3..] == [] && Encode(block) == Enc3(block[0], block[1], block[2]) + "";
    }
  }

  method Base64Decode(data: string) returns (r: Result<seq<Byte>>)
    ensures r == Decode(data)
  {
    hide DecodeFull, Dec4, Dec3, Dec2;
    var size := |data|;
    if size == 0 || size % 4 != 0 {
      return Err;
    }
    var count, padding := size / 4, 0;
    if data[size - 1] == PADDING {
      padding := if data[size - 2] == PADDING then 2 else 1;
      count := count - 1;
    }
    var buffer := new Byte[DecodedSize(size)](_ => 0);
    var i := 0;
    DecodeNothing();
    assert data[..0] == "" && buffer[..0] == [];
    while i < count
      invariant 0 <= i <= count && DecodeFull(data[..i * 4]) == Ok(buffer[..i * 3])
    {
      var block := Dec4(data[i * 4..i * 4 + 4]);
      DecodeBlock(data, i * 4, count * 4);
      if block.Err? {
        assert data[..count * 4] == if padding == 0 then data else data[..size - 4];
        return Err;
      }
      PutBytes(buffer, i * 3, block.value);
      i := i + 1;
    }
    if padding == 0 {
      assert data[..i * 4] == data;
      return Ok(buffer[..i * 3]);
    }
    var last := data[i * 4..];
    assert data[..size - 4] == data[..i * 4] && data[size - 4..] == last;
    var block := if padding == 2 then Dec2(last[..2]) else Dec3(last[..3]);
    if block.Err? {
      return Err;
    }
    PutBytes(buffer, i * 3, block.value);
    return Ok(buffer[..i * 3 + |block.value|]);
  }

  /** The bytes that a decoder of a block writes. */
  method PutBytes(buffer: array<Byte>, at: nat, bytes: seq<Byte>)
    requires at + |bytes| <= buffer.Length
    modifies buffer
    ensures buffer[..at + |bytes|] == old(buffer[..at]) + bytes
  {
    for k := 0 to |bytes|
      invariant buffer[..at + k] == old(buffer[..at]) + bytes[..k]
    {
      buffer[at + k] := bytes[k];
      assert buffer[..at + k + 1] == buffer[..at + k] + [bytes[k]];
    }
  }

  lemma DecodeNothing()
    ensures DecodeFull("") == Ok([])
  {
  }

  /** One more block in front of `to`, and an invalid block spoils the whole. */
  lemma DecodeBlock(data: string, from: nat, to: nat)
    requires from % 4 == 0 && to % 4 == 0 && from + 4 <= to <= |data|
    ensures DecodeFull(data[..from + 4]) == Both(DecodeFull(data[..from]), Dec4(data[from..from + 4]))
    ensures Dec4(data[from..from + 4]).Err? ==> DecodeFull(data[..to]).Err?
  {
    hide Dec4;
    var block := data[from..from + 4];
    assert data[..from + 4] == data[..from] + block && data[..to] == data[..from + 4] + data[from + 4..to];
    DecodeFullConcat(data[..from], block);
    DecodeFullConcat(data[..from + 4], data[from + 4..to]);
    assert block[..4] == block && block[4..] == "";
    DecodeNothing();
    assert Dec4(block).Ok? ==> Dec4(block).value + [] == Dec4(block).value;
    assert DecodeFull(block) == Dec4(block);
  }
}
