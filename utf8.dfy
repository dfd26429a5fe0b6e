/** UTF-8 as Rust's `String::from_utf8` accepts it: the well-formed byte
    sequences of table 3-7 of the Unicode Standard (no overlong forms, no
    surrogates, nothing above U+10FFFF). Dafny's `char` is a Unicode scalar
    value, so a decoded `string` is exactly a Rust `String`. */
module Utf8 {
  import opened Wrappers
  import opened Bytes

  predicate IsContinuation(b: Byte) {
    0x80 <= b <= 0xBF
  }

  /** The scalar value a byte string starts with and how many bytes encode
      it, or None when the string does not start with a well-formed sequence. */
  function DecodeFirst(s: seq<Byte>): (r: Option<(char, nat)>)
    requires |s| > 0
    ensures r.Some? ==> 1 <= r.value.1 <= 4 && r.value.1 <= |s|
  {
    var b0: int := s[0];
    if b0 < 0x80 then Some((b0 as char, 1))
    else if 0xC2 <= b0 <= 0xDF then
      if |s| >= 2 && IsContinuation(s[1]) then
        Some((((b0 - 0xC0) * 64 + (s[1] as int - 0x80)) as char, 2))
      else None
    else if 0xE0 <= b0 <= 0xEF then
      var lo := if b0 == 0xE0 then 0xA0 else 0x80;
      var hi := if b0 == 0xED then 0x9F else 0xBF;
      if |s| >= 3 && lo <= s[1] <= hi && IsContinuation(s[2]) then
        Some((((b0 - 0xE0) * 4096 + (s[1] as int - 0x80) * 64 + (s[2] as int - 0x80)) as char, 3))
      else None
    else if 0xF0 <= b0 <= 0xF4 then
      var lo := if b0 == 0xF0 then 0x90 else 0x80;
      var hi := if b0 == 0xF4 then 0x8F else 0xBF;
      if |s| >= 4 && lo <= s[1] <= hi && IsContinuation(s[2]) && IsContinuation(s[3]) then
        Some((((b0 - 0xF0) * 262144 + (s[1] as int - 0x80) * 4096 + (s[2] as int - 0x80) * 64 + (s[3] as int - 0x80)) as char, 4))
      else None
    else None
  }

  /** `String::from_utf8`: None when the bytes are not well-formed UTF-8. */
  function Decode(s: seq<Byte>): (r: Option<string>)
    ensures s == [] ==> r == Some("")
    ensures r.Some? ==> |r.value| <= |s| <= 4 * |r.value|
    decreases |s|
  {
    if s == [] then Some("")
    else
      var (c, n) :- DecodeFirst(s);
      var rest :- Decode(s[n..]);
      Some([c] + rest)
  }

  function EncodeChar(c: char): (r: seq<Byte>)
    ensures 1 <= |r| <= 4
  {
    var x := c as int;
    if x < 0x80 then [x]
    else if x < 0x800 then [0xC0 + x / 64, 0x80 + x % 64]
    else if x < 0x10000 then [0xE0 + x / 4096, 0x80 + x / 64 % 64, 0x80 + x % 64]
    else [0xF0 + x / 262144, 0x80 + x / 4096 % 64, 0x80 + x / 64 % 64, 0x80 + x % 64]
  }

  /** The UTF-8 bytes of a string, as Rust's `String::into_bytes`. */
  function Encode(s: string): seq<Byte>
  {
    if s == [] then [] else EncodeChar(s[0]) + Encode(s[1..])
  }

  lemma DecodeFirstEncodeTwo(c: char, rest: seq<Byte>)
    requires 0x80 <= c as int < 0x800
    ensures DecodeFirst(EncodeChar(c) + rest) == Some((c, 2))
  {
    var x := c as int;
    var s := EncodeChar(c) + rest;
    assert s[0] == 0xC0 + x / 64 && s[1] == 0x80 + x % 64;
    assert (x / 64) * 64 + x % 64 == x;
  }

  /** A value split into a quotient by 4096 and two six-bit groups. */
  lemma SplitSixBits(x: int)
    requires 0 <= x
    ensures x / 4096 == x / 64 / 64
    ensures x == x / 4096 * 4096 + x / 64 % 64 * 64 + x % 64
  {
    var q := x / 64;
    assert x == 64 * q + x % 64;
    assert q == 64 * (q / 64) + q % 64;
    assert x == 4096 * (q / 64) + 64 * (q % 64) + x % 64;
  }

  lemma DecodeFirstThree(s: seq<Byte>, x: int)
    requires 0x800 <= x < 0xD800 || 0xE000 <= x < 0x10000
    requires |s| >= 3 && s[0] == 0xE0 + x / 4096 && s[1] == 0x80 + x / 64 % 64 && s[2] == 0x80 + x % 64
    ensures DecodeFirst(s).Some? && DecodeFirst(s).value.0 as int == x && DecodeFirst(s).value.1 == 3
  {
    SplitSixBits(x);
    assert x / 4096 == 0 ==> x / 64 >= 32;
    assert x / 4096 == 0xD ==> x / 64 % 64 < 32;
  }

  lemma DecodeFirstEncodeThree(c: char, rest: seq<Byte>)
    requires 0x800 <= c as int < 0x10000
    ensures DecodeFirst(EncodeChar(c) + rest) == Some((c, 3))
  {
    var x := c as int;
    DecodeFirstThree(EncodeChar(c) + rest, x);
  }

  /** A value split into a quotient by 262144 and three six-bit groups. */
  lemma SplitEighteenBits(x: int)
    requires 0 <= x
    ensures x / 262144 == x / 4096 / 64
    ensures x == x / 262144 * 262144 + x / 4096 % 64 * 4096 + x / 64 % 64 * 64 + x % 64
  {
    SplitSixBits(x);
    var q := x / 4096;
    assert q == 64 * (q / 64) + q % 64;
    assert x == 262144 * (q / 64) + 4096 * (q % 64) + x / 64 % 64 * 64 + x % 64;
  }

  lemma DecodeFirstFour(s: seq<Byte>, x: int)
    requires 0x10000 <= x < 0x110000
    requires |s| >= 4 && s[0] == 0xF0 + x / 262144 && s[1] == 0x80 + x / 4096 % 64
    requires s[2] == 0x80 + x / 64 % 64 && s[3] == 0x80 + x % 64
    ensures DecodeFirst(s).Some? && DecodeFirst(s).value.0 as int == x && DecodeFirst(s).value.1 == 4
  {
    SplitEighteenBits(x);
    assert x / 262144 == 0 ==> x / 4096 >= 16;
    assert x / 262144 == 4 ==> x / 4096 % 64 < 16;
  }

  lemma DecodeFirstEncodeFour(c: char, rest: seq<Byte>)
    requires 0x10000 <= c as int
    ensures DecodeFirst(EncodeChar(c) + rest) == Some((c, 4))
  {
    var x := c as int;
    DecodeFirstFour(EncodeChar(c) + rest, x);
  }

  /** The first scalar value of an encoding is read back whole. */
  lemma DecodeFirstEncodeChar(c: char, rest: seq<Byte>)
    ensures DecodeFirst(EncodeChar(c) + rest) == Some((c, |EncodeChar(c)|))
  {
    var x := c as int;
    if x < 0x80 {
    } else if x < 0x800 {
      DecodeFirstEncodeTwo(c, rest);
    } else if x < 0x10000 {
      DecodeFirstEncodeThree(c, rest);
    } else {
      DecodeFirstEncodeFour(c, rest);
    }
  }

  /** Decoding the encoding of a string gives back the string. */
  lemma {:induction false} DecodeEncode(s: string)
    ensures Decode(Encode(s)) == Some(s)
  {
    if s != [] {
      var e := Encode(s);
      var first := EncodeChar(s[0]);
      DecodeFirstEncodeChar(s[0], Encode(s[1..]));
      assert e[|first|..] == Encode(s[1..]);
      DecodeEncode(s[1..]);
      assert s == [s[0]] + s[1..];
    }
  }

  /** Six-bit groups joined into one value split back into the same groups. */
  lemma JoinSixBits(a: int, b: int, d: int)
    requires 0 <= a && 0 <= b < 64 && 0 <= d < 64
    ensures (a * 4096 + b * 64 + d) / 4096 == a
    ensures (a * 4096 + b * 64 + d) / 64 % 64 == b
    ensures (a * 4096 + b * 64 + d) % 64 == d
  {
    var x := a * 4096 + b * 64 + d;
    assert x == 64 * (a * 64 + b) + d;
    assert x / 64 == a * 64 + b;
  }

  lemma JoinEighteenBits(a: int, b: int, d: int, e: int)
    requires 0 <= a && 0 <= b < 64 && 0 <= d < 64 && 0 <= e < 64
    ensures (a * 262144 + b * 4096 + d * 64 + e) / 262144 == a
    ensures (a * 262144 + b * 4096 + d * 64 + e) / 4096 % 64 == b
    ensures (a * 262144 + b * 4096 + d * 64 + e) / 64 % 64 == d
    ensures (a * 262144 + b * 4096 + d * 64 + e) % 64 == e
  {
    JoinSixBits(a * 64 + b, d, e);
    var x := a * 262144 + b * 4096 + d * 64 + e;
    assert x == (a * 64 + b) * 4096 + d * 64 + e;
    assert x / 4096 == a * 64 + b;
  }

  lemma EncodeCharDecodeTwo(s: seq<Byte>)
    requires |s| >= 2 && 0xC2 <= s[0] <= 0xDF && IsContinuation(s[1])
    ensures DecodeFirst(s).Some? && EncodeChar(DecodeFirst(s).value.0) == s[..2]
  {
    var x := (s[0] as int - 0xC0) * 64 + (s[1] as int - 0x80);
    assert DecodeFirst(s).value.0 as int == x;
    assert x / 64 == s[0] as int - 0xC0 && x % 64 == s[1] as int - 0x80;
  }

  lemma EncodeCharDecodeThree(s: seq<Byte>)
    requires |s| >= 3 && 0xE0 <= s[0] <= 0xEF && DecodeFirst(s).Some?
    ensures EncodeChar(DecodeFirst(s).value.0) == s[..3]
  {
    var a, b, d := s[0] as int - 0xE0, s[1] as int - 0x80, s[2] as int - 0x80;
    var x := DecodeFirst(s).value.0 as int;
    assert x == a * 4096 + b * 64 + d;
    assert 0x800 <= x < 0x10000;
    JoinSixBits(a, b, d);
  }

  lemma EncodeCharDecodeFour(s: seq<Byte>)
    requires |s| >= 4 && 0xF0 <= s[0] <= 0xF4 && DecodeFirst(s).Some?
    ensures EncodeChar(DecodeFirst(s).value.0) == s[..4]
  {
    var a, b, d, e := s[0] as int - 0xF0, s[1] as int - 0x80, s[2] as int - 0x80, s[3] as int - 0x80;
    var x := DecodeFirst(s).value.0 as int;
    assert x == a * 262144 + b * 4096 + d * 64 + e;
    assert 0x10000 <= x;
    JoinEighteenBits(a, b, d, e);
  }

  /** A well-formed sequence is the encoding of the scalar value it decodes to. */
  lemma EncodeCharDecodeFirst(s: seq<Byte>)
    requires |s| > 0 && DecodeFirst(s).Some?
    ensures EncodeChar(DecodeFirst(s).value.0) == s[..DecodeFirst(s).value.1]
  {
    if s[0] < 0x80 {
    } else if s[0] <= 0xDF {
      EncodeCharDecodeTwo(s);
    } else if s[0] <= 0xEF {
      EncodeCharDecodeThree(s);
    } else {
      EncodeCharDecodeFour(s);
    }
  }

  /** A successful decoding is its first scalar value followed by the
      decoding of the rest. */
  lemma DecodeStep(s: seq<Byte>)
    requires s != [] && Decode(s).Some?
    ensures DecodeFirst(s).Some?
    ensures Decode(s[DecodeFirst(s).value.1..]).Some?
    ensures Decode(s).value == [DecodeFirst(s).value.0] + Decode(s[DecodeFirst(s).value.1..]).value
  {
  }

  lemma EncodeCons(c: char, rest: string, s: seq<Byte>, n: nat)
    requires n <= |s| && EncodeChar(c) == s[..n] && Encode(rest) == s[n..]
    ensures Encode([c] + rest) == s
  {
    assert ([c] + rest)[1..] == rest;
    assert s == s[..n] + s[n..];
  }

  /** Every well-formed byte string is the encoding of its decoding. */
  lemma {:induction false} EncodeDecode(s: seq<Byte>)
    requires Decode(s).Some?
    ensures Encode(Decode(s).value) == s
    decreases |s|
  {
    if s != [] {
      DecodeStep(s);
      var first := DecodeFirst(s).value;
      var c, n := first.0, first.1;
      var rest := Decode(s[n..]).value;
      EncodeCharDecodeFirst(s);
      EncodeDecode(s[n..]);
      EncodeCons(c, rest, s, n);
    }
  }
}
