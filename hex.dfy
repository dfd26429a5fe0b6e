/** Base16 ("hex") as in section 8 of RFC 4648, with the conventions of the
    `hex` crate that the keychain backend calls: decoding accepts upper- and
    lower-case digits, an odd length is rejected before any digit is looked
    at, and otherwise the first non-digit is reported with its position;
    encoding writes lower-case digits. */
module Hex {
  import opened Wrappers
  import opened Bytes

  datatype HexError =
    | InvalidHexCharacter(c: Byte, index: nat)
    | OddLength

  /** '0'..'9', 'A'..'F' or 'a'..'f'. */
  predicate IsDigit(b: Byte) {
    48 <= b <= 57 || 65 <= b <= 70 || 97 <= b <= 102
  }

  predicate IsLowerDigit(b: Byte) {
    48 <= b <= 57 || 97 <= b <= 102
  }

  function DigitValue(b: Byte): (v: nat)
    requires IsDigit(b)
    ensures v < 16
  {
    if b <= 57 then b - 48 else if b <= 70 then b - 55 else b - 87
  }

  /** The lower-case digit for a value below 16. */
  function Digit(v: nat): (b: Byte)
    requires v < 16
    ensures IsLowerDigit(b) && DigitValue(b) == v
  {
    if v < 10 then 48 + v else 87 + v
  }

  /** 'A'..'F' folded to 'a'..'f'; every other byte unchanged. */
  function LowerCase(s: seq<Byte>): (r: seq<Byte>)
    ensures |r| == |s|
    ensures forall i :: 0 <= i < |s| ==> r[i] == (if 65 <= s[i] <= 70 then s[i] + 32 else s[i])
  {
    if s == [] then [] else [if 65 <= s[0] <= 70 then s[0] + 32 else s[0]] + LowerCase(s[1..])
  }

  function Encode(data: seq<Byte>): (s: seq<Byte>)
    ensures |s| == 2 * |data|
    ensures forall i :: 0 <= i < |s| ==> IsLowerDigit(s[i])
  {
    if data == [] then [] else [Digit(data[0] / 16), Digit(data[0] % 16)] + Encode(data[1..])
  }

  /** Decodes pairs of digits; an error names its position as `offset`
      plus the position inside `s`. */
  function DecodePairs(s: seq<Byte>, offset: nat): (r: Result<seq<Byte>, HexError>)
    requires |s| % 2 == 0
    ensures r.Success? <==> forall i :: 0 <= i < |s| ==> IsDigit(s[i])
    ensures r.Success? ==> |r.value| == |s| / 2
    ensures r.Success? ==> forall k :: 0 <= k < |r.value| ==>
              r.value[k] == 16 * DigitValue(s[2 * k]) + DigitValue(s[2 * k + 1])
    ensures r.Failure? ==> r.error.InvalidHexCharacter?
    ensures r.Failure? ==> offset <= r.error.index < offset + |s|
    ensures r.Failure? ==> var i := r.error.index - offset;
              s[i] == r.error.c && !IsDigit(s[i]) && forall j :: 0 <= j < i ==> IsDigit(s[j])
    decreases |s|
  {
    if s == [] then Success([])
    else if !IsDigit(s[0]) then Failure(InvalidHexCharacter(s[0], offset))
    else if !IsDigit(s[1]) then Failure(InvalidHexCharacter(s[1], offset + 1))
    else
      var rest :- DecodePairs(s[2..], offset + 2);
      Success([16 * DigitValue(s[0]) + DigitValue(s[1])] + rest)
  }

  /** `hex::decode`. */
  function Decode(s: seq<Byte>): (r: Result<seq<Byte>, HexError>)
    ensures r == Failure(OddLength) <==> |s| % 2 == 1
    ensures r.Success? <==> |s| % 2 == 0 && forall i :: 0 <= i < |s| ==> IsDigit(s[i])
    ensures r.Success? ==> |r.value| == |s| / 2
    ensures r.Success? ==> forall k :: 0 <= k < |r.value| ==>
              r.value[k] == 16 * DigitValue(s[2 * k]) + DigitValue(s[2 * k + 1])
    ensures r.Failure? && r.error.InvalidHexCharacter? ==> var i := r.error.index;
              i < |s| && s[i] == r.error.c && !IsDigit(s[i]) && forall j :: 0 <= j < i ==> IsDigit(s[j])
  {
    if |s| % 2 == 1 then Failure(OddLength) else DecodePairs(s, 0)
  }

  /** Re-encoding a digit's value gives the digit in lower case. */
  lemma DigitOfValue(b: Byte)
    requires IsDigit(b)
    ensures Digit(DigitValue(b)) == (if 65 <= b <= 70 then b + 32 else b)
  {
  }

  lemma {:induction false} EncodeAt(data: seq<Byte>, k: nat)
    requires k < |data|
    ensures Encode(data)[2 * k] == Digit(data[k] / 16)
    ensures Encode(data)[2 * k + 1] == Digit(data[k] % 16)
  {
    if k > 0 {
      EncodeAt(data[1..], k - 1);
    }
  }

  /** Decoding an encoding gives back the original bytes. */
  lemma {:induction false} DecodeEncode(data: seq<Byte>)
    ensures Decode(Encode(data)) == Success(data)
  {
    var s := Encode(data);
    assert forall i :: 0 <= i < |s| ==> IsDigit(s[i]);
    var r := Decode(s);
    assert |r.value| == |data|;
    forall k | 0 <= k < |data|
      ensures r.value[k] == data[k]
    {
      EncodeAt(data, k);
      var hi, lo := data[k] / 16, data[k] % 16;
      assert DigitValue(s[2 * k]) == hi && DigitValue(s[2 * k + 1]) == lo;
    }
    assert r.value == data;
  }

  /** A byte written as two digit values splits back into them. */
  lemma SplitByte(x: Byte, hi: nat, lo: nat)
    requires hi < 16 && lo < 16 && x == 16 * hi + lo
    ensures x / 16 == hi && x % 16 == lo
  {
  }

  /** The two digits re-encoded for the `k`-th decoded byte are the two
      digits it was decoded from, in lower case. */
  lemma EncodeDecodeAt(s: seq<Byte>, data: seq<Byte>, k: nat)
    requires Decode(s) == Success(data) && k < |data|
    ensures 2 * k + 1 < |s|
    ensures Encode(data)[2 * k] == LowerCase(s)[2 * k]
    ensures Encode(data)[2 * k + 1] == LowerCase(s)[2 * k + 1]
  {
    EncodeAt(data, k);
    var d0, d1 := s[2 * k], s[2 * k + 1];
    SplitByte(data[k], DigitValue(d0), DigitValue(d1));
    DigitOfValue(d0);
    DigitOfValue(d1);
  }

  /** Every successful decoding is of the encoding of its result, up to the
      case of the letters. */
  lemma {:induction false} EncodeDecode(s: seq<Byte>)
    requires Decode(s).Success?
    ensures Encode(Decode(s).value) == LowerCase(s)
  {
    var data := Decode(s).value;
    var e, l := Encode(data), LowerCase(s);
    assert |e| == |l| == |s|;
    forall i | 0 <= i < |s|
      ensures e[i] == l[i]
    {
      var k := i / 2;
      assert i == 2 * k || i == 2 * k + 1;
      EncodeDecodeAt(s, data, k);
    }
  }
}
