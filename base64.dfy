/** Standard Base64 with padding, section 4 of RFC 4648, as decoded by the
    `base64` crate's STANDARD engine: the input is read in blocks of four
    symbols, padding is required and must be canonical, only the last block
    may carry padding, and the unused low bits of the last symbol must be
    zero. Encoding is the canonical padded encoding. */
module Base64 {
  import opened Wrappers
  import opened Bytes

  datatype Base64Error =
    | InvalidByte(index: nat, b: Byte)
    | InvalidLength
    | InvalidLastSymbol(index: nat, b: Byte)
    | InvalidPadding

  const Pad: Byte := 61  // '='

  /** 'A'..'Z', 'a'..'z', '0'..'9', '+' or '/'. */
  predicate IsSymbol(b: Byte) {
    65 <= b <= 90 || 97 <= b <= 122 || 48 <= b <= 57 || b == 43 || b == 47
  }

  function SymbolValue(b: Byte): (v: nat)
    requires IsSymbol(b)
    ensures v < 64
  {
    if 65 <= b <= 90 then b - 65
    else if 97 <= b <= 122 then b - 71
    else if 48 <= b <= 57 then b + 4
    else if b == 43 then 62
    else 63
  }

  function Symbol(v: nat): (b: Byte)
    requires v < 64
    ensures IsSymbol(b) && SymbolValue(b) == v
  {
    if v < 26 then 65 + v
    else if v < 52 then 71 + v
    else if v < 62 then v - 4
    else if v == 62 then 43
    else 47
  }

  lemma SymbolOfValue(b: Byte)
    requires IsSymbol(b)
    ensures Symbol(SymbolValue(b)) == b
  {
  }

  /** The four symbols for three bytes. */
  function EncodeTriple(b0: Byte, b1: Byte, b2: Byte): (q: seq<Byte>)
    ensures |q| == 4 && forall i :: 0 <= i < 4 ==> IsSymbol(q[i])
  {
    [Symbol(b0 / 4), Symbol(b0 % 4 * 16 + b1 / 16), Symbol(b1 % 16 * 4 + b2 / 64), Symbol(b2 % 64)]
  }

  /** The four symbols for a final pair of bytes: three symbols and one pad. */
  function EncodePair(b0: Byte, b1: Byte): (q: seq<Byte>)
    ensures |q| == 4
  {
    [Symbol(b0 / 4), Symbol(b0 % 4 * 16 + b1 / 16), Symbol(b1 % 16 * 4), Pad]
  }

  /** The four symbols for a final single byte: two symbols and two pads. */
  function EncodeSingle(b0: Byte): (q: seq<Byte>)
    ensures |q| == 4
  {
    [Symbol(b0 / 4), Symbol(b0 % 4 * 16), Pad, Pad]
  }

  /** The number of four-symbol blocks that `n` bytes take. */
  function BlockCount(n: nat): (k: nat)
    ensures 3 * k - 2 <= n <= 3 * k
  {
    if n == 0 then 0 else if n <= 3 then 1 else 1 + BlockCount(n - 3)
  }

  function Encode(data: seq<Byte>): (s: seq<Byte>)
    ensures |s| == 4 * BlockCount(|data|)
    decreases |data|
  {
    if |data| == 0 then []
    else if |data| == 1 then EncodeSingle(data[0])
    else if |data| == 2 then EncodePair(data[0], data[1])
    else
      EncodeTriple(data[0], data[1], data[2]) + Encode(data[3..])
  }

  /** A block that is not the last: four symbols, three bytes. */
  function DecodeBlock(q: seq<Byte>, offset: nat): (r: Result<seq<Byte>, Base64Error>)
    requires |q| == 4
    ensures r.Success? <==> forall i :: 0 <= i < 4 ==> IsSymbol(q[i])
    ensures r.Success? ==> |r.value| == 3
    ensures r.Failure? ==> r.error.InvalidByte?
  {
    if !IsSymbol(q[0]) then Failure(InvalidByte(offset, q[0]))
    else if !IsSymbol(q[1]) then Failure(InvalidByte(offset + 1, q[1]))
    else if !IsSymbol(q[2]) then Failure(InvalidByte(offset + 2, q[2]))
    else if !IsSymbol(q[3]) then Failure(InvalidByte(offset + 3, q[3]))
    else
      var v0, v1, v2, v3 := SymbolValue(q[0]), SymbolValue(q[1]), SymbolValue(q[2]), SymbolValue(q[3]);
      Success([v0 * 4 + v1 / 16, v1 % 16 * 16 + v2 / 4, v2 % 4 * 64 + v3])
  }

  /** The last block: four symbols, or two or three symbols padded to four
      with '=' whose unused low bits are zero. */
  function DecodeLastBlock(q: seq<Byte>, offset: nat): (r: Result<seq<Byte>, Base64Error>)
    requires |q| == 4
    ensures r.Success? ==> 1 <= |r.value| <= 3
    ensures r.Success? ==> IsSymbol(q[0]) && IsSymbol(q[1])
    ensures r.Success? && |r.value| == 3 ==> forall i :: 0 <= i < 4 ==> IsSymbol(q[i])
  {
    if !IsSymbol(q[0]) then Failure(InvalidByte(offset, q[0]))
    else if !IsSymbol(q[1]) then Failure(InvalidByte(offset + 1, q[1]))
    else
      var v0, v1 := SymbolValue(q[0]), SymbolValue(q[1]);
      if q[2] == Pad then
        if q[3] != Pad then Failure(InvalidPadding)
        else if v1 % 16 != 0 then Failure(InvalidLastSymbol(offset + 1, q[1]))
        else Success([v0 * 4 + v1 / 16])
      else if !IsSymbol(q[2]) then Failure(InvalidByte(offset + 2, q[2]))
      else
        var v2 := SymbolValue(q[2]);
        if q[3] == Pad then
          if v2 % 4 != 0 then Failure(InvalidLastSymbol(offset + 2, q[2]))
          else Success([v0 * 4 + v1 / 16, v1 % 16 * 16 + v2 / 4])
        else if !IsSymbol(q[3]) then Failure(InvalidByte(offset + 3, q[3]))
        else
          var v3 := SymbolValue(q[3]);
          Success([v0 * 4 + v1 / 16, v1 % 16 * 16 + v2 / 4, v2 % 4 * 64 + v3])
  }

  function DecodeBlocks(s: seq<Byte>, offset: nat): (r: Result<seq<Byte>, Base64Error>)
    requires |s| % 4 == 0
    ensures r.Success? ==> 4 * |r.value| <= 3 * |s|
    decreases |s|
  {
    if |s| == 0 then Success([])
    else if |s| == 4 then DecodeLastBlock(s, offset)
    else
      var head :- DecodeBlock(s[..4], offset);
      var rest :- DecodeBlocks(s[4..], offset + 4);
      Success(head + rest)
  }

  /** `base64::engine::general_purpose::STANDARD.decode`. */
  function Decode(s: seq<Byte>): (r: Result<seq<Byte>, Base64Error>)
    ensures |s| % 4 != 0 ==> r == Failure(InvalidLength)
    ensures r.Success? ==> 4 * |r.value| <= 3 * |s|
  {
    if |s| % 4 != 0 then Failure(InvalidLength) else DecodeBlocks(s, 0)
  }

  /** Three bytes split into four sextets are rebuilt from them. */
  lemma BytesOfSextets(b0: Byte, b1: Byte, b2: Byte)
    ensures (b0 / 4) * 4 + (b0 % 4 * 16 + b1 / 16) / 16 == b0
    ensures (b0 % 4 * 16 + b1 / 16) % 16 * 16 + (b1 % 16 * 4 + b2 / 64) / 4 == b1
    ensures (b1 % 16 * 4 + b2 / 64) % 4 * 64 + b2 % 64 == b2
  {
    assert (b0 % 4 * 16 + b1 / 16) / 16 == b0 % 4;
    assert (b0 % 4 * 16 + b1 / 16) % 16 == b1 / 16;
    assert (b1 % 16 * 4 + b2 / 64) / 4 == b1 % 16;
    assert (b1 % 16 * 4 + b2 / 64) % 4 == b2 / 64;
  }

  lemma DecodeEncodeTriple(b0: Byte, b1: Byte, b2: Byte, offset: nat)
    ensures DecodeBlock(EncodeTriple(b0, b1, b2), offset) == Success([b0, b1, b2])
    ensures DecodeLastBlock(EncodeTriple(b0, b1, b2), offset) == Success([b0, b1, b2])
  {
    var q := EncodeTriple(b0, b1, b2);
    var v0, v1, v2, v3 := b0 / 4, b0 % 4 * 16 + b1 / 16, b1 % 16 * 4 + b2 / 64, b2 % 64;
    assert SymbolValue(q[0]) == v0 && SymbolValue(q[1]) == v1;
    assert SymbolValue(q[2]) == v2 && SymbolValue(q[3]) == v3;
    assert q[2] != Pad && q[3] != Pad;
    assert [v0 * 4 + v1 / 16, v1 % 16 * 16 + v2 / 4, v2 % 4 * 64 + v3] == [b0, b1, b2] by {
      BytesOfSextets(b0, b1, b2);
    }
  }

  lemma DecodeEncodePair(b0: Byte, b1: Byte, offset: nat)
    ensures DecodeLastBlock(EncodePair(b0, b1), offset) == Success([b0, b1])
  {
    BytesOfSextets(b0, b1, 0);
  }

  lemma DecodeEncodeSingle(b0: Byte, offset: nat)
    ensures DecodeLastBlock(EncodeSingle(b0), offset) == Success([b0])
  {
  }

  /** The encoding of at most three bytes is one last block that decodes to them. */
  lemma {:induction false} DecodeEncodeShort(data: seq<Byte>, offset: nat)
    requires 1 <= |data| <= 3
    ensures DecodeLastBlock(Encode(data), offset) == Success(data)
  {
    if |data| == 3 {
      assert Encode(data) == EncodeTriple(data[0], data[1], data[2]) by {
        assert Encode(data[3..]) == [];
      }
      assert data == [data[0], data[1], data[2]];
      DecodeEncodeTriple(data[0], data[1], data[2], offset);
    } else if |data| == 2 {
      assert data == [data[0], data[1]];
      DecodeEncodePair(data[0], data[1], offset);
    } else {
      assert data == [data[0]];
      DecodeEncodeSingle(data[0], offset);
    }
  }

  /** An encoding is whole blocks of four symbols. */
  lemma EncodeLength(data: seq<Byte>)
    ensures |Encode(data)| % 4 == 0
  {
    var k := BlockCount(|data|);
    assert |Encode(data)| == 4 * k;
  }

  lemma {:induction false} DecodeBlocksEncode(data: seq<Byte>, offset: nat)
    ensures (EncodeLength(data); DecodeBlocks(Encode(data), offset) == Success(data))
    decreases |data|
  {
    var s := Encode(data);
    if |data| > 3 {
      assert |s| >= 8;
      assert s[..4] == EncodeTriple(data[0], data[1], data[2]);
      assert s[4..] == Encode(data[3..]);
      DecodeEncodeTriple(data[0], data[1], data[2], offset);
      assert data[..3] == [data[0], data[1], data[2]];
      DecodeBlocksEncode(data[3..], offset + 4);
      assert data == data[..3] + data[3..];
    } else if |data| > 0 {
      DecodeEncodeShort(data, offset);
    }
  }

  /** Decoding an encoding gives back the original bytes. */
  lemma {:induction false} DecodeEncode(data: seq<Byte>)
    ensures Decode(Encode(data)) == Success(data)
  {
    var s := Encode(data);
    EncodeLength(data);
    assert Decode(s) == DecodeBlocks(s, 0);
    DecodeBlocksEncode(data, 0);
  }

  /** The bytes rebuilt from four sextets split back into the same sextets. */
  lemma SextetsOfBytes(v0: nat, v1: nat, v2: nat, v3: nat)
    requires v0 < 64 && v1 < 64 && v2 < 64 && v3 < 64
    ensures (v0 * 4 + v1 / 16) / 4 == v0
    ensures (v0 * 4 + v1 / 16) % 4 * 16 + (v1 % 16 * 16 + v2 / 4) / 16 == v1
    ensures (v1 % 16 * 16 + v2 / 4) % 16 * 4 + (v2 % 4 * 64 + v3) / 64 == v2
    ensures (v2 % 4 * 64 + v3) % 64 == v3
  {
    assert (v0 * 4 + v1 / 16) % 4 == v1 / 16;
    assert (v1 % 16 * 16 + v2 / 4) / 16 == v1 % 16;
    assert (v1 % 16 * 16 + v2 / 4) % 16 == v2 / 4;
    assert (v2 % 4 * 64 + v3) / 64 == v2 % 4;
  }

  /** Three bytes rebuilt from four sextets encode back to those sextets. */
  lemma EncodeTripleOfSextets(v0: nat, v1: nat, v2: nat, v3: nat, b0: Byte, b1: Byte, b2: Byte)
    requires v0 < 64 && v1 < 64 && v2 < 64 && v3 < 64
    requires b0 == v0 * 4 + v1 / 16 && b1 == v1 % 16 * 16 + v2 / 4 && b2 == v2 % 4 * 64 + v3
    ensures EncodeTriple(b0, b1, b2) == [Symbol(v0), Symbol(v1), Symbol(v2), Symbol(v3)]
  {
    SextetsOfBytes(v0, v1, v2, v3);
    assert b0 / 4 == v0 && b0 % 4 * 16 + b1 / 16 == v1;
    assert b1 % 16 * 4 + b2 / 64 == v2 && b2 % 64 == v3;
  }

  lemma EncodeDecodeBlock(q: seq<Byte>, offset: nat)
    requires |q| == 4 && DecodeBlock(q, offset).Success?
    ensures var t := DecodeBlock(q, offset).value; EncodeTriple(t[0], t[1], t[2]) == q
  {
    var v0, v1, v2, v3 := SymbolValue(q[0]), SymbolValue(q[1]), SymbolValue(q[2]), SymbolValue(q[3]);
    var t := DecodeBlock(q, offset).value;
    assert t == [v0 * 4 + v1 / 16, v1 % 16 * 16 + v2 / 4, v2 % 4 * 64 + v3];
    EncodeTripleOfSextets(v0, v1, v2, v3, t[0], t[1], t[2]);
    assert Symbol(v0) == q[0] && Symbol(v1) == q[1] && Symbol(v2) == q[2] && Symbol(v3) == q[3] by {
      SymbolOfValue(q[0]);
      SymbolOfValue(q[1]);
      SymbolOfValue(q[2]);
      SymbolOfValue(q[3]);
    }
  }

  lemma EncodeDecodeFullLastBlock(q: seq<Byte>, offset: nat)
    requires |q| == 4 && forall i :: 0 <= i < 4 ==> IsSymbol(q[i])
    ensures DecodeLastBlock(q, offset) == DecodeBlock(q, offset)
    ensures Encode(DecodeLastBlock(q, offset).value) == q
  {
    var t := DecodeBlock(q, offset).value;
    EncodeDecodeBlock(q, offset);
    assert Encode(t[3..]) == [];
    assert Encode(t) == EncodeTriple(t[0], t[1], t[2]);
  }

  /** Two bytes rebuilt from three sextets (the last with its low bits zero)
      encode back to those sextets. */
  lemma EncodePairOfSextets(v0: nat, v1: nat, v2: nat, b0: Byte, b1: Byte)
    requires v0 < 64 && v1 < 64 && v2 < 64 && v2 % 4 == 0
    requires b0 == v0 * 4 + v1 / 16 && b1 == v1 % 16 * 16 + v2 / 4
    ensures EncodePair(b0, b1) == [Symbol(v0), Symbol(v1), Symbol(v2), Pad]
  {
    SextetsOfBytes(v0, v1, v2, 0);
    assert b0 / 4 == v0 && b0 % 4 * 16 + b1 / 16 == v1 && b1 % 16 * 4 == v2;
  }

  /** A last block with one pad decodes to two bytes, the low bits of its
      third symbol being zero. */
  lemma DecodeLastPair(q: seq<Byte>, offset: nat)
    requires |q| == 4 && IsSymbol(q[0]) && IsSymbol(q[1]) && IsSymbol(q[2]) && q[3] == Pad
    requires DecodeLastBlock(q, offset).Success?
    ensures var v0, v1, v2 := SymbolValue(q[0]), SymbolValue(q[1]), SymbolValue(q[2]);
      v2 % 4 == 0 && DecodeLastBlock(q, offset).value == [v0 * 4 + v1 / 16, v1 % 16 * 16 + v2 / 4]
  {
  }

  lemma EncodeDecodeLastPair(q: seq<Byte>, offset: nat)
    requires |q| == 4 && IsSymbol(q[0]) && IsSymbol(q[1]) && IsSymbol(q[2]) && q[3] == Pad
    requires DecodeLastBlock(q, offset).Success?
    ensures Encode(DecodeLastBlock(q, offset).value) == q
  {
    var v0, v1, v2 := SymbolValue(q[0]), SymbolValue(q[1]), SymbolValue(q[2]);
    var t := DecodeLastBlock(q, offset).value;
    DecodeLastPair(q, offset);
    assert Encode(t) == EncodePair(t[0], t[1]);
    EncodePairOfSextets(v0, v1, v2, t[0], t[1]);
    assert q == [Symbol(v0), Symbol(v1), Symbol(v2), Pad] by {
      SymbolOfValue(q[0]);
      SymbolOfValue(q[1]);
      SymbolOfValue(q[2]);
    }
  }

  /** One byte rebuilt from two sextets (the second with its low bits zero)
      encodes back to those sextets. */
  lemma EncodeSingleOfSextets(v0: nat, v1: nat, b0: Byte)
    requires v0 < 64 && v1 < 64 && v1 % 16 == 0
    requires b0 == v0 * 4 + v1 / 16
    ensures EncodeSingle(b0) == [Symbol(v0), Symbol(v1), Pad, Pad]
  {
    SextetsOfBytes(v0, v1, 0, 0);
    assert b0 / 4 == v0 && b0 % 4 * 16 == v1;
  }

  lemma EncodeDecodeLastSingle(q: seq<Byte>, offset: nat)
    requires |q| == 4 && IsSymbol(q[0]) && IsSymbol(q[1]) && q[2] == Pad
    requires DecodeLastBlock(q, offset).Success?
    ensures Encode(DecodeLastBlock(q, offset).value) == q
  {
    var v0, v1 := SymbolValue(q[0]), SymbolValue(q[1]);
    var t := DecodeLastBlock(q, offset).value;
    assert q[3] == Pad && v1 % 16 == 0 && t == [v0 * 4 + v1 / 16];
    assert Encode(t) == EncodeSingle(t[0]);
    EncodeSingleOfSextets(v0, v1, t[0]);
    assert q == [Symbol(v0), Symbol(v1), Pad, Pad] by {
      SymbolOfValue(q[0]);
      SymbolOfValue(q[1]);
    }
  }


  lemma EncodeDecodeLastBlock(q: seq<Byte>, offset: nat)
    requires |q| == 4 && DecodeLastBlock(q, offset).Success?
    ensures Encode(DecodeLastBlock(q, offset).value) == q
  {
    if q[2] == Pad {
      EncodeDecodeLastSingle(q, offset);
    } else if q[3] == Pad {
      EncodeDecodeLastPair(q, offset);
    } else {
      EncodeDecodeFullLastBlock(q, offset);
    }
  }

  lemma {:induction false} EncodeDecodeBlocks(s: seq<Byte>, offset: nat)
    requires |s| % 4 == 0 && DecodeBlocks(s, offset).Success?
    ensures Encode(DecodeBlocks(s, offset).value) == s
    decreases |s|
  {
    if |s| == 4 {
      EncodeDecodeLastBlock(s, offset);
    } else if |s| > 4 {
      var head := DecodeBlock(s[..4], offset).value;
      var rest := DecodeBlocks(s[4..], offset + 4).value;
      var data := DecodeBlocks(s, offset).value;
      assert data == head + rest;
      assert data[3..] == rest;
      EncodeDecodeBlock(s[..4], offset);
      EncodeDecodeBlocks(s[4..], offset + 4);
      assert s == s[..4] + s[4..];
    }
  }

  /** Decoding succeeds only on the canonical padded encoding of its result:
      no two inputs decode to the same bytes. */
  lemma {:induction false} EncodeDecode(s: seq<Byte>)
    requires Decode(s).Success?
    ensures Encode(Decode(s).value) == s
  {
    EncodeDecodeBlocks(s, 0);
  }
}
