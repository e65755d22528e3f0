/** UTF-8 as section 3 of RFC 3629 defines it. */
module Utf8 {
  import opened LittleEndian

  /** A Unicode scalar value: any code point but the surrogates. */
  type Scalar = n: int | 0 <= n < 0xd800 || 0xe000 <= n < 0x11_0000

  /** The byte with six payload bits that continues a character. */
  function Tail(n: nat): Byte {
    ByteOf(0x80 + n % 64)
  }

  function EncodeOne(n: Scalar): (b: Bytes)
    ensures 1 <= |b| <= 4
  {
    if n < 0x80 then [ByteOf(n)]
    else if n < 0x800 then [ByteOf(0xc0 + n / 64), Tail(n)]
    else if n < 0x1_0000 then [ByteOf(0xe0 + n / 4096), Tail(n / 64), Tail(n)]
    else [ByteOf(0xf0 + n / 262144), Tail(n / 4096), Tail(n / 64), Tail(n)]
  }

  function Encode(text: seq<Scalar>): Bytes {
    if text == [] then [] else EncodeOne(text[0]) + Encode(text[1..])
  }

  /** The examples of section 7 of RFC 3629, one character of each length. */
  lemma Examples()
    ensures EncodeOne(0x41) == [0x41] && EncodeOne(0x391) == [0xce, 0x91]
    ensures EncodeOne(0x2262) == [0xe2, 0x89, 0xa2] && EncodeOne(0x2_33b4) == [0xf0, 0xa3, 0x8e, 0xb4]
  {
    hide ByteOf;
    assert EncodeOne(0x41) == [ByteOf(0x41)] && EncodeOne(0x391) == [ByteOf(0xce), ByteOf(0x91)];
    assert EncodeOne(0x2262) == [ByteOf(0xe2), ByteOf(0x89), ByteOf(0xa2)];
    assert EncodeOne(0x2_33b4) == [ByteOf(0xf0), ByteOf(0xa3), ByteOf(0x8e), ByteOf(0xb4)];
    hide EncodeOne;
    SameByte(0x41);
    SameByte(0xce);
    SameByte(0x91);
    SameByte(0xe2);
    SameByte(0x89);
    SameByte(0xa2);
    SameByte(0xf0);
    SameByte(0xa3);
    SameByte(0x8e);
    SameByte(0xb4);
  }

  lemma SameByte(b: Byte)
    ensures ByteOf(b as int) == b
  {
    hide ByteOf;
  }

  predicate IsContinuation(b: Byte) {
    b & 0xc0 == 0x80
  }

  lemma ContinuationRange(b: Byte)
    ensures IsContinuation(b) <==> 0x80 <= b as int < 0xc0
  {
  }

  /** Exactly the bytes after the first one of a character are continuation bytes. */
  lemma Shape(n: Scalar)
    ensures var b := EncodeOne(n); !IsContinuation(b[0]) && forall i :: 1 <= i < |b| ==> IsContinuation(b[i])
  {
    var b := EncodeOne(n);
    hide IsContinuation;
    forall i | 0 <= i < |b|
      ensures IsContinuation(b[i]) <==> i > 0
    {
      ContinuationRange(b[i]);
    }
  }

  /** Position `i` does not lie inside a character. */
  predicate IsBoundary(b: Bytes, i: nat)
    requires i <= |b|
  {
    i == |b| || !IsContinuation(b[i])
  }

  lemma {:induction false} EncodeConcat(a: seq<Scalar>, b: seq<Scalar>)
    ensures Encode(a + b) == Encode(a) + Encode(b)
    decreases |a|
  {
    hide EncodeOne;
    if a == [] {
      assert a + b == b;
    } else {
      EncodeConcat(a[1..], b);
      assert (a + b)[1..] == a[1..] + b;
      assert EncodeOne(a[0]) + (Encode(a[1..]) + Encode(b)) == EncodeOne(a[0]) + Encode(a[1..]) + Encode(b);
    }
  }

  /** Every boundary of an encoded text comes after some number of whole characters. */
  lemma {:induction false} BoundaryIsBetweenCharacters(text: seq<Scalar>, i: nat) returns (k: nat)
    requires i <= |Encode(text)| && IsBoundary(Encode(text), i)
    ensures k <= |text| && Encode(text[..k]) == Encode(text)[..i]
    decreases |text|
  {
    k := 0;
    if i > 0 {
      var first := EncodeOne(text[0]);
      Shape(text[0]);
      hide EncodeOne, IsContinuation;
      var rest := Encode(text[1..]);
      assert Encode(text) == first + rest;
      assert forall j :: 0 <= j < |first| ==> Encode(text)[j] == first[j];
      var j := BoundaryIsBetweenCharacters(text[1..], i - |first|);
      k := j + 1;
      assert text[..k][1..] == text[1..][..j];
      assert Encode(text)[..i] == first + rest[..i - |first|];
    }
  }

  // ---------------------------------------------------------------------
  // Decoding
  // ---------------------------------------------------------------------

  /** How many bytes the character takes that starts with this byte. */
  function LengthOf(lead: int): nat {
    if lead < 0x80 then 1 else if lead < 0xe0 then 2 else if lead < 0xf0 then 3 else 4
  }

  function Bits(b: Byte): int {
    b as int - 0x80
  }

  /** The scalar value of the character at the front; meant for encoded text. */
  function DecodeOne(b: Bytes): int
    requires b != [] && LengthOf(b[0] as int) <= |b|
  {
    var lead := b[0] as int;
    if lead < 0x80 then lead
    else if lead < 0xe0 then (lead - 0xc0) * 64 + Bits(b[1])
    else if lead < 0xf0 then (lead - 0xe0) * 4096 + Bits(b[1]) * 64 + Bits(b[2])
    else (lead - 0xf0) * 262144 + Bits(b[1]) * 4096 + Bits(b[2]) * 64 + Bits(b[3])
  }

  /** The text of a byte string; nothing if it is not encoded text. */
  function Decode(b: Bytes): seq<int>
    decreases |b|
  {
    if b == [] || LengthOf(b[0] as int) > |b| then []
    else [DecodeOne(b)] + Decode(b[LengthOf(b[0] as int)..])
  }

  lemma LengthIsLength(n: Scalar)
    ensures |EncodeOne(n)| == LengthOf(EncodeOne(n)[0] as int)
  {
    if 0x1_0000 <= n {
      assert n / 262144 < 8;
    }
  }

  lemma Sextets(n: nat)
    ensures n == n / 64 * 64 + n % 64
    ensures n / 64 == n / 4096 * 64 + n / 64 % 64
    ensures n / 4096 == n / 262144 * 64 + n / 4096 % 64
  {
    assert n / 64 / 64 == n / 4096 && n / 4096 / 64 == n / 262144;
  }

  lemma DecodesAlone(n: Scalar)
    ensures LengthOf(EncodeOne(n)[0] as int) == |EncodeOne(n)|
    ensures DecodeOne(EncodeOne(n)) == n
  {
    hide ByteOf;
    Sextets(n);
    LengthIsLength(n);
  }

  /** Only the bytes of the first character count. */
  lemma DecodesFront(b: Bytes, rest: Bytes)
    requires b != [] && LengthOf(b[0] as int) <= |b|
    ensures DecodeOne(b + rest) == DecodeOne(b) && (b + rest)[0] == b[0]
  {
    hide Bits;
    assert forall i :: 0 <= i < |b| ==> (b + rest)[i] == b[i];
  }

  lemma DecodesOne(n: Scalar, rest: Bytes)
    ensures LengthOf((EncodeOne(n) + rest)[0] as int) == |EncodeOne(n)|
    ensures DecodeOne(EncodeOne(n) + rest) == n
  {
    hide EncodeOne, DecodeOne, LengthOf;
    DecodesAlone(n);
    DecodesFront(EncodeOne(n), rest);
  }

  /** Decoding inverts encoding. */
  lemma {:induction false} DecodesEncoded(text: seq<Scalar>)
    ensures Decode(Encode(text)) == text
  {
    if text != [] {
      var rest := Encode(text[1..]);
      DecodesOne(text[0], rest);
      hide EncodeOne, DecodeOne, LengthOf;
      var b := EncodeOne(text[0]) + rest;
      assert b[|EncodeOne(text[0])|..] == rest;
      DecodesEncoded(text[1..]);
    }
  }
}
