/** The byte encoding of Groth16 proofs, between the SDK that writes it and the
    relayer that reads it back. */
module ProofCodec {
  import opened Outcomes

  const FIELD_PRIME: nat := 21888242871839275222246405745257275088696311157297823662689037894645226208583

  type Byte = b: nat | b < 256
  type Nibble = d: nat | d < 16

  function Pow256(n: nat): nat {
    if n == 0 then 1 else 256 * Pow256(n - 1)
  }

  function Pow16(n: nat): nat {
    if n == 0 then 1 else 16 * Pow16(n - 1)
  }

  // ---------- numbers ----------

  /** The n low big-endian bytes of v. */
  function ToBytes(v: nat, n: nat): (s: seq<Byte>)
    ensures |s| == n
  {
    if n == 0 then [] else ToBytes(v / 256, n - 1) + [v % 256]
  }

  function BytesToBigint(bytes: seq<Byte>): nat {
    if bytes == [] then 0
    else BytesToBigint(bytes[..|bytes| - 1]) * 256 + bytes[|bytes| - 1]
  }

  lemma {:induction false} BytesRoundTrip(v: nat, n: nat)
    requires v < Pow256(n)
    ensures BytesToBigint(ToBytes(v, n)) == v
  {
    if n > 0 {
      BytesRoundTrip(v / 256, n - 1);
      assert ToBytes(v, n)[..n - 1] == ToBytes(v / 256, n - 1);
    }
  }

  /** The encoding is onto as well: reading and writing back gives the bytes. */
  lemma {:induction false} BigintRoundTrip(bytes: seq<Byte>)
    ensures BytesToBigint(bytes) < Pow256(|bytes|)
    ensures ToBytes(BytesToBigint(bytes), |bytes|) == bytes
  {
    if bytes != [] {
      BigintRoundTrip(bytes[..|bytes| - 1]);
    }
  }

  // ---------- the hexadecimal detour of bigintToBytes ----------

  /** Hexadecimal digits without leading zeros; zero has one digit. */
  function HexDigits(v: nat): (s: seq<Nibble>)
    ensures |s| > 0
  {
    if v < 16 then [v] else HexDigits(v / 16) + [v % 16]
  }

  function PadStart(digits: seq<Nibble>, n: nat): seq<Nibble> {
    if |digits| >= n then digits else seq(n - |digits|, _ => 0) + digits
  }

  /** The n low hexadecimal digits of v. */
  function Nibbles(v: nat, n: nat): (s: seq<Nibble>)
    ensures |s| == n
  {
    if n == 0 then [] else Nibbles(v / 16, n - 1) + [v % 16]
  }

  lemma {:induction false} NibblesOfZero(n: nat)
    ensures Nibbles(0, n) == seq(n, _ => 0)
  {
    if n > 0 {
      NibblesOfZero(n - 1);
    }
  }

  lemma {:induction false} PaddedDigits(v: nat, n: nat)
    requires n > 0 && v < Pow16(n)
    ensures |HexDigits(v)| <= n
    ensures PadStart(HexDigits(v), n) == Nibbles(v, n)
  {
    if v < 16 {
      NibblesOfZero(n - 1);
      assert PadStart([v], n) == seq(n - 1, _ => 0) + [v];
    } else {
      PaddedDigits(v / 16, n - 1);
      assert PadStart(HexDigits(v), n) == PadStart(HexDigits(v / 16), n - 1) + [v % 16];
    }
  }

  function ByteOf(high: Nibble, low: Nibble): Byte {
    var h: nat := high;
    h * 16 + low
  }

  /** Digits taken two at a time. */
  function Pairs(digits: seq<Nibble>): (s: seq<Byte>)
    requires |digits| % 2 == 0
    ensures |s| == |digits| / 2
  {
    if digits == [] then []
    else Pairs(digits[..|digits| - 2]) + [ByteOf(digits[|digits| - 2], digits[|digits| - 1])]
  }

  lemma {:induction false} PairsAreBytes(v: nat, n: nat)
    ensures Pairs(Nibbles(v, 2 * n)) == ToBytes(v, n)
  {
    if n > 0 {
      PairsAreBytes(v / 256, n - 1);
      var digits := Nibbles(v, 2 * n);
      assert digits == Nibbles(v / 16 / 16, 2 * n - 2) + [v / 16 % 16] + [v % 16];
      assert v / 16 / 16 == v / 256;
      assert digits[..2 * n - 2] == Nibbles(v / 256, 2 * n - 2);
      assert v / 16 % 16 * 16 + v % 16 == v % 256;
    }
  }

  lemma {:induction false} PowersAgree(n: nat)
    ensures Pow16(2 * n) == Pow256(n)
  {
    if n > 0 {
      PowersAgree(n - 1);
    }
  }

  lemma {:induction false} DigitsFit(v: nat)
    ensures v < Pow16(|HexDigits(v)|)
    ensures v >= 16 ==> Pow16(|HexDigits(v)| - 1) <= v
  {
    if v >= 16 {
      DigitsFit(v / 16);
      assert v / 16 < 16 ==> |HexDigits(v / 16)| == 1;
    }
  }

  /** The bytes written for a value: exactly `length` if it fits, else its digits
      in pairs from the front, a last odd digit on its own. */
  function Written(value: nat, length: nat): seq<Byte> {
    var n := |HexDigits(value)|;
    if n <= 2 * length then ToBytes(value, length)
    else if n % 2 == 0 then ToBytes(value, n / 2)
    else ToBytes(value / 16, n / 2) + [value % 16]
  }

  lemma {:induction false} PowersGrow(m: nat, n: nat)
    requires m <= n
    ensures Pow16(m) <= Pow16(n)
  {
    if m < n {
      PowersGrow(m, n - 1);
    }
  }

  lemma FitsIffDigitsFit(value: nat, length: nat)
    requires length > 0
    ensures |HexDigits(value)| <= 2 * length <==> value < Pow256(length)
  {
    PowersAgree(length);
    DigitsFit(value);
    if |HexDigits(value)| <= 2 * length {
      PowersGrow(|HexDigits(value)|, 2 * length);
    } else if value >= 16 {
      PowersGrow(2 * length, |HexDigits(value)| - 1);
    }
  }

  lemma BytesThenOne(high: seq<Byte>, low: Byte)
    ensures BytesToBigint(high + [low]) == BytesToBigint(high) * 256 + low
  {
    assert (high + [low])[..|high|] == high;
  }

  lemma DigitsRoundTrip(v: nat, n: nat)
    requires |HexDigits(v)| <= 2 * n
    ensures BytesToBigint(ToBytes(v, n)) == v
  {
    DigitsFit(v);
    PowersGrow(|HexDigits(v)|, 2 * n);
    PowersAgree(n);
    BytesRoundTrip(v, n);
  }

  /** A value survives the writing exactly when it fits, or has an even number of
      digits, or has just one. */
  lemma WrittenRoundTripIff(value: nat, length: nat)
    ensures BytesToBigint(Written(value, length)) == value
       <==> |HexDigits(value)| <= 2 * length || |HexDigits(value)| % 2 == 0 || value < 16
  {
    var n := |HexDigits(value)|;
    if n <= 2 * length {
      DigitsRoundTrip(value, length);
    } else if n % 2 == 0 {
      DigitsRoundTrip(value, n / 2);
    } else {
      BytesThenOne(ToBytes(value / 16, n / 2), value % 16);
      if value >= 16 {
        DigitsRoundTrip(value / 16, n / 2);
      }
    }
  }

  lemma PaddedPairs(value: nat, n: nat)
    requires n > 0 && |HexDigits(value)| <= 2 * n
    ensures PadStart(HexDigits(value), 2 * n) == Nibbles(value, 2 * n)
    ensures Pairs(PadStart(HexDigits(value), 2 * n)) == ToBytes(value, n)
  {
    DigitsFit(value);
    PowersGrow(|HexDigits(value)|, 2 * n);
    PaddedDigits(value, 2 * n);
    PairsAreBytes(value, n);
  }

  /** The digits of a value, padded, are those of its bytes. */
  lemma DigitsOfWritten(value: nat, length: nat)
    ensures var hex := PadStart(HexDigits(value), length * 2);
            Written(value, length)
            == if |hex| % 2 == 0 then Pairs(hex) else Pairs(hex[..|hex| - 1]) + [hex[|hex| - 1]]
  {
    var n := |HexDigits(value)|;
    if n <= 2 * length {
      PaddedPairs(value, length);
    } else if n % 2 == 0 {
      PaddedPairs(value, n / 2);
    } else {
      OddDigitsOfWritten(value);
    }
  }

  lemma OddDigitsOfWritten(value: nat)
    requires |HexDigits(value)| % 2 == 1
    ensures var hex := HexDigits(value);
            Pairs(hex[..|hex| - 1]) == ToBytes(value / 16, |hex| / 2) && hex[|hex| - 1] == value % 16
  {
    var hex := HexDigits(value);
    if value >= 16 {
      PaddedPairs(value / 16, |hex| / 2);
      assert hex[..|hex| - 1] == HexDigits(value / 16);
    }
  }

  lemma PairsGrow(digits: seq<Nibble>, i: nat)
    requires i % 2 == 0 && i + 1 < |digits|
    ensures Pairs(digits[..i + 2]) == Pairs(digits[..i]) + [ByteOf(digits[i], digits[i + 1])]
  {
    assert digits[..i + 2][..i] == digits[..i];
  }

  /** The loop takes the padded digits two at a time; the last slice may be short. */
  method BigintToBytes(value: nat, length: nat) returns (bytes: seq<Byte>)
    ensures bytes == Written(value, length)
    ensures length > 0 && value < Pow256(length) ==> bytes == ToBytes(value, length)
  {
    var hex := PadStart(HexDigits(value), length * 2);
    bytes := [];
    var i := 0;
    while i + 1 < |hex|
      invariant 0 <= i <= |hex| && i % 2 == 0
      invariant bytes == Pairs(hex[..i])
    {
      PairsGrow(hex, i);
      bytes := bytes + [ByteOf(hex[i], hex[i + 1])];
      i := i + 2;
    }
    if i < |hex| {
      bytes := bytes + [hex[i]];
    } else {
      assert hex[..i] == hex;
    }
    DigitsOfWritten(value, length);
    if length > 0 {
      FitsIffDigitsFit(value, length);
    }
  }

  // ---------- proofs ----------

  /** The coordinates of the three points; the second point has two limbs a coordinate. */
  datatype Proof = Proof(ax: int, ay: int, bx0: int, bx1: int, by0: int, by1: int, cx: int, cy: int)

  predicate InField(p: Proof) {
    && 0 <= p.ax < FIELD_PRIME && 0 <= p.ay < FIELD_PRIME
    && 0 <= p.bx0 < FIELD_PRIME && 0 <= p.bx1 < FIELD_PRIME && 0 <= p.by0 < FIELD_PRIME && 0 <= p.by1 < FIELD_PRIME
    && 0 <= p.cx < FIELD_PRIME && 0 <= p.cy < FIELD_PRIME
  }

  lemma PrimeFits()
    ensures FIELD_PRIME < Pow256(32)
  {
    assert Pow256(8) == 0x1_0000_0000_0000_0000;
    assert Pow256(16) == 0x1_0000_0000_0000_0000_0000_0000_0000_0000;
    assert Pow256(24) == 0x1_0000_0000_0000_0000_0000_0000_0000_0000_0000_0000_0000_0000;
  }

  /** The first point, its y negated. */
  function EncodedA(p: Proof): (s: seq<Byte>)
    requires InField(p)
    ensures |s| == 64
  {
    ToBytes(p.ax, 32) + ToBytes(FIELD_PRIME - p.ay, 32)
  }

  /** The second point, its limbs swapped. */
  function EncodedB(p: Proof): (s: seq<Byte>)
    requires InField(p)
    ensures |s| == 128
  {
    (ToBytes(p.bx1, 32) + ToBytes(p.bx0, 32)) + (ToBytes(p.by1, 32) + ToBytes(p.by0, 32))
  }

  function EncodedC(p: Proof): (s: seq<Byte>)
    requires InField(p)
    ensures |s| == 64
  {
    ToBytes(p.cx, 32) + ToBytes(p.cy, 32)
  }

  function Encoded(p: Proof): (s: seq<Byte>)
    requires InField(p)
    ensures |s| == 256
  {
    EncodedA(p) + EncodedB(p) + EncodedC(p)
  }

  method NegateG1Y(proofA: seq<Byte>) returns (negated: seq<Byte>)
    requires |proofA| == 64 && BytesToBigint(proofA[32..]) <= FIELD_PRIME
    ensures negated == proofA[..32] + ToBytes(FIELD_PRIME - BytesToBigint(proofA[32..]), 32)
  {
    var yBytes := proofA[32..64];
    var y: nat := 0;
    var i := 0;
    while i < |yBytes|
      invariant 0 <= i <= |yBytes|
      invariant y == BytesToBigint(yBytes[..i])
    {
      assert yBytes[..i + 1][..i] == yBytes[..i];
      y := y * 256 + yBytes[i];
      i := i + 1;
    }
    assert yBytes[..i] == proofA[32..];
    PrimeFits();
    var tail := BigintToBytes(FIELD_PRIME - y, 32);
    negated := proofA[..32] + tail;
  }

  method TwoWords(first: nat, second: nat) returns (bytes: seq<Byte>)
    requires first < FIELD_PRIME && second < FIELD_PRIME
    ensures bytes == ToBytes(first, 32) + ToBytes(second, 32)
  {
    PrimeFits();
    var head := BigintToBytes(first, 32);
    var tail := BigintToBytes(second, 32);
    bytes := head + tail;
  }

  lemma CoordinateRoundTrip(v: nat)
    requires v < FIELD_PRIME
    ensures BytesToBigint(ToBytes(v, 32)) == v
  {
    PrimeFits();
    BytesRoundTrip(v, 32);
  }

  lemma Words(first: seq<Byte>, second: seq<Byte>)
    requires |first| == |second| == 32
    ensures (first + second)[..32] == first && (first + second)[32..] == second
  {
  }

  method FormatA(p: Proof) returns (a: seq<Byte>)
    requires InField(p)
    ensures a == EncodedA(p)
  {
    var plain := TwoWords(p.ax, p.ay);
    Words(ToBytes(p.ax, 32), ToBytes(p.ay, 32));
    CoordinateRoundTrip(p.ay);
    a := NegateG1Y(plain);
  }

  method FormatProofForSolana(p: Proof) returns (a: seq<Byte>, b: seq<Byte>, c: seq<Byte>)
    requires InField(p)
    ensures a == EncodedA(p) && b == EncodedB(p) && c == EncodedC(p)
    ensures a + b + c == Encoded(p)
  {
    a := FormatA(p);
    var x := TwoWords(p.bx1, p.bx0);
    var y := TwoWords(p.by1, p.by0);
    b := x + y;
    c := TwoWords(p.cx, p.cy);
  }

  /** The source's remainder, which keeps the sign of its first operand. */
  function Remainder(x: int, m: nat): int
    requires m > 0
  {
    if x >= 0 then x % m else -((-x) % m)
  }

  function Word(bytes: seq<Byte>, i: nat): nat
    requires |bytes| == 256 && i < 8
  {
    BytesToBigint(bytes[32 * i..32 * (i + 1)])
  }

  lemma RemainderOfSmall(x: nat, m: nat)
    requires x < m
    ensures Remainder(x, m) == x
  {
  }

  function DecodeSolanaProof(bytes: seq<Byte>): Option<Proof> {
    if |bytes| != 256 then None
    else Some(Proof(
      Word(bytes, 0), Remainder(FIELD_PRIME - Word(bytes, 1), FIELD_PRIME),
      Word(bytes, 3), Word(bytes, 2), Word(bytes, 5), Word(bytes, 4),
      Word(bytes, 6), Word(bytes, 7)))
  }

  /** A proof is decoded exactly when it has 256 bytes, and then the two limbs of
      each coordinate of the second point change places and the sign of y turns. */
  lemma DecodedIff(bytes: seq<Byte>)
    ensures DecodeSolanaProof(bytes).Some? <==> |bytes| == 256
    ensures |bytes| == 256 ==>
              var p := DecodeSolanaProof(bytes).value;
              && ToBytes(p.ax, 32) == bytes[0..32]
              && ToBytes(p.bx1, 32) + ToBytes(p.bx0, 32) == bytes[64..128]
              && ToBytes(p.by1, 32) + ToBytes(p.by0, 32) == bytes[128..192]
              && ToBytes(p.cx, 32) + ToBytes(p.cy, 32) == bytes[192..256]
  {
    if |bytes| == 256 {
      BigintRoundTrip(bytes[0..32]);
      TwoWordsBack(bytes, 2);
      TwoWordsBack(bytes, 4);
      TwoWordsBack(bytes, 6);
    }
  }

  lemma TwoWordsBack(bytes: seq<Byte>, i: nat)
    requires |bytes| == 256 && i < 7
    ensures ToBytes(Word(bytes, i), 32) + ToBytes(Word(bytes, i + 1), 32) == bytes[32 * i..32 * (i + 2)]
  {
    BigintRoundTrip(bytes[32 * i..32 * (i + 1)]);
    BigintRoundTrip(bytes[32 * (i + 1)..32 * (i + 2)]);
    assert bytes[32 * i..32 * (i + 2)] == bytes[32 * i..32 * (i + 1)] + bytes[32 * (i + 1)..32 * (i + 2)];
  }

  lemma WordOfA(p: Proof)
    requires InField(p)
    ensures Word(Encoded(p), 0) == p.ax && Word(Encoded(p), 1) == FIELD_PRIME - p.ay
  {
    PrimeFits();
    assert Encoded(p)[0..32] == ToBytes(p.ax, 32);
    assert Encoded(p)[32..64] == ToBytes(FIELD_PRIME - p.ay, 32);
    BytesRoundTrip(p.ax, 32);
    BytesRoundTrip(FIELD_PRIME - p.ay, 32);
  }

  lemma WordOfB(p: Proof)
    requires InField(p)
    ensures Word(Encoded(p), 2) == p.bx1 && Word(Encoded(p), 3) == p.bx0
    ensures Word(Encoded(p), 4) == p.by1 && Word(Encoded(p), 5) == p.by0
  {
    PrimeFits();
    var s := Encoded(p);
    assert s[64..192] == EncodedB(p);
    assert s[64..96] == ToBytes(p.bx1, 32);
    assert s[96..128] == ToBytes(p.bx0, 32);
    assert s[128..160] == ToBytes(p.by1, 32);
    assert s[160..192] == ToBytes(p.by0, 32);
    BytesRoundTrip(p.bx1, 32);
    BytesRoundTrip(p.bx0, 32);
    BytesRoundTrip(p.by1, 32);
    BytesRoundTrip(p.by0, 32);
  }

  lemma WordOfC(p: Proof)
    requires InField(p)
    ensures Word(Encoded(p), 6) == p.cx && Word(Encoded(p), 7) == p.cy
  {
    PrimeFits();
    assert Encoded(p)[192..224] == ToBytes(p.cx, 32);
    assert Encoded(p)[224..256] == ToBytes(p.cy, 32);
    BytesRoundTrip(p.cx, 32);
    BytesRoundTrip(p.cy, 32);
  }

  /** Round trip: the relayer reads back the points the prover produced, the
      point with y = 0 included. */
  lemma ProofRoundTrip(p: Proof)
    requires InField(p)
    ensures DecodeSolanaProof(Encoded(p)) == Some(p)
  {
    WordOfA(p);
    WordOfB(p);
    WordOfC(p);
    RemainderOfSmall(p.ay, FIELD_PRIME);
  }
}
