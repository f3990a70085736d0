/**
  Byte orders and powers (libhilti/int.c), and the binary decoding of bytes objects that builds on them
  (hlt_bytes_to_uint_binary and hlt_bytes_to_int_binary in libhilti/bytes.c).
*/
module Integers {
  import opened Sequences
  import opened Wrappers
  import opened ByteStream

  type Octet = x: int | 0 <= x < 256

  const TWO31 := 0x8000_0000
  const TWO32 := 0x1_0000_0000
  const TWO63 := 0x8000_0000_0000_0000
  const TWO64 := 0x1_0000_0000_0000_0000

  // The int64_t with the given bits.
  function Signed64(v: int): int {
    if v % TWO64 < TWO63 then v % TWO64 else v % TWO64 - TWO64
  }

  // The uint8_t that a signed byte converts to.
  function Unsigned(b: Byte): Octet {
    if b < 0 then b + 256 else b
  }

  function UnsignedAll(s: seq<Byte>): (r: seq<Octet>)
    ensures |r| == |s|
  {
    seq(|s|, i requires 0 <= i < |s| => Unsigned(s[i]))
  }

  // ----- Numbers as digit sequences, most significant first

  function Pow256(n: nat): (p: nat)
    ensures p >= 1
  {
    if n == 0 then 1 else 256 * Pow256(n - 1)
  }

  function Big(s: seq<Octet>): (v: nat)
    ensures v < Pow256(|s|)
  {
    if s == [] then 0 else 256 * Big(s[..|s| - 1]) + s[|s| - 1]
  }

  function Digits(v: nat, n: nat): (s: seq<Octet>)
    ensures |s| == n
  {
    if n == 0 then [] else Digits(v / 256, n - 1) + [v % 256]
  }

  function Zeros(k: nat): seq<Octet> {
    seq(k, i => 0)
  }

  lemma {:induction false} BigDigits(v: nat, n: nat)
    requires v < Pow256(n)
    ensures Big(Digits(v, n)) == v
  {
    if n > 0 {
      BigDigits(v / 256, n - 1);
      assert Digits(v, n)[..n - 1] == Digits(v / 256, n - 1);
    }
  }

  // The eight digits of a shorter number are its own digits behind leading zeros.
  lemma {:induction false} DigitsBig(s: seq<Octet>, n: nat)
    requires |s| <= n
    ensures Digits(Big(s), n) == Zeros(n - |s|) + s
  {
    if n == 0 {
    } else if s == [] {
      DigitsBig(s, n - 1);
      assert Zeros(n - 1) + [0] == Zeros(n);
    } else {
      var t := s[..|s| - 1];
      DigitsBig(t, n - 1);
      assert Big(s) / 256 == Big(t) && Big(s) % 256 == s[|s| - 1];
      assert t + [s[|s| - 1]] == s;
      assert Zeros(n - |s|) + t + [s[|s| - 1]] == Zeros(n - |s|) + s;
    }
  }

  lemma {:induction false} BigShift(s: seq<Octet>, k: nat)
    ensures Big(s + Zeros(k)) == Big(s) * Pow256(k)
  {
    if k == 0 {
      assert s + Zeros(0) == s;
    } else {
      BigShift(s, k - 1);
      var t := s + Zeros(k);
      assert t[..|t| - 1] == s + Zeros(k - 1) && t[|t| - 1] == 0;
      MulSwap(256, Big(s), Pow256(k - 1));
    }
  }

  lemma MulSwap(a: int, b: int, c: int)
    ensures a * (b * c) == b * (a * c)
  {
  }

  lemma MulDiv(v: nat, k: nat)
    requires k < 8
    ensures v * Pow256(k) / Pow256(k) == v
  {
    Pow256Table();
    match k
    case 0 =>
    case 1 => assert v * 0x100 / 0x100 == v;
    case 2 => assert v * 0x1_0000 / 0x1_0000 == v;
    case 3 => assert v * 0x100_0000 / 0x100_0000 == v;
    case 4 => assert v * TWO32 / TWO32 == v;
    case 5 => assert v * 0x100_0000_0000 / 0x100_0000_0000 == v;
    case 6 => assert v * 0x1_0000_0000_0000 / 0x1_0000_0000_0000 == v;
    case _ => assert v * 0x100_0000_0000_0000 / 0x100_0000_0000_0000 == v;
  }

  // ----- hlt_flip64 and hlt_int_flip

  function Flip64(v: nat): nat
    requires v < TWO64
  {
    Big(Reversed(Digits(v, 8)))
  }

  // The n low bytes of v, in reverse order; the shift drops what were the high ones.
  function IntFlip(v: nat, n: nat): nat
    requires v < TWO64 && 1 <= n <= 8
  {
    Flip64(v) / Pow256(8 - n)
  }

  lemma Pow256Table()
    ensures Pow256(1) == 0x100 && Pow256(2) == 0x1_0000 && Pow256(3) == 0x100_0000 && Pow256(4) == TWO32
    ensures Pow256(5) == 0x100_0000_0000 && Pow256(6) == 0x1_0000_0000_0000
    ensures Pow256(7) == 0x100_0000_0000_0000 && Pow256(8) == TWO64
  {
  }

  lemma PowMonotone(m: nat, n: nat)
    requires m <= n
    ensures Pow256(m) <= Pow256(n)
  {
  }

  // Flipping an n-byte number reverses its bytes.
  lemma FlipReverses(s: seq<Octet>)
    requires 1 <= |s| <= 8
    ensures Big(s) < TWO64 && IntFlip(Big(s), |s|) == Big(Reversed(s))
  {
    hide Big, Digits, Reversed, Pow256, Flip64;
    var k := 8 - |s|;
    assert Big(s) < TWO64 by {
      PowMonotone(|s|, 8);
      Pow256Table();
    }
    Flip64Shifts(s, k);
    Quotient(Flip64(Big(s)), Big(Reversed(s)), k);
  }

  lemma Quotient(v: nat, x: nat, k: nat)
    requires k < 8 && v == x * Pow256(k)
    ensures v / Pow256(k) == x
  {
    MulDiv(x, k);
  }

  lemma Flip64Shifts(s: seq<Octet>, k: nat)
    requires k + |s| == 8 && Big(s) < TWO64
    ensures Flip64(Big(s)) == Big(Reversed(s)) * Pow256(k)
  {
    hide Big, Digits, Reversed, Pow256;
    DigitsBig(s, 8);
    assert Reversed(Zeros(k) + s) == Reversed(s) + Zeros(k);
    BigShift(Reversed(s), k);
  }

  // On n-byte numbers, flipping twice changes nothing.
  lemma FlipInvolution(v: nat, n: nat)
    requires 1 <= n <= 8 && v < Pow256(n)
    ensures v < TWO64 && IntFlip(v, n) < Pow256(n) && IntFlip(v, n) < TWO64
    ensures IntFlip(IntFlip(v, n), n) == v
  {
    PowMonotone(n, 8);
    Pow256Table();
    var s := Digits(v, n);
    BigDigits(v, n);
    FlipReverses(s);
    FlipReverses(Reversed(s));
    assert Reversed(Reversed(s)) == s;
  }

  // ----- Binary decoding

  // What the source's decoding computes before it looks at the sign: the digits in the given order.
  function Decoded(s: seq<Octet>, little: bool): nat {
    Big(if little then Reversed(s) else s)
  }

  // v is the number with these bytes: byte k has the weight 256^k if the order is little-endian, and otherwise the
  // weight 256^(n - 1 - k).
  ghost predicate Reads(v: int, x: seq<Byte>, little: bool) {
    && 0 <= v < Pow256(|x|)
    && forall k | 0 <= k < |x| :: ByteAt(v, if little then k else |x| - 1 - k) == Unsigned(x[k])
  }

  // The byte of the given weight
  function ByteAt(v: nat, k: nat): nat {
    v / Pow256(k) % 256
  }

  lemma {:induction false} BigByteAt(s: seq<Octet>, k: nat)
    requires k < |s| <= 8
    ensures ByteAt(Big(s), |s| - 1 - k) == s[k]
  {
    if k < |s| - 1 {
      BigByteAt(s[..|s| - 1], k);
      ShiftTwice(Big(s), |s| - 2 - k);
      assert Big(s) / 256 == Big(s[..|s| - 1]);
    }
  }

  lemma ShiftTwice(v: nat, k: nat)
    requires k < 7
    ensures v / Pow256(k + 1) == v / 256 / Pow256(k)
  {
    Pow256Table();
    match k
    case 0 =>
    case 1 => assert v / 0x1_0000 == v / 256 / 0x100;
    case 2 => assert v / 0x100_0000 == v / 256 / 0x1_0000;
    case 3 => assert v / TWO32 == v / 256 / 0x100_0000;
    case 4 => assert v / 0x100_0000_0000 == v / 256 / TWO32;
    case 5 => assert v / 0x1_0000_0000_0000 == v / 256 / 0x100_0000_0000;
    case _ => assert v / 0x100_0000_0000_0000 == v / 256 / 0x1_0000_0000_0000;
  }

  lemma DecodedReads(x: seq<Byte>, little: bool)
    requires |x| <= 8
    ensures Reads(Decoded(UnsignedAll(x), little), x, little)
  {
    var u := UnsignedAll(x);
    var t := if little then Reversed(u) else u;
    forall k | 0 <= k < |x|
      ensures ByteAt(Big(t), if little then k else |x| - 1 - k) == u[k]
    {
      BigByteAt(t, if little then |x| - 1 - k else k);
    }
    hide Big, ByteAt, UnsignedAll, Reversed;
    assert Decoded(u, little) == Big(t);
    assert forall k | 0 <= k < |x| :: u[k] == Unsigned(x[k]);
  }

  // The reading of an n-byte number in two's complement.
  function TwosComplement(v: nat, n: nat): int
    requires n >= 1
  {
    if 2 * v < Pow256(n) then v else v - Pow256(n)
  }

  // What the two's complement is: the number of the range with the same low bytes.
  lemma Congruence(v: nat, n: nat)
    requires 1 <= n <= 8 && v < Pow256(n)
    ensures var x, p: int := TwosComplement(v, n), Pow256(n); -p <= 2 * x < p && x % p == v
  {
    hide Pow256;
    Pow256Table();
    match n
    case 1 => assert (v - 0x100) % 0x100 == v;
    case 2 => assert (v - 0x1_0000) % 0x1_0000 == v;
    case 3 => assert (v - 0x100_0000) % 0x100_0000 == v;
    case 4 => assert (v - TWO32) % TWO32 == v;
    case 5 => assert (v - 0x100_0000_0000) % 0x100_0000_0000 == v;
    case 6 => assert (v - 0x1_0000_0000_0000) % 0x1_0000_0000_0000 == v;
    case 7 => assert (v - 0x100_0000_0000_0000) % 0x100_0000_0000_0000 == v;
    case _ => assert (v - TWO64) % TWO64 == v;
  }

  // The loop that both functions share. The shift leaves the low eight bits zero, so that the `|` adds.
  method Accumulate(b: Chunk, ghost s: Stream) returns (i: nat)
    requires Valid(s) && Head(s, b)
    ensures 0 <= First(s) <= |s.hist| && i == Big(UnsignedAll(Content(s)))
  {
    hide Valid, WellFormed;
    i := 0;
    var cur := Begin(b, s);
    ghost var u := UnsignedAll(Content(s));
    ghost var k := 0;
    assert u[..0] == [];
    while true
      invariant cur.bytes != null && Normal(s, cur) && Pos(s, cur) == First(s) + k && 0 <= k <= |u|
      invariant i == Big(u[..k])
      decreases |u| - k
    {
      var end := IsEnd(cur, s);
      if end {
        break;
      }
      var ch := Peek(cur, s);
      assert Unsigned(ch) == u[k] && u[..k + 1][..k] == u[..k];
      i := 256 * i + Unsigned(ch);
      cur := Incr(cur, s);
      k := k + 1;
    }
    assert u[..k] == u;
  }

  // hlt_bytes_to_uint_binary. The result is an int64_t, so that eight bytes can make it negative. Flipping no
  // bytes at all is undefined in the source: it shifts by the full width.
  method ToUintBinary(b: Chunk, little: bool, ghost s: Stream) returns (r: Result<int, Problem>)
    requires Valid(s) && Head(s, b) && (little ==> First(s) < |s.hist|)
    ensures 0 <= First(s) <= |s.hist|
    ensures r == if |s.hist| - First(s) > 8 then Err(ValueError)
                 else Ok(Signed64(Decoded(UnsignedAll(Content(s)), little)))
    ensures r.Ok? ==> -TWO63 <= r.value < TWO63 && Reads(r.value % TWO64, Content(s), little)
  {
    var len := Len(b, s);
    Walked(s, b);
    if len > 8 {
      return Err(ValueError);
    }
    DecodedReads(Content(s), little);
    var i := Accumulate(b, s);
    if little {
      FlipReverses(UnsignedAll(Content(s)));
      i := IntFlip(i, len);
    }
    FitsEight(i, len);
    return Ok(Signed64(i));
  }

  // hlt_bytes_to_int_binary: the two's-complement reading of what hlt_bytes_to_uint_binary decodes. Without any
  // bytes, the source's test of the sign bit is undefined.
  method ToIntBinary(b: Chunk, little: bool, ghost s: Stream) returns (r: Result<int, Problem>)
    requires Valid(s) && Head(s, b) && First(s) < |s.hist|
    ensures 0 <= First(s) <= |s.hist|
    ensures r == if |s.hist| - First(s) > 8 then Err(ValueError)
                 else Ok(TwosComplement(Decoded(UnsignedAll(Content(s)), little), |s.hist| - First(s)))
    ensures r.Ok? ==> var p: int := Pow256(|Content(s)|);
      -p <= 2 * r.value < p && Reads(r.value % p, Content(s), little)
  {
    var len := Len(b, s);
    Walked(s, b);
    if len > 8 {
      return Err(ValueError);
    }
    DecodedReads(Content(s), little);
    var i := Accumulate(b, s);
    FlipReverses(UnsignedAll(Content(s)));
    if little {
      i := IntFlip(i, len);
    }
    r := Ok(SignExtended(i, len));
    Congruence(i, len);
  }

  // The end of hlt_bytes_to_int_binary, on the int64_t with the bits of i. If the sign bit is set, -(~i + 1)
  // gives back the int64_t itself, and i ^ (2^bits - 1) is 2^bits - 1 - i.
  function SignExtended(i: nat, n: nat): (r: int)
    requires 1 <= n <= 8 && i < Pow256(n)
    ensures r == TwosComplement(i, n)
  {
    Pow256Table();
    if i / SignBit(n) % 2 == 1 then
      if n == 8 then Signed64(i) else -(Pow256(n) - 1 - i) - 1
    else
      Signed64(i)
  }

  function SignBit(n: nat): (b: nat)
    requires 1 <= n <= 8
    ensures b > 0 && 2 * b == Pow256(n)
  {
    Pow256Table();
    [0x80, 0x8000, 0x80_0000, 0x8000_0000, 0x80_0000_0000, 0x8000_0000_0000, 0x80_0000_0000_0000, TWO63][n - 1]
  }

  lemma Mirrored(x: seq<Byte>, y: seq<Byte>)
    requires y == Reversed(x)
    ensures UnsignedAll(y) == Reversed(UnsignedAll(x)) && Reversed(UnsignedAll(y)) == UnsignedAll(x)
  {
    hide Reversed;
  }

  // Little-endian is big-endian of the bytes in opposite order.
  lemma OppositeOrder(x: seq<Byte>, y: seq<Byte>, little: bool)
    requires y == Reversed(x)
    ensures |y| == |x| && Decoded(UnsignedAll(x), little) == Decoded(UnsignedAll(y), !little)
    ensures Decoded(UnsignedAll(x), little) < Pow256(|x|)
  {
    Mirrored(x, y);
    hide Big, Reversed, UnsignedAll, Pow256;
  }

  // Two objects, in whatever chunks, with the same bytes in opposite order: the one read in little-endian order is the
  // other read in big-endian order, with and without a sign. And the signed reading is the two's complement of
  // the unsigned one.
  method DecodeBoth(b1: Chunk, b2: Chunk, little: bool, ghost s1: Stream, ghost s2: Stream)
    returns (u1: Result<int, Problem>, u2: Result<int, Problem>, i1: Result<int, Problem>, i2: Result<int, Problem>)
    requires Valid(s1) && Head(s1, b1) && First(s1) < |s1.hist| && Valid(s2) && Head(s2, b2) && First(s2) < |s2.hist|
    requires 0 <= First(s1) && 0 <= First(s2) && Content(s2) == Reversed(Content(s1))
    ensures u1 == u2 && i1 == i2 && (u1.Err? <==> i1.Err?) && (u1.Err? <==> |Content(s1)| > 8)
    ensures u1.Ok? ==> var n := |Content(s1)|; i1.value == TwosComplement(u1.value % TWO64, n)
  {
    hide Valid, WellFormed, Reversed, Decoded, UnsignedAll, TwosComplement, Signed64, Pow256;
    OppositeOrder(Content(s1), Content(s2), little);
    u1 := ToUintBinary(b1, little, s1);
    u2 := ToUintBinary(b2, !little, s2);
    i1 := ToIntBinary(b1, little, s1);
    i2 := ToIntBinary(b2, !little, s2);
    if u1.Ok? {
      FitsEight(Decoded(UnsignedAll(Content(s1)), little), |Content(s1)|);
    }
  }

  lemma FitsEight(v: nat, n: nat)
    requires n <= 8 && v < Pow256(n)
    ensures Signed64(v) % TWO64 == v
  {
    PowMonotone(n, 8);
    Pow256Table();
  }

  // ----- hlt_int_pow

  function Pow(b: nat, e: nat): nat {
    if e == 0 then 1 else b * Pow(b, e - 1)
  }

  // The int with the given low 32 bits.
  function Signed32(v: int): int {
    if v % TWO32 < TWO31 then v % TWO32 else v % TWO32 - TWO32
  }

  ghost predicate Congruent(a: int, b: int) {
    a % TWO32 == b % TWO32
  }

  lemma CongruentMul(a: int, b: int, c: int)
    requires Congruent(a, b)
    ensures Congruent(a * c, b * c)
  {
    var k := a / TWO32 - b / TWO32;
    assert a == b + k * TWO32;
    assert a * c == b * c + (k * c) * TWO32;
  }

  lemma CongruentPow(a: nat, b: nat, e: nat)
    requires Congruent(a, b)
    ensures Congruent(Pow(a, e), Pow(b, e))
  {
    if e > 0 {
      CongruentPow(a, b, e - 1);
      CongruentMul(Pow(a, e - 1), Pow(b, e - 1), a);
      CongruentMul(a, b, Pow(b, e - 1));
    }
  }

  lemma {:induction false} PowSquare(b: nat, e: nat)
    ensures Pow(b * b, e) == Pow(b, 2 * e)
  {
    if e > 0 {
      PowSquare(b, e - 1);
      assert Pow(b, 2 * e) == b * (b * Pow(b, 2 * e - 2));
      assert b * (b * Pow(b, 2 * e - 2)) == (b * b) * Pow(b, 2 * e - 2);
    }
  }

  // What is still to be multiplied: result * b^e stands for base^exp.
  ghost predicate Remains(result: int, b: nat, e: nat, power: nat) {
    result == Signed32(result) && Congruent(result * Pow(b, e), power)
  }

  // hlt_int_pow. Its accumulator is an int, so only the low 32 bits of the power survive, sign-extended into
  // the uint64_t result.
  method IntPow(base: nat, exp: nat) returns (r: nat)
    requires base < TWO64 && exp < TWO64
    ensures r == Signed32(Pow(base, exp)) % TWO64
  {
    hide Pow, Remains, Signed32;
    var result, b: nat, e: nat := 1, base, exp;
    ghost var power := Pow(base, exp);
    RemainsAll(b, e);
    while e > 0
      invariant Remains(result, b, e, power)
    {
      if e % 2 == 1 {
        Odd(result, b, e, power);
        result := Signed32(result * b);
        e := e - 1;
      }
      Even(result, b, e, power);
      e := e / 2;
      b := b * b % TWO64;
    }
    NothingRemains(result, b, power);
    r := result % TWO64;
  }

  lemma RemainsAll(b: nat, e: nat)
    ensures Remains(1, b, e, Pow(b, e))
  {
  }

  lemma NothingRemains(result: int, b: nat, power: nat)
    requires Remains(result, b, 0, power)
    ensures result == Signed32(power)
  {
    assert result * Pow(b, 0) == result;
  }

  lemma Odd(result: int, b: nat, e: nat, power: nat)
    requires e % 2 == 1 && Remains(result, b, e, power)
    ensures Remains(Signed32(result * b), b, e - 1, power)
  {
    CongruentMul(Signed32(result * b), result * b, Pow(b, e - 1));
    assert result * b * Pow(b, e - 1) == result * Pow(b, e);
  }

  lemma Even(result: int, b: nat, e: nat, power: nat)
    requires e % 2 == 0 && Remains(result, b, e, power)
    ensures Remains(result, b * b % TWO64, e / 2, power)
  {
    EvenCongruent(result, b, e);
  }

  lemma EvenCongruent(result: int, b: nat, e: nat)
    requires e % 2 == 0
    ensures Congruent(result * Pow(b * b % TWO64, e / 2), result * Pow(b, e))
  {
    var square := b * b;
    PowSquare(b, e / 2);
    LowBits(square);
    CongruentPow(square % TWO64, square, e / 2);
    CongruentMul(Pow(square % TWO64, e / 2), Pow(b, e), result);
  }


  // The result is the power modulo 2^64 exactly if that value, read as an int64_t, fits an int.
  lemma IntPowExact(base: nat, exp: nat)
    ensures Signed32(Pow(base, exp)) % TWO64 == Pow(base, exp) % TWO64 <==>
            -TWO31 <= Signed64(Pow(base, exp)) < TWO31
  {
    Signed32Exact(Pow(base, exp));
  }

  lemma Signed32Exact(p: nat)
    ensures Signed32(p) % TWO64 == p % TWO64 <==> -TWO31 <= Signed64(p) < TWO31
  {
    var m := p % TWO64;
    LowBits(p);
    assert Signed32(p) == Signed32(m);
    Signed32OfWord(m);
  }

  lemma LowBits(p: nat)
    ensures p % TWO64 % TWO32 == p % TWO32
  {
  }

  lemma Signed32OfWord(m: nat)
    requires m < TWO64
    ensures Signed32(m) % TWO64 == m <==> m < TWO31 || m >= TWO64 - TWO31
  {
  }

  // 2^31 is already out of range.
  lemma IntPowExample()
    ensures Pow(2, 31) == TWO31 && Signed32(Pow(2, 31)) % TWO64 != Pow(2, 31)
  {
    assert Pow(2, 4) == 16;
    assert Pow(2, 8) == 256;
    assert Pow(2, 12) == 4096;
    assert Pow(2, 16) == 0x1_0000;
    assert Pow(2, 20) == 0x10_0000;
    assert Pow(2, 24) == 0x100_0000;
    assert Pow(2, 28) == 0x1000_0000;
  }
}
