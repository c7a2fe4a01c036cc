/** Base-128 varints, zigzag numbers and fixed-width little-endian numbers:
    the arithmetic of `pb_encode.c` and `pb_decode.c` on byte sequences. */
module Varint {
  import opened Bytes

  // ---------- truncation, shifts and bitwise or ----------

  /** The value of `x` in a uint32: wraps around modulo 2^32. */
  function Low32(x: nat): (r: nat)
    ensures r < UINT32 && r <= x
    ensures x < UINT32 ==> r == x
    decreases x
  {
    if x < UINT32 then x else Low32(x - UINT32)
  }

  /** The value of `x` in a uint64: wraps around modulo 2^64. */
  function Low64(x: nat): (r: nat)
    ensures r < UINT64 && r <= x
    ensures x < UINT64 ==> r == x
    decreases x
  {
    if x < UINT64 then x else Low64(x - UINT64)
  }

  lemma {:induction false} Low32Wraps(q: nat, x: nat)
    requires x < UINT32
    ensures Low32(q * 0x1_0000_0000 + x) == x
    decreases q
  {
    if q > 0 {
      assert q * 0x1_0000_0000 + x - UINT32 == (q - 1) * 0x1_0000_0000 + x;
      Low32Wraps(q - 1, x);
    }
  }

  /** `x << k`. */
  function Shl(x: nat, k: nat): (y: nat)
    ensures y >= x
  {
    if k == 0 then x else 2 * Shl(x, k - 1)
  }

  lemma {:induction false} ShlAdd(x: nat, y: nat, k: nat)
    ensures Shl(x + y, k) == Shl(x, k) + Shl(y, k)
    decreases k
  {
    if k > 0 { ShlAdd(x, y, k - 1); }
  }

  lemma {:induction false} ShlSeven(x: nat, k: nat)
    ensures Shl(128 * x, k) == Shl(x, k + 7) == 128 * Shl(x, k)
    decreases k
  {
    if k > 0 {
      ShlSeven(x, k - 1);
    } else {
      ShlSmall(x);
    }
  }

  lemma {:induction false} ShlSmall(x: nat)
    ensures Shl(x, 7) == 128 * x
  {
    assert Shl(x, 1) == 2 * x;
    assert Shl(x, 2) == 4 * x;
    assert Shl(x, 3) == 8 * x;
    assert Shl(x, 4) == 16 * x;
    assert Shl(x, 5) == 32 * x;
    assert Shl(x, 6) == 64 * x;
  }

  lemma {:induction false} ShlMonotone(x: nat, y: nat, k: nat)
    requires x <= y
    ensures Shl(x, k) <= Shl(y, k)
  {
    ShlAdd(x, y - x, k);
  }

  lemma {:induction false} ShlGrows(x: nat, j: nat, k: nat)
    requires j <= k
    ensures Shl(x, j) <= Shl(x, k)
    decreases k
  {
    if j < k { ShlGrows(x, j, k - 1); }
  }

  lemma {:induction false} ShlConstants(x: nat)
    ensures Shl(x, 7) == 0x80 * x && Shl(x, 14) == 0x4000 * x
    ensures Shl(x, 21) == 0x20_0000 * x && Shl(x, 28) == 0x1000_0000 * x
    ensures Shl(x, 35) == 0x8_0000_0000 * x
  {
    ShlSmall(x);
    ShlSeven(x, 7);
    ShlSeven(x, 14);
    ShlSeven(x, 21);
    ShlSeven(x, 28);
  }

  lemma {:induction false} ShlOne()
    ensures Shl(1, 63) == UINT63 && Shl(1, 64) == UINT64 && Shl(1, 70) == 64 * UINT64
  {
    ShlConstants(1);
    ShlSeven(1, 35);
    ShlSeven(1, 42);
    ShlSeven(1, 49);
    ShlSeven(1, 56);
    ShlSeven(1, 63);
  }

  /** Bitwise or of two natural numbers. */
  function BitOr(a: nat, b: nat): nat
    decreases a + b
  {
    if a == 0 && b == 0 then 0
    else (if a % 2 == 1 || b % 2 == 1 then 1 else 0) + 2 * BitOr(a / 2, b / 2)
  }

  lemma {:induction false} BitOrZero(b: nat)
    ensures BitOr(0, b) == b
    decreases b
  {
    if b > 0 { BitOrZero(b / 2); }
  }

  /** Oring in bits above all those of `a` is addition. */
  lemma {:induction false} BitOrAbove(a: nat, y: nat, k: nat)
    requires a < Shl(1, k)
    ensures BitOr(a, Shl(y, k)) == a + Shl(y, k)
    decreases k
  {
    if k == 0 {
      BitOrZero(y);
    } else {
      assert Shl(1, k) == 2 * Shl(1, k - 1);
      var h := Shl(y, k - 1);
      assert Shl(y, k) == 2 * h;
      assert Shl(y, k) % 2 == 0 && Shl(y, k) / 2 == h;
      BitOrAbove(a / 2, y, k - 1);
    }
  }

  /** One turn of a varint loop adds seven bits above those already read. */
  lemma {:induction false} OrStep(acc: nat, d: nat, k: nat)
    requires acc < Shl(1, k) && d < 128
    ensures BitOr(acc, Shl(d, k)) == acc + Shl(d, k) < Shl(d + 1, k) <= Shl(1, k + 7)
  {
    BitOrAbove(acc, d, k);
    ShlAdd(d, 1, k);
    ShlMonotone(d + 1, 128, k);
    ShlSeven(1, k);
  }

  /** Splitting off the low digit. */
  lemma {:induction false} ShlDigit(w: nat, k: nat)
    ensures Shl(w, k) == Shl(w % 128, k) + Shl(w / 128, k + 7)
  {
    ShlAdd(w % 128, 128 * (w / 128), k);
    ShlSeven(w / 128, k);
    assert w == w % 128 + 128 * (w / 128);
  }

  // ---------- 64-bit varints ----------

  /** The bytes `pb_encode_varint` writes for `v`. */
  function EncVarint(v: nat): (s: seq<byte>)
    ensures |s| >= 1
  {
    if v < 128 then [v] else [v % 128 + 128] + EncVarint(v / 128)
  }

  /** The first byte written, and what follows it. */
  lemma {:induction false} EncVarintStep(w: nat, rest: seq<byte>)
    ensures w < 128 ==> EncVarint(w) + rest == [w] + rest
    ensures w >= 128 ==> EncVarint(w) + rest == [w % 128 + 128] + (EncVarint(w / 128) + rest)
  {
  }

  /** `result |= (uint64_t)(byte & 0x7F) << bitpos`, truncated to 64 bits. */
  function Or64(acc: nat, b: byte, bitpos: nat): (r: nat)
    ensures r < UINT64
  {
    Low64(BitOr(acc, Low64(Shl(b % 128, bitpos))))
  }

  /** `pb_decode_varint` from bit position `bitpos` on, with `acc` read so far. */
  function DecVarintFrom(s: seq<byte>, bitpos: nat, acc: nat): (r: Parse<nat>)
    requires acc < UINT64
    ensures r.Good? ==> |r.rest| < |s| && r.value < UINT64
    decreases |s|
  {
    if bitpos >= 64 || s == [] then Bad
    else
      var next := Or64(acc, s[0], bitpos);
      if s[0] >= 128 then DecVarintFrom(s[1..], bitpos + 7, next)
      else Good(next, s[1..])
  }

  function DecVarint(s: seq<byte>): (r: Parse<nat>)
    ensures r.Good? ==> |r.rest| < |s| && r.value < UINT64
  {
    DecVarintFrom(s, 0, 0)
  }

  lemma {:induction false} Or64Fits(acc: nat, b: byte, k: nat)
    requires acc < Shl(1, k) && acc + Shl(b % 128, k) < UINT64
    ensures Or64(acc, b, k) == acc + Shl(b % 128, k)
  {
    OrStep(acc, b % 128, k);
  }

  /** One turn of the 64-bit loop. */
  lemma {:induction false} DecVarintTurn(b: byte, t: seq<byte>, k: nat, acc: nat)
    requires k < 64 && acc < Shl(1, k) && acc + Shl(b % 128, k) < UINT64
    ensures DecVarintFrom([b] + t, k, acc)
         == if b >= 128 then DecVarintFrom(t, k + 7, acc + Shl(b % 128, k)) else Good(acc + Shl(b, k), t)
  {
    hide Shl, BitOr, Low64;
    assert ([b] + t)[1..] == t;
    Or64Fits(acc, b, k);
  }

  lemma {:induction false} DecVarintFromEnc(w: nat, k: nat, acc: nat, rest: seq<byte>)
    requires k < 64 && acc < Shl(1, k) && acc + Shl(w, k) < UINT64
    ensures DecVarintFrom(EncVarint(w) + rest, k, acc) == Good(acc + Shl(w, k), rest)
    decreases w
  {
    hide Shl, EncVarint, DecVarintFrom;
    EncVarintStep(w, rest);
    if w < 128 {
      DecVarintTurn(w, rest, k, acc);
    } else {
      var d, hi := w % 128, w / 128;
      ShlDigit(w, k);
      OrStep(acc, d, k);
      assert (d + 128) % 128 == d;
      DecVarintTurn(d + 128, EncVarint(hi) + rest, k, acc);
      if k + 7 >= 64 {
        ShlOne();
        ShlGrows(1, 64, k + 7);
        ShlMonotone(1, hi, k + 7);
        assert false;
      }
      DecVarintFromEnc(hi, k + 7, acc + Shl(d, k), rest);
    }
  }

  /** `pb_decode_varint` inverts `pb_encode_varint` on every uint64. */
  lemma {:induction false} VarintRoundTrip(v: nat, rest: seq<byte>)
    requires v < UINT64
    ensures DecVarint(EncVarint(v) + rest) == Good(v, rest)
  {
    DecVarintFromEnc(v, 0, 0, rest);
  }

  /** `n` base-128 digits hold exactly the numbers below 2^(7n). */
  lemma {:induction false} EncVarintLength(v: nat, n: nat)
    requires n >= 1
    ensures v < Shl(1, 7 * n) <==> |EncVarint(v)| <= n
    decreases n
  {
    if n == 1 {
      ShlSmall(1);
    } else {
      var q := Shl(1, 7 * (n - 1));
      ShlSeven(1, 7 * (n - 1));
      assert 7 * (n - 1) + 7 == 7 * n;
      EncVarintLength(v / 128, n - 1);
      assert v < 128 * q <==> v / 128 < q;
    }
  }

  lemma {:induction false} EncVarintAtMost10(v: nat)
    requires v < UINT64
    ensures 1 <= |EncVarint(v)| <= 10
  {
    ShlOne();
    EncVarintLength(v, 10);
  }

  lemma {:induction false} DecVarintFromBound(s: seq<byte>, k: nat, acc: nat)
    requires acc < UINT64 && acc < Shl(1, k)
    requires DecVarintFrom(s, k, acc).Good?
    ensures DecVarintFrom(s, k, acc).value < Shl(1, k + 7 * (|s| - |DecVarintFrom(s, k, acc).rest|))
    decreases |s|
  {
    var next := Or64(acc, s[0], k);
    Or64Bound(acc, s[0], k);
    var n := |s| - |DecVarintFrom(s, k, acc).rest|;
    if s[0] >= 128 {
      DecVarintFromBound(s[1..], k + 7, next);
      assert k + 7 + 7 * (n - 1) == k + 7 * n;
    } else {
      assert n == 1;
    }
  }

  lemma {:induction false} Or64Bound(acc: nat, b: byte, k: nat)
    requires acc < Shl(1, k)
    ensures Or64(acc, b, k) < Shl(1, k + 7)
  {
    OrStep(acc, b % 128, k);
    BitOrAtMostSum(acc, Low64(Shl(b % 128, k)));
  }

  lemma {:induction false} BitOrAtMostSum(a: nat, b: nat)
    ensures BitOr(a, b) <= a + b
    decreases a + b
  {
    if a != 0 || b != 0 { BitOrAtMostSum(a / 2, b / 2); }
  }

  /** No encoding that decodes to `v` is shorter than the one `pb_encode_varint` writes. */
  lemma {:induction false} VarintShortest(s: seq<byte>, v: nat)
    requires DecVarint(s) == Good(v, [])
    ensures |EncVarint(v)| <= |s|
  {
    DecVarintFromBound(s, 0, 0);
    EncVarintLength(v, |s|);
  }

  // ---------- 32-bit varints ----------

  /** `result |= (uint32_t)(byte & 0x7F) << bitpos`, truncated to 32 bits. */
  function Or32(result: nat, b: byte, bitpos: nat): (r: nat)
    ensures r < UINT32
  {
    Low32(BitOr(result, Low32(Shl(b % 128, bitpos))))
  }

  /** The sign-extension byte accepted past bit 32. */
  function SignExtension(bitpos: nat): byte {
    if bitpos < 63 then 0xFF else 0x01
  }

  /** The multibyte loop of `pb_decode_varint32_eof`. `bitpos` is a `uint_fast8_t`:
      it wraps at 256 and nothing cuts the loop off. */
  function DecVarint32From(s: seq<byte>, bitpos: nat, result: nat): (r: Parse<nat>)
    requires result < UINT32
    ensures r.Good? ==> |r.rest| < |s| && r.value < UINT32
    decreases |s|
  {
    if s == [] then Bad
    else if bitpos >= 32 && s[0] % 128 != 0 && (result < UINT31 || s[0] != SignExtension(bitpos)) then Bad
    else
      var next := if bitpos >= 32 then result else Or32(result, s[0], bitpos);
      var pos' := (bitpos + 7) % 256;
      if s[0] >= 128 then DecVarint32From(s[1..], pos', next)
      else if pos' == 35 && (s[0] / 16) % 8 != 0 then Bad
      else Good(next, s[1..])
  }

  function DecVarint32(s: seq<byte>): (r: Parse<nat>)
    ensures r.Good? ==> |r.rest| < |s| && r.value < UINT32
  {
    if s == [] then Bad
    else if s[0] < 128 then Good(s[0], s[1..])
    else DecVarint32From(s[1..], 7, s[0] % 128)
  }

  lemma {:induction false} Or32Fits(acc: nat, b: byte, k: nat)
    requires acc < Shl(1, k) && acc + Shl(b % 128, k) < UINT32
    ensures Or32(acc, b, k) == acc + Shl(b % 128, k)
  {
    OrStep(acc, b % 128, k);
  }

  /** The first byte of a multibyte varint32. */
  lemma {:induction false} DecVarint32First(b: byte, t: seq<byte>)
    requires b >= 128
    ensures DecVarint32([b] + t) == DecVarint32From(t, 7, b - 128)
  {
    assert ([b] + t)[1..] == t;
    assert b % 128 == b - 128;
  }

  /** One turn below bit 32 that is not the last. */
  lemma {:induction false} DecVarint32Turn(b: byte, t: seq<byte>, k: nat, acc: nat)
    requires k <= 28 && b >= 128 && acc < Shl(1, k)
    requires acc < UINT32 && acc + Shl(b - 128, k) < UINT32
    ensures DecVarint32From([b] + t, k, acc) == DecVarint32From(t, k + 7, acc + Shl(b - 128, k))
  {
    hide Shl, BitOr, Low32, Or32;
    assert ([b] + t)[1..] == t;
    assert b % 128 == b - 128;
    Or32Fits(acc, b, k);
  }

  lemma {:induction false} DecVarint32Last(b: byte, t: seq<byte>, k: nat, acc: nat)
    requires k <= 28 && b < 128 && acc < Shl(1, k)
    requires acc < UINT32 && acc + Shl(b, k) < UINT32
    ensures DecVarint32From([b] + t, k, acc) == Good(acc + Shl(b, k), t)
  {
    hide Shl, BitOr, Low32, Or32;
    assert ([b] + t)[1..] == t;
    Or32Fits(acc, b, k);
    if k == 28 {
      ShlConstants(b);
      assert b < 16;
    }
  }

  /** A multibyte turn of the 32-bit loop on an encoding whose low digit `d` fits. */
  lemma {:induction false} DecVarint32Digit(w: nat, k: nat, acc: nat, rest: seq<byte>) returns (d: nat, hi: nat)
    requires k <= 28 && w >= 128 && acc < Shl(1, k)
    requires acc < UINT32 && acc + Shl(w % 128, k) < UINT32
    ensures d == w % 128 && hi == w / 128 && hi < w
    ensures acc + Shl(d, k) < Shl(1, k + 7)
    ensures acc + Shl(w, k) == acc + Shl(d, k) + Shl(hi, k + 7)
    ensures DecVarint32From(EncVarint(w) + rest, k, acc)
         == DecVarint32From(EncVarint(hi) + rest, k + 7, acc + Shl(d, k))
  {
    d, hi := w % 128, w / 128;
    EncVarintStep(w, rest);
    DecVarint32Turn(d + 128, EncVarint(hi) + rest, k, acc);
    OrStep(acc, d, k);
    ShlDigit(w, k);
  }

  lemma {:induction false} DecVarint32FromEnc(w: nat, n: nat, acc: nat, rest: seq<byte>)
    requires 1 <= n <= 4 && acc < UINT32
    requires acc < Shl(1, 7 * n) && acc + Shl(w, 7 * n) < UINT32
    ensures DecVarint32From(EncVarint(w) + rest, 7 * n, acc) == Good(acc + Shl(w, 7 * n), rest)
    decreases w
  {
    hide Shl, EncVarint, DecVarint32From;
    EncVarintStep(w, rest);
    if w < 128 {
      DecVarint32Last(w, rest, 7 * n, acc);
    } else {
      assert n != 4 by { ShlConstants(w); }
      assert Shl(w % 128, 7 * n) <= Shl(w, 7 * n) by { ShlMonotone(w % 128, w, 7 * n); }
      var d, hi := DecVarint32Digit(w, 7 * n, acc, rest);
      DecVarint32FromEnc(hi, n + 1, acc + Shl(d, 7 * n), rest);
    }
  }

  /** `pb_decode_varint32` inverts `pb_encode_varint` on every uint32. */
  lemma {:induction false} Varint32RoundTrip(v: nat, rest: seq<byte>)
    requires v < UINT32
    ensures DecVarint32(EncVarint(v) + rest) == Good(v, rest)
  {
    hide Shl, EncVarint, DecVarint32From;
    EncVarintStep(v, rest);
    if v >= 128 {
      var d, hi := v % 128, v / 128;
      DecVarint32First(d + 128, EncVarint(hi) + rest);
      assert d + Shl(hi, 7) == v && d < Shl(1, 7) by {
        ShlSmall(1);
        ShlSmall(hi);
      }
      DecVarint32FromEnc(hi, 1, d, rest);
    }
  }

  /** One byte of sign extension. */
  lemma {:induction false} DecVarint32SignByte(t: seq<byte>, bitpos: nat, result: nat)
    requires 35 <= bitpos < 63 && UINT31 <= result < UINT32
    ensures DecVarint32From([0xFF] + t, bitpos, result) == DecVarint32From(t, bitpos + 7, result)
  {
    assert ([0xFF] + t)[1..] == t;
  }

  /** The 0xFF .. 0xFF 0x01 tail of a sign-extended negative number is skipped:
      `w` is all ones from bit `63 - 7k` to bit 63. */
  lemma {:induction false} DecVarint32SignTail(k: nat, w: nat, result: nat, rest: seq<byte>)
    requires k <= 4 && w + 1 == Shl(2, 7 * k) && UINT31 <= result < UINT32
    ensures DecVarint32From(EncVarint(w) + rest, 63 - 7 * k, result) == Good(result, rest)
    decreases k
  {
    EncVarintStep(w, rest);
    if k == 0 {
      assert w == 1;
    } else {
      hide Shl, DecVarint32From, EncVarint;
      ShlSeven(2, 7 * (k - 1));
      assert 7 * (k - 1) + 7 == 7 * k;
      assert w % 128 == 127 && w / 128 + 1 == Shl(2, 7 * (k - 1));
      DecVarint32SignByte(EncVarint(w / 128) + rest, 63 - 7 * k, result);
      DecVarint32SignTail(k - 1, w / 128, result, rest);
    }
  }

  /** The fifth byte of a negative number: four value bits and three dropped bits. */
  lemma {:induction false} Or32TopNibble(acc: nat, d: nat)
    requires acc < 0x1000_0000 && d < 128
    ensures Or32(acc, d + 128, 28) == acc + 0x1000_0000 * (d % 16)
  {
    hide Shl, BitOr, Low32;
    ShlConstants(1);
    ShlConstants(d);
    ShlConstants(d % 16);
    Low32Wraps(d / 16, 0x1000_0000 * (d % 16));
    assert 0x1000_0000 * d == (d / 16) * 0x1_0000_0000 + 0x1000_0000 * (d % 16);
    BitOrAbove(acc, d % 16, 28);
  }

  lemma {:induction false} DecVarint32FifthByte(b: byte, t: seq<byte>, acc: nat)
    requires b >= 128 && acc < UINT32
    ensures DecVarint32From([b] + t, 28, acc) == DecVarint32From(t, 35, Or32(acc, b, 28))
  {
    hide Or32;
    assert ([b] + t)[1..] == t;
  }

  lemma {:induction false} DecVarint32NegativeTop(d: nat, acc: nat, rest: seq<byte>)
    requires acc < 0x1000_0000 && 120 <= d < 128
    ensures DecVarint32From(EncVarint(0xF_FFFF_FF80 + d) + rest, 28, acc)
         == Good(acc + 0x1000_0000 * (d - 112), rest)
  {
    hide Shl, EncVarint, DecVarint32From;
    var w := 0xF_FFFF_FF80 + d;
    var result := acc + 0x1000_0000 * (d - 112);
    assert w % 128 == d && w / 128 == 0x1FFF_FFFF && d % 16 == d - 112;
    EncVarintStep(w, rest);
    Or32TopNibble(acc, d);
    assert 0x1FFF_FFFF + 1 == Shl(2, 28) by { ShlConstants(2); }
    DecVarint32SignTail(4, 0x1FFF_FFFF, result, rest);
    DecVarint32FifthByte(d + 128, EncVarint(0x1FFF_FFFF) + rest, acc);
  }

  lemma {:induction false} SmallDigit(d: nat, k: nat, acc: nat)
    requires d < 128 && k <= 21 && acc < Shl(1, k)
    ensures acc + Shl(d, k) < 0x1000_0000
  {
    OrStep(acc, d, k);
    ShlGrows(1, k + 7, 28);
    ShlConstants(1);
  }

  lemma {:induction false} DecVarint32Negative(w: nat, n: nat, acc: nat, rest: seq<byte>)
    requires 1 <= n <= 4 && acc < Shl(1, 7 * n) && acc < UINT32
    requires UINT64 - UINT31 <= acc + Shl(w, 7 * n) < UINT64
    ensures DecVarint32From(EncVarint(w) + rest, 7 * n, acc)
         == Good(acc + Shl(w, 7 * n) - (UINT64 - UINT32), rest)
    decreases w
  {
    hide Shl, EncVarint, DecVarint32From;
    if n == 4 {
      ShlConstants(1);
      ShlConstants(w);
      assert 0x10_0000_0000 - 8 <= w < 0x10_0000_0000;
      DecVarint32NegativeTop(w - 0xF_FFFF_FF80, acc, rest);
    } else {
      SmallDigit(w % 128, 7 * n, acc);
      var d, hi := DecVarint32Digit(w, 7 * n, acc, rest);
      DecVarint32Negative(hi, n + 1, acc + Shl(d, 7 * n), rest);
    }
  }

  /** The ten-byte encoding of a negative int32 reads back as its two's complement. */
  lemma {:induction false} Varint32OfNegative(v: int, rest: seq<byte>)
    requires -UINT31 <= v < 0
    ensures DecVarint32(EncVarint(UINT64 + v) + rest) == Good(UINT32 + v, rest)
    ensures |EncVarint(UINT64 + v)| == 10
  {
    var u := UINT64 + v;
    assert |EncVarint(u)| == 10 by {
      EncVarintAtMost10(u);
      ShlOne();
      EncVarintLength(u, 9);
    }
    EncVarintStep(u, rest);
    var d, w := u % 128, u / 128;
    DecVarint32First(d + 128, EncVarint(w) + rest);
    assert d + Shl(w, 7) == u && d < Shl(1, 7) by {
      ShlSmall(1);
      ShlSmall(w);
    }
    DecVarint32Negative(w, 1, d, rest);
  }

  // ---------- signed numbers ----------

  /** The 64-bit pattern of a signed number, `(uint64_t)value`. */
  function ToUint64(i: int): (u: nat)
    requires -UINT63 <= i < UINT63
    ensures u < UINT64
  {
    if i < 0 then UINT64 + i else i
  }

  /** `(int64_t)value` of a 64-bit pattern. */
  function ToInt64(u: nat): (i: int)
    requires u < UINT64
    ensures -UINT63 <= i < UINT63
  {
    if u < UINT63 then u else u - UINT64
  }

  /** `(int32_t)value`: the low 32 bits read as two's complement. */
  function ToInt32(u: nat): (i: int)
    ensures -UINT31 <= i < UINT31
  {
    var low := Low32(u);
    if low < UINT31 then low else low - UINT32
  }

  /** `pb_encode_svarint`: shift left once, complement when negative. */
  function Zigzag(i: int): (u: nat)
    requires -UINT63 <= i < UINT63
    ensures u < UINT64
  {
    var shifted := Low64(2 * ToUint64(i));
    if i < 0 then UINT64 - 1 - shifted else shifted
  }

  /** `pb_decode_svarint`: shift right once, complement when odd. */
  function Unzigzag(u: nat): (i: int)
    requires u < UINT64
    ensures -UINT63 <= i < UINT63
  {
    if u % 2 == 1 then ToInt64(UINT64 - 1 - u / 2) else ToInt64(u / 2)
  }

  /** Zigzag coding is a bijection between int64 and uint64 that keeps small magnitudes small. */
  lemma {:induction false} ZigzagInverse(i: int, u: nat)
    requires -UINT63 <= i < UINT63 && u < UINT64
    ensures Unzigzag(Zigzag(i)) == i
    ensures Zigzag(Unzigzag(u)) == u
    ensures Zigzag(i) == if i < 0 then -2 * i - 1 else 2 * i
  {
  }

  // ---------- fixed-width numbers ----------

  /** `n` bytes of `v`, least significant first. */
  function EncFixed(n: nat, v: nat): (s: seq<byte>)
    ensures |s| == n
  {
    if n == 0 then [] else [v % 256] + EncFixed(n - 1, v / 256)
  }

  function FixedValue(s: seq<byte>): nat {
    if s == [] then 0 else s[0] + 256 * FixedValue(s[1..])
  }

  function Pow256(n: nat): nat {
    if n == 0 then 1 else 256 * Pow256(n - 1)
  }

  lemma {:induction false} FixedRoundTrip(n: nat, v: nat)
    requires v < Pow256(n)
    ensures FixedValue(EncFixed(n, v)) == v
  {
    if n > 0 {
      FixedRoundTrip(n - 1, v / 256);
      assert EncFixed(n, v)[1..] == EncFixed(n - 1, v / 256);
    }
  }

  lemma {:induction false} FixedValueBound(s: seq<byte>)
    ensures FixedValue(s) < Pow256(|s|)
  {
    if s != [] { FixedValueBound(s[1..]); }
  }

  lemma {:induction false} Pow256Facts()
    ensures Pow256(4) == UINT32 && Pow256(8) == UINT64
  {
    assert Pow256(4) == 256 * (256 * (256 * (256 * 1)));
    assert Pow256(8) == 256 * (256 * (256 * (256 * Pow256(4))));
  }

  function DecFixed(s: seq<byte>, n: nat): (r: Parse<nat>)
    ensures r.Good? ==> |r.rest| == |s| - n && r.rest == s[n..]
  {
    match Take(s, n)
    case Bad => Bad
    case Good(b, rest) => Good(FixedValue(b), rest)
  }

  // ---------- length-delimited payloads and skipping ----------

  /** The payload a varint32 length announces (`pb_make_string_substream`, `pb_skip_string`). */
  function TakeDelimited(s: seq<byte>): (r: Parse<seq<byte>>)
    ensures r.Good? ==> |r.value| + |r.rest| < |s|
  {
    match DecVarint32(s)
    case Bad => Bad
    case Good(n, s1) => if |s1| < n then Bad else Good(s1[..n], s1[n..])
  }

  function SkipVarint(s: seq<byte>): (r: Parse<()>)
    ensures r.Good? ==> |r.rest| < |s|
    decreases |s|
  {
    if s == [] then Bad
    else if s[0] >= 128 then SkipVarint(s[1..])
    else Good((), s[1..])
  }

  /** `pb_skip_field`. */
  function SkipField(wire: nat, s: seq<byte>): (r: Parse<()>)
    ensures r.Good? ==> |r.rest| <= |s|
  {
    match wire
    case 0 => SkipVarint(s)
    case 1 => if |s| < 8 then Bad else Good((), s[8..])
    case 2 => (match TakeDelimited(s) case Bad => Bad case Good(_, rest) => Good((), rest))
    case 5 => if |s| < 4 then Bad else Good((), s[4..])
    case _ => Bad
  }

  // ---------- parsers look no further than what they consume ----------

  lemma {:induction false} DecVarintFromPrefix(s: seq<byte>, t: seq<byte>, bitpos: nat, acc: nat)
    requires acc < UINT64 && DecVarintFrom(s, bitpos, acc).Good?
    ensures DecVarintFrom(s + t, bitpos, acc)
         == DecVarintFrom(s, bitpos, acc).(rest := DecVarintFrom(s, bitpos, acc).rest + t)
    decreases |s|
  {
    assert (s + t)[1..] == s[1..] + t;
    if s[0] >= 128 {
      DecVarintFromPrefix(s[1..], t, bitpos + 7, Or64(acc, s[0], bitpos));
    }
  }

  lemma {:induction false} DecVarint32FromPrefix(s: seq<byte>, t: seq<byte>, bitpos: nat, acc: nat)
    requires acc < UINT32 && DecVarint32From(s, bitpos, acc).Good?
    ensures DecVarint32From(s + t, bitpos, acc)
         == DecVarint32From(s, bitpos, acc).(rest := DecVarint32From(s, bitpos, acc).rest + t)
    decreases |s|
  {
    assert (s + t)[1..] == s[1..] + t;
    if s[0] >= 128 {
      DecVarint32FromPrefix(s[1..], t, (bitpos + 7) % 256,
                            if bitpos >= 32 then acc else Or32(acc, s[0], bitpos));
    }
  }

  lemma {:induction false} DecVarint32Prefix(s: seq<byte>, t: seq<byte>)
    requires DecVarint32(s).Good?
    ensures DecVarint32(s + t) == DecVarint32(s).(rest := DecVarint32(s).rest + t)
  {
    assert (s + t)[1..] == s[1..] + t;
    if s[0] >= 128 { DecVarint32FromPrefix(s[1..], t, 7, s[0] % 128); }
  }

  lemma {:induction false} TakeDelimitedPrefix(s: seq<byte>, t: seq<byte>)
    requires TakeDelimited(s).Good?
    ensures TakeDelimited(s + t) == TakeDelimited(s).(rest := TakeDelimited(s).rest + t)
  {
    DecVarint32Prefix(s, t);
    var n, s1 := DecVarint32(s).value, DecVarint32(s).rest;
    assert (s1 + t)[..n] == s1[..n];
    assert (s1 + t)[n..] == s1[n..] + t;
  }

  lemma {:induction false} SkipVarintPrefix(s: seq<byte>, t: seq<byte>)
    requires SkipVarint(s).Good?
    ensures SkipVarint(s + t) == Good((), SkipVarint(s).rest + t)
    decreases |s|
  {
    assert (s + t)[1..] == s[1..] + t;
    if s[0] >= 128 { SkipVarintPrefix(s[1..], t); }
  }

  lemma {:induction false} SkipFieldPrefix(wire: nat, s: seq<byte>, t: seq<byte>)
    requires SkipField(wire, s).Good?
    ensures SkipField(wire, s + t) == Good((), SkipField(wire, s).rest + t)
  {
    match wire
    case 0 => SkipVarintPrefix(s, t);
    case 1 => assert (s + t)[8..] == s[8..] + t;
    case 2 => TakeDelimitedPrefix(s, t);
    case 5 => assert (s + t)[4..] == s[4..] + t;
  }

  /** A length prefix followed by that many bytes is taken apart exactly. */
  lemma {:induction false} TakeDelimitedRoundTrip(payload: seq<byte>, rest: seq<byte>)
    requires |payload| < UINT32
    ensures TakeDelimited(EncVarint(|payload|) + payload + rest) == Good(payload, rest)
  {
    var s := EncVarint(|payload|) + payload + rest;
    assert s == EncVarint(|payload|) + (payload + rest);
    Varint32RoundTrip(|payload|, payload + rest);
  }
}
