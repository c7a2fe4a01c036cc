/** The wire format as such, told by the bytes: what a varint is and which number it stands for, and
    what the payload of each wire type looks like. The loops that read and write it are compared with
    that. */
module WireFormat {
  import opened Bytes
  import opened Varint

  // ---------- base-128 numbers ----------

  /** One varint: all bytes but the last have the top bit set. */
  predicate IsVarint(p: seq<byte>) {
    p != [] && p[|p| - 1] < 128 && forall k | 0 <= k < |p| - 1 :: p[k] >= 128
  }

  /** The number it stands for, the least significant digit first. */
  function Number(p: seq<byte>): nat {
    if p == [] then 0 else p[0] % 128 + 128 * Number(p[1..])
  }

  /** A byte sequence in which no varint ends. */
  predicate Unterminated(s: seq<byte>) {
    forall k | 0 <= k < |s| :: s[k] >= 128
  }

  lemma {:induction false} VarintTail(b: byte, t: seq<byte>)
    ensures IsVarint([b] + t) <==> if b < 128 then t == [] else IsVarint(t)
    ensures Number([b] + t) == b % 128 + 128 * Number(t)
  {
    var p := [b] + t;
    assert p[1..] == t;
    if t != [] {
      assert p[0] == b && p[|p| - 1] == t[|t| - 1];
      assert forall k :: 0 < k < |p| - 1 ==> p[k] == t[k - 1];
      assert forall k :: 0 <= k < |t| - 1 ==> t[k] == p[k + 1];
    }
  }

  /** The digit in a byte. */
  function Digit(b: byte): (d: nat)
    ensures d < 128 && (b < 128 ==> d == b) && (b >= 128 ==> d == b - 128)
  {
    b % 128
  }

  /** A varint is its last byte, or another byte and a varint. */
  lemma {:induction false} Cut(p: seq<byte>) returns (b: byte, t: seq<byte>)
    requires IsVarint(p)
    ensures p == [b] + t && p[0] == b && p[1..] == t && |p| == 1 + |t|
    ensures if b < 128 then t == [] else IsVarint(t)
  {
    b, t := p[0], p[1..];
    assert p == [b] + t;
    VarintTail(b, t);
  }

  /** What is written for a number is a varint that stands for it, without leading zeros. */
  lemma {:induction false} WrittenVarint(v: nat)
    ensures IsVarint(EncVarint(v)) && Number(EncVarint(v)) == v
    ensures |EncVarint(v)| > 1 ==> EncVarint(v)[|EncVarint(v)| - 1] > 0
    decreases v
  {
    if v < 128 {
      VarintTail(v, []);
      assert [v] + [] == [v];
    } else {
      WrittenVarint(v / 128);
      VarintTail(v % 128 + 128, EncVarint(v / 128));
    }
  }

  lemma {:induction false} ShlNumber(b: byte, t: seq<byte>, k: nat)
    ensures Shl(Number([b] + t), k) == Shl(b % 128, k) + Shl(Number(t), k + 7)
  {
    VarintTail(b, t);
    ShlAdd(b % 128, 128 * Number(t), k);
    ShlSeven(Number(t), k);
  }

  // ---------- reading 64 bits ----------

  lemma {:induction false} Low64Wraps(q: nat, x: nat)
    requires x < UINT64
    ensures Low64(q * 0x1_0000_0000_0000_0000 + x) == x
    decreases q
  {
    if q > 0 {
      assert q * 0x1_0000_0000_0000_0000 + x - UINT64 == (q - 1) * 0x1_0000_0000_0000_0000 + x;
      Low64Wraps(q - 1, x);
    }
  }

  /** Of the tenth byte only the lowest bit fits. */
  lemma {:induction false} TenthByte(acc: nat, b: byte)
    requires acc < Shl(1, 63)
    ensures Or64(acc, b, 63) == (acc + Shl(b % 128, 63)) % 0x1_0000_0000_0000_0000
  {
    hide Shl, BitOr, Low64;
    var d := b % 128;
    Shl63(1);
    Shl63(d);
    Shl63(d % 2);
    assert Shl(d, 63) == (d / 2) * 0x1_0000_0000_0000_0000 + Shl(d % 2, 63);
    Low64Wraps(d / 2, Shl(d % 2, 63));
    BitOrAbove(acc, d % 2, 63);
    Low64Wraps(0, acc + Shl(d % 2, 63));
  }

  lemma {:induction false} Shl63(x: nat)
    ensures Shl(x, 63) == 0x8000_0000_0000_0000 * x
  {
    ShlConstants(x);
    ShlSeven(x, 35);
    ShlSeven(x, 42);
    ShlSeven(x, 49);
    ShlSeven(x, 56);
  }

  /** From the tenth byte on. */
  lemma {:induction false} TenthBytes(p: seq<byte>, rest: seq<byte>, acc: nat)
    requires IsVarint(p) && acc < Shl(1, 63) && acc < UINT64
    ensures DecVarintFrom(p + rest, 63, acc)
         == if |p| == 1 then Good((acc + Shl(Digit(p[0]), 63)) % 0x1_0000_0000_0000_0000, rest) else Bad
  {
    hide Shl, DecVarintFrom, Or64, IsVarint;
    var b, t := Cut(p);
    assert p + rest == [b] + (t + rest);
    TenthByte(acc, b);
    LastTurn(b, t + rest, acc);
    if b < 128 { assert t + rest == rest; }
  }

  /** From byte `n` on, with the digits before it in `acc`; `total` is the whole number. */
  lemma {:induction false} DecVarintFromExact(p: seq<byte>, rest: seq<byte>, n: nat, k: nat, acc: nat, total: nat)
    requires IsVarint(p) && n <= 9 && k == 7 * n && acc < Shl(1, k) && acc < UINT64
    requires total == acc + Shl(Number(p), k)
    ensures DecVarintFrom(p + rest, k, acc)
         == if n + |p| <= 10 then Good(total % 0x1_0000_0000_0000_0000, rest) else Bad
    decreases |p|
  {
    hide Shl, DecVarintFrom, Or64, IsVarint, Number;
    var b, t := Cut(p);
    ShlNumber(b, t, k);
    if n == 9 {
      ShlZero(k + 7);
      TenthBytes(p, rest, acc);
    } else {
      assert p + rest == [b] + (t + rest);
      OrStep(acc, b % 128, k);
      BelowSixtyThree(n, k);
      DecVarintTurn(b, t + rest, k, acc);
      if b >= 128 {
        DecVarintFromExact(t, rest, n + 1, k + 7, acc + Shl(b % 128, k), total);
      } else {
        ShlZero(k + 7);
        SmallMod64(total);
        assert t + rest == rest && b % 128 == b;
      }
    }
  }

  lemma {:induction false} SmallMod64(x: nat)
    requires x < UINT64
    ensures x % 0x1_0000_0000_0000_0000 == x
  {
  }

  lemma {:induction false} BelowSixtyThree(n: nat, k: nat)
    requires n < 9 && k == 7 * n
    ensures Shl(1, k + 7) <= 0x8000_0000_0000_0000
  {
    ShlGrows(1, k + 7, 63);
    Shl63(1);
  }

  lemma {:induction false} ShlZero(k: nat)
    ensures Shl(0, k) == 0 && Shl(Number([]), k) == 0
  {
    if k > 0 { ShlZero(k - 1); }
  }

  lemma {:induction false} LastTurn(b: byte, t: seq<byte>, acc: nat)
    requires acc < UINT64
    ensures DecVarintFrom([b] + t, 63, acc) == if b >= 128 then Bad else Good(Or64(acc, b, 63), t)
  {
    hide Or64;
    assert ([b] + t)[1..] == t;
  }

  /** The 64-bit decoder accepts exactly the varints of up to ten bytes, and gives their number modulo
      2^64. */
  lemma {:induction false} DecVarintExact(p: seq<byte>, rest: seq<byte>)
    requires IsVarint(p)
    ensures DecVarint(p + rest)
         == if |p| <= 10 then Good(Number(p) % 0x1_0000_0000_0000_0000, rest) else Bad
  {
    ShlBase(Number(p));
    DecVarintFromExact(p, rest, 0, 0, 0, Number(p));
  }

  lemma {:induction false} UnterminatedBad(s: seq<byte>, k: nat, acc: nat)
    requires Unterminated(s) && acc < UINT64
    ensures DecVarintFrom(s, k, acc).Bad? && SkipVarint(s).Bad?
    decreases |s|
  {
    hide Or64;
    if s != [] { UnterminatedBad(s[1..], k + 7, Or64(acc, s[0], k)); }
  }

  lemma {:induction false} UnterminatedBad32(s: seq<byte>, k: nat, acc: nat)
    requires Unterminated(s) && acc < UINT32
    ensures DecVarint32From(s, k, acc).Bad?
    decreases |s|
  {
    hide Or32;
    if s != [] { UnterminatedBad32(s[1..], (k + 7) % 256, if k >= 32 then acc else Or32(acc, s[0], k)); }
  }

  /** Without a last byte there is nothing to read. */
  lemma {:induction false} NoVarint(s: seq<byte>)
    requires Unterminated(s)
    ensures DecVarint(s).Bad? && DecVarint32(s).Bad? && SkipVarint(s).Bad?
  {
    UnterminatedBad(s, 0, 0);
    if s != [] { UnterminatedBad32(s[1..], 7, s[0] % 128); }
  }

  /** Any input starts with a varint or has none. */
  lemma {:induction false} FirstVarint(s: seq<byte>) returns (n: nat)
    requires !Unterminated(s)
    ensures n <= |s| && IsVarint(s[..n])
    decreases |s|
  {
    if s[0] < 128 {
      n := 1;
    } else {
      var j :| 0 <= j < |s| && s[j] < 128;
      assert s[1..][j - 1] == s[j];
      var m := FirstVarint(s[1..]);
      n := m + 1;
      assert s[..n] == [s[0]] + s[1..][..m];
      VarintTail(s[0], s[1..][..m]);
    }
  }

  // ---------- reading 32 bits ----------

  /** The number in the first five bytes, of which 32 bits are kept. */
  function Low(p: seq<byte>): nat {
    Number(Head(p, 5)) % 0x1_0000_0000
  }

  /** The first `n` bytes, if there are so many. */
  function Head(p: seq<byte>, n: nat): seq<byte> {
    if |p| <= n then p else p[..n]
  }

  /** What byte `k`, past the 32 bits, may be: no digit, or a byte of the sign extension of a negative
      number to ten bytes. */
  predicate Extends(b: byte, k: nat, low: nat) {
    b % 128 == 0 || (low >= 0x8000_0000 && b == if k < 9 then 0xFF else 0x01)
  }

  /** So are the bytes from `n` on, where the first one of `p` is byte `k`. */
  predicate TailExtends(p: seq<byte>, n: nat, k: nat, low: nat) {
    forall j | n <= j < |p| :: Extends(p[j], k + j, low)
  }

  predicate Accepted32(p: seq<byte>) {
    (|p| == 5 ==> p[4] < 16) && TailExtends(p, 5, 0, Low(p))
  }

  lemma {:induction false} HighTurn(b: byte, t: seq<byte>, k: nat, low: nat)
    requires 5 <= k <= 36 && low < UINT32 && (b >= 128 ==> k < 36)
    ensures DecVarint32From([b] + t, 7 * k, low)
         == if !Extends(b, k, low) then Bad
            else if b >= 128 then DecVarint32From(t, 7 * (k + 1), low) else Good(low, t)
  {
    assert ([b] + t)[1..] == t;
  }

  lemma {:induction false} HighBytes(p: seq<byte>, rest: seq<byte>, k: nat, low: nat)
    requires IsVarint(p) && 5 <= k && k + |p| <= 37 && low < UINT32
    ensures DecVarint32From(p + rest, 7 * k, low)
         == if TailExtends(p, 0, k, low) then Good(low, rest) else Bad
    decreases |p|
  {
    hide DecVarint32From, Extends, TailExtends, IsVarint;
    var b, t := Cut(p);
    assert p + rest == [b] + (t + rest);
    HighTurn(b, t + rest, k, low);
    FirstExtends(p, k, low);
    if b >= 128 {
      HighBytes(t, rest, k + 1, low);
    } else {
      assert t + rest == rest;
      EmptyExtends(k + 1, low);
    }
  }

  lemma {:induction false} EmptyExtends(k: nat, low: nat)
    ensures TailExtends([], 0, k, low)
  {
  }

  /** The bytes from `n` on, counted from the second byte. */
  lemma {:induction false} ShiftedExtends(p: seq<byte>, n: nat, k: nat, low: nat)
    requires 1 <= n && p != []
    ensures TailExtends(p, n, k, low) <==> TailExtends(p[1..], n - 1, k + 1, low)
  {
    hide Extends;
    var t := p[1..];
    if TailExtends(t, n - 1, k + 1, low) {
      forall j | n <= j < |p| ensures Extends(p[j], k + j, low) {
        assert p[j] == t[j - 1] && Extends(t[j - 1], k + 1 + (j - 1), low);
      }
    }
    if TailExtends(p, n, k, low) {
      forall j | n - 1 <= j < |t| ensures Extends(t[j], k + 1 + j, low) {
        assert t[j] == p[j + 1] && Extends(p[j + 1], k + (j + 1), low);
      }
    }
  }

  lemma {:induction false} FirstExtends(p: seq<byte>, k: nat, low: nat)
    requires p != []
    ensures TailExtends(p, 0, k, low) <==> Extends(p[0], k, low) && TailExtends(p[1..], 0, k + 1, low)
  {
    hide Extends;
    ShiftedExtends(p, 1, k, low);
    if Extends(p[0], k, low) && TailExtends(p, 1, k, low) {
      forall j | 0 <= j < |p| ensures Extends(p[j], k + j, low) {}
    }
    if TailExtends(p, 0, k, low) { assert Extends(p[0], k + 0, low); }
  }

  /** The fifth byte: of its seven bits four are kept. */
  lemma {:induction false} FifthByte(acc: nat, b: byte)
    requires acc < 0x1000_0000
    ensures Or32(acc, b, 28) == acc + 0x1000_0000 * (b % 16) == (acc + 0x1000_0000 * (b % 128)) % 0x1_0000_0000
  {
    hide Or32;
    var d := b % 128;
    assert Or32(acc, b, 28) == Or32(acc, d + 128, 28) by { SameDigit(acc, b, d + 128); }
    Or32TopNibble(acc, d);
    LowOfDigit(acc, d / 16, d % 16);
  }

  lemma {:induction false} LowOfDigit(acc: nat, q: nat, r: nat)
    requires acc < 0x1000_0000 && r < 16
    ensures (acc + 0x1000_0000 * (16 * q + r)) % 0x1_0000_0000 == acc + 0x1000_0000 * r
  {
    var x := acc + 0x1000_0000 * r;
    assert acc + 0x1000_0000 * (16 * q + r) == x + 0x1_0000_0000 * q;
  }

  lemma {:induction false} SameDigit(acc: nat, b: byte, c: byte)
    requires b % 128 == c % 128
    ensures Or32(acc, b, 28) == Or32(acc, c, 28)
  {
  }

  lemma {:induction false} FifthTurn(b: byte, t: seq<byte>, acc: nat)
    requires acc < UINT32
    ensures DecVarint32From([b] + t, 28, acc)
         == if b >= 128 then DecVarint32From(t, 35, Or32(acc, b, 28))
            else if b >= 16 then Bad else Good(Or32(acc, b, 28), t)
  {
    hide Or32;
    assert ([b] + t)[1..] == t;
  }

  /** From the fifth byte on, with the digits before it in `acc`. */
  lemma {:induction false} FifthBytes(p: seq<byte>, rest: seq<byte>, acc: nat)
    requires IsVarint(p) && |p| <= 33 && acc < 0x1000_0000
    ensures var low := (acc + 0x1000_0000 * Digit(p[0])) % 0x1_0000_0000;
            DecVarint32From(p + rest, 28, acc)
            == if |p| == 1 && p[0] >= 16 then Bad
               else if TailExtends(p, 1, 4, low) then Good(low, rest) else Bad
  {
    hide DecVarint32From, Extends, TailExtends, Or32, IsVarint;
    var b, t := Cut(p);
    assert p + rest == [b] + (t + rest);
    FifthTurn(b, t + rest, acc);
    FifthByte(acc, b);
    if b >= 128 {
      var low := Or32(acc, b, 28);
      HighBytes(t, rest, 5, low);
      ShiftedExtends(p, 1, 4, low);
    } else {
      assert t + rest == rest;
      ShortExtends(p, 1, 4, Or32(acc, b, 28));
    }
  }

  lemma {:induction false} HeadTail(p: seq<byte>, n: nat, k: nat)
    requires p != [] && n >= 1
    ensures Shl(Number(Head(p, n)), k) == Shl(p[0] % 128, k) + Shl(Number(Head(p[1..], n - 1)), k + 7)
  {
    hide Shl, Number;
    assert Head(p, n) == [p[0]] + Head(p[1..], n - 1);
    ShlNumber(p[0], Head(p[1..], n - 1), k);
  }

  /** A byte before the fifth. */
  lemma {:induction false} LowTurn(b: byte, t: seq<byte>, k: nat, shift: nat, acc: nat)
    requires 1 <= k < 4 && shift == 7 * k && acc < Shl(1, shift) && acc < UINT32
    ensures acc + Shl(b % 128, shift) < 0x1000_0000 && acc + Shl(b % 128, shift) < Shl(1, shift + 7)
    ensures DecVarint32From([b] + t, shift, acc)
         == if b >= 128 then DecVarint32From(t, shift + 7, acc + Shl(b % 128, shift))
            else Good(acc + Shl(b % 128, shift), t)
  {
    hide Shl, DecVarint32From;
    SmallDigit(b % 128, shift, acc);
    OrStep(acc, b % 128, shift);
    if b >= 128 { DecVarint32Turn(b, t, shift, acc); } else { DecVarint32Last(b, t, shift, acc); }
  }

  /** From byte `k` on, with the digits before it in `acc`; `total` is the number in the first five. */
  lemma {:induction false} LowBytes(p: seq<byte>, rest: seq<byte>, k: nat, shift: nat, acc: nat, total: nat, low: nat)
    requires IsVarint(p) && 1 <= k <= 4 && k + |p| <= 37 && shift == 7 * k && acc < Shl(1, shift) && acc < UINT32
    requires total == acc + Shl(Number(Head(p, 5 - k)), shift)
    requires low == total % 0x1_0000_0000
    ensures DecVarint32From(p + rest, shift, acc)
            == if |p| == 5 - k && p[4 - k] >= 16 then Bad
               else if TailExtends(p, 5 - k, k, low) then Good(low, rest) else Bad
    decreases |p|
  {
    hide Shl, DecVarint32From, TailExtends, IsVarint, Number, Head;
    var b, t := Cut(p);
    HeadTail(p, 5 - k, shift);
    if k == 4 {
      ShlConstants(1);
      ShlConstants(b % 128);
      NoHead(t, shift + 7);
      FifthBytes(p, rest, acc);
    } else {
      assert p + rest == [b] + (t + rest);
      LowTurn(b, t + rest, k, shift, acc);
      if b >= 128 {
        LowBytes(t, rest, k + 1, shift + 7, acc + Shl(b % 128, shift), total, low);
        ShiftedExtends(p, 5 - k, k, low);
      } else {
        assert t + rest == rest;
        NoTail(5 - k - 1, shift + 7);
        assert total == acc + Shl(b % 128, shift);
        SmallMod32(total);
        assert |p| == 1 && low == total;
        ShortExtends(p, 5 - k, k, low);
      }
    }
  }

  lemma {:induction false} SmallMod32(x: nat)
    requires x < UINT32
    ensures x % 0x1_0000_0000 == x
  {
  }

  lemma {:induction false} ShortExtends(p: seq<byte>, n: nat, k: nat, low: nat)
    requires |p| <= n
    ensures TailExtends(p, n, k, low)
  {
  }

  lemma {:induction false} NoHead(t: seq<byte>, k: nat)
    ensures Shl(Number(Head(t, 0)), k) == 0
  {
    assert Head(t, 0) == [];
    ShlZero(k);
  }

  lemma {:induction false} NoTail(n: nat, k: nat)
    ensures Shl(Number(Head([], n)), k) == 0
  {
    assert Head([], n) == [];
    ShlZero(k);
  }

  /** The 32-bit decoder, exactly: the number in the first five bytes modulo 2^32, if a five-byte varint
      does not exceed 32 bits and all later bytes are padding or sign extension. Past 37 bytes its bit
      position wraps around. */
  lemma {:induction false} DecVarint32Exact(p: seq<byte>, rest: seq<byte>)
    requires IsVarint(p) && |p| <= 37
    ensures DecVarint32(p + rest) == if Accepted32(p) then Good(Low(p), rest) else Bad
  {
    hide Shl, DecVarint32From, Extends, IsVarint, Number, Head;
    var b, t := Cut(p);
    assert p + rest == [b] + (t + rest);
    HeadTail(p, 5, 0);
    ShlBase(Number(Head(p, 5)));
    ShlBase(b % 128);
    if b < 128 {
      assert t + rest == rest && ([b] + rest)[1..] == rest;
      NoTail(4, 7);
      ShortExtends(p, 5, 0, Low(p));
    } else {
      DecVarint32First(b, t + rest);
      ShlSmall(1);
      LowBytes(t, rest, 1, 7, b - 128, Number(Head(p, 5)), Low(p));
      ShiftedExtends(p, 5, 0, Low(p));
    }
  }

  // ---------- numbers of 32 bits ----------

  /** A varint of up to ten bytes for a number of 32 bits, padded or not. */
  predicate IsNumber(q: seq<byte>, n: nat) {
    IsVarint(q) && |q| <= 10 && Number(q) == n < UINT32
  }

  lemma {:induction false} NumberSplit(p: seq<byte>, k: nat)
    requires k <= |p|
    ensures Number(p) == Number(p[..k]) + Shl(Number(p[k..]), 7 * k)
    decreases k
  {
    hide Shl;
    if k == 0 {
      ShlBase(Number(p));
      assert p[0..] == p;
    } else {
      NumberSplit(p[1..], k - 1);
      assert p[1..][..k - 1] == p[..k][1..] && p[1..][k - 1..] == p[k..];
      ShlSeven(Number(p[k..]), 7 * (k - 1));
      assert 7 * (k - 1) + 7 == 7 * k;
    }
  }

  lemma {:induction false} ShlBase(x: nat)
    ensures Shl(x, 0) == x
  {
  }

  lemma {:induction false} NumberZero(p: seq<byte>, j: nat)
    requires Number(p) == 0 && j < |p|
    ensures p[j] % 128 == 0
    decreases p
  {
    if j > 0 { NumberZero(p[1..], j - 1); }
  }

  /** In a number of 32 bits the fifth byte has four, and what follows it is padding. */
  lemma {:induction false} FiveBytes(q: seq<byte>)
    requires Number(q) < UINT32 && |q| >= 5
    ensures Digit(q[4]) < 16 && Number(q[5..]) == 0 && Number(q[..5]) == Number(q)
  {
    hide Shl, Number;
    NumberSplit(q, 5);
    ShlConstants(Number(q[5..]));
    NumberSplit(q[..5], 4);
    ShlConstants(Number(q[..5][4..]));
    VarintTail(q[4], []);
    ShlZero(0);
    assert q[..5][4..] == [q[4]] + [];
  }

  /** Such a number is read as it is. */
  lemma {:induction false} NumberRead(q: seq<byte>, n: nat, rest: seq<byte>)
    requires IsNumber(q, n)
    ensures DecVarint32(q + rest) == Good(n, rest)
  {
    hide DecVarint32, Extends, Number, IsVarint;
    DecVarint32Exact(q, rest);
    SmallMod32(n);
    if |q| >= 5 {
      FiveBytes(q);
      assert q[..5] == Head(q, 5);
      forall k | 5 <= k < |q| ensures Extends(q[k], 0 + k, Low(q)) {
        NumberZero(q[5..], k - 5);
        PaddingExtends(q[k], k, Low(q));
      }
      LastOfFive(q);
    } else {
      ShortExtends(q, 5, 0, Low(q));
    }
  }

  lemma {:induction false} LastOfFive(q: seq<byte>)
    requires IsVarint(q)
    ensures |q| == 5 ==> q[4] < 128
  {
  }

  lemma {:induction false} PaddingExtends(b: byte, k: nat, low: nat)
    requires b % 128 == 0
    ensures Extends(b, k, low)
  {
  }

  lemma {:induction false} WrittenNumber(n: nat)
    requires n < UINT32
    ensures IsNumber(EncVarint(n), n)
  {
    WrittenVarint(n);
    EncVarintAtMost10(n);
  }

  // ---------- fixed width ----------

  /** Four bytes, least significant first, both ways. */
  lemma {:induction false} Fixed32Bytes(v: nat, s: seq<byte>)
    requires v < UINT32 && |s| == 4
    ensures EncFixed(4, v) == [v % 0x100, (v / 0x100) % 0x100, (v / 0x1_0000) % 0x100, v / 0x100_0000]
    ensures FixedValue(s)
         == s[0] as int + 0x100 * (s[1] as int) + 0x1_0000 * (s[2] as int) + 0x100_0000 * (s[3] as int)
  {
    var v1, v2, v3 := v / 0x100, v / 0x1_0000, v / 0x100_0000;
    assert v1 / 0x100 == v2 && v2 / 0x100 == v3 && v3 < 0x100;
    assert EncFixed(1, v3) == [v3] by { assert EncFixed(0, 0) == []; }
    assert EncFixed(2, v2) == [v2 % 0x100] + EncFixed(1, v3);
    assert EncFixed(3, v1) == [v1 % 0x100] + EncFixed(2, v2);
    ValueFrom(s, 3);
    ValueFrom(s, 2);
    ValueFrom(s, 1);
    ValueFrom(s, 0);
    assert s[4..] == [] && s[0..] == s;
  }

  lemma {:induction false} ValueFrom(s: seq<byte>, k: nat)
    requires k < |s|
    ensures FixedValue(s[k..]) == s[k] as int + 256 * FixedValue(s[k + 1..])
  {
    assert s[k..][1..] == s[k + 1..];
  }

  /** Eight bytes are the four bytes of the low half and those of the high half. */
  lemma {:induction false} Fixed64Bytes(v: nat, s: seq<byte>)
    requires v < UINT64 && |s| == 8
    ensures EncFixed(8, v) == EncFixed(4, v % 0x1_0000_0000) + EncFixed(4, v / 0x1_0000_0000)
    ensures FixedValue(s) == FixedValue(s[..4]) + 0x1_0000_0000 * FixedValue(s[4..])
  {
    LowHalf(v);
    EightValues(s);
  }

  lemma {:induction false} LowHalf(v: nat)
    requires v < UINT64
    ensures EncFixed(8, v) == EncFixed(4, v % 0x1_0000_0000) + EncFixed(4, v / 0x1_0000_0000)
  {
    Pow256Facts();
    Halves(4, 4, v % 0x1_0000_0000, v / 0x1_0000_0000, v - v % 0x1_0000_0000);
  }

  lemma {:induction false} Halves(n: nat, k: nat, low: nat, high: nat, scaled: nat)
    requires low < Pow256(n) && scaled == Pow256(n) * high
    ensures EncFixed(n + k, low + scaled) == EncFixed(n, low) + EncFixed(k, high)
    decreases n
  {
    hide EncFixed;
    if n == 0 {
      NoBytes(low);
    } else {
      var x := Pow256(n - 1) * high;
      assert scaled == 256 * x;
      Quotient(low, x);
      Halves(n - 1, k, low / 0x100, high, x);
      FixedStep(n - 1 + k, low + scaled);
      FixedStep(n - 1, low);
      assert [low % 0x100] + (EncFixed(n - 1, low / 0x100) + EncFixed(k, high))
          == [low % 0x100] + EncFixed(n - 1, low / 0x100) + EncFixed(k, high);
    }
  }

  lemma {:induction false} NoBytes(v: nat)
    ensures EncFixed(0, v) == []
  {
  }

  lemma {:induction false} FixedStep(n: nat, v: nat)
    ensures EncFixed(n + 1, v) == [v % 0x100] + EncFixed(n, v / 0x100)
  {
  }

  lemma {:induction false} Quotient(low: nat, x: nat)
    ensures (low + 0x100 * x) % 0x100 == low % 0x100 && (low + 0x100 * x) / 0x100 == low / 0x100 + x
  {
  }

  lemma {:induction false} EightValues(s: seq<byte>)
    requires |s| == 8
    ensures FixedValue(s) == FixedValue(s[..4]) + 0x1_0000_0000 * FixedValue(s[4..])
  {
    hide FixedValue;
    var t := s[..4];
    Fixed32Bytes(0, t);
    ValueFrom(s, 3);
    ValueFrom(s, 2);
    ValueFrom(s, 1);
    ValueFrom(s, 0);
    assert s[0..] == s;
  }

  // ---------- payloads ----------

  /** The payload of one field, by its wire type. */
  ghost predicate IsPayload(wire: nat, p: seq<byte>) {
    match wire
    case 0 => IsVarint(p)
    case 1 => |p| == 8
    case 2 => exists k :: 0 <= k <= |p| && IsNumber(p[..k], |p| - k)
    case 5 => |p| == 4
    case _ => false
  }

  lemma {:induction false} SkipVarintExact(p: seq<byte>, rest: seq<byte>)
    requires IsVarint(p)
    ensures SkipVarint(p + rest) == Good((), rest)
    decreases |p|
  {
    var b, t := p[0], p[1..];
    assert p == [b] + t && (p + rest)[1..] == t + rest;
    VarintTail(b, t);
    if b >= 128 { SkipVarintExact(t, rest); } else { assert t + rest == rest; }
  }

  /** A payload is skipped exactly, whatever follows it. */
  lemma {:induction false} PayloadSkipped(wire: nat, p: seq<byte>, rest: seq<byte>)
    requires IsPayload(wire, p)
    ensures SkipField(wire, p + rest) == Good((), rest)
  {
    hide DecVarint32, IsNumber;
    match wire
    case 0 => SkipVarintExact(p, rest);
    case 1 => assert (p + rest)[8..] == rest;
    case 2 =>
      var k :| 0 <= k <= |p| && IsNumber(p[..k], |p| - k);
      var q, payload := p[..k], p[k..];
      assert p + rest == q + (payload + rest);
      NumberRead(q, |payload|, payload + rest);
      assert (payload + rest)[|payload|..] == rest;
    case 5 => assert (p + rest)[4..] == rest;
  }

  /** Wire types without a payload of that kind are refused, and so is an input that ends too early. */
  lemma {:induction false} SkipRefuses(wire: nat, s: seq<byte>)
    ensures wire != 0 && wire != 1 && wire != 2 && wire != 5 ==> SkipField(wire, s).Bad?
    ensures wire == 0 && Unterminated(s) ==> SkipField(wire, s).Bad?
    ensures wire == 1 && |s| < 8 ==> SkipField(wire, s).Bad?
    ensures wire == 5 && |s| < 4 ==> SkipField(wire, s).Bad?
    ensures wire == 2 && Unterminated(s) ==> SkipField(wire, s).Bad?
    ensures forall k :: 0 <= k <= |s| && wire == 2 && IsNumber(s[..k], Number(s[..k])) && Number(s[..k]) > |s| - k
                        ==> SkipField(wire, s).Bad?
  {
    hide DecVarint32, IsNumber;
    if Unterminated(s) { NoVarint(s); }
    forall k | 0 <= k <= |s| && wire == 2 && IsNumber(s[..k], Number(s[..k])) && Number(s[..k]) > |s| - k
      ensures SkipField(wire, s).Bad?
    {
      assert s == s[..k] + s[k..];
      NumberRead(s[..k], Number(s[..k]), s[k..]);
    }
  }

  /** What the writer puts in front of a content is its length. */
  lemma {:induction false} DelimitedPayload(content: seq<byte>)
    requires |content| < UINT32
    ensures IsPayload(2, EncVarint(|content|) + content)
  {
    WrittenNumber(|content|);
    var p, k := EncVarint(|content|) + content, |EncVarint(|content|)|;
    assert p[..k] == EncVarint(|content|) && |p| - k == |content|;
  }
}
