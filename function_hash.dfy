/**
 * Model of function_hash/main.py: `hashFunction` folds every character of
 * every line into an unbounded integer state with an xor, a shift-and-add
 * multiply and a mask, then encodes the state as 32 big-endian bytes;
 * `validate_file` compares a recomputed digest with an expected one.
 *
 * Python integers are unbounded and every value here is non-negative, so the
 * operators `^`, `&` and `<<` are modelled on `nat` bit by bit.
 */
module FunctionHash {
  import opened Wrappers

  /** One element of a Python `bytes` value. */
  type Byte = x: int | 0 <= x < 256

  /** Initial hash state (main.py line 8). */
  const Offset: nat := 0x811C9DC5
  /** The multiplier applied to each character's ordinal (line 9). */
  const Prime: nat := 104729
  /** The mask applied after every step (line 26): forty hexadecimal F's. */
  const Mask: nat := 0xFFFF_FFFF_FFFF_FFFF_FFFF_FFFF_FFFF_FFFF_FFFF_FFFF
  /** Width of the mask in bits. */
  const StateBits: nat := 160
  /** The factor that the five shifted copies add up to. */
  const FnvPrime: nat := 16777619
  /** The length passed to `to_bytes` (line 28). */
  const DigestLength: nat := 32

  function Pow2(k: nat): (r: nat)
    ensures r >= 1
  {
    if k == 0 then 1 else 2 * Pow2(k - 1)
  }

  lemma {:induction false} Pow2Add(a: nat, b: nat)
    ensures Pow2(a + b) == Pow2(a) * Pow2(b)
  {
    if b > 0 {
      Pow2Add(a, b - 1);
      assert Pow2(a + b) == 2 * Pow2(a + b - 1);
    }
  }

  lemma Pow2Monotone(a: nat, b: nat)
    requires a <= b
    ensures Pow2(a) <= Pow2(b)
  {
    Pow2Add(a, b - a);
  }

  /** The modulus that the mask keeps, computed by repeated doubling of the exponent. */
  lemma Pow2StateBits()
    ensures Pow2(StateBits) == Mask + 1
  {
    assert Pow2(10) == 0x400;
    Pow2Add(10, 10);
    assert Pow2(20) == 0x10_0000;
    Pow2Add(20, 20);
    assert Pow2(40) == 0x100_0000_0000;
    Pow2Add(40, 40);
    assert Pow2(80) == 0x1_0000_0000_0000_0000_0000;
    Pow2Add(80, 80);
  }

  lemma Pow2TwentyFour()
    ensures Pow2(24) == 16777216
  {
    assert Pow2(8) == 256;
    Pow2Add(8, 8);
    Pow2Add(16, 8);
  }

  /** Python's `x << k` on a non-negative integer. */
  function Shl(x: nat, k: nat): nat
  {
    x * Pow2(k)
  }

  /** Python's `a ^ b` on non-negative integers, least significant bit first. */
  function Xor(a: nat, b: nat): (r: nat)
    ensures r <= a + b
    decreases a + b
  {
    if a == 0 then b
    else if b == 0 then a
    else 2 * Xor(a / 2, b / 2) + (if a % 2 == b % 2 then 0 else 1)
  }

  /** Python's `a & b` on non-negative integers, least significant bit first. */
  function And(a: nat, b: nat): (r: nat)
    ensures r <= a && r <= b
    decreases a + b
  {
    if a == 0 || b == 0 then 0
    else 2 * And(a / 2, b / 2) + (if a % 2 == 1 && b % 2 == 1 then 1 else 0)
  }

  /** What one character mixes into the state (line 14). */
  function Contribution(c: char): (v: nat)
    ensures v < 32
  {
    ((c as int) * Prime) % 32
  }

  /** The five shifted copies of the state that line 18 adds to it (lines 19-23). */
  function Shifts(x: nat): nat
  {
    Shl(x, 1) + Shl(x, 4) + Shl(x, 7) + Shl(x, 8) + Shl(x, 24)
  }

  /** One update of `hash_state` for one character (lines 14-26). */
  function Step(h: nat, c: char): (r: nat)
    ensures r <= Mask
  {
    var x := Xor(h, Contribution(c));
    And(x + Shifts(x), Mask)
  }

  /** The state after folding the characters of `s`, in order, into `h` (inner loop, lines 12-26). */
  function FoldChars(h: nat, s: string): (r: nat)
    ensures h <= Mask || s != [] ==> r <= Mask
  {
    if s == [] then h else Step(FoldChars(h, s[..|s| - 1]), s[|s| - 1])
  }

  /** The state after folding every line of `lines`, in order, into `h` (outer loop, line 11). */
  function FoldLines(h: nat, lines: seq<string>): (r: nat)
    ensures h <= Mask ==> r <= Mask
  {
    if lines == [] then h else FoldChars(FoldLines(h, lines[..|lines| - 1]), lines[|lines| - 1])
  }

  /** The final `hash_state` of `hashFunction(data)`; the mask of line 26 bounds it whatever the input. */
  function HashValue(data: seq<string>): (r: nat)
    ensures r <= Mask
  {
    FoldLines(Offset, data)
  }

  /** All lines joined with no separator. */
  function Flatten(lines: seq<string>): string
  {
    if lines == [] then "" else Flatten(lines[..|lines| - 1]) + lines[|lines| - 1]
  }

  /** Python's `x.to_bytes(len, "big")`; `None` where Python raises OverflowError. */
  function ToBytes(x: nat, len: nat): (r: Option<seq<Byte>>)
    ensures r.Some? ==> |r.value| == len
  {
    if len == 0 then
      if x == 0 then Some([]) else None
    else
      match ToBytes(x / 256, len - 1)
      case None => None
      case Some(high) => Some(high + [x % 256])
  }

  /** Python's `int.from_bytes(bs, "big")`: the number that a big-endian byte string encodes. */
  function FromBytes(bs: seq<Byte>): nat
  {
    if bs == [] then 0 else FromBytes(bs[..|bs| - 1]) * 256 + bs[|bs| - 1]
  }

  // ---------------------------------------------------------------------------
  // Bitwise operators

  /** The recursive step of `Xor`, also when one operand is zero. */
  lemma XorUnfold(a: nat, b: nat)
    ensures Xor(a, b) == 2 * Xor(a / 2, b / 2) + (if a % 2 == b % 2 then 0 else 1)
  {
  }

  lemma {:induction false} XorCommutes(a: nat, b: nat)
    ensures Xor(a, b) == Xor(b, a)
    decreases a + b
  {
    if a != 0 && b != 0 {
      XorCommutes(a / 2, b / 2);
    }
  }

  /** Xoring twice with the same value undoes the first xor. */
  lemma {:induction false} XorCancel(a: nat, b: nat)
    ensures Xor(Xor(a, b), b) == a
    decreases a + b
  {
    if a + b != 0 {
      var x := Xor(a, b);
      XorUnfold(a, b);
      XorUnfold(x, b);
      XorCancel(a / 2, b / 2);
    }
  }

  /** Xor with a fixed value is injective in the other operand. */
  lemma XorInjective(h: nat, v1: nat, v2: nat)
    requires Xor(h, v1) == Xor(h, v2)
    ensures v1 == v2
  {
    XorCommutes(h, v1);
    XorCommutes(h, v2);
    XorCancel(v1, h);
    XorCancel(v2, h);
  }

  /** Xor of two k-bit numbers is a k-bit number. */
  lemma {:induction false} XorBound(a: nat, b: nat, k: nat)
    requires a < Pow2(k) && b < Pow2(k)
    ensures Xor(a, b) < Pow2(k)
  {
    if a != 0 && b != 0 {
      XorBound(a / 2, b / 2, k - 1);
    }
  }

  /** Python's `x & (2**k - 1)` keeps the low k bits: it is `x % 2**k`. */
  lemma {:induction false} AndLowOnes(x: nat, k: nat)
    ensures And(x, Pow2(k) - 1) == x % Pow2(k)
  {
    if k == 0 {
      assert Pow2(k) - 1 == 0;
    } else if x == 0 {
      DivModUnique(0, 0, 0, Pow2(k));
    } else {
      var p := Pow2(k - 1);
      calc {
        And(x, Pow2(k) - 1);
        { assert Pow2(k) == 2 * p; }
        And(x, 2 * p - 1);
        { AndOddMask(x, p); }
        2 * And(x / 2, p - 1) + x % 2;
        { AndLowOnes(x / 2, k - 1); }
        2 * ((x / 2) % p) + x % 2;
        { ModDouble(x, p); }
        x % (2 * p);
        { assert Pow2(k) == 2 * p; }
        x % Pow2(k);
      }
    }
  }

  /** With a mask of the form `2p - 1`, `And` keeps the lowest bit and recurses with `p - 1`. */
  lemma AndOddMask(x: nat, p: nat)
    requires x > 0 && p > 0
    ensures And(x, 2 * p - 1) == 2 * And(x / 2, p - 1) + x % 2
  {
    var m := 2 * p - 1;
    assert m / 2 == p - 1 && m % 2 == 1;
  }

  lemma ModDouble(x: nat, c: nat)
    requires c > 0
    ensures x % (2 * c) == 2 * ((x / 2) % c) + x % 2
  {
    var q := (x / 2) / c;
    var r := (x / 2) % c;
    assert x / 2 == q * c + r;
    assert x == q * (2 * c) + (2 * r + x % 2);
    DivModUnique(x, q, 2 * r + x % 2, 2 * c);
  }

  /** Quotient and remainder are the only ones: `z == q * m + r` with `0 <= r < m` fixes both. */
  lemma DivModUnique(z: int, q: int, r: int, m: int)
    requires m > 0 && 0 <= r < m && z == q * m + r
    ensures z / m == q && z % m == r
  {
    var d := q - z / m;
    assert d * m == q * m - (z / m) * m;
    MulSign(d, m);
  }

  lemma MulSign(d: int, m: int)
    requires m > 0
    ensures d >= 1 ==> d * m >= m
    ensures d <= -1 ==> d * m <= -m
  {
  }

  // ---------------------------------------------------------------------------
  // One step

  /** Because 104729 = 25 (mod 32), a character's contribution depends only on its ordinal mod 32. */
  lemma ContributionLowBits(c: char)
    ensures Contribution(c) == ((c as int % 32) * 25) % 32
  {
    var o := c as int;
    var a := o % 32;
    var b := o / 32;
    assert o == 32 * b + a;
    assert a * Prime == a * 25 + 32 * (a * 3272);
    assert a * 25 == 32 * ((a * 25) / 32) + (a * 25) % 32;
    var q := b * Prime + a * 3272 + (a * 25) / 32;
    assert o * Prime == 32 * b * Prime + a * Prime;
    assert o * Prime == 32 * q + (a * 25) % 32;
    DivModUnique(o * Prime, q, (a * 25) % 32, 32);
  }

  /** The five shifted copies added to the state multiply it by 16777619 (lines 18-24). */
  lemma ShiftSumIsMultiply(x: nat)
    ensures x + Shifts(x) == x * FnvPrime
  {
    assert Pow2(1) == 2 && Pow2(4) == 16 && Pow2(7) == 128 && Pow2(8) == 256;
    Pow2TwentyFour();
  }

  /** One step is `((h ^ v) * 16777619) & mask`, which is the product reduced modulo 2**160. */
  lemma StepIsFnvMultiply(h: nat, c: char)
    ensures Step(h, c) == (Xor(h, Contribution(c)) * FnvPrime) % Pow2(StateBits)
  {
    var x := Xor(h, Contribution(c));
    ShiftSumIsMultiply(x);
    Pow2StateBits();
    AndLowOnes(x * FnvPrime, StateBits);
  }

  /** Multiplying by the odd constant 16777619 modulo 2**160 loses nothing. */
  lemma MultiplyInjective(x: nat, y: nat)
    requires x <= Mask && y <= Mask
    requires (x * FnvPrime) % (Mask + 1) == (y * FnvPrime) % (Mask + 1)
    ensures x == y
  {
    var m := Mask + 1;
    // the inverse of 16777619 modulo 2**160
    var inv := 0x7725777004faa8296946cf4587b58b5d359c449b;
    assert FnvPrime * inv == 1 + 7808563 * m;
    MulModInverse(x, inv, m);
    MulModInverse(y, inv, m);
  }

  lemma MulModInverse(x: nat, inv: nat, m: nat)
    requires 0 < m && x < m && FnvPrime * inv == 1 + 7808563 * m
    ensures ((x * FnvPrime) % m * inv) % m == x
  {
    var a := x * FnvPrime;
    ModMul(a, inv, m);
    calc {
      a * inv;
      x * (FnvPrime * inv);
      x * (1 + 7808563 * m);
      x + (x * 7808563) * m;
    }
    ModAddMultiple(x, x * 7808563, m);
    DivModUnique(x, 0, x, m);
  }

  lemma ModMul(a: nat, b: nat, m: nat)
    requires m > 0
    ensures (a % m * b) % m == (a * b) % m
  {
    assert a * b == ((a / m) * b) * m + (a % m) * b;
    ModAddMultiple((a % m) * b, (a / m) * b, m);
  }

  lemma ModAddMultiple(z: nat, k: nat, m: nat)
    requires m > 0
    ensures (z + k * m) % m == z % m
  {
    var q := z / m;
    assert z == q * m + z % m;
    assert z + k * m == (q + k) * m + z % m;
    DivModUnique(z + k * m, q + k, z % m, m);
  }

  /** Two different states never collapse into one after the same character. */
  lemma StepInjective(h1: nat, h2: nat, c: char)
    requires h1 <= Mask && h2 <= Mask
    requires Step(h1, c) == Step(h2, c)
    ensures h1 == h2
  {
    var v := Contribution(c);
    StepIsFnvMultiply(h1, c);
    StepIsFnvMultiply(h2, c);
    Pow2StateBits();
    Pow2Monotone(5, StateBits);
    assert Pow2(5) == 32;
    XorBound(h1, v, StateBits);
    XorBound(h2, v, StateBits);
    MultiplyInjective(Xor(h1, v), Xor(h2, v));
    XorCancel(h1, v);
    XorCancel(h2, v);
  }

  /** From one state, characters with different contributions lead to different states. */
  lemma StepSeparates(h: nat, c1: char, c2: char)
    requires h <= Mask
    requires Contribution(c1) != Contribution(c2)
    ensures Step(h, c1) != Step(h, c2)
  {
    if Step(h, c1) == Step(h, c2) {
      var v1, v2 := Contribution(c1), Contribution(c2);
      StepIsFnvMultiply(h, c1);
      StepIsFnvMultiply(h, c2);
      Pow2StateBits();
      Pow2Monotone(5, StateBits);
      assert Pow2(5) == 32;
      XorBound(h, v1, StateBits);
      XorBound(h, v2, StateBits);
      MultiplyInjective(Xor(h, v1), Xor(h, v2));
      XorInjective(h, v1, v2);
    }
  }

  // ---------------------------------------------------------------------------
  // The fold over lines and characters

  /** Folding a concatenation is folding the parts one after the other. */
  lemma {:induction false} FoldCharsAppend(h: nat, a: string, b: string)
    ensures FoldChars(h, a + b) == FoldChars(FoldChars(h, a), b)
    decreases |b|
  {
    if b != [] {
      var b' := b[..|b| - 1];
      assert (a + b)[..|a + b| - 1] == a + b';
      FoldCharsAppend(h, a, b');
    } else {
      assert a + b == a;
    }
  }

  /** Line boundaries are invisible: the lines fold exactly as their concatenation does. */
  lemma {:induction false} FoldLinesFlatten(h: nat, lines: seq<string>)
    ensures FoldLines(h, lines) == FoldChars(h, Flatten(lines))
    decreases |lines|
  {
    if lines != [] {
      var init := lines[..|lines| - 1];
      FoldLinesFlatten(h, init);
      FoldCharsAppend(h, Flatten(init), lines[|lines| - 1]);
    }
  }

  lemma {:induction false} FlattenEmptyLines(lines: seq<string>)
    requires forall i :: 0 <= i < |lines| ==> lines[i] == ""
    ensures Flatten(lines) == ""
    decreases |lines|
  {
    if lines != [] {
      FlattenEmptyLines(lines[..|lines| - 1]);
    }
  }

  /** Characters that agree modulo 32, position by position, fold to the same state. */
  lemma {:induction false} FoldCharsLowBits(h: nat, s: string, t: string)
    requires |s| == |t|
    requires forall i :: 0 <= i < |s| ==> s[i] as int % 32 == t[i] as int % 32
    ensures FoldChars(h, s) == FoldChars(h, t)
    decreases |s|
  {
    if s != [] {
      FoldCharsLowBits(h, s[..|s| - 1], t[..|t| - 1]);
      ContributionLowBits(s[|s| - 1]);
      ContributionLowBits(t[|t| - 1]);
    }
  }

  // ---------------------------------------------------------------------------
  // Big-endian bytes

  /** `to_bytes` succeeds exactly when the value fits, and then `from_bytes` gives the value back. */
  lemma {:induction false} ToBytesRoundTrip(x: nat, len: nat)
    ensures ToBytes(x, len).Some? <==> x < Pow2(8 * len)
    ensures ToBytes(x, len).Some? ==>
      |ToBytes(x, len).value| == len && FromBytes(ToBytes(x, len).value) == x
  {
    if len > 0 {
      var p := Pow2(8 * (len - 1));
      ToBytesRoundTrip(x / 256, len - 1);
      assert Pow2(8) == 256;
      Pow2Add(8 * (len - 1), 8);
      assert Pow2(8 * len) == p * 256;
      QuotientBound(x, p);
      match ToBytes(x / 256, len - 1)
      case None =>
      case Some(high) =>
        var bs := high + [x % 256];
        assert bs[..|bs| - 1] == high;
        assert FromBytes(bs) == (x / 256) * 256 + x % 256;
    }
  }

  lemma QuotientBound(x: nat, p: nat)
    ensures x / 256 < p <==> x < p * 256
  {
    var q := x / 256;
    assert x == q * 256 + x % 256;
    MulSign(p - q, 256);
  }

  /** Two byte strings of the same length that encode the same number are equal. */
  lemma {:induction false} FromBytesInjective(a: seq<Byte>, b: seq<Byte>)
    requires |a| == |b| && FromBytes(a) == FromBytes(b)
    ensures a == b
    decreases |a|
  {
    if a != [] {
      var a', b' := a[..|a| - 1], b[..|b| - 1];
      DivModUnique(FromBytes(a), FromBytes(a'), a[|a| - 1], 256);
      DivModUnique(FromBytes(b), FromBytes(b'), b[|b| - 1], 256);
      FromBytesInjective(a', b');
      assert a == a' + [a[|a| - 1]] && b == b' + [b[|b| - 1]];
    }
  }

  /** Leading zero bytes do not change the encoded number. */
  lemma {:induction false} FromBytesLeadingZeros(z: seq<Byte>, t: seq<Byte>)
    requires forall i :: 0 <= i < |z| ==> z[i] == 0
    ensures FromBytes(z + t) == FromBytes(t)
    decreases |z| + |t|
  {
    if t != [] {
      assert (z + t)[..|z + t| - 1] == z + t[..|t| - 1];
      FromBytesLeadingZeros(z, t[..|t| - 1]);
    } else if z != [] {
      assert z + t == z;
      FromBytesLeadingZeros(z[..|z| - 1], []);
      assert z[..|z| - 1] + [] == z[..|z| - 1];
    }
  }

  /** The hash state always fits in 32 bytes, so `to_bytes(32, "big")` never overflows (line 28). */
  lemma HashValueFits(data: seq<string>)
    ensures ToBytes(HashValue(data), DigestLength).Some?
  {
    Pow2StateBits();
    Pow2Monotone(StateBits, 8 * DigestLength);
    ToBytesRoundTrip(HashValue(data), DigestLength);
  }

  /** The 32-byte big-endian digest that `hashFunction(data)` returns. */
  function Digest(data: seq<string>): (d: seq<Byte>)
    ensures |d| == DigestLength && FromBytes(d) == HashValue(data)
  {
    HashValueFits(data);
    ToBytesRoundTrip(HashValue(data), DigestLength);
    ToBytes(HashValue(data), DigestLength).value
  }

  /**
   * `hashFunction` (lines 7-28): the nested loops update `hash_state` exactly as written,
   * one character at a time, then encode it.
   */
  method HashFunction(data: seq<string>) returns (digest: seq<Byte>)
    ensures digest == Digest(data)
  {
    var state: nat := Offset;
    var i := 0;
    while i < |data|
      invariant 0 <= i <= |data|
      invariant state == FoldLines(Offset, data[..i])
    {
      var line := data[i];
      var j := 0;
      while j < |line|
        invariant 0 <= j <= |line|
        invariant state == FoldChars(FoldLines(Offset, data[..i]), line[..j])
      {
        ghost var before := state;
        var hashed := ((line[j] as int) * Prime) % 32;
        state := Xor(state, hashed);
        state := state + Shifts(state);
        state := And(state, Mask);
        assert state == Step(before, line[j]);
        FoldCharsSnoc(FoldLines(Offset, data[..i]), line, j);
        j := j + 1;
      }
      assert line[..|line|] == line;
      FoldLinesSnoc(Offset, data, i);
      i := i + 1;
    }
    assert data[..|data|] == data;
    HashValueFits(data);
    digest := ToBytes(state, DigestLength).value;
  }

  lemma FoldCharsSnoc(h: nat, s: string, j: nat)
    requires j < |s|
    ensures FoldChars(h, s[..j + 1]) == Step(FoldChars(h, s[..j]), s[j])
  {
    assert s[..j + 1][..j] == s[..j];
  }

  lemma FoldLinesSnoc(h: nat, lines: seq<string>, i: nat)
    requires i < |lines|
    ensures FoldLines(h, lines[..i + 1]) == FoldChars(FoldLines(h, lines[..i]), lines[i])
  {
    assert lines[..i + 1][..i] == lines[..i];
  }

  /** `validate_file` (lines 36-38): whether the recomputed digest matches, and the digest itself. */
  function ValidateFile(data: seq<string>, expected: seq<Byte>): (r: (bool, seq<Byte>))
    ensures |r.1| == DigestLength && FromBytes(r.1) == HashValue(data)
    ensures r.0 <==> expected == r.1
  {
    var digest := Digest(data);
    (digest == expected, digest)
  }

  // ---------------------------------------------------------------------------
  // What the digest depends on

  /** An empty list, or a list of empty lines, hashes to the initial state 0x811C9DC5 in 32 bytes. */
  lemma EmptyLinesDigest(data: seq<string>)
    requires forall i :: 0 <= i < |data| ==> data[i] == ""
    ensures HashValue(data) == Offset
    ensures Digest(data) == seq(28, _ => 0) + [0x81, 0x1C, 0x9D, 0xC5]
  {
    FlattenEmptyLines(data);
    FoldLinesFlatten(Offset, data);
    var zeros: seq<Byte> := seq(28, _ => 0);
    var tail: seq<Byte> := [0x81, 0x1C, 0x9D, 0xC5];
    FromBytesLeadingZeros(zeros, tail);
    assert FromBytes(tail) == Offset by {
      assert tail[..3] == [0x81, 0x1C, 0x9D] && tail[..3][..2] == [0x81, 0x1C];
      assert tail[..3][..2][..1] == [0x81] && tail[..3][..2][..1][..0] == [];
      assert FromBytes([0x81, 0x1C]) == 0x811C;
      assert FromBytes([0x81, 0x1C, 0x9D]) == 0x811C9D;
    }
    FromBytesInjective(Digest(data), zeros + tail);
  }

  /** Only the concatenation of the lines matters: `["ab"]` and `["a", "b"]` hash alike. */
  lemma SameTextSameDigest(d1: seq<string>, d2: seq<string>)
    requires Flatten(d1) == Flatten(d2)
    ensures Digest(d1) == Digest(d2)
  {
    FoldLinesFlatten(Offset, d1);
    FoldLinesFlatten(Offset, d2);
    FromBytesInjective(Digest(d1), Digest(d2));
  }

  /** Only each character's ordinal modulo 32 matters, so upper- and lower-case letters collide. */
  lemma LowFiveBitsDigest(d1: seq<string>, d2: seq<string>)
    requires |Flatten(d1)| == |Flatten(d2)|
    requires forall i :: 0 <= i < |Flatten(d1)| ==> Flatten(d1)[i] as int % 32 == Flatten(d2)[i] as int % 32
    ensures Digest(d1) == Digest(d2)
  {
    FoldLinesFlatten(Offset, d1);
    FoldLinesFlatten(Offset, d2);
    FoldCharsLowBits(Offset, Flatten(d1), Flatten(d2));
    FromBytesInjective(Digest(d1), Digest(d2));
  }

  /** `validate_file` accepts a file against its own digest, also when its lines are split differently. */
  lemma ValidateFileAccepts(d1: seq<string>, d2: seq<string>)
    requires Flatten(d1) == Flatten(d2)
    ensures ValidateFile(d2, Digest(d1)).0
  {
    SameTextSameDigest(d1, d2);
  }

  /** `validate_file` rejects an expected digest that is not 32 bytes long. */
  lemma ValidateFileRejectsLength(data: seq<string>, expected: seq<Byte>)
    requires |expected| != DigestLength
    ensures !ValidateFile(data, expected).0
  {
  }

  lemma FlattenThree(d: seq<string>)
    requires |d| == 3
    ensures Flatten(d) == d[0] + d[1] + d[2]
  {
    assert d[..1][..0] == [];
    assert Flatten(d[..1]) == d[0];
    assert d[..2][..1] == d[..1];
    assert Flatten(d[..2]) == d[0] + d[1];
    assert d[..3] == d;
  }

  lemma FoldThree(h: nat, s: string)
    requires |s| == 3
    ensures FoldChars(h, s) == Step(Step(Step(h, s[0]), s[1]), s[2])
  {
    assert s[..1][..0] == [];
    assert FoldChars(h, s[..1]) == Step(h, s[0]);
    assert s[..2][..1] == s[..1];
    assert FoldChars(h, s[..2]) == Step(Step(h, s[0]), s[1]);
  }

  /**
   * Three one-character lines whose first characters contribute alike and whose second
   * characters do not, followed by the same third line, give different digests.
   */
  lemma DivergingLines(d1: seq<string>, d2: seq<string>)
    requires |d1| == 3 && |d2| == 3
    requires forall i :: 0 <= i < 3 ==> |d1[i]| == 1 && |d2[i]| == 1
    requires Contribution(d1[0][0]) == Contribution(d2[0][0])
    requires Contribution(d1[1][0]) != Contribution(d2[1][0])
    requires d1[2] == d2[2]
    ensures Digest(d1) != Digest(d2)
  {
    var s, t := Flatten(d1), Flatten(d2);
    FlattenThree(d1);
    FlattenThree(d2);
    assert s[0] == d1[0][0] && s[1] == d1[1][0] && s[2] == d1[2][0];
    assert t[0] == d2[0][0] && t[1] == d2[1][0] && t[2] == d2[2][0];
    FoldLinesFlatten(Offset, d1);
    FoldLinesFlatten(Offset, d2);
    FoldThree(Offset, s);
    FoldThree(Offset, t);
    var h := Step(Offset, s[0]);
    assert Step(Offset, t[0]) == h;
    StepSeparates(h, s[1], t[1]);
    var x, y := Step(h, s[1]), Step(h, t[1]);
    if Step(x, s[2]) == Step(y, t[2]) {
      StepInjective(x, y, s[2]);
    }
    assert HashValue(d1) == Step(x, s[2]);
    assert HashValue(d2) == Step(y, t[2]);
  }

  /** The second scenario of hash_function_test.py: `["a","b","c"]` and `["A","D","c"]` differ. */
  lemma TestDistinctInputs()
    ensures Digest(["a", "b", "c"]) != Digest(["A", "D", "c"])
  {
    DivergingLines(["a", "b", "c"], ["A", "D", "c"]);
  }

  /** `"a"` and `"A"` agree modulo 32, so `["abc"]` and `["ABC"]` collide. */
  lemma CaseCollision()
    ensures Digest(["abc"]) == Digest(["ABC"])
  {
    var d1: seq<string> := ["abc"];
    var d2: seq<string> := ["ABC"];
    assert Flatten(d1) == "abc" && Flatten(d2) == "ABC";
    LowFiveBitsDigest(d1, d2);
  }
}
