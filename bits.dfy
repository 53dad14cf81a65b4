/** The unsigned C++ arithmetic the ciphers use, on bounded integers:
    `unsigned char` and `uint32_t`/`uint64_t` values, `+` wrapping modulo
    2^32, the shifts `<<` and `>>`, and the bitwise `|` and `^`, which are
    defined here bit by bit. */
module Bits {

  /** `unsigned char`. */
  type byte = x: int | 0 <= x < 0x100

  /** `uint32_t`. */
  type word = x: int | 0 <= x < 0x1_0000_0000

  /** `uint64_t`. */
  type u64 = x: int | 0 <= x < 0x1_0000_0000_0000_0000

  function Pow2(n: nat): (r: nat)
    ensures r >= 1
  {
    if n == 0 then 1 else 2 * Pow2(n - 1)
  }

  lemma Pow2Values()
    ensures Pow2(8) == 0x100
    ensures Pow2(16) == 0x1_0000
    ensures Pow2(24) == 0x100_0000
    ensures Pow2(32) == 0x1_0000_0000
  {
    assert Pow2(4) == 16;
    assert Pow2(8) == 0x100;
    assert Pow2(12) == 0x1000;
    assert Pow2(16) == 0x1_0000;
    assert Pow2(20) == 0x10_0000;
    assert Pow2(24) == 0x100_0000;
    assert Pow2(28) == 0x1000_0000;
  }

  lemma {:induction false} Pow2Add(m: nat, n: nat)
    ensures Pow2(m + n) == Pow2(m) * Pow2(n)
    decreases m
  {
    if m > 0 {
      Pow2Add(m - 1, n);
      assert Pow2(m + n) == 2 * Pow2(m - 1 + n);
    }
  }

  lemma {:induction false} Pow2Monotone(m: nat, n: nat)
    requires m <= n
    ensures Pow2(m) <= Pow2(n)
    decreases n
  {
    if m < n {
      Pow2Monotone(m, n - 1);
    }
  }

  /** Bitwise exclusive or: the low bit is the parity of the two low bits,
      the rest is the exclusive or of the remaining bits. */
  function Xor(x: nat, y: nat): nat
    decreases x + y
  {
    if x == 0 && y == 0 then 0 else 2 * Xor(x / 2, y / 2) + (x + y) % 2
  }

  /** Bitwise inclusive or. */
  function Or(x: nat, y: nat): nat
    decreases x + y
  {
    if x == 0 && y == 0 then 0
    else 2 * Or(x / 2, y / 2) + (if x % 2 == 1 || y % 2 == 1 then 1 else 0)
  }

  /** Exclusive or keeps values of n bits within n bits. */
  lemma {:induction false} XorBound(x: nat, y: nat, n: nat)
    requires x < Pow2(n) && y < Pow2(n)
    ensures Xor(x, y) < Pow2(n)
    decreases x + y
  {
    if !(x == 0 && y == 0) {
      assert n > 0;
      XorBound(x / 2, y / 2, n - 1);
    }
  }

  lemma {:induction false} OrBound(x: nat, y: nat, n: nat)
    requires x < Pow2(n) && y < Pow2(n)
    ensures Or(x, y) < Pow2(n)
    decreases x + y
  {
    if !(x == 0 && y == 0) {
      assert n > 0;
      OrBound(x / 2, y / 2, n - 1);
    }
  }

  /** Exclusive or with the same value twice is the identity. */
  lemma {:induction false} XorCancel(x: nat, t: nat)
    ensures Xor(Xor(x, t), t) == x
    decreases x + t
  {
    if !(x == 0 && t == 0) {
      var z := Xor(x, t);
      XorStep(x, t);
      XorStep(z, t);
      assert z / 2 == Xor(x / 2, t / 2) && z % 2 == (x + t) % 2;
      XorCancel(x / 2, t / 2);
      ParityCancel(x, t, z);
    }
  }

  lemma ParityCancel(x: nat, t: nat, z: nat)
    requires z % 2 == (x + t) % 2
    ensures (z + t) % 2 == x % 2
  {
  }

  /** The recursive step of `Xor`, which also holds at 0. */
  lemma XorStep(x: nat, y: nat)
    ensures Xor(x, y) == 2 * Xor(x / 2, y / 2) + (x + y) % 2
  {
  }

  lemma {:induction false} XorZero(x: nat)
    ensures Xor(x, 0) == x
    decreases x
  {
    if x != 0 {
      XorZero(x / 2);
    }
  }

  lemma {:induction false} OrComm(x: nat, y: nat)
    ensures Or(x, y) == Or(y, x)
    decreases x + y
  {
    if !(x == 0 && y == 0) {
      OrComm(x / 2, y / 2);
    }
  }

  /** An inclusive or of values with no bit in common is their sum. */
  lemma {:induction false} OrDisjoint(a: nat, b: nat, k: nat)
    requires a % Pow2(k) == 0 && b < Pow2(k)
    ensures Or(a, b) == a + b
    decreases a + b
  {
    if !(a == 0 && b == 0) {
      if k == 0 {
        assert b == 0;
        OrZero(a);
      } else {
        assert Pow2(k) == 2 * Pow2(k - 1);
        DivPow2Step(a, k);
        OrDisjoint(a / 2, b / 2, k - 1);
      }
    }
  }

  lemma {:induction false} OrZero(a: nat)
    ensures Or(a, 0) == a
    decreases a
  {
    if a != 0 {
      OrZero(a / 2);
    }
  }

  lemma DivPow2Step(a: nat, k: nat)
    requires k > 0 && a % Pow2(k) == 0
    ensures a % 2 == 0 && (a / 2) % Pow2(k - 1) == 0
  {
    var p := Pow2(k - 1);
    var q := a / Pow2(k);
    assert a == q * Pow2(k);
    assert a == (q * p) * 2 + 0;
    DivModUnique(a, 2, q * p, 0);
    DivModUnique(q * p, p, q, 0);
  }

  /** Quotient and remainder are the only ones with the defining property. */
  lemma DivModUnique(m: int, d: int, q: int, r: int)
    requires d > 0 && m == q * d + r && 0 <= r < d
    ensures m / d == q && m % d == r
  {
    var q', r' := m / d, m % d;
    assert (q' - q) * d == r - r';
    MulBounds(q' - q, d);
  }

  lemma MulBounds(e: int, d: int)
    requires d > 0
    ensures e >= 1 ==> e * d >= d
    ensures e <= -1 ==> e * d <= -d
  {
  }

  /** A shift by a constant count is a product or quotient by that power of
      two. Stating the power as a separate value keeps callers' arithmetic
      linear. */
  lemma ShiftByConstant(x: word, c: nat, p: nat)
    requires c < 32 && p == Pow2(c)
    ensures Shl32(x, c) == (x * p) % 0x1_0000_0000
    ensures Shr32(x, c) == x / p
  {
  }

  /** A left shift that pushes no bit past bit 31 is a plain product. */
  lemma ShlNoOverflow(x: word, c: nat, p: nat)
    requires c < 32 && p == Pow2(c) && x * p < 0x1_0000_0000
    ensures Shl32(x, c) == x * p
  {
    DivModUnique(x * p, 0x1_0000_0000, 0, x * p);
  }

  /** Or-ing in a value shifted above the bits of `x` adds it. */
  lemma OrShifted(x: nat, y: nat, p: nat, k: nat)
    requires p == Pow2(k) && x < p
    ensures Or(x, y * p) == x + y * p
  {
    MulMod(y, p);
    OrComm(x, y * p);
    OrDisjoint(y * p, x, k);
  }

  /** `x ^ y` on `unsigned char`. */
  function XorByte(x: byte, y: byte): byte
  {
    Pow2Values();
    XorBound(x, y, 8);
    Xor(x, y)
  }

  lemma XorByteCancel(x: byte, t: byte)
    ensures XorByte(XorByte(x, t), t) == x
  {
    XorCancel(x, t);
  }

  lemma XorByteZero(x: byte)
    ensures XorByte(0, x) == x
  {
    XorZero(x);
    XorComm(0, x);
  }

  lemma {:induction false} XorComm(x: nat, y: nat)
    ensures Xor(x, y) == Xor(y, x)
    decreases x + y
  {
    if !(x == 0 && y == 0) {
      XorComm(x / 2, y / 2);
    }
  }

  lemma {:induction false} XorAssoc(x: nat, y: nat, z: nat)
    ensures Xor(Xor(x, y), z) == Xor(x, Xor(y, z))
    decreases x + y + z
  {
    if !(x == 0 && y == 0 && z == 0) {
      var xy, yz := Xor(x, y), Xor(y, z);
      XorStep(x, y);
      XorStep(y, z);
      XorStep(xy, z);
      XorStep(x, yz);
      assert xy / 2 == Xor(x / 2, y / 2) && xy % 2 == (x + y) % 2;
      assert yz / 2 == Xor(y / 2, z / 2) && yz % 2 == (y + z) % 2;
      XorAssoc(x / 2, y / 2, z / 2);
      ParityAssoc(x, y, z, xy, yz);
    }
  }

  lemma ParityAssoc(x: nat, y: nat, z: nat, xy: nat, yz: nat)
    requires xy % 2 == (x + y) % 2 && yz % 2 == (y + z) % 2
    ensures (xy + z) % 2 == (x + yz) % 2
  {
  }

  lemma {:induction false} XorSelf(x: nat)
    ensures Xor(x, x) == 0
    decreases x
  {
    if x != 0 {
      XorSelf(x / 2);
    }
  }

  /** XORing two values with the same mask cancels the mask. */
  lemma XorByteMaskCancel(a: byte, b: byte, t: byte)
    ensures XorByte(XorByte(a, t), XorByte(b, t)) == XorByte(a, b)
  {
    XorAssoc(a, t, Xor(b, t));
    XorComm(b, t);
    XorAssoc(t, t, b);
    XorSelf(t);
    XorComm(0, b);
    XorZero(b);
  }

  /** `data` XORed byte by byte with the first |data| bytes of `pad`: what
      both stream ciphers do to their input. */
  function XorBytes(data: seq<byte>, pad: seq<byte>): (r: seq<byte>)
    requires |pad| >= |data|
    ensures |r| == |data|
  {
    seq(|data|, i requires 0 <= i < |data| => XorByte(data[i], pad[i]))
  }

  /** XOR with the same pad undoes itself. */
  lemma XorBytesSelfInverse(p: seq<byte>, pad: seq<byte>)
    requires |pad| >= |p|
    ensures XorBytes(XorBytes(p, pad), pad) == p
  {
    var c := XorBytes(p, pad);
    forall i | 0 <= i < |p| ensures XorBytes(c, pad)[i] == p[i] {
      XorByteCancel(p[i], pad[i]);
    }
  }

  /** Pad bytes beyond the data's length are never consulted. */
  lemma XorBytesUsesPadPrefix(p: seq<byte>, pad1: seq<byte>, pad2: seq<byte>)
    requires |pad1| >= |p| && |pad2| >= |p|
    requires pad1[..|p|] == pad2[..|p|]
    ensures XorBytes(p, pad1) == XorBytes(p, pad2)
  {
    forall i | 0 <= i < |p| ensures pad1[i] == pad2[i] {
      assert pad1[..|p|][i] == pad2[..|p|][i];
    }
  }

  /** A slice of the result is the XOR of the matching slices. */
  lemma XorBytesSlice(p: seq<byte>, pad: seq<byte>, a: nat, b: nat)
    requires |pad| >= |p| && a <= b <= |p|
    ensures XorBytes(p, pad)[a..b] == XorBytes(p[a..b], pad[a..b])
  {
    var lhs, rhs := XorBytes(p, pad)[a..b], XorBytes(p[a..b], pad[a..b]);
    forall i | 0 <= i < b - a ensures lhs[i] == rhs[i] {
      assert p[a..b][i] == p[a + i] && pad[a..b][i] == pad[a + i];
    }
  }

  /** Two texts under the same pad: XORing the results cancels the pad. */
  lemma XorBytesReuse(p: seq<byte>, q: seq<byte>, pad: seq<byte>)
    requires |p| == |q| <= |pad|
    ensures XorBytes(XorBytes(p, pad), XorBytes(q, pad)) == XorBytes(p, q)
  {
    var lhs := XorBytes(XorBytes(p, pad), XorBytes(q, pad));
    forall i | 0 <= i < |p| ensures lhs[i] == XorBytes(p, q)[i] {
      XorByteMaskCancel(p[i], q[i], pad[i]);
    }
  }

  /** XORing zero bytes yields the pad itself. */
  lemma XorBytesZeros(n: nat, pad: seq<byte>)
    requires |pad| >= n
    ensures XorBytes(seq(n, _ => 0), pad) == pad[..n]
  {
    forall i | 0 <= i < n ensures XorBytes(seq(n, _ => 0), pad)[i] == pad[i] {
      XorByteZero(pad[i]);
    }
  }

  /** `x ^ y` on `uint32_t`. */
  function Xor32(x: word, y: word): word
  {
    Pow2Values();
    XorBound(x, y, 32);
    Xor(x, y)
  }

  lemma Xor32Cancel(x: word, t: word)
    ensures Xor32(Xor32(x, t), t) == x
  {
    XorCancel(x, t);
  }

  /** `x | y` on `uint32_t`. */
  function Or32(x: word, y: word): word
  {
    Pow2Values();
    OrBound(x, y, 32);
    Or(x, y)
  }

  /** `x + y` on `uint32_t`: wraps modulo 2^32. */
  function Add32(x: word, y: word): word
  {
    (x + y) % 0x1_0000_0000
  }

  /** `x << c` on `uint32_t`: bits shifted past bit 31 are lost. */
  function Shl32(x: word, c: nat): word
    requires c < 32
  {
    (x * Pow2(c)) % 0x1_0000_0000
  }

  /** `x >> c` on `uint32_t`. */
  function Shr32(x: word, c: nat): word
    requires c < 32
  {
    QuotientAtMost(x, Pow2(c));
    x / Pow2(c)
  }

  lemma QuotientAtMost(x: nat, p: nat)
    requires p >= 1
    ensures x / p <= x
  {
    var q := x / p;
    assert x == q * p + x % p;
    MulMonotone(1, p, q);
  }

  lemma MulModSplit(n: nat, p: nat, q: nat)
    requires p > 0 && q > 0
    ensures (n * p) % (p * q) == (n % q) * p
  {
    var h, l := n / q, n % q;
    assert n * p == (h * q + l) * p;
    assert (h * q + l) * p == h * (p * q) + l * p;
    MulStrict(l, q, p);
    DivModUnique(n * p, p * q, h, l * p);
  }

  lemma MulStrict(l: nat, q: nat, p: nat)
    requires l < q && p > 0
    ensures l * p < q * p
  {
  }

  lemma QuotientBound(n: nat, p: nat, q: nat)
    requires q > 0 && n < p * q
    ensures n / q < p
  {
    var h := n / q;
    assert n == h * q + n % q;
    if h >= p {
      MulMonotone(p, h, q);
    }
  }

  lemma MulMonotone(p: nat, h: nat, q: nat)
    requires p <= h
    ensures p * q <= h * q
  {
  }

  lemma MulMod(l: nat, p: nat)
    requires p > 0
    ensures (l * p) % p == 0
  {
    DivModUnique(l * p, p, l, 0);
  }

  /** Swapping the two halves of a number written in the mixed radix
      (p, q) twice restores it. */
  lemma SwapHalves(n: nat, p: nat, q: nat)
    requires p > 0 && q > 0 && n < p * q
    ensures var m := (n % q) * p + n / q; (m % p) * q + m / p == n
  {
    var h, l := n / q, n % q;
    QuotientBound(n, p, q);
    DivModUnique(l * p + h, p, l, h);
  }
}
