// The netmask arithmetic of src/xslt_ext.c, on 32-bit masks held as naturals.
module IpCalc {
  import opened Text

  function Pow2(n: nat): (p: nat)
    ensures p > 0
  {
    if n == 0 then 1 else 2 * Pow2(n - 1)
  }

  const ALL: nat := 0x1_0000_0000

  type Mask = m: nat | m < ALL

  lemma Pow2Of32()
    ensures Pow2(32) == ALL
  {
    assert Pow2(8) == 256;
    assert Pow2(16) == 65536;
    assert Pow2(24) == 0x100_0000;
  }

  lemma {:induction false} Pow2Monotone(a: nat, b: nat)
    requires a <= b
    ensures Pow2(a) <= Pow2(b)
  {
    if a < b {
      Pow2Monotone(a, b - 1);
    }
  }

  // ---- ipcalc_netmask ----

  /** ~(0xffffffff >> prefix): the low 32 - prefix bits cleared, the others set. */
  function Netmask(prefix: nat): (m: Mask)
    requires 1 <= prefix <= 31
  {
    Pow2Of32();
    Pow2Monotone(32 - prefix, 32);
    ALL - Pow2(32 - prefix)
  }

  // ---- ipcalc_prefix ----

  function TrailingZeros(m: nat): (t: nat)
    ensures m == 0 ==> t == 32
  {
    if m == 0 then 32
    else if m % 2 == 1 then 0
    else 1 + TrailingZeros(m / 2)
  }

  /** 32 minus the number of trailing zero bits. */
  function PrefixLength(m: Mask): (p: nat)
    ensures p <= 32
  {
    Pow2Of32();
    TrailingZerosBound(m, 32);
    32 - TrailingZeros(m)
  }

  lemma {:induction false} TrailingZerosBound(m: nat, w: nat)
    requires m < Pow2(w) && w <= 32
    ensures TrailingZeros(m) <= 32
    ensures m != 0 ==> TrailingZeros(m) < w
  {
    if m != 0 && m % 2 == 0 {
      TrailingZerosBound(m / 2, w - 1);
    }
  }

  lemma HalfMod(m: nat, p: nat)
    requires p > 0 && m % 2 == 0
    ensures m % (2 * p) == 2 * (m / 2 % p)
  {
    var h := m / 2;
    assert m == 2 * h;
    assert h == p * (h / p) + h % p;
    assert m == (2 * p) * (h / p) + 2 * (h % p);
    DivModUnique(m, 2 * p, h / p, 2 * (h % p));
  }

  lemma DivModUnique(m: nat, d: nat, q: nat, r: nat)
    requires d > 0 && m == d * q + r && r < d
    ensures m % d == r
  {
    var e := m / d - q;
    assert m == d * (m / d) + m % d;
    assert d * (m / d) - d * q == d * e;
    assert e >= 1 ==> d * e >= d;
    assert e <= -1 ==> d * e <= 0 - d;
  }

  /** The low k bits are all zero exactly when there are at least k trailing zeros. */
  lemma {:induction false} LowBitsZero(m: nat, k: nat)
    requires k <= 32
    ensures m % Pow2(k) == 0 <==> k <= TrailingZeros(m)
  {
    if m != 0 && k > 0 {
      if m % 2 == 0 {
        HalfMod(m, Pow2(k - 1));
        LowBitsZero(m / 2, k - 1);
      } else {
        OddMod(m, Pow2(k - 1));
      }
    }
  }

  lemma OddMod(m: nat, p: nat)
    requires p > 0 && m % 2 == 1
    ensures m % (2 * p) != 0
  {
    var q := m / (2 * p);
    assert m == 2 * (p * q) + m % (2 * p);
  }

  // ---- the bit test of the loop ----

  /** Whether bit i is set. */
  predicate Bit(m: nat, i: nat) {
    if i == 0 then m % 2 == 1 else Bit(m / 2, i - 1)
  }

  /** The low w bits of a & b. */
  function And(a: nat, b: nat, w: nat): nat {
    if w == 0 then 0 else (if a % 2 == 1 && b % 2 == 1 then 1 else 0) + 2 * And(a / 2, b / 2, w - 1)
  }

  /** A bit of a & b is set exactly when it is in both. */
  lemma {:induction false} BitAnd(a: nat, b: nat, w: nat, i: nat)
    ensures Bit(And(a, b, w), i) <==> i < w && Bit(a, i) && Bit(b, i)
  {
    if w > 0 {
      var low := if a % 2 == 1 && b % 2 == 1 then 1 else 0;
      var rest := And(a / 2, b / 2, w - 1);
      assert And(a, b, w) == low + 2 * rest;
      if i > 0 {
        BitAnd(a / 2, b / 2, w - 1, i - 1);
      }
    } else {
      NoBits(i);
    }
  }

  lemma {:induction false} NoBits(i: nat)
    ensures !Bit(0, i)
  {
    if i > 0 {
      NoBits(i - 1);
    }
  }

  /** 2 << i in 32 bits. */
  function WrappedShift(i: nat): Mask {
    Pow2(i + 1) % ALL
  }

  /** (2 << i) - 1 in 32 bits. */
  function LowMask(i: nat): Mask {
    (WrappedShift(i) + ALL - 1) % ALL
  }

  /** The wrapped mask keeps the low i + 1 bits, also where the shift wraps to the sign bit or to 0. */
  lemma LowMaskValue(i: nat)
    requires i < 32
    ensures LowMask(i) == Pow2(i + 1) - 1
  {
    Pow2Of32();
    Pow2Monotone(i + 1, 32);
    if i < 31 {
      Pow2Monotone(i + 1, 31);
    }
  }

  lemma ModTwice(m: nat, p: nat)
    requires p > 0
    ensures m % (2 * p) == m % 2 + 2 * (m / 2 % p)
  {
    var q, r := m / 2 / p, m / 2 % p;
    assert m / 2 == p * q + r;
    assert m == (2 * p) * q + (m % 2 + 2 * r) by {
      assert 2 * (p * q + r) == (2 * p) * q + 2 * r;
    }
    DivModUnique(m, 2 * p, q, m % 2 + 2 * r);
  }

  lemma {:induction false} AndLow(m: nat, k: nat, w: nat)
    requires k <= w
    ensures And(m, Pow2(k) - 1, w) == m % Pow2(k)
  {
    if k == 0 {
      AndZero(m, w);
    } else {
      assert Pow2(k) == 2 * Pow2(k - 1);
      assert (Pow2(k) - 1) % 2 == 1 && (Pow2(k) - 1) / 2 == Pow2(k - 1) - 1;
      AndLow(m / 2, k - 1, w - 1);
      ModTwice(m, Pow2(k - 1));
    }
  }

  lemma {:induction false} AndZero(m: nat, w: nat)
    ensures And(m, 0, w) == 0
  {
    if w > 0 {
      AndZero(m / 2, w - 1);
    }
  }

  /** The test of the loop, for every i: nothing of the mask is left exactly when i + 1 zeros trail. */
  lemma MaskedTest(m: Mask, i: nat)
    requires i < 32
    ensures And(m, LowMask(i), 32) == 0 <==> i + 1 <= TrailingZeros(m)
    ensures And(m, LowMask(i), 32) == 0 <==> LowClear(m, i + 1)
  {
    LowMaskValue(i);
    AndLow(m, i + 1, 32);
    LowBitsZero(m, i + 1);
    LowBitsClear(m, i + 1);
  }

  predicate LowClear(m: nat, k: nat) {
    forall j | 0 <= j < k :: !Bit(m, j)
  }

  lemma {:induction false} LowBitsClear(m: nat, k: nat)
    ensures m % Pow2(k) == 0 <==> LowClear(m, k)
  {
    if k > 0 {
      ModTwice(m, Pow2(k - 1));
      assert Pow2(k) == 2 * Pow2(k - 1);
      LowBitsClear(m / 2, k - 1);
      LowClearHalf(m, k);
    }
  }

  lemma LowClearHalf(m: nat, k: nat)
    requires k > 0
    ensures LowClear(m, k) <==> m % 2 == 0 && LowClear(m / 2, k - 1)
  {
    if LowClear(m, k) {
      assert !Bit(m, 0);
      forall j | 0 <= j < k - 1
        ensures !Bit(m / 2, j)
      {
        assert !Bit(m, j + 1);
      }
    }
    if m % 2 == 0 && LowClear(m / 2, k - 1) {
      forall j | 0 <= j < k
        ensures !Bit(m, j)
      {
        assert j > 0 ==> !Bit(m / 2, j - 1);
      }
    }
  }

  /** The loop of ipcalc_prefix, with its masks wrapped to 32 bits. */
  method IpcalcPrefix(mask: Mask) returns (prefix: nat)
    ensures prefix == PrefixLength(mask)
    ensures prefix <= 32
    ensures prefix == 0 <==> mask == 0
  {
    Pow2Of32();
    prefix := 32;
    ghost var zeros := TrailingZeros(mask);
    TrailingZerosBound(mask, 32);
    for i := 0 to 32
      invariant prefix == 32 - if i <= zeros then i else zeros
    {
      MaskedTest(mask, i);
      if And(mask, LowMask(i), 32) == 0 {
        prefix := prefix - 1;
      }
    }
  }

  lemma {:induction false} TrailingZerosOfPow2(t: nat, q: nat)
    requires q % 2 == 1
    ensures TrailingZeros(q * Pow2(t)) == t
  {
    var m := q * Pow2(t);
    if t > 0 {
      assert m == 2 * (q * Pow2(t - 1));
      TrailingZerosOfPow2(t - 1, q);
      assert m / 2 == q * Pow2(t - 1) != 0;
    }
  }

  lemma {:induction false} Pow2Split(a: nat, b: nat)
    ensures Pow2(a + b) == Pow2(a) * Pow2(b)
  {
    if a > 0 {
      Pow2Split(a - 1, b);
    }
  }

  /** ipcalc_prefix inverts ipcalc_netmask. */
  lemma PrefixOfNetmask(p: nat)
    requires 1 <= p <= 31
    ensures PrefixLength(Netmask(p)) == p
  {
    var t := 32 - p;
    NetmaskFactor(p, t);
    assert Pow2(p) == 2 * Pow2(p - 1);
    TrailingZerosOfPow2(t, Pow2(p) - 1);
  }

  lemma NetmaskFactor(p: nat, t: nat)
    requires p + t == 32
    ensures ALL - Pow2(t) == (Pow2(p) - 1) * Pow2(t)
  {
    Pow2Of32();
    Pow2Split(p, t);
    LessOne(Pow2(p), Pow2(t));
  }

  lemma LessOne(a: int, b: int)
    ensures (a - 1) * b == a * b - b
  {
  }

  // ---- which masks survive being read and written back ----

  /** No zero bit above a one bit, among the low w bits. */
  ghost predicate Contiguous(m: nat, w: nat) {
    forall i, j | 0 <= i < j < w :: Bit(m, i) ==> Bit(m, j)
  }

  ghost predicate AllOnes(m: nat, w: nat) {
    forall i | 0 <= i < w :: Bit(m, i)
  }

  lemma BitShift(m: nat, w: nat)
    requires w > 0
    ensures AllOnes(m, w) <==> m % 2 == 1 && AllOnes(m / 2, w - 1)
  {
    if AllOnes(m, w) {
      assert Bit(m, 0);
      assert forall i | 0 <= i < w - 1 :: Bit(m / 2, i) == Bit(m, i + 1);
    }
    if m % 2 == 1 && AllOnes(m / 2, w - 1) {
      forall i | 0 <= i < w
        ensures Bit(m, i)
      {
        assert i > 0 ==> Bit(m / 2, i - 1);
      }
    }
  }

  lemma {:induction false} BitsOfAllOnes(m: nat, w: nat)
    requires m < Pow2(w)
    ensures m == Pow2(w) - 1 <==> AllOnes(m, w)
  {
    if w > 0 {
      BitsOfAllOnes(m / 2, w - 1);
      BitShift(m, w);
    }
  }

  lemma ContiguousOdd(m: nat, w: nat)
    requires w > 0 && m % 2 == 1
    ensures Contiguous(m, w) <==> AllOnes(m, w)
  {
    assert Bit(m, 0);
    if Contiguous(m, w) {
      forall i | 0 <= i < w
        ensures Bit(m, i)
      {
        assert i > 0 ==> Bit(m, 0) && Bit(m, i);
      }
    }
  }

  lemma ContiguousEven(m: nat, w: nat)
    requires w > 0 && m % 2 == 0
    ensures Contiguous(m, w) <==> Contiguous(m / 2, w - 1)
  {
    assert !Bit(m, 0);
    if Contiguous(m / 2, w - 1) {
      forall i, j | 0 <= i < j < w && Bit(m, i)
        ensures Bit(m, j)
      {
        assert Bit(m / 2, i - 1) && Bit(m / 2, j - 1);
      }
    }
    if Contiguous(m, w) {
      forall i, j | 0 <= i < j < w - 1 && Bit(m / 2, i)
        ensures Bit(m / 2, j)
      {
        assert Bit(m, i + 1) && Bit(m, j + 1);
      }
    }
  }

  lemma {:induction false} ContiguousForm(m: nat, w: nat)
    requires 0 < m < Pow2(w) && w <= 32
    ensures Contiguous(m, w) <==> m == Pow2(w) - Pow2(TrailingZeros(m))
  {
    if m % 2 == 1 {
      ContiguousOdd(m, w);
      BitsOfAllOnes(m, w);
      assert Pow2(TrailingZeros(m)) == 1;
    } else {
      ContiguousEven(m, w);
      ContiguousForm(m / 2, w - 1);
    }
  }

  /** A mask with a usable prefix is given back exactly when its ones are contiguous. */
  lemma NetmaskOfPrefix(m: Mask)
    requires 1 <= PrefixLength(m) <= 31
    ensures Netmask(PrefixLength(m)) == m <==> Contiguous(m, 32)
  {
    Pow2Of32();
    ContiguousForm(m, 32);
  }

  // ---- dotted quads: inet_ntop and inet_pton ----

  function Octets(m: Mask): (o: seq<nat>)
    ensures |o| == 4
  {
    [m / 0x100_0000, m / 0x1_0000 % 0x100, m / 0x100 % 0x100, m % 0x100]
  }

  function Decimals(o: seq<nat>): seq<string> {
    seq(|o|, i requires 0 <= i < |o| => Decimal(o[i]))
  }

  function Quad(m: Mask): string {
    Join(Decimals(Octets(m)), '.')
  }

  /** An octet as inet_pton accepts it: at most 255, no superfluous leading zero. */
  predicate Octet(s: string) {
    Digits(s) && s == Decimal(Number(s)) && Number(s) <= 255
  }

  function ParseOctets(parts: seq<string>): Option<Mask> {
    if |parts| == 4 && Octet(parts[0]) && Octet(parts[1]) && Octet(parts[2]) && Octet(parts[3]) then
      Some(Combine(Number(parts[0]), Number(parts[1]), Number(parts[2]), Number(parts[3])))
    else None
  }

  function ParseQuad(s: string): Option<Mask> {
    ParseOctets(Split(s, '.'))
  }

  lemma OctetOfDecimal(n: nat)
    requires n <= 255
    ensures Octet(Decimal(n)) && '.' !in Decimal(n)
    ensures Number(Decimal(n)) == n
  {
    NumberDecimal(n);
    assert !IsDigit('.');
  }

  function Combine(a: nat, b: nat, c: nat, d: nat): nat {
    ((a * 0x100 + b) * 0x100 + c) * 0x100 + d
  }

  predicate IsOctets(o: seq<nat>) {
    |o| == 4 && o[0] <= 255 && o[1] <= 255 && o[2] <= 255 && o[3] <= 255
  }

  lemma ParseDecimals(o: seq<nat>)
    requires IsOctets(o)
    ensures ParseQuad(Join(Decimals(o), '.')) == Some(Combine(o[0], o[1], o[2], o[3]))
  {
    forall i | 0 <= i < 4
      ensures Octet(Decimal(o[i])) && '.' !in Decimal(o[i]) && Number(Decimal(o[i])) == o[i]
    {
      OctetOfDecimal(o[i]);
    }
    SplitJoin(Decimals(o), '.');
  }

  lemma OctetsOf(m: Mask)
    ensures IsOctets(Octets(m))
    ensures Combine(m / 0x100_0000, m / 0x1_0000 % 0x100, m / 0x100 % 0x100, m % 0x100) == m
  {
    assert m / 0x1_0000 == m / 0x100 / 0x100;
    assert m / 0x100_0000 == m / 0x1_0000 / 0x100;
  }

  /** inet_pton reads back what inet_ntop printed. */
  lemma ParseQuadOfQuad(m: Mask)
    ensures ParseQuad(Quad(m)) == Some(m)
  {
    OctetsOf(m);
    ParseDecimals(Octets(m));
  }
}
