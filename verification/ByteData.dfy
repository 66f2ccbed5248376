/** Bytes, big-endian numbers and bitwise AND on natural numbers. */
module ByteData {
  import opened Powers

  type Byte = b: nat | b < 256

  const WORD: nat := 0x1_0000_0000

  /** The big-endian number in a sequence of bytes. */
  function Number(s: seq<Byte>): nat {
    if s == [] then 0 else 256 * Number(s[..|s| - 1]) + s[|s| - 1]
  }

  /** Four bytes in network order. */
  function Put32(n: nat): (s: seq<Byte>)
    requires n < WORD
    ensures |s| == 4
  {
    [n / 0x100_0000, n / 0x1_0000 % 256, n / 0x100 % 256, n % 256]
  }

  function Get32(s: seq<Byte>): (n: nat)
    requires |s| == 4
    ensures n < WORD
  {
    var a: nat, b: nat, c: nat := s[0], s[1], s[2];
    0x100_0000 * a + 0x1_0000 * b + 0x100 * c + s[3]
  }

  lemma PutGet32(n: nat)
    requires n < WORD
    ensures Get32(Put32(n)) == n
  {
    Split(n / 0x100);
    assert n == 0x100 * (n / 0x100) + n % 0x100;
  }

  lemma Split(m: nat)
    ensures m == 0x1_0000 * (m / 0x1_0000) + 0x100 * (m / 0x100 % 256) + m % 256
  {
    assert m / 0x1_0000 == m / 0x100 / 0x100;
  }

  lemma GetPut32(s: seq<Byte>)
    requires |s| == 4
    ensures Put32(Get32(s)) == s
  {
    var n: nat, a: nat, b: nat, c: nat := Get32(s), s[0], s[1], s[2];
    assert n / 0x100_0000 == a;
    assert n / 0x1_0000 == 0x100 * a + b;
    assert n / 0x100 == 0x1_0000 * a + 0x100 * b + c;
  }

  /** Bitwise AND. */
  function And(a: nat, b: nat): nat
    decreases a
  {
    if a == 0 then 0 else a % 2 * (b % 2) + 2 * And(a / 2, b / 2)
  }

  lemma HalveMod(a: nat, k: nat)
    requires k > 0
    ensures a % Pow2(k) == a % 2 + 2 * (a / 2 % Pow2(k - 1))
  {
    var h := Pow2(k - 1);
    var q, r := a / 2 / h, a / 2 % h;
    assert a / 2 == q * h + r;
    assert a == q * (2 * h) + (2 * r + a % 2);
    ModUnique(a, 2 * h, q, 2 * r + a % 2);
  }

  lemma ModUnique(a: nat, m: nat, q: nat, r: nat)
    requires m > 0 && r < m && a == q * m + r
    ensures a % m == r && a / m == q
  {
    var d: int, n: int := q - a / m, m;
    assert d * n == a % m - r;
    assert d >= 1 ==> d * n >= n;
    assert d <= -1 ==> d * n <= -n;
  }

  /** Masking with k ones keeps the k low bits. */
  lemma {:induction false} AndLow(a: nat, k: nat)
    ensures And(a, Pow2(k) - 1) == a % Pow2(k)
    decreases a
  {
    if k == 0 {
      AndZero(a);
    } else if a == 0 {
      ModUnique(0, Pow2(k), 0, 0);
    } else {
      AndLow(a / 2, k - 1);
      AndLowStep(a, k);
    }
  }

  lemma AndLowStep(a: nat, k: nat)
    requires k > 0 && And(a / 2, Pow2(k - 1) - 1) == a / 2 % Pow2(k - 1)
    ensures And(a, Pow2(k) - 1) == a % Pow2(k)
  {
    var h, m := Pow2(k - 1), Pow2(k);
    assert m == 2 * h;
    HalveMod(a, k);
    AndOdd(a, h);
  }

  lemma AndOdd(a: nat, h: nat)
    requires h > 0
    ensures And(a, 2 * h - 1) == a % 2 + 2 * And(a / 2, h - 1)
  {
    var b: nat := 2 * h - 1;
    assert b % 2 == 1 && b / 2 == h - 1;
  }

  lemma {:induction false} AndZero(a: nat)
    ensures And(a, 0) == 0
  {
    if a == 0 {
    } else {
      AndZero(a / 2);
    }
  }

  /** The top bit of a byte is set from 128 on. */
  lemma {:induction false} AndTop(a: Byte)
    ensures And(a, 128) != 0 <==> a >= 128
  {
    AndBit(a, 7);
    assert Pow2(7) == 128;
  }

  lemma {:induction false} AndBit(a: nat, k: nat)
    requires a < 2 * Pow2(k)
    ensures And(a, Pow2(k)) != 0 <==> a >= Pow2(k)
    decreases k
  {
    if a == 0 {
    } else if k == 0 {
      assert And(1, 1) == 1;
    } else {
      AndBit(a / 2, k - 1);
    }
  }
}
