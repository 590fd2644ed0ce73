/** Bytes and fixed-width machine words, little- and big-endian, as the wire formats use them. */
module Bytes {

  type byte = x: int | 0 <= x < 256

  const TWO_31: nat := 0x8000_0000
  const TWO_32: nat := 0x1_0000_0000
  const TWO_64: nat := 0x1_0000_0000_0000_0000

  function Min(a: nat, b: nat): (m: nat) {
    if a <= b then a else b
  }

  function Pow256(k: nat): (p: nat)
    ensures p >= 1
  {
    if k == 0 then 1 else 256 * Pow256(k - 1)
  }

  /** The k low bytes of n, least significant first. */
  function Le(n: nat, k: nat): (s: seq<byte>)
    ensures |s| == k
  {
    if k == 0 then [] else [n % 256] + Le(n / 256, k - 1)
  }

  function FromLe(s: seq<byte>): nat {
    if s == [] then 0 else s[0] + 256 * FromLe(s[1..])
  }

  /** The k low bytes of n, most significant first. */
  function Be(n: nat, k: nat): (s: seq<byte>)
    ensures |s| == k
  {
    if k == 0 then [] else Be(n / 256, k - 1) + [n % 256]
  }

  function FromBe(s: seq<byte>): nat {
    if s == [] then 0 else FromBe(s[..|s| - 1]) * 256 + s[|s| - 1]
  }

  /** The lengths of the machine words. */
  const WORD: nat := 4
  const LONG: nat := 8

  function Le32(n: nat): (s: seq<byte>) { Le(n, WORD) }
  function Le64(n: nat): (s: seq<byte>) { Le(n, LONG) }
  function Be32(n: nat): (s: seq<byte>) { Be(n, WORD) }

  /** The number whose bytes are a, b, c and d, from the lowest to the highest. */
  function Number(a: nat, b: nat, c: nat, d: nat): nat {
    a + 0x100 * b + 0x1_0000 * c + 0x100_0000 * d
  }

  lemma {:induction false} LittleEndian(s: seq<byte>, at: nat)
    requires at + 4 <= |s|
    ensures FromLe(s[at..at + 4]) == Number(s[at], s[at + 1], s[at + 2], s[at + 3])
  {
    var w := s[at..at + 4];
    assert w[1..][1..][1..][1..] == [];
    assert FromLe(w[1..][1..][1..]) == w[3];
    assert FromLe(w[1..][1..]) == Number(w[2], w[3], 0, 0);
    assert FromLe(w[1..]) == Number(w[1], w[2], w[3], 0);
  }

  lemma {:induction false} BigEndian(s: seq<byte>, at: nat)
    requires at + 4 <= |s|
    ensures FromBe(s[at..at + 4]) == Number(s[at + 3], s[at + 2], s[at + 1], s[at])
  {
    var w := s[at..at + 4];
    assert w[..3][..2][..1][..0] == [];
    assert FromBe(w[..3][..2][..1]) == w[0];
    assert FromBe(w[..3][..2]) == Number(w[1], w[0], 0, 0);
    assert FromBe(w[..3]) == Number(w[2], w[1], w[0], 0);
  }

  /** Decoding the k low bytes gives the number modulo 256^k. */
  lemma {:induction false} FromLeOfLe(n: nat, k: nat)
    ensures FromLe(Le(n, k)) == n % Pow256(k)
  {
    if k == 0 {
    } else {
      var p := Pow256(k - 1);
      FromLeOfLe(n / 256, k - 1);
      assert Le(n, k)[1..] == Le(n / 256, k - 1);
      SplitMod(n, p);
    }
  }

  lemma {:induction false} SplitMod(n: nat, p: nat)
    requires p >= 1
    ensures n % 256 + 256 * ((n / 256) % p) == n % (256 * p)
  {
    var q, r := (n / 256) / p, (n / 256) % p;
    assert n == 256 * (q * p + r) + n % 256;
    assert n == q * (256 * p) + (256 * r + n % 256);
    ModUnique(n, 256 * p, q, 256 * r + n % 256);
  }

  lemma {:induction false} ModUnique(n: nat, m: nat, q: nat, r: nat)
    requires m >= 1 && r < m && n == q * m + r
    ensures n % m == r
  {
    var q', r' := n / m, n % m;
    assert (q - q') * m == r' - r by {
      assert n == q' * m + r';
      assert (q - q') * m == q * m - q' * m;
    }
    SmallMultiple(q - q', m, r' - r);
  }

  lemma {:induction false} MultipleAtLeast(d: int, m: nat)
    ensures d >= 1 ==> d * m >= m
    ensures d <= -1 ==> d * m + m <= 0
  {
    if d >= 1 {
      assert (d - 1) * m >= 0;
    } else if d <= -1 {
      assert (-d - 1) * m >= 0;
    }
  }

  lemma {:induction false} SmallMultiple(d: int, m: nat, x: int)
    requires d * m == x
    requires 0 < x + m
    requires x < m
    ensures x == 0
  {
    MultipleAtLeast(d, m);
  }

  lemma {:induction false} FromLeBound(s: seq<byte>)
    ensures FromLe(s) < Pow256(|s|)
  {
    if s == [] {
    } else {
      FromLeBound(s[1..]);
    }
  }

  /** Every k-byte string is the encoding of the number it decodes to. */
  lemma {:induction false} LeOfFromLe(s: seq<byte>)
    ensures Le(FromLe(s), |s|) == s
  {
    if s == [] {
    } else {
      LeOfFromLe(s[1..]);
      assert FromLe(s) % 256 == s[0] && FromLe(s) / 256 == FromLe(s[1..]);
    }
  }

  lemma {:induction false} FromBeOfBe(n: nat, k: nat)
    ensures FromBe(Be(n, k)) == n % Pow256(k)
  {
    if k == 0 {
    } else {
      FromBeOfBe(n / 256, k - 1);
      assert Be(n, k)[..k - 1] == Be(n / 256, k - 1);
      SplitMod(n, Pow256(k - 1));
    }
  }

  /** A number below 256^k survives encoding in k bytes. */
  lemma {:induction false} Le32RoundTrip(n: nat)
    requires n < TWO_32
    ensures FromLe(Le32(n)) == n
  {
    FromLeOfLe(n, 4);
    assert Pow256(4) == TWO_32;
  }

  lemma {:induction false} Le64RoundTrip(n: nat)
    requires n < TWO_64
    ensures FromLe(Le64(n)) == n
  {
    FromLeOfLe(n, 8);
    assert Pow256(8) == TWO_64;
  }

  lemma {:induction false} Be32RoundTrip(n: nat)
    requires n < TWO_32
    ensures FromBe(Be32(n)) == n
  {
    FromBeOfBe(n, 4);
    assert Pow256(4) == TWO_32;
  }
}
