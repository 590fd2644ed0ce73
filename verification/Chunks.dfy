/** Buffers cut into packets of a fixed size, and sequences put together. */
module Chunks {
  import opened Bytes

  /** The buffer from an offset on, in packets of the given size. */
  function Packets(buffer: seq<byte>, from: nat, size: nat): (p: seq<seq<byte>>)
    requires size > 0
    decreases |buffer| - from
  {
    if from >= |buffer| then [] else [buffer[from..Min(from + size, |buffer|)]] + Packets(buffer, from + size, size)
  }

  function Flatten<T>(p: seq<seq<T>>): (s: seq<T>) {
    if p == [] then [] else p[0] + Flatten(p[1..])
  }

  lemma {:induction false} FlattenSum<T>(a: seq<seq<T>>, b: seq<seq<T>>)
    ensures Flatten(a + b) == Flatten(a) + Flatten(b)
  {
    if a == [] {
      assert a + b == b;
    } else {
      FlattenSum(a[1..], b);
      assert (a + b)[1..] == a[1..] + b;
      Regroup(a[0], Flatten(a[1..]), Flatten(b));
    }
  }

  lemma {:induction false} FlattenPrefix<T>(a: seq<seq<T>>, b: seq<seq<T>>)
    requires a <= b
    ensures Flatten(a) <= Flatten(b)
  {
    assert b == a + b[|a|..];
    FlattenSum(a, b[|a|..]);
  }

  lemma {:induction false} FlattenSnoc<T>(p: seq<seq<T>>, i: nat)
    requires i < |p|
    ensures Flatten(p[..i + 1]) == Flatten(p[..i]) + p[i]
  {
    assert p[..i + 1] == p[..i] + [p[i]];
    FlattenSum(p[..i], [p[i]]);
    assert Flatten([p[i]]) == p[i] + Flatten([]) == p[i];
  }

  /** A front part that ends within piece i. */
  lemma {:induction false} FlattenUpTo<T>(p: seq<seq<T>>, i: nat, n: nat)
    requires i < |p| && n <= |p[i]|
    ensures |Flatten(p[..i])| + n <= |Flatten(p)|
    ensures Flatten(p)[..|Flatten(p[..i])| + n] == Flatten(p[..i]) + p[i][..n]
  {
    FlattenSnoc(p, i);
    FlattenPrefix(p[..i + 1], p);
    var front := Flatten(p[..i + 1]);
    assert Flatten(p)[..|front|] == front;
    assert Flatten(p)[..|Flatten(p[..i])| + n] == front[..|Flatten(p[..i])| + n];
  }

  function CeilDiv(n: nat, size: nat): (c: nat)
    requires size > 0
  {
    (n + size - 1) / size
  }

  lemma {:induction false} CeilDivStep(n: nat, size: nat)
    requires size > 0 && n > 0
    ensures CeilDiv(n, size) == if n <= size then 1 else CeilDiv(n - size, size) + 1
  {
    if n <= size {
      ModUnique(n + size - 1, size, 1, n - 1);
      DivUnique(n + size - 1, size, 1, n - 1);
    } else {
      var m := n - 1;
      DivUnique(n + size - 1, size, m / size + 1, m % size);
    }
  }

  lemma {:induction false} DivUnique(n: nat, m: nat, q: nat, r: nat)
    requires m >= 1 && r < m && n == q * m + r
    ensures n / m == q
  {
    ModUnique(n, m, q, r);
    var d := q - n / m;
    assert d * m == q * m - (n / m) * m == 0;
    MultipleAtLeast(d, m);
  }

  /** ceil(length / size) packets that put together are the buffer, none empty, none longer than the
      size, only the last one shorter. */
  lemma {:induction false} PacketsOf(buffer: seq<byte>, from: nat, size: nat)
    requires from <= |buffer| && size > 0
    ensures var p := Packets(buffer, from, size);
      && Flatten(p) == buffer[from..]
      && |p| == CeilDiv(|buffer| - from, size)
      && (forall i :: 0 <= i < |p| ==> 0 < |p[i]| <= size)
      && (forall i :: 0 <= i < |p| - 1 ==> |p[i]| == size)
    decreases |buffer| - from
  {
    var p := Packets(buffer, from, size);
    if from < |buffer| {
      CeilDivStep(|buffer| - from, size);
      if from + size <= |buffer| {
        PacketsOf(buffer, from + size, size);
        assert buffer[from..] == buffer[from..from + size] + buffer[from + size..];
        assert p[1..] == Packets(buffer, from + size, size);
        if |buffer| == from + size {
          assert Flatten<byte>([]) == [];
        }
      } else {
        assert Packets(buffer, from + size, size) == [];
        assert buffer[from..|buffer|] == buffer[from..] && Flatten(p[1..]) == [];
      }
    } else {
      assert size - 1 < size;
      DivUnique(size - 1, size, 0, size - 1);
    }
  }

  /** Cutting from an offset on is cutting what is left from there. */
  lemma {:induction false} PacketsShift(buffer: seq<byte>, from: nat, d: nat, size: nat)
    requires size > 0 && d <= |buffer|
    ensures Packets(buffer, d + from, size) == Packets(buffer[d..], from, size)
    decreases |buffer| - d - from
  {
    if d + from < |buffer| {
      PacketsShift(buffer, from + size, d, size);
      var next := Min(from + size, |buffer| - d);
      assert buffer[d + from..d + next] == buffer[d..][from..next];
    }
  }

  lemma {:induction false} PacketsUnroll(buffer: seq<byte>, from: nat, next: nat, size: nat)
    requires size > 0 && from < |buffer| && next == from + size
    ensures Packets(buffer, from, size) == [buffer[from..Min(next, |buffer|)]] + Packets(buffer, next, size)
  {
  }

  /** The sizes of the packets of length bytes from an offset on. */
  function Sizes(length: nat, from: nat, size: nat): (z: seq<nat>)
    requires size > 0
    decreases length - from
  {
    if from >= length then [] else [Min(from + size, length) - from] + Sizes(length, from + size, size)
  }

  function Sum(z: seq<nat>): nat {
    if z == [] then 0 else z[0] + Sum(z[1..])
  }

  lemma {:induction false} SumSplit(z: seq<nat>, i: nat)
    requires i < |z|
    ensures Sum(z[..i + 1]) == Sum(z[..i]) + z[i] <= Sum(z)
  {
    if i > 0 {
      SumSplit(z[1..], i - 1);
      assert z[..i + 1][1..] == z[1..][..i] && z[..i][1..] == z[1..][..i - 1];
    } else {
      assert z[..1][1..] == [];
    }
  }

  lemma {:induction false} SizesSum(length: nat, from: nat, size: nat)
    requires size > 0
    ensures Sum(Sizes(length, from, size)) == if from >= length then 0 else length - from
    decreases length - from
  {
    if from >= length {
    } else {
      SizesSum(length, from + size, size);
      assert Sizes(length, from, size)[1..] == Sizes(length, from + size, size);
    }
  }

  /** The sizes are those of the packets of any buffer of that length. */
  lemma {:induction false} SizesOf(buffer: seq<byte>, from: nat, size: nat)
    requires size > 0
    ensures var p, z := Packets(buffer, from, size), Sizes(|buffer|, from, size);
      |p| == |z| && forall i :: 0 <= i < |p| ==> z[i] == |p[i]| > 0
    decreases |buffer| - from
  {
    if from < |buffer| {
      SizesOf(buffer, from + size, size);
    }
  }

  lemma {:induction false} Longer<T>(a: seq<T>, b: seq<T>, c: seq<T>)
    requires b <= c
    ensures a + b <= a + c
  {
  }

  lemma {:induction false} Chained<T>(a: seq<T>, b: seq<T>, c: seq<T>, d: seq<T>)
    ensures ((a + b) + c) + d == a + (b + (c + d))
    ensures d == [] ==> (a + b) + c == a + (b + (c + d))
  {
  }

  lemma {:induction false} Regroup<T>(a: seq<T>, b: seq<T>, c: seq<T>)
    ensures (a + b) + c == a + (b + c)
  {
  }
}
