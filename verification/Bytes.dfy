/** Bytes and byte sequences shared by the models of the pipe, the encoder and the framing. */
module Bytes {

  type Byte = b: int | 0 <= b < 256

  /** The concatenation of a list of chunks, in order. */
  function Flatten<T>(chunks: seq<seq<T>>): (flat: seq<T>) {
    if chunks == [] then [] else Flatten(chunks[..|chunks| - 1]) + chunks[|chunks| - 1]
  }

  lemma FlattenSnoc<T>(chunks: seq<seq<T>>, chunk: seq<T>)
    ensures Flatten(chunks + [chunk]) == Flatten(chunks) + chunk
  {
    assert (chunks + [chunk])[..|chunks|] == chunks;
  }

  lemma {:induction false} FlattenConcat<T>(a: seq<seq<T>>, b: seq<seq<T>>)
    ensures Flatten(a + b) == Flatten(a) + Flatten(b)
  {
    if b == [] {
      assert a + b == a;
    } else {
      var front, last := b[..|b| - 1], b[|b| - 1];
      FlattenConcat(a, front);
      FlattenSnoc(a + front, last);
      FlattenSnoc(front, last);
      hide Flatten;
      assert a + b == (a + front) + [last] && b == front + [last];
    }
  }

  lemma {:induction false} FlattenCons<T>(head: seq<T>, tail: seq<seq<T>>)
    ensures Flatten([head] + tail) == head + Flatten(tail)
  {
    FlattenConcat([head], tail);
    assert Flatten([head]) == Flatten([]) + head;
  }

  /** Chunks of one length flatten to that length times their number. */
  lemma {:induction false} FlattenUniformLength<T>(chunks: seq<seq<T>>, size: nat)
    requires forall i :: 0 <= i < |chunks| ==> |chunks[i]| == size
    ensures |Flatten(chunks)| == |chunks| * size
  {
    if chunks != [] {
      FlattenUniformLength(chunks[..|chunks| - 1], size);
      Distribute(|chunks| - 1, 1, size);
    }
  }

  /** Chunks whose lengths are multiples of `size` flatten to a multiple of `size`. */
  lemma {:induction false} FlattenMultiple<T>(chunks: seq<seq<T>>, size: nat)
    requires size > 0
    requires forall i :: 0 <= i < |chunks| ==> |chunks[i]| % size == 0
    ensures |Flatten(chunks)| % size == 0
  {
    if chunks != [] {
      FlattenMultiple(chunks[..|chunks| - 1], size);
      MultiplesAdd(|Flatten(chunks[..|chunks| - 1])|, |chunks[|chunks| - 1]|, size);
    }
  }

  lemma MultiplesAdd(a: nat, b: nat, size: nat)
    requires size > 0 && a % size == 0 && b % size == 0
    ensures (a + b) % size == 0
  {
    var i, j := a / size, b / size;
    Distribute(i, j, size);
    DivisionIsUnique(a + b, i + j, 0, size);
  }

  lemma Distribute(i: int, j: int, k: int)
    ensures (i + j) * k == i * k + j * k
  {
  }

  lemma MultipleOf(k: nat, size: nat)
    requires size > 0
    ensures (k * size) % size == 0 && (k * size) / size == k
  {
    DivisionIsUnique(k * size, k, 0, size);
  }

  /** Quotient and remainder are determined by their defining equation. */
  lemma DivisionIsUnique(a: int, q: int, r: int, d: int)
    requires d > 0 && 0 <= r < d && a == q * d + r
    ensures a / d == q && a % d == r
  {
    var q', r' := a / d, a % d;
    assert a == q' * d + r';
    Distribute(q - q', q', d);
    var gap := q - q';
    assert gap * d == r' - r;
    if gap > 0 {
      MulMonotone(1, gap, d);
    } else if gap < 0 {
      MulMonotone(gap, -1, d);
    }
  }

  lemma MulMonotone(a: int, b: int, k: nat)
    requires a <= b
    ensures a * k <= b * k
  {
    Distribute(a, b - a, k);
  }

  // ---- Byte order ----

  function Pow256(n: nat): (p: nat)
    ensures p >= 1
  {
    if n == 0 then 1 else 256 * Pow256(n - 1)
  }

  function FromBig(b: seq<Byte>): nat {
    if b == [] then 0 else 256 * FromBig(b[..|b| - 1]) + b[|b| - 1]
  }

  function FromLittle(b: seq<Byte>): nat {
    if b == [] then 0 else b[0] + 256 * FromLittle(b[1..])
  }

  function ToBig(v: nat, n: nat): (b: seq<Byte>)
    ensures |b| == n
  {
    if n == 0 then [] else ToBig(v / 256, n - 1) + [v % 256]
  }

  function Reversed(b: seq<Byte>): (r: seq<Byte>) {
    if b == [] then [] else Reversed(b[1..]) + [b[0]]
  }

  lemma {:induction false} BigRoundTrip(v: nat, n: nat)
    requires v < Pow256(n)
    ensures FromBig(ToBig(v, n)) == v
  {
    if n > 0 {
      BigRoundTrip(v / 256, n - 1);
    }
  }

  lemma {:induction false} LittleIsBounded(b: seq<Byte>)
    ensures FromLittle(b) < Pow256(|b|)
  {
    if b != [] {
      LittleIsBounded(b[1..]);
    }
  }

  /** Changing the byte order of a value is reversing its bytes. */
  lemma {:induction false} SwapReverses(b: seq<Byte>)
    ensures ToBig(FromLittle(b), |b|) == Reversed(b)
  {
    if b != [] {
      SwapReverses(b[1..]);
    }
  }

  function ToLittle(v: nat, n: nat): (b: seq<Byte>)
    ensures |b| == n
  {
    if n == 0 then [] else [v % 256] + ToLittle(v / 256, n - 1)
  }

  lemma {:induction false} LittleRoundTrip(v: nat, n: nat)
    requires v < Pow256(n)
    ensures FromLittle(ToLittle(v, n)) == v
  {
    if n > 0 {
      LittleRoundTrip(v / 256, n - 1);
    }
  }

  // ---- Which byte is where ----

  /** Dividing twice is dividing by the product. */
  lemma DivideTwice(v: nat, a: nat, b: nat)
    requires a > 0 && b > 0
    ensures a * b > 0 && v / a / b == v / (a * b)
  {
    MulMonotone(1, a, b);
    var q, r := v / a, v % a;
    var q', r' := q / b, q % b;
    Distribute(q' * b, r', a);
    MulMonotone(r' + 1, b, a);
    Distribute(r', 1, a);
    Associate(q', b, a);
    DivisionIsUnique(v, q', r' * a + r, a * b);
  }

  lemma Associate(i: int, j: int, k: int)
    ensures (i * j) * k == i * (k * j)
  {
  }

  /** In network order the first byte is the most significant one. */
  lemma {:induction false} BigIsPositional(v: nat, n: nat, k: nat)
    requires k < n
    ensures ToBig(v, n)[k] == v / Pow256(n - 1 - k) % 256
  {
    if k < n - 1 {
      BigIsPositional(v / 256, n - 1, k);
      DivideTwice(v, 256, Pow256(n - 2 - k));
    }
  }

  /** In host order the first byte is the least significant one. */
  lemma {:induction false} LittleIsPositional(v: nat, n: nat, k: nat)
    requires k < n
    ensures ToLittle(v, n)[k] == v / Pow256(k) % 256
  {
    if k > 0 {
      LittleIsPositional(v / 256, n - 1, k - 1);
      DivideTwice(v, 256, Pow256(k - 1));
    }
  }

  /** Numbers of two and four bytes, read in network order. */
  lemma BigOfFew(a: Byte, b: Byte, c: Byte, d: Byte)
    ensures FromBig([a, b]) == 256 * a + b
    ensures FromBig([a, b, c, d]) == 16777216 * a + 65536 * b + 256 * c + d
  {
    assert [a, b, c, d][..3] == [a, b, c] && [a, b, c][..2] == [a, b] && [a, b][..1] == [a] && [a][..0] == [];
    assert FromBig([a]) == a && FromBig([a, b]) == 256 * FromBig([a]) + b;
    assert FromBig([a, b, c]) == 256 * FromBig([a, b]) + c;
  }

  lemma {:induction false} ReversedAt(b: seq<Byte>, k: nat)
    requires k < |b|
    ensures |Reversed(b)| == |b| && Reversed(b)[k] == b[|b| - 1 - k]
  {
    if |b| > 1 {
      ReversedAt(b[1..], if k < |b| - 1 then k else 0);
    }
  }

  // ---- Writing into memory ----

  /** A memory with some bytes written at a position. */
  function Splice(m: seq<Byte>, at: nat, bytes: seq<Byte>): (r: seq<Byte>)
    requires at + |bytes| <= |m|
    ensures |r| == |m|
  {
    m[..at] + bytes + m[at + |bytes|..]
  }

  method Memcpy(mem: array<Byte>, at: nat, bytes: seq<Byte>)
    requires at + |bytes| <= mem.Length
    modifies mem
    ensures mem[..] == Splice(old(mem[..]), at, bytes)
  {
    forall k | 0 <= k < |bytes| {
      mem[at + k] := bytes[k];
    }
  }

  /** A write leaves what lies outside alone and its bytes inside. */
  lemma SpliceOutside(m: seq<Byte>, at: nat, bytes: seq<Byte>, i: nat, j: nat)
    requires at + |bytes| <= |m| && i <= j <= |m| && (j <= at || at + |bytes| <= i)
    ensures Splice(m, at, bytes)[i..j] == m[i..j]
  {
  }

  lemma SpliceInside(m: seq<Byte>, at: nat, bytes: seq<Byte>)
    requires at + |bytes| <= |m|
    ensures Splice(m, at, bytes)[at..at + |bytes|] == bytes
  {
  }
}
