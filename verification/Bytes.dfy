/** Byte strings, Python-style slices, and the two ways the system glues pieces together. */
module Bytes {

  type Bytes = seq<bv8>

  datatype Option<+T> = None | Some(value: T)

  /** d.get(key, default) */
  function Or<T>(o: Option<T>, default: T): T {
    if o.Some? then o.value else default
  }

  datatype Result<+T> = Ok(value: T) | Raised(error: Error)

  /** The exceptions the modelled code raises on purpose. */
  datatype Error = ValueError | IndexError | KeyError | StructError | ZeroDivisionError

  function Min(a: int, b: int): (m: int)
    ensures m <= a && m <= b && (m == a || m == b)
  {
    if a < b then a else b
  }

  function Zeros(n: nat): (z: Bytes)
    ensures |z| == n
    ensures forall i :: 0 <= i < n ==> z[i] == 0
  {
    seq(n, _ => 0)
  }

  /** data[lo:hi] for 0 <= lo <= hi: both ends are clamped to the length. */
  function PySlice(data: Bytes, lo: nat, hi: nat): Bytes
    requires lo <= hi
  {
    data[Min(lo, |data|)..Min(hi, |data|)]
  }

  /** All the parts in order, as b''.join(parts) for byte strings. */
  function Concat<T>(parts: seq<seq<T>>): seq<T> {
    if parts == [] then [] else parts[0] + Concat(parts[1..])
  }

  lemma {:induction false} ConcatSnoc<T>(a: seq<seq<T>>, x: seq<T>)
    ensures Concat(a + [x]) == Concat(a) + x
  {
    if a == [] {
      assert Concat([x][1..]) == [];
      assert a + [x] == [x];
    } else {
      ConcatSnoc(a[1..], x);
      assert (a + [x])[1..] == a[1..] + [x];
    }
  }

  lemma ConcatNext<T>(parts: seq<seq<T>>, k: nat)
    requires k < |parts|
    ensures Concat(parts[..k + 1]) == Concat(parts[..k]) + parts[k]
  {
    ConcatSnoc(parts[..k], parts[k]);
    assert parts[..k + 1] == parts[..k] + [parts[k]];
  }

  lemma {:induction false} ConcatAdd<T>(a: seq<seq<T>>, b: seq<seq<T>>)
    ensures Concat(a + b) == Concat(a) + Concat(b)
  {
    if a == [] {
      assert a + b == b;
    } else {
      ConcatAdd(a[1..], b);
      assert (a + b)[0] == a[0] && (a + b)[1..] == a[1..] + b;
    }
  }

  /** The i-th piece of size `size`, as data[i*size:(i+1)*size]. */
  function Piece(data: Bytes, size: nat, i: nat): Bytes {
    PySlice(data, i * size, (i + 1) * size)
  }

  /** The first `count` pieces. */
  function Pieces(data: Bytes, size: nat, count: nat): (ps: seq<Bytes>)
    ensures |ps| == count
    ensures forall i :: 0 <= i < count ==> ps[i] == Piece(data, size, i)
  {
    seq(count, i requires 0 <= i < count => Piece(data, size, i))
  }

  /** The cut positions `at` split a stretch of the data into the blocks. */
  ghost predicate Cuts(data: Bytes, at: seq<nat>, blocks: seq<Bytes>) {
    && |at| == |blocks| + 1
    && (forall j :: 0 <= j < |at| ==> at[j] <= |data|)
    && forall j :: 0 <= j < |blocks| ==> at[j] <= at[j + 1] && blocks[j] == data[at[j]..at[j + 1]]
  }

  /** Contiguous blocks joined are the stretch they were cut from. */
  lemma {:induction false} JoinCuts(data: Bytes, at: seq<nat>, blocks: seq<Bytes>)
    requires Cuts(data, at, blocks)
    ensures at[0] <= at[|blocks|] && Concat(blocks) == data[at[0]..at[|blocks|]]
  {
    if blocks != [] {
      var k := |blocks| - 1;
      JoinCuts(data, at[..k + 1], blocks[..k]);
      ConcatSnoc(blocks[..k], blocks[k]);
      assert blocks == blocks[..k] + [blocks[k]];
    }
  }

  lemma MulStep(i: nat, size: nat)
    ensures (i + 1) * size == i * size + size
  {}

  /** Enough pieces cover the data, whatever its length. */
  lemma PiecesCover(data: Bytes, size: nat, count: nat)
    requires |data| <= count * size
    ensures Concat(Pieces(data, size, count)) == data
  {
    var at: seq<nat> := seq(count + 1, i requires 0 <= i <= count => Min(i * size, |data|));
    forall i: nat | i < count ensures at[i] <= at[i + 1] {
      MulStep(i, size);
    }
    JoinCuts(data, at, Pieces(data, size, count));
  }

  /** k * size by repeated addition: offsets written this way keep the proofs linear. */
  function Times(k: nat, size: nat): nat {
    if k == 0 then 0 else Times(k - 1, size) + size
  }

  lemma {:induction false} TimesIsProduct(k: nat, size: nat)
    ensures Times(k, size) == k * size
  {
    if k > 0 {
      TimesIsProduct(k - 1, size);
      MulStep(k - 1, size);
    }
  }

  lemma {:induction false} TimesMonotone(j: nat, k: nat, size: nat)
    requires j <= k
    ensures Times(j, size) <= Times(k, size)
  {
    if j < k {
      TimesMonotone(j, k - 1, size);
    }
  }

  /** ceil(n / d) in integers. */
  function CeilDiv(n: nat, d: nat): (c: nat)
    requires d > 0
    ensures n <= c * d < n + d
  {
    (n + d - 1) / d
  }

  lemma DivExact(q: nat, w: nat)
    requires w > 0
    ensures q * w / w == q && q * w % w == 0
  {
    Quotient(q * w, w, q);
  }

  lemma SmallMultiple(k: int, w: int)
    requires -w < k * w < w
    ensures k == 0
  {}

  lemma Quotient(x: nat, w: nat, q: nat)
    requires w > 0 && q * w <= x < q * w + w
    ensures x / w == q && x % w == x - q * w
  {
    assert (x / w - q) * w == x - x % w - q * w;
    SmallMultiple(x / w - q, w);
  }

  lemma NextDivMod(m: nat, t: nat)
    requires t > 0
    ensures m % t + 1 < t ==> (m + 1) / t == m / t && (m + 1) % t == m % t + 1
    ensures m % t + 1 == t ==> (m + 1) / t == m / t + 1 && (m + 1) % t == 0
  {
    assert m == m / t * t + m % t;
    if m % t + 1 < t {
      Quotient(m + 1, t, m / t);
    } else {
      MulStep(m / t, t);
      Quotient(m + 1, t, m / t + 1);
    }
  }

  /** How far the last of the ceil(n / w) pieces overshoots. */
  lemma Overshoot(n: nat, w: nat)
    requires w > 0
    ensures CeilDiv(n, w) * w - n == if n % w == 0 then 0 else w - n % w
  {
    var q, r := n / w, n % w;
    assert n == q * w + r;
    if r == 0 {
      Quotient(n + w - 1, w, q);
    } else {
      assert (q + 1) * w == q * w + w;
      Quotient(n + w - 1, w, q + 1);
    }
  }
}
