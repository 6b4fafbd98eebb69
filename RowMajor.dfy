/**
 * Row-major (C-order) addressing of an N-dimensional array stored flat, and the order in which
 * `itertools.product(*map(range, shape))` enumerates the addresses of such an array.
 */
module RowMajor {

  /** The number of elements of an array of this shape (`arr.size`); 1 for a 0-dimensional array. */
  function Prod(shape: seq<nat>): (n: nat)
    decreases |shape|
  {
    if shape == [] then 1 else shape[0] * Prod(shape[1..])
  }

  /** `adr` is a valid multi-index of an array of this shape. */
  predicate InBounds(adr: seq<int>, shape: seq<nat>)
  {
    |adr| == |shape| && forall d :: 0 <= d < |shape| ==> 0 <= adr[d] < shape[d]
  }

  /** Multiplication by a natural number is monotone. */
  lemma {:induction false} MulMonotone(a: nat, b: nat, p: nat)
    requires a <= b
    ensures a * p <= b * p
    decreases b - a
  {
    if a < b {
      MulMonotone(a, b - 1, p);
      assert b * p == (b - 1) * p + p;
    }
  }

  /** `a * p + f` is the Euclidean division of itself by `p`, when `0 <= f < p`. */
  lemma DivModUnique(a: int, f: int, p: int)
    requires 0 <= f < p
    ensures (a * p + f) / p == a && (a * p + f) % p == f
  {
    var x := a * p + f;
    var q, r := x / p, x % p;
    assert x == q * p + r;
    assert (q - a) * p == f - r;
    if q > a {
      MulMonotone(1, q - a, p);
    } else if q < a {
      MulMonotone(1, a - q, p);
    }
  }

  /** Splitting an index below `d * p` into a block number below `d` and an offset below `p`. */
  lemma DivBound(idx: nat, d: nat, p: nat)
    requires idx < d * p
    ensures p > 0 && idx / p < d && idx % p < p
  {
    assert p != 0;
    var q := idx / p;
    assert q * p <= idx;
    if q >= d {
      MulMonotone(d, q, p);
    }
  }

  /** Block `a` of `d` blocks of `p`, offset `f`: the index lies below `d * p`. */
  lemma BlockBound(a: nat, d: nat, f: nat, p: nat)
    requires a < d && f < p
    ensures a * p + f < d * p
  {
    MulMonotone(a + 1, d, p);
  }

  /** An in-bounds first coordinate followed by an in-bounds address of the remaining dimensions. */
  lemma InBoundsCons(a: nat, rest: seq<nat>, shape: seq<nat>)
    requires shape != [] && a < shape[0] && InBounds(rest, shape[1..])
    ensures InBounds([a] + rest, shape)
  {
    var adr := [a] + rest;
    forall d | 0 < d < |shape| ensures adr[d] < shape[d] {
      assert adr[d] == rest[d - 1] && shape[1..][d - 1] == shape[d];
    }
  }

  /** The row-major address of flat index `idx`: the last dimension varies fastest. */
  function Address(idx: nat, shape: seq<nat>): (adr: seq<nat>)
    requires idx < Prod(shape)
    ensures InBounds(adr, shape)
    decreases |shape|
  {
    if shape == [] then []
    else
      var inner := Prod(shape[1..]);
      DivBound(idx, shape[0], inner);
      var rest := Address(idx % inner, shape[1..]);
      InBoundsCons(idx / inner, rest, shape);
      [idx / inner] + rest
  }

  /** The flat index of a row-major address (numpy's `arr[adr]` on a C-ordered array). */
  function Flatten(adr: seq<nat>, shape: seq<nat>): (idx: nat)
    requires InBounds(adr, shape)
    ensures idx < Prod(shape)
    decreases |shape|
  {
    if shape == [] then 0
    else
      var inner := Prod(shape[1..]);
      var rest := Flatten(adr[1..], shape[1..]);
      BlockBound(adr[0], shape[0], rest, inner);
      adr[0] * inner + rest
  }

  /** Flattening the address of an index gives back the index. */
  lemma {:induction false} FlattenAddress(idx: nat, shape: seq<nat>)
    requires idx < Prod(shape)
    ensures Flatten(Address(idx, shape), shape) == idx
    decreases |shape|
  {
    if shape != [] {
      var inner := Prod(shape[1..]);
      DivBound(idx, shape[0], inner);
      FlattenAddress(idx % inner, shape[1..]);
      assert Address(idx, shape)[1..] == Address(idx % inner, shape[1..]);
    }
  }

  /** The address of the flat index of an address is that address. */
  lemma {:induction false} AddressFlatten(adr: seq<nat>, shape: seq<nat>)
    requires InBounds(adr, shape)
    ensures Address(Flatten(adr, shape), shape) == adr
    decreases |shape|
  {
    if shape != [] {
      var inner := Prod(shape[1..]);
      var rest := Flatten(adr[1..], shape[1..]);
      DivModUnique(adr[0], rest, inner);
      AddressFlatten(adr[1..], shape[1..]);
      assert adr == [adr[0]] + adr[1..];
    }
  }

  /** A two-dimensional array: flat index `idx` is row `idx / cols`, column `idx % cols`. */
  lemma AddressTwoDim(idx: nat, rows: nat, cols: nat)
    requires idx < rows * cols
    ensures Prod([rows, cols]) == rows * cols
    ensures Address(idx, [rows, cols]) == [idx / cols, idx % cols]
  {
    assert [rows, cols][1..] == [cols];
    assert [cols][1..] == [];
    DivBound(idx, rows, cols);
    assert Address(idx % cols, [cols]) == [idx % cols];
  }

  /** `[i] + t` for every `t` of `tails`. */
  function Prefixed(i: nat, tails: seq<seq<nat>>): seq<seq<nat>>
  {
    seq(|tails|, j requires 0 <= j < |tails| => [i] + tails[j])
  }

  /** `Prefixed(0, tails) + ... + Prefixed(n - 1, tails)`: the outer loop of a nested enumeration. */
  function Blocks(n: nat, tails: seq<seq<nat>>): seq<seq<nat>>
    decreases n
  {
    if n == 0 then [] else Blocks(n - 1, tails) + Prefixed(n - 1, tails)
  }

  /** `list(itertools.product(*map(range, shape)))`. */
  function Product(shape: seq<nat>): (addrs: seq<seq<nat>>)
    decreases |shape|
  {
    if shape == [] then [[]] else Blocks(shape[0], Product(shape[1..]))
  }

  lemma {:induction false} BlocksLength(n: nat, tails: seq<seq<nat>>)
    ensures |Blocks(n, tails)| == n * |tails|
    decreases n
  {
    if n > 0 {
      BlocksLength(n - 1, tails);
      assert (n - 1) * |tails| + |tails| == n * |tails|;
    }
  }

  /** Entry `k` of the blocks is block `k / |tails|`, tail `k % |tails|`. */
  lemma {:induction false} BlocksAt(n: nat, tails: seq<seq<nat>>, k: nat)
    requires k < n * |tails|
    ensures |Blocks(n, tails)| == n * |tails|
    ensures Blocks(n, tails)[k] == [k / |tails|] + tails[k % |tails|]
    decreases n
  {
    BlocksLength(n, tails);
    BlocksLength(n - 1, tails);
    var t := |tails|;
    var before := (n - 1) * t;
    if k < before {
      BlocksAt(n - 1, tails, k);
    } else {
      assert before + t == n * t;
      DivModUnique(n - 1, k - before, t);
      assert k == (n - 1) * t + (k - before);
    }
  }

  /** The product has one address per element of the array. */
  lemma {:induction false} ProductLength(shape: seq<nat>)
    ensures |Product(shape)| == Prod(shape)
    decreases |shape|
  {
    if shape != [] {
      ProductLength(shape[1..]);
      BlocksLength(shape[0], Product(shape[1..]));
    }
  }

  /** The `idx`-th address `itertools.product` yields is the row-major address of `idx`. */
  lemma {:induction false} ProductIsRowMajor(shape: seq<nat>, idx: nat)
    requires idx < Prod(shape)
    ensures |Product(shape)| == Prod(shape)
    ensures Product(shape)[idx] == Address(idx, shape)
    decreases |shape|
  {
    ProductLength(shape);
    if shape != [] {
      var tails := Product(shape[1..]);
      ProductLength(shape[1..]);
      BlocksAt(shape[0], tails, idx);
      DivBound(idx, shape[0], |tails|);
      ProductIsRowMajor(shape[1..], idx % |tails|);
    }
  }
}
