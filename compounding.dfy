/** Compounding a sequence of simple returns into a cumulative index that starts at 1.0. */
module Compounding {
  import opened Wrappers

  /** The value after one more period with return `r` (`value *= 1 + r`). */
  function Grow(value: real, r: real): real {
    value * (1.0 + r)
  }

  /** The value of one unit after earning each return of `rs` in order:
      the product of `1 + r` over `rs`, and 1.0 for no returns. */
  function Compound(rs: seq<real>): real {
    if rs == [] then 1.0 else Grow(Compound(rs[..|rs| - 1]), rs[|rs| - 1])
  }

  /** A return column with missing cells counted as a return of 0 (pandas `fillna(0)`). */
  function ZeroFilled(xs: seq<Option<real>>): (r: seq<real>)
    ensures |r| == |xs|
    ensures forall i :: 0 <= i < |xs| ==> (xs[i].None? ==> r[i] == 0.0) && (xs[i].Some? ==> r[i] == xs[i].value)
  {
    seq(|xs|, i requires 0 <= i < |xs| => xs[i].GetOr(0.0))
  }

  /** Compounding over two consecutive periods is the product of compounding over each. */
  lemma {:induction false} CompoundAppend(a: seq<real>, b: seq<real>)
    ensures Compound(a + b) == Compound(a) * Compound(b)
  {
    if b == [] {
      assert a + b == a;
    } else {
      var b' := b[..|b| - 1];
      assert (a + b)[..|a + b| - 1] == a + b';
      CompoundAppend(a, b');
    }
  }

  /** A running value at period k is the one at an earlier period i grown by the periods between. */
  lemma GrowthBetween(rs: seq<real>, i: nat, k: nat, earlier: real, later: real)
    requires i < k < |rs|
    requires earlier == Compound(rs[..i + 1]) && later == Compound(rs[..k + 1])
    ensures later == earlier * Compound(rs[i + 1..k + 1])
  {
    assert rs[..k + 1] == rs[..i + 1] + rs[i + 1..k + 1];
    CompoundAppend(rs[..i + 1], rs[i + 1..k + 1]);
  }

  /** One more period grows the compounded value by its return. */
  lemma CompoundSnoc(rs: seq<real>, r: real)
    ensures Compound(rs + [r]) == Grow(Compound(rs), r)
  {
    assert (rs + [r])[..|rs|] == rs;
  }

  /** `(1 + rs).cumprod()`: the running value after each period, each one the previous
      value (1.0 before the first) grown by that period's return. */
  function CumProd(rs: seq<real>): (idx: seq<real>)
    ensures |idx| == |rs|
  {
    if rs == [] then []
    else
      var before := CumProd(rs[..|rs| - 1]);
      before + [Grow(if before == [] then 1.0 else before[|before| - 1], rs[|rs| - 1])]
  }

  /** The running value after period k is the compounded product of the first k + 1 returns. */
  lemma {:induction false} CumProdIsCompound(rs: seq<real>)
    ensures forall k :: 0 <= k < |rs| ==> CumProd(rs)[k] == Compound(rs[..k + 1])
  {
    if rs != [] {
      var n := |rs| - 1;
      var before := CumProd(rs[..n]);
      CumProdIsCompound(rs[..n]);
      forall k | 0 <= k < |rs|
        ensures CumProd(rs)[k] == Compound(rs[..k + 1])
      {
        if k < n {
          assert CumProd(rs)[k] == before[k];
          assert rs[..n][..k + 1] == rs[..k + 1];
        } else {
          assert rs[..k + 1] == rs;
          if n > 0 {
            assert before[n - 1] == Compound(rs[..n][..n]);
            assert rs[..n][..n] == rs[..n];
          }
        }
      }
    }
  }

  /** A missing year (return 0) carries the index over: 1.05, 1.05, then 1.05 * 1.03. */
  lemma CumProdExample()
    ensures CumProd([0.05, 0.0, 0.03]) == [1.05, 1.05, 1.0815]
  {
    var rs := [0.05, 0.0, 0.03];
    assert rs[..2] == [0.05, 0.0] && rs[..2][..1] == [0.05] && [0.05][..0] == [];
    assert CumProd([0.05]) == [1.05];
    assert CumProd([0.05, 0.0]) == [1.05, 1.05];
  }
}
