/**
 * The arithmetic of `ItemContainer.setSize`: the on-path child of a row or
 * column gets a new percentage share, and the difference is spread evenly
 * over its siblings. Shares are reals, so sums are exact.
 */
module Redistribution {

  /** Sum of a sequence of percentage shares. */
  function Sum(s: seq<real>): real
  {
    if s == [] then 0.0 else s[0] + Sum(s[1..])
  }

  /**
   * The on-path child's new share in percent. The pixel span of the whole row
   * or column is inferred from the container's own pixel size and the child's
   * current share; the requested size is then taken as a fraction of that span.
   * Its meaning: the share scales by newSize / ownPixels. A zero share makes
   * the inferred span infinite in JavaScript, and any size divided by it is 0,
   * so the share stays 0.
   */
  function NewShare(ownPixels: int, oldShare: real, newSize: int): (r: real)
    requires ownPixels != 0
    ensures r * ownPixels as real == newSize as real * oldShare
  {
    if oldShare == 0.0 then 0.0
    else
      var totalPixel := ownPixels as real * (1.0 / (oldShare / 100.0));
      assert totalPixel * oldShare == ownPixels as real * 100.0;
      (newSize as real / totalPixel) * 100.0
  }

  /**
   * What every other sibling gains. With a single child there are no other
   * siblings and the amount is never used, so it is only computed for n > 1.
   */
  function Delta(s: seq<real>, idx: nat, share: real): (d: real)
    requires idx < |s|
    ensures |s| > 1 ==> (|s| - 1) as real * d == s[idx] - share
    ensures |s| == 1 ==> d == 0.0
  {
    if |s| > 1 then
      var d := (s[idx] - share) / (|s| - 1) as real;
      DivisionCancels((|s| - 1) as real, s[idx] - share, d);
      d
    else 0.0
  }

  /** Shares after the child at idx is given `share` and the others gain Delta. */
  function Redistribute(s: seq<real>, idx: nat, share: real): (r: seq<real>)
    requires idx < |s|
    ensures |r| == |s| && r[idx] == share
  {
    seq(|s|, i requires 0 <= i < |s| => if i == idx then share else s[i] + Delta(s, idx, share))
  }

  /** d added up n times. */
  function Repeated(n: nat, d: real): real
  {
    if n == 0 then 0.0 else d + Repeated(n - 1, d)
  }

  lemma {:induction false} RepeatedIsProduct(n: nat, d: real)
    ensures Repeated(n, d) == n as real * d
  {
    if n > 0 {
      RepeatedIsProduct(n - 1, d);
    }
  }

  lemma DivisionCancels(m: real, x: real, d: real)
    requires m != 0.0 && d == x / m
    ensures m * d == x
  {
  }

  /** Spreading x evenly over k entries and adding the parts back gives x. */
  lemma RepeatedQuotient(k: nat, x: real)
    requires k > 0
    ensures Repeated(k, x / k as real) == x
  {
    RepeatedIsProduct(k, x / k as real);
    DivisionCancels(k as real, x, x / k as real);
  }

  /**
   * Adding d to every entry but the one at idx adds d once per other entry,
   * plus that entry's own change, to the sum.
   */
  lemma {:induction false} SumOfShifted(s: seq<real>, t: seq<real>, idx: int, d: real)
    requires |t| == |s|
    requires forall i :: 0 <= i < |s| && i != idx ==> t[i] == s[i] + d
    ensures 0 <= idx < |s| ==> Sum(t) == Sum(s) + Repeated(|s| - 1, d) + (t[idx] - s[idx])
    ensures !(0 <= idx < |s|) ==> Sum(t) == Sum(s) + Repeated(|s|, d)
  {
    if s != [] {
      SumOfShifted(s[1..], t[1..], idx - 1, d);
    }
  }

  /** With two or more children, the total of the shares is unchanged. */
  lemma RedistributePreservesTotal(s: seq<real>, idx: nat, share: real)
    requires idx < |s| && |s| > 1
    ensures Sum(Redistribute(s, idx, share)) == Sum(s)
  {
    var t := Redistribute(s, idx, share);
    SumOfShifted(s, t, idx, Delta(s, idx, share));
    RepeatedQuotient(|s| - 1, s[idx] - share);
  }

  /**
   * The on-path child gets exactly the new share, and every other sibling
   * changes by the same amount, which is what the child gave up divided among them.
   */
  lemma RedistributeSplitsEvenly(s: seq<real>, idx: nat, share: real, i: nat)
    requires idx < |s| && i < |s| && i != idx
    ensures Redistribute(s, idx, share)[idx] == share
    ensures (|s| - 1) as real * (Redistribute(s, idx, share)[i] - s[i]) == s[idx] - share
  {
    var d := Delta(s, idx, share);
    assert Redistribute(s, idx, share)[i] - s[i] == d;
    DivisionCancels((|s| - 1) as real, s[idx] - share, d);
  }

  /** With a single child, only that child's entry changes. */
  lemma RedistributeSingleChild(s: seq<real>, share: real)
    requires |s| == 1
    ensures Redistribute(s, 0, share) == [share]
  {
  }

  /**
   * A single child whose share was 100 keeps a total of 100 only when the
   * requested size equals its current pixel size.
   */
  lemma SingleChildTotal(ownPixels: int, newSize: int)
    requires ownPixels != 0
    ensures Sum(Redistribute([100.0], 0, NewShare(ownPixels, 100.0, newSize))) == 100.0
            <==> newSize == ownPixels
  {
    var p := NewShare(ownPixels, 100.0, newSize);
    assert Redistribute([100.0], 0, p) == [p];
    assert Sum([p]) == p;
    ScaledEqual(p, ownPixels as real, newSize as real);
  }

  /** With m non-zero, p * m == n * 100 relates p == 100 and n == m both ways. */
  lemma ScaledEqual(p: real, m: real, n: real)
    requires m != 0.0 && p * m == n * 100.0
    ensures p == 100.0 <==> n == m
  {
    if n == m {
      assert (p - 100.0) * m == 0.0;
    }
  }

  /**
   * An on-path child whose share is 0 keeps 0, and then nothing is spread:
   * every sibling keeps its share.
   */
  lemma ZeroShareChangesNothing(s: seq<real>, idx: nat, ownPixels: int, newSize: int)
    requires idx < |s| && s[idx] == 0.0 && ownPixels != 0
    ensures Redistribute(s, idx, NewShare(ownPixels, s[idx], newSize)) == s
  {
    var r := Redistribute(s, idx, NewShare(ownPixels, s[idx], newSize));
    assert Delta(s, idx, 0.0) == 0.0;
    assert forall i :: 0 <= i < |s| ==> r[i] == s[i];
  }

  /** Three children at 50/30/20; the first, 500 pixels wide, is resized to 400. */
  lemma ResizeExample()
    ensures NewShare(500, 50.0, 400) == 40.0
    ensures Redistribute([50.0, 30.0, 20.0], 0, 40.0) == [40.0, 35.0, 25.0]
  {
    var r := Redistribute([50.0, 30.0, 20.0], 0, 40.0);
    assert Delta([50.0, 30.0, 20.0], 0, 40.0) == 5.0;
    assert r[0] == 40.0 && r[1] == 35.0 && r[2] == 25.0;
  }
}
