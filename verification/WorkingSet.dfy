/**
  The adaptive working set: may a cache grow, given how many of the fragments it evicted were
  regenerated?
 */
module WorkingSet {

  datatype Params = Params(
    isFifo: bool, maxSize: nat, finiteCache: bool, replace: nat, regen: nat, freeUpgradeSize: nat, maxUnitSize: nat)

  /** The whole number of times `d` goes into `x`. */
  function Times(x: nat, d: nat): nat
    requires 0 < d
  {
    x / d
  }

  /** The verdict of the subtraction loop, in closed form. */
  predicate Reaches(replaced: nat, regenerated: nat, R: nat, G: nat)
    requires 0 < R && 0 < G
  {
    R <= replaced && Times(replaced, R) < Times(regenerated, G)
  }

  lemma DivBounds(x: nat, d: nat)
    requires 0 < d
    ensures d * Times(x, d) <= x < d * (Times(x, d) + 1)
  {
  }

  lemma DivBelow(x: nat, d: nat, q: nat)
    requires 0 < d
    ensures Times(x, d) < q <==> x < d * q
  {
    DivBounds(x, d);
    hide Times;
    if Times(x, d) < q {
      MulMono(Times(x, d) + 1, q, d);
    } else {
      MulMono(q, Times(x, d), d);
    }
  }

  /** Subtracting once more takes one off a quotient. */
  lemma DivMinus(x: nat, d: nat)
    requires 0 < d <= x
    ensures Times(x - d, d) == Times(x, d) - 1
  {
    DivBounds(x, d);
    DivBounds(x - d, d);
    var p, q := Times(x - d, d), Times(x, d);
    assert d * p <= x - d < d * (p + 1) && d * q <= x < d * (q + 1);
    DivBelow(x - d, d, q);
    DivBelow(x, d, p + 1);
    assert d * q == d * (q - 1) + d && d * (p + 1) == d * p + d;
    DivBelow(x - d, d, q - 1);
    assert q >= 1 by {
      DivBelow(x, d, 1);
    }
  }

  /** Growth is allowed only above the ratio of the two parameters. */
  lemma ReachesRatio(replaced: nat, regenerated: nat, R: nat, G: nat)
    requires 0 < R && 0 < G && Reaches(replaced, regenerated, R, G)
    ensures replaced * G < regenerated * R
  {
    hide Times;
    var q := Times(replaced, R);
    DivBounds(replaced, R);
    DivBounds(regenerated, G);
    MulMono(q + 1, Times(regenerated, G), G);
    MulLess(replaced, R * (q + 1), G);
    MulMono(G * (q + 1), regenerated, R);
    assert R * (q + 1) * G == G * (q + 1) * R;
  }

  lemma MulMono(a: nat, b: nat, c: nat)
    requires a <= b
    ensures a * c <= b * c && c * a <= c * b
  {
  }

  lemma MulLess(a: nat, b: nat, c: nat)
    requires a < b && 0 < c
    ensures a * c < b * c
  {
  }

  /** And exactly above it when the regenerated count is a whole number of `G`s. */
  lemma ReachesExact(replaced: nat, m: nat, R: nat, G: nat)
    requires 0 < R <= replaced && 0 < G
    ensures Reaches(replaced, G * m, R, G) <==> replaced * G < G * m * R
  {
    DivBelow(G * m, G, m);
    DivBelow(G * m, G, m + 1);
    DivBelow(replaced, R, m);
    hide Times;
    assert G * (m + 1) == G * m + G;
    assert Times(G * m, G) == m;
    if replaced < R * m {
      MulLess(replaced, R * m, G);
    } else {
      MulMono(R * m, replaced, G);
    }
    assert R * m * G == G * m * R;
  }

  /** Rounding hides part of the excess: 3 of 2 is above 2 in 2, yet not reached. */
  lemma NotExact()
    ensures 2 * 2 < 3 * 2 && !Reaches(2, 3, 2, 2)
  {
  }

  /** The same number of `R`s and `G`s were taken off the two counters. */
  ghost predicate Paired(replaced: nat, replaced': nat, regenerated: nat, regenerated': nat, R: nat, G: nat) {
    exists n: nat {:trigger n * R, n * G} :: replaced == replaced' + n * R && regenerated == regenerated' + n * G
  }

  lemma PairedNone(replaced: nat, regenerated: nat, R: nat, G: nat)
    ensures Paired(replaced, replaced, regenerated, regenerated, R, G)
  {
    assert 0 * R == 0 && 0 * G == 0;
  }

  /** The part of a fcache_t that check_regen_replace_ratio reads and writes. */
  class Counters {
    const p: Params
    var size: nat
    var numReplaced: nat
    var numRegenerated: nat
    var wsetCheck: nat
    var recordWset: bool

    constructor (params: Params)
      ensures p == params && size == 0 && numReplaced == 0 && numRegenerated == 0 && wsetCheck == 0 && !recordWset
    {
      p := params;
      size, numReplaced, numRegenerated, wsetCheck, recordWset := 0, 0, 0, 0, false;
    }

    /** The ratio is what decides. */
    predicate RatioDecides(addSize: nat)
      reads this
    {
      && (p.maxSize == 0 || size + addSize <= p.maxSize)
      && p.finiteCache && p.replace != 0 && p.regen != 0 && wsetCheck == 0 && p.freeUpgradeSize <= size
      && (p.isFifo || recordWset)
    }

    /** Neither the waiting period nor the counters matter. */
    predicate Settled(addSize: nat)
      reads this
    {
      (p.maxSize != 0 && size + addSize > p.maxSize) || !p.finiteCache || p.replace == 0 || p.regen == 0
    }

    /** check_regen_replace_ratio */
    method CheckRegenReplaceRatio(addSize: nat) returns (grow: bool)
      modifies this`numReplaced, this`numRegenerated, this`wsetCheck, this`recordWset
      ensures old(RatioDecides(addSize)) ==>
          (grow <==> Reaches(old(numReplaced), old(numRegenerated), p.replace, p.regen))
      ensures Paired(old(numReplaced), numReplaced, old(numRegenerated), numRegenerated, p.replace, p.regen)
      ensures old(RatioDecides(addSize)) ==> numReplaced < p.replace || numRegenerated < p.regen
      ensures !old(RatioDecides(addSize)) ==>
                && numReplaced == old(numReplaced) && numRegenerated == old(numRegenerated)
                && (grow <==> old(
                      && (p.maxSize == 0 || size + addSize <= p.maxSize)
                      && (!p.finiteCache || p.replace == 0 || (p.regen != 0 && wsetCheck == 0))))
      ensures wsetCheck == old(if Settled(addSize) then wsetCheck else if wsetCheck > 0 then wsetCheck - 1
                               else if p.isFifo then p.replace else 0)
      ensures recordWset == old(recordWset
                                || (!Settled(addSize) && wsetCheck == 0 && !p.isFifo
                                    && (size < p.freeUpgradeSize ==> size + p.maxUnitSize >= p.freeUpgradeSize)))
    {
      hide Times, Paired;
      PairedNone(numReplaced, numRegenerated, p.replace, p.regen);
      if p.maxSize != 0 && size + addSize > p.maxSize {
        return false;
      } else if !p.finiteCache || p.replace == 0 {
        return true;
      } else if p.regen == 0 {
        return false;
      } else if wsetCheck > 0 {
        wsetCheck := wsetCheck - 1;
        return false;
      } else if size < p.freeUpgradeSize {
        if p.isFifo {
          wsetCheck := p.replace;
        } else if size + p.maxUnitSize >= p.freeUpgradeSize && !recordWset {
          recordWset := true;
        }
        return true;
      }
      if p.isFifo {
        wsetCheck := p.replace;
      } else if !recordWset {
        recordWset := true;
        return true;
      }
      DivBelow(numRegenerated, p.regen, 1);
      if numReplaced >= p.replace && numRegenerated >= p.regen {
        Subtract();
        if numRegenerated >= p.regen {
          return true;
        }
      }
      return false;
    }

    /** The loop that compares the two ratios without multiplying. */
    method Subtract()
      requires 0 < p.replace <= numReplaced && 0 < p.regen <= numRegenerated
      modifies this`numReplaced, this`numRegenerated
      ensures Paired(old(numReplaced), numReplaced, old(numRegenerated), numRegenerated, p.replace, p.regen)
      ensures numReplaced < p.replace || numRegenerated < p.regen
      ensures p.regen <= numRegenerated <==> Reaches(old(numReplaced), old(numRegenerated), p.replace, p.regen)
    {
      hide Times;
      ghost var n: nat := 0;
      while numReplaced >= p.replace && numRegenerated >= p.regen
        invariant old(numReplaced) == numReplaced + n * p.replace && old(numRegenerated) == numRegenerated + n * p.regen
        invariant Times(old(numReplaced), p.replace) - Times(numReplaced, p.replace) == n
        invariant Times(old(numRegenerated), p.regen) - Times(numRegenerated, p.regen) == n
        decreases numReplaced
      {
        DivMinus(numReplaced, p.replace);
        DivMinus(numRegenerated, p.regen);
        numReplaced := numReplaced - p.replace;
        numRegenerated := numRegenerated - p.regen;
        assert (n + 1) * p.replace == n * p.replace + p.replace && (n + 1) * p.regen == n * p.regen + p.regen;
        n := n + 1;
      }
      DivBelow(numReplaced, p.replace, 1);
      DivBelow(numRegenerated, p.regen, 1);
    }
  }
}
