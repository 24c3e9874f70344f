/**
  Multiples of an alignment.
 */
module Alignment {

  lemma AlignedSum(x: int, y: int, al: int)
    requires 0 < al && x % al == 0 && y % al == 0
    ensures (x + y) % al == 0 && (x - y) % al == 0
  {
    var i, j := x / al, y / al;
    assert x == al * i && y == al * j;
    assert x + y == al * (i + j) && x - y == al * (i - j);
    MultipleMod(i + j, al);
    MultipleMod(i - j, al);
  }

  lemma MultipleMod(k: int, al: int)
    requires 0 < al
    ensures (al * k) % al == 0
  {
    var q, r := (al * k) / al, (al * k) % al;
    assert al * (k - q) == r;
    assert k - q >= 1 ==> al * (k - q) >= al;
    assert k - q <= -1 ==> al * (k - q) <= -al;
  }

  /** ALIGN_FORWARD */
  function AlignUp(x: int, al: int): (r: int)
    requires 0 < al
    ensures x <= r < x + al && r % al == 0
  {
    var r := al * ((x + al - 1) / al);
    MultipleMod((x + al - 1) / al, al);
    assert al * ((x + al - 1) / al) + (x + al - 1) % al == x + al - 1;
    r
  }

  /** ALIGN_FORWARD does not pass a later multiple. */
  lemma AlignUpLeast(x: int, al: int, y: int)
    requires 0 < al && x <= y && y % al == 0
    ensures AlignUp(x, al) <= y
  {
    var r := AlignUp(x, al);
    AlignedSum(r, y, al);
    assert y < r ==> 0 < r - y < al;
  }

  /** A multiple of a multiple of `d` is a multiple of `d`. */
  lemma AlignedChain(x: int, al: int, d: int)
    requires 0 < al && 0 < d && x % al == 0 && al % d == 0
    ensures x % d == 0
  {
    var i, j := x / al, al / d;
    assert x == al * i && al == d * j;
    assert x == d * (j * i);
    MultipleMod(j * i, d);
  }
}
