/** Products of row widths and row counts, by repeated addition. */
module Products {
  /** a * y, by repeated addition. */
  function Times(a: nat, y: nat): nat {
    if y == 0 then 0 else a + Times(a, y - 1)
  }

  lemma {:induction false} TimesIsProduct(a: nat, y: nat)
    ensures Times(a, y) == a * y
  {
    if y > 0 {
      TimesIsProduct(a, y - 1);
      assert a * y == a + a * (y - 1);
    }
  }

  lemma {:induction false} TimesSplit(a: nat, j: nat, y: nat)
    requires j < y
    ensures Times(a, j) + a <= Times(a, y) && Times(a, j + 1) == Times(a, j) + a
    decreases y
  {
    if j + 1 < y { TimesSplit(a, j, y - 1); }
  }

  lemma {:induction false} TimesZero(k: nat)
    ensures Times(0, k) == 0
  {
    if k > 0 { TimesZero(k - 1); }
  }

  lemma {:induction false} TimesGrows(a: nat, j: nat, k: nat)
    ensures j <= k ==> Times(a, j) <= Times(a, k)
    decreases k
  {
    if j < k { TimesGrows(a, j, k - 1); }
  }

  lemma TimesNext(a: nat, k: nat)
    ensures Times(a, k + 1) == Times(a, k) + a
  {
  }
}
