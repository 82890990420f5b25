/** Powers of two, shared by the arithmetic on machine words. */
module Powers {
  function Exp2(n: nat): (p: nat)
    ensures p >= 1
  {
    if n == 0 then 1 else 2 * Exp2(n - 1)
  }

  lemma {:induction false} Exp2Add(m: nat, n: nat)
    ensures Exp2(m + n) == Exp2(m) * Exp2(n)
    decreases m
  {
    if m > 0 {
      Exp2Add(m - 1, n);
      assert 2 * (Exp2(m - 1) * Exp2(n)) == (2 * Exp2(m - 1)) * Exp2(n);
    }
  }

  lemma Exp2Word()
    ensures Exp2(32) == 0x1_0000_0000
  {
    assert Exp2(8) == 0x100;
    Exp2Add(8, 8);
    Exp2Add(16, 16);
  }
}
