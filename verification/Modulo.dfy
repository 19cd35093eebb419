/** How a wrapping counter's values repeat. */
module Modulo {

  lemma SmallMultiple(d: int, w: int)
    requires -w < d * w < w
    ensures d == 0
  {
  }

  lemma DivisionIs(x: nat, q: nat, r: nat, w: nat)
    requires x == q * w + r && r < w
    ensures x % w == r
  {
    var d := x / w - q;
    assert x == x / w * w + x % w;
    assert d * w == x / w * w - q * w;
    SmallMultiple(d, w);
  }

  /** Adding one before or after wrapping. */
  lemma NextModulo(x: nat, w: nat)
    requires w > 1
    ensures (x % w + 1) % w == (x + 1) % w
  {
    assert x == x / w * w + x % w;
    if x % w + 1 < w {
      DivisionIs(x + 1, x / w, x % w + 1, w);
      DivisionIs(x % w + 1, 0, x % w + 1, w);
    } else {
      assert (x / w + 1) * w == x / w * w + w;
      DivisionIs(x + 1, x / w + 1, 0, w);
      DivisionIs(w, 1, 0, w);
    }
  }

  lemma DistinctModulo(a: nat, b: nat, w: nat)
    requires a < b < a + w
    ensures a % w != b % w
  {
    var d := b / w - a / w;
    assert a == a / w * w + a % w && b == b / w * w + b % w;
    assert d * w == b / w * w - a / w * w;
    if a % w == b % w {
      SmallMultiple(d, w);
    }
  }

  lemma FullTurn(a: nat, w: nat)
    requires w > 0
    ensures (a + w) % w == a % w
  {
    assert a == a / w * w + a % w;
    assert (a / w + 1) * w == a / w * w + w;
    DivisionIs(a + w, a / w + 1, a % w, w);
  }
}
