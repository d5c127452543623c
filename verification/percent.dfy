/** Percentages as the handlers compute them, `(part / whole) * 100`, in
    exact arithmetic. */
module Percent {
  /** `p` is `part` out of `whole` as a percentage. */
  predicate Is(p: real, part: int, whole: int) {
    p * (whole as real) == (part as real) * 100.0
  }

  function Of(part: int, whole: int): (p: real)
    requires whole != 0
    ensures Is(p, part, whole)
  {
    var q := part as real / whole as real;
    assert q * (whole as real) == part as real;
    q * 100.0
  }

  /** A part between nothing and the whole is between 0 and 100 percent. */
  lemma Bounds(part: int, whole: int)
    requires 0 <= part <= whole && whole > 0
    ensures 0.0 <= Of(part, whole) <= 100.0
  {
    var p := Of(part, whole);
    var w := whole as real;
    assert p * w == (part as real) * 100.0;
    assert (100.0 - p) * w == (whole - part) as real * 100.0;
    NonNegFactor(p, w);
    NonNegFactor(100.0 - p, w);
  }

  lemma NonNegFactor(x: real, w: real)
    requires w > 0.0 && x * w >= 0.0
    ensures x >= 0.0
  {
  }

  /** The whole is 100 percent. */
  lemma Whole(whole: int)
    requires whole != 0
    ensures Of(whole, whole) == 100.0
  {
    var w := whole as real;
    assert Of(whole, whole) * w == w * 100.0;
  }
}
