/**
  Both hash tables compare an occupancy ratio with 0.7. Over the integers that
  comparison is `10 * part >= 7 * whole`.
 */
module Ratios {

  lemma AtLeastSevenTenths(part: nat, whole: nat)
    requires whole > 0
    ensures (part as real) / (whole as real) >= 0.7 <==> 10 * part >= 7 * whole
  {
    var s, c := part as real, whole as real;
    var r := s / c;
    assert r * c == s;
    var t := 0.7 * c;
    RealScale(r, 0.7, c);
    assert r >= 0.7 <==> r * c >= t;
    assert r >= 0.7 <==> s >= t;
    assert (10 * part) as real == 10.0 * s && (7 * whole) as real == 7.0 * c;
    assert s >= t <==> 10.0 * s >= 7.0 * c;
  }

  lemma RealScale(x: real, y: real, c: real)
    requires c > 0.0
    ensures x >= y <==> x * c >= y * c
  {
    if x >= y {
      assert x * c - y * c == (x - y) * c;
    } else {
      assert y * c - x * c == (y - x) * c;
    }
  }
}
