/**
 * The percentage reported by `onUploadProgress`:
 * `Math.round(loaded * 100 / (total || 1))`, in exact integer arithmetic.
 * `Math.round` rounds halves up, which on non-negative values is
 * `floor(x + 1/2)`; with `x = 100 * loaded / t` that is
 * `floor((200 * loaded + t) / (2 * t))`.
 */
module UploadProgress {
  import opened Wrappers

  /** `total || 1`: a missing or zero total counts as 1. */
  function Divisor(total: Option<nat>): (t: nat)
    ensures t >= 1
    ensures total.Some? && total.value > 0 ==> t == total.value
  {
    if total.Some? && total.value > 0 then total.value else 1
  }

  /**
   * `Math.round(loaded * 100 / (total || 1))`: the integer nearest to
   * `100 * loaded / t`, a half rounding up, that is
   * `p - 1/2 <= 100 * loaded / t < p + 1/2`.
   */
  function Percent(loaded: nat, total: Option<nat>): (p: nat)
    ensures var t := Divisor(total); 2 * t * p - t <= 200 * loaded < 2 * t * p + t
  {
    var t := Divisor(total);
    var n := 200 * loaded + t;
    assert n == (2 * t) * (n / (2 * t)) + n % (2 * t);
    n / (2 * t)
  }

  lemma GapAtLeast(t: int, lo: int, hi: int)
    requires t >= 1 && lo < hi
    ensures 2 * t * hi - 2 * t * lo >= 2 * t
  {
    var u, d := 2 * t, hi - lo;
    assert u * hi - u * lo == u * d;
    assert u * (d - 1) >= 0;
    assert u * d == u * (d - 1) + u;
  }

  /** Two percents can only be ordered as their half-open rounding windows are. */
  lemma WindowsOrdered(t: int, p: int, q: int, x: int, y: int)
    requires t >= 1 && x <= y
    requires 2 * t * p - t <= x && y < 2 * t * q + t
    ensures p <= q
  {
    if q < p {
      GapAtLeast(t, q, p);
    }
  }

  /** Any integer within a half of `100 * loaded / t` (half rounding up) is the reported percent. */
  lemma PercentUnique(loaded: nat, total: Option<nat>, q: int)
    requires var t := Divisor(total); 2 * t * q - t <= 200 * loaded < 2 * t * q + t
    ensures q == Percent(loaded, total)
  {
    var t := Divisor(total);
    var p := Percent(loaded, total);
    WindowsOrdered(t, p, q, 200 * loaded, 200 * loaded);
    WindowsOrdered(t, q, p, 200 * loaded, 200 * loaded);
  }

  /** Nothing sent reports 0. */
  lemma PercentOfNothing(total: Option<nat>)
    ensures Percent(0, total) == 0
  {
    PercentUnique(0, total, 0);
  }

  /** Everything sent reports 100. */
  lemma PercentOfAll(total: nat)
    requires total > 0
    ensures Percent(total, Some(total)) == 100
  {
    PercentUnique(total, Some(total), 100);
  }

  /** Without a usable total the divisor is 1, so the report is `100 * loaded`, past 100 after one byte. */
  lemma PercentWithoutTotal(loaded: nat, total: Option<nat>)
    requires total.None? || total.value == 0
    ensures Percent(loaded, total) == 100 * loaded
  {
    PercentUnique(loaded, total, 100 * loaded);
  }

  /** More bytes sent never reports less. */
  lemma PercentMonotone(a: nat, b: nat, total: Option<nat>)
    requires a <= b
    ensures Percent(a, total) <= Percent(b, total)
  {
    var t := Divisor(total);
    WindowsOrdered(t, Percent(a, total), Percent(b, total), 200 * a, 200 * b);
  }

  /** Within the total, the report stays between 0 and 100. */
  lemma PercentInRange(loaded: nat, total: nat)
    requires 0 < total && loaded <= total
    ensures 0 <= Percent(loaded, Some(total)) <= 100
  {
    PercentMonotone(loaded, total, Some(total));
    PercentOfAll(total);
  }

  /**
   * Rounding reports 100 as soon as `loaded / total` reaches 99.5%, before
   * the last bytes are sent: the completion signal can come early.
   */
  lemma PercentHundredFrom(loaded: nat, total: nat)
    requires 0 < total && loaded <= total
    ensures Percent(loaded, Some(total)) == 100 <==> 200 * loaded >= 199 * total
  {
    PercentInRange(loaded, total);
    if 200 * loaded >= 199 * total {
      PercentUnique(loaded, Some(total), 100);
    }
  }

  /** For instance, 995 of 1000 bytes already report 100. */
  lemma EarlyCompletion()
    ensures Percent(995, Some(1000)) == 100
    ensures Percent(994, Some(1000)) == 99
  {
    PercentHundredFrom(995, 1000);
    PercentUnique(994, Some(1000), 99);
  }
}
