/** Arithmetic of the timing wheel: saturating granularities and the division
    facts that tie a tick to the bucket that covers it. */
module WheelMath {

  /** The largest uint64, at which granularities saturate. */
  const MAX_TICK: nat := 0xFFFF_FFFF_FFFF_FFFF

  function Pow(b: nat, k: nat): nat {
    if k == 0 then 1 else b * Pow(b, k - 1)
  }

  function MulClamp(a: nat, b: nat): nat {
    if a == 0 || b == 0 then 0
    else if a > MAX_TICK / b then MAX_TICK
    else a * b
  }

  /** The overflow guard is exact: the product is clamped only when it does not fit. */
  lemma MulClampIsSaturatingProduct(a: nat, b: nat)
    ensures MulClamp(a, b) == if a * b <= MAX_TICK then a * b else MAX_TICK
  {
    if a != 0 && b != 0 {
      var q := MAX_TICK / b;
      assert b * q <= MAX_TICK < b * q + b;
      assert b * (q + 1) == b * q + b && a * b == b * a;
      MulMono(b, q + 1, a);
      MulMono(b, a, q);
    }
  }

  /** Each granularity is the previous one times the slot count, saturating. */
  ghost predicate Chain(g: seq<nat>, slots: nat) {
    && slots >= 1
    && |g| >= 1
    && g[0] == 1
    && forall i :: 1 <= i < |g| ==> Link(g, slots, i)
  }

  ghost predicate Link(g: seq<nat>, slots: nat, i: nat)
    requires 1 <= i < |g|
  {
    g[i] == MulClamp(g[i - 1], slots)
  }

  lemma MulClampBounds(a: nat, b: nat)
    requires 1 <= a <= MAX_TICK && b >= 1
    ensures a <= MulClamp(a, b) <= MAX_TICK
    ensures MulClamp(a, b) < MAX_TICK ==> MulClamp(a, b) == a * b
    ensures MulClamp(a, b) <= a * b
  {
    MulClampIsSaturatingProduct(a, b);
    MulMono(a, 1, b);
  }

  lemma ChainStep(g: seq<nat>, slots: nat, i: nat)
    requires Chain(g, slots) && i + 1 < |g| && 1 <= g[i] <= MAX_TICK
    ensures g[i] <= g[i + 1] <= MAX_TICK
    ensures g[i + 1] < MAX_TICK ==> g[i + 1] == g[i] * slots
    ensures g[i + 1] <= g[i] * slots
  {
    assert Link(g, slots, i + 1);
    MulClampBounds(g[i], slots);
  }

  lemma {:induction false} ChainMono(g: seq<nat>, slots: nat, i: nat, j: nat)
    requires Chain(g, slots) && i <= j < |g|
    ensures 1 <= g[i] <= g[j] <= MAX_TICK
    decreases j
  {
    if i < j {
      ChainMono(g, slots, i, j - 1);
      ChainStep(g, slots, j - 1);
    } else if j > 0 {
      ChainMono(g, slots, j - 1, j - 1);
      ChainStep(g, slots, j - 1);
    }
  }

  /** Every granularity is slots^level, except where that exceeds uint64. */
  lemma {:induction false} GranularityIsClampedPower(g: seq<nat>, slots: nat, i: nat)
    requires Chain(g, slots) && i < |g|
    ensures g[i] == if Pow(slots, i) <= MAX_TICK then Pow(slots, i) else MAX_TICK
  {
    if i > 0 {
      GranularityIsClampedPower(g, slots, i - 1);
      assert Link(g, slots, i);
      MulClampIsSaturatingProduct(g[i - 1], slots);
      var p := Pow(slots, i - 1);
      assert slots * p == p * slots;
      MulMono(p, 1, slots);
      MulMono(MAX_TICK, 1, slots);
    }
  }

  /** Below the clamp, every lower granularity divides: a tick on a level's boundary
      is on the boundary of every level under it. */
  lemma {:induction false} ChainDivides(g: seq<nat>, slots: nat, i: nat, j: nat, n: nat)
    requires Chain(g, slots) && i <= j < |g| && g[j] < MAX_TICK
    requires g[j] >= 1 && n % g[j] == 0
    ensures g[i] >= 1 && n % g[i] == 0
    decreases j
  {
    if i < j {
      ChainMono(g, slots, j - 1, j);
      ChainStep(g, slots, j - 1);
      var k := n / g[j];
      assert n == g[j] * k;
      assert n == g[j - 1] * (slots * k) by {
        assert (g[j - 1] * slots) * k == g[j - 1] * (slots * k);
      }
      ModOfMultiple(g[j - 1], slots * k);
      ChainDivides(g, slots, i, j - 1, n);
    }
  }

  lemma ModOfMultiple(g: nat, k: nat)
    requires g >= 1
    ensures (g * k) % g == 0 && (g * k) / g == k
  {
    DivUnique(g * k, g, k);
  }

  lemma MulMono(g: nat, a: nat, b: nat)
    ensures a <= b ==> g * a <= g * b
  {
    if a <= b {
      assert g * b == g * a + g * (b - a);
    }
  }

  lemma SameQuotient(g: nat, q: nat, q': nat, r: nat, r': nat)
    requires g * q + r == g * q' + r' && r < g && r' < g
    ensures q == q' && r == r'
  {
    MulMono(g, q' + 1, q);
    MulMono(g, q + 1, q');
    assert g * (q' + 1) == g * q' + g && g * (q + 1) == g * q + g;
  }

  lemma DivUnique(n: nat, g: nat, q: nat)
    requires g >= 1 && g * q <= n < g * q + g
    ensures n / g == q && n % g == n - g * q
  {
    SameQuotient(g, n / g, q, n % g, n - g * q);
  }

  lemma DivMono(a: nat, b: nat, g: nat)
    requires g >= 1 && a <= b
    ensures a / g <= b / g
  {
    var q, p := a / g, b / g;
    assert g * q <= a && b < g * p + g;
    MulMono(g, p + 1, q);
  }

  /** A delay of at least one granule moves to a later granule. */
  lemma DivGap(n: nat, e: nat, g: nat)
    requires g >= 1 && e >= n + g
    ensures n / g < e / g
  {
    DivUnique(n + g, g, n / g + 1) by {
      assert g * (n / g + 1) == g * (n / g) + g;
    }
    DivMono(n + g, e, g);
  }

  /** One tick starts a new granule exactly at the multiples of the granularity. */
  lemma DivTick(n: nat, g: nat)
    requires n >= 1 && g >= 1
    ensures n % g != 0 ==> n / g == (n - 1) / g
    ensures n % g == 0 ==> n / g == (n - 1) / g + 1
  {
    var q, r := n / g, n % g;
    if r != 0 {
      DivUnique(n - 1, g, q);
    } else {
      assert n == g * q;
      assert q >= 1;
      assert g * (q - 1) == g * q - g;
      DivUnique(n - 1, g, q - 1);
    }
  }

  /** From a boundary, a tick of the same granule is less than one granule away. */
  lemma SameGranule(n: nat, e: nat, g: nat)
    requires g >= 1 && n % g == 0 && e / g == n / g
    ensures n <= e < n + g
  {
    assert n == g * (n / g);
    assert e == g * (e / g) + e % g;
  }

  /** From a boundary, a tick less than `slots` granules away is less than `slots`
      granules ahead, so its slot differs from the current one. */
  lemma WithinRevolution(n: nat, e: nat, g: nat, slots: nat)
    requires g >= 1 && slots >= 1 && n % g == 0 && n <= e < n + g * slots
    ensures n / g <= e / g < n / g + slots
  {
    DivMono(n, e, g);
    var q, p := n / g, e / g;
    assert n == g * q && g * p <= e;
    assert g * (q + slots) == g * q + g * slots;
    MulMono(g, q + slots, p);
  }

  /** Two granules of one slot are a whole number of revolutions apart. */
  lemma SameSlot(a: nat, b: nat, slots: nat)
    requires slots >= 1 && a % slots == b % slots && a < b
    ensures b >= a + slots
  {
    var p, q, r := a / slots, b / slots, a % slots;
    assert a == slots * p + r && b == slots * q + r;
    MulMono(slots, q, p);
    MulMono(slots, p + 1, q);
  }

  /** A task further than one revolution of granules is a full revolution of ticks away. */
  lemma RevolutionTicks(n: nat, e: nat, g: nat, slots: nat)
    requires g >= 1 && n % g == 0 && e / g >= n / g + slots
    ensures e >= n + g * slots
  {
    var q, p := n / g, e / g;
    assert n == g * q && e >= g * p;
    assert g * (q + slots) == g * q + g * slots;
    MulMono(g, q + slots, p);
  }
}
