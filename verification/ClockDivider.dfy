/** The SD clock divider of sdhci_clk_supply (sdhci.c), after section 2.2.14 of the SD Host Controller
    Simplified Specification 3.00. */
module ClockDivider {
  import opened Bits

  const SDHCI_CLK_MAX_DIV: nat := 2046

  function Divided(base: nat, d: nat): nat
    requires d > 0
  {
    QuotientNonneg(base, d);
    base / d
  }

  /** The divided clock is slow enough. */
  predicate SlowEnough(base: nat, clk: nat, d: nat)
    requires d > 0
  {
    Divided(base, d) <= clk
  }

  /** d is the least even divider that is slow enough, or 2046 when none below it is. */
  ghost predicate LeastDivider(base: nat, clk: nat, d: nat) {
    && d % 2 == 0 && 2 <= d <= SDHCI_CLK_MAX_DIV
    && (d < SDHCI_CLK_MAX_DIV ==> SlowEnough(base, clk, d))
    && forall e :: 2 <= e < d && e % 2 == 0 ==> !SlowEnough(base, clk, e)
  }

  /** The two parts of the 10-bit field: eight bits from bit 8, two more from bit 6. */
  function Split(n: nat): nat {
    Or(Shl(And(n, 0xFF), 8), Shl(Shr(And(n, 0x300), 8), 6))
  }

  /** What the controller makes of the register. */
  function DividerOf(reg: nat): nat { reg / 256 + 256 * (reg / 64 % 4) }

  lemma Powers()
    ensures Pow2(8) == 256 && Pow2(6) == 64 && Pow2(2) == 4
  {
    assert Pow2(6) == 64;
  }

  /** A mask that was shifted picks from the shifted number. */
  lemma {:induction false} AndShifted(x: nat, m: nat, k: nat)
    ensures x / Pow2(k) >= 0 && And(x, m * Pow2(k)) == And(x / Pow2(k), m) * Pow2(k)
  {
    hide And, Pow2;
    if k == 0 {
      Pow2OfZero();
    } else {
      Pow2Step(k);
      AndShifted(x / 2, m, k - 1);
      OneMoreShift(x, m, Pow2(k - 1));
    }
  }

  lemma OneMoreShift(x: nat, m: nat, p: nat)
    requires p > 0 && x / 2 / p >= 0 && And(x / 2, m * p) == And(x / 2 / p, m) * p
    ensures x / (2 * p) >= 0 && And(x, m * (2 * p)) == And(x / (2 * p), m) * (2 * p)
  {
    hide And;
    DivDiv(x, 2, p);
    AndEven(x, m * p);
    DoubleProduct(m, p);
    DoubleProduct(And(x / 2 / p, m), p);
  }

  lemma AndEven(x: nat, m: nat)
    ensures And(x, 2 * m) == 2 * And(x / 2, m)
  {
    assert (2 * m) / 2 == m && (2 * m) % 2 == 0;
  }

  /** The parts of a 10-bit number. */
  lemma SplitValue(n: nat)
    requires n < 1024
    ensures Split(n) == 256 * (n % 256) + 64 * (n / 256)
  {
    hide And, Or, Pow2;
    Powers();
    AndMask(n, 8);
    AndShifted(n, 3, 8);
    AndMask(n / 256, 2);
    assert And(n, 0x300) == n / 256 * 256;
    assert Shr(And(n, 0x300), 8) == n / 256;
    OrCommutes((n % 256) * 256, (n / 256) * 64);
    OrDisjoint((n / 256) * 64, n % 256, 8);
  }

  /** The field decodes to the number that was put in. */
  lemma SplitDecodes(n: nat)
    requires n < 1024
    ensures DividerOf(Split(n)) == n && Split(n) % 64 == 0
  {
    hide Split;
    SplitValue(n);
    var low, high := n % 256, n / 256;
    ModUnique(256 * low + 64 * high, 256, low, 64 * high);
    ModUnique(256 * low + 64 * high, 64, 4 * low + high, 0);
    ModUnique(4 * low + high, 4, low, high);
  }

  lemma SplitOfZero()
    ensures Split(0) == 0
  {
    hide Split;
    SplitValue(0);
  }

  /** sdhci_clk_supply up to the register value without the enable bits. */
  method ClkSupply(base: nat, clk: nat) returns (clkVal: nat, ghost d: nat)
    ensures clk >= base ==> clkVal == 0
    ensures clk < base ==> LeastDivider(base, clk, d) && DividerOf(clkVal) == d / 2 && clkVal % 64 == 0
  {
    hide Split, DividerOf, Divided;
    SplitOfZero();
    d := 0;
    var div: nat := 0;
    if clk < base {
      div := 2;
      while div < SDHCI_CLK_MAX_DIV
        invariant 2 <= div <= SDHCI_CLK_MAX_DIV && div % 2 == 0
        invariant forall e :: 2 <= e < div && e % 2 == 0 ==> !SlowEnough(base, clk, e)
      {
        var freq := Divided(base, div);
        if freq <= clk { break; }
        div := div + 2;
      }
      d := div;
      div := div / 2;
    }
    SplitDecodes(div);
    clkVal := Split(div);
  }

  /** The division rounds down, so a clock that is too fast by a fraction of a hertz counts as slow enough. */
  lemma SlowEnoughIff(base: nat, clk: nat, d: nat)
    requires d > 0
    ensures SlowEnough(base, clk, d) <==> base < (clk + 1) * d
  {
    var q := base / d;
    assert base == d * q + base % d;
    QuotientNonneg(base, d);
    if q <= clk { MulMono(d, q + 1, clk + 1); } else { MulMono(d, clk + 1, q); }
  }

  /** 2046 stands for "none": it is still too fast exactly when the wanted clock is below base / 2046. */
  lemma LastResort(base: nat, clk: nat, d: nat)
    requires LeastDivider(base, clk, d)
    ensures SlowEnough(base, clk, d) <==> Divided(base, 2046) <= clk
  {
    if d < 2046 {
      Antitone(base, d);
    }
  }

  /** A larger divider makes a slower clock. */
  lemma Antitone(base: nat, d: nat)
    requires 0 < d <= 2046
    ensures Divided(base, 2046) <= Divided(base, d)
  {
    var q, p := base / 2046, base / d;
    assert base == d * p + base % d;
    QuotientNonneg(base, d);
    QuotientNonneg(base, 2046);
    if p < q {
      MulMono(d, p + 1, q);
      MulMono(q, d, 2046);
    }
  }
}
