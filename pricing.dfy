/** The pricing section: a fixed table of plans, the monthly/yearly
    billing toggle, the price shown on each card, and the savings line
    computed from a plan's two prices. */
module Pricing {

  import opened Wrappers

  datatype Plan = Plan(
    name: string,
    description: string,
    monthlyPrice: int,
    yearlyPrice: int,
    popular: bool,
    features: seq<string>)

  /** The plan table, in display order. */
  const Plans: seq<Plan> := [
    Plan("Starter",
      "Perfect for individuals and small teams getting started with AI",
      29, 290, false,
      ["Access to 5 AI models (GPT-4, Claude, Gemini)",
       "10,000 queries per month",
       "Basic analytics dashboard",
       "Standard support",
       "API access",
       "Team collaboration (up to 3 members)"]),
    Plan("Professional",
      "Advanced features for growing teams and businesses",
      99, 990, true,
      ["Access to all 10+ AI models",
       "100,000 queries per month",
       "Advanced analytics & reporting",
       "Priority support",
       "Full API access with webhooks",
       "Unlimited team members",
       "Custom model routing",
       "Usage monitoring & alerts"]),
    Plan("Enterprise",
      "Comprehensive solution for large organizations",
      299, 2990, false,
      ["Unlimited AI model access",
       "Unlimited queries",
       "Enterprise analytics suite",
       "Dedicated support manager",
       "Custom integrations",
       "SSO & advanced security",
       "SLA guarantee (99.99% uptime)",
       "Custom model fine-tuning",
       "On-premise deployment options"])
  ]

  /** The percentage printed on the badge of the Yearly button
      (src/components/Pricing.tsx:155). */
  const AdvertisedSavingsPercent: int := 20

  // ---------------------------------------------------------------------
  // Math.round of a quotient of integers
  // ---------------------------------------------------------------------

  /** The result of Math.round applied to a JavaScript number: an integer,
      or one of the non-finite values a division by zero produces. */
  datatype Percentage = Finite(value: int) | PosInfinity | NegInfinity | NaN

  /** r is n/d rounded to the nearest integer, halves rounded up:
      r - 1/2 <= n/d < r + 1/2, written without fractions. */
  ghost predicate RoundsTo(r: int, n: int, d: int)
    requires d > 0
  {
    2 * d * r - d <= 2 * n < 2 * d * r + d
  }

  /** Math.round(n / d) for a positive divisor: floor(n/d + 1/2). */
  function RoundHalfUp(n: int, d: int): (r: int)
    requires d > 0
    ensures RoundsTo(r, n, d)
  {
    var q := (2 * n + d) / (2 * d);
    assert 2 * d * q <= 2 * n + d < 2 * d * q + 2 * d by {
      assert 2 * n + d == (2 * d) * q + (2 * n + d) % (2 * d);
    }
    q
  }

  /** Multiplying by a non-negative factor keeps order. */
  lemma MulMonotone(a: int, b: int, c: int)
    requires a >= 0 && b <= c
    ensures a * b <= a * c
  {
    var k := c - b;
    assert a * c == a * b + a * k;
  }

  /** At most one integer is the rounded value of a quotient. */
  lemma RoundsToIsUnique(r1: int, r2: int, n: int, d: int)
    requires d > 0 && RoundsTo(r1, n, d) && RoundsTo(r2, n, d)
    ensures r1 == r2
  {
    if r1 < r2 {
      MulMonotone(2 * d, r1 + 1, r2);
    } else if r2 < r1 {
      MulMonotone(2 * d, r2 + 1, r1);
    }
  }

  /** Math.round(n / d) over JavaScript numbers: a quotient by a negative
      divisor is the quotient of the negated operands, and a division by
      zero gives an infinity of the sign of n, or NaN when n is zero. */
  function RoundRatio(n: int, d: int): (p: Percentage)
    ensures d > 0 ==> p.Finite? && RoundsTo(p.value, n, d)
    ensures d < 0 ==> p.Finite? && RoundsTo(p.value, -n, -d)
    ensures d == 0 ==> !p.Finite? && (p == NaN <==> n == 0) && (p == PosInfinity <==> n > 0)
  {
    if d > 0 then Finite(RoundHalfUp(n, d))
    else if d < 0 then Finite(RoundHalfUp(-n, -d))
    else if n > 0 then PosInfinity
    else if n < 0 then NegInfinity
    else NaN
  }

  // ---------------------------------------------------------------------
  // The savings of paying yearly
  // ---------------------------------------------------------------------

  datatype Savings = Savings(amount: int, percentage: Percentage)

  /** The amount saved over a year by paying the yearly price rather than
      twelve monthly prices, and that amount as a rounded percentage of the
      twelve monthly prices. There is no guard against a zero monthly
      price and no clamp of a negative saving. */
  function CalculateSavings(monthly: int, yearly: int): (s: Savings)
    ensures s.amount + yearly == 12 * monthly
    ensures monthly > 0 ==> s.percentage.Finite? && RoundsTo(s.percentage.value, 100 * s.amount, 12 * monthly)
    ensures monthly == 0 ==> !s.percentage.Finite?
  {
    var monthlyCost := monthly * 12;
    var savings := monthlyCost - yearly;
    Savings(savings, RoundRatio(savings * 100, monthlyCost))
  }

  /** With a positive monthly price the percentage has the sign of the
      amount saved, and it is at most 100 when the yearly price is not
      negative. */
  lemma SavingsPercentageBounds(monthly: int, yearly: int)
    requires monthly > 0
    ensures var s := CalculateSavings(monthly, yearly);
      (s.amount >= 0 ==> s.percentage.value >= 0)
      && (s.amount <= 0 ==> s.percentage.value <= 0)
      && (yearly >= 0 ==> s.percentage.value <= 100)
  {
    var s := CalculateSavings(monthly, yearly);
    var p, d := s.percentage.value, 12 * monthly;
    // from RoundsTo: 2dp - d <= 200 amount < 2dp + d
    if s.amount >= 0 && p < 0 {
      MulMonotone(2 * d, p, -1);
    }
    if s.amount <= 0 && p > 0 {
      MulMonotone(2 * d, 1, p);
    }
    if yearly >= 0 && p > 100 {
      MulMonotone(2 * d, 101, p);
    }
  }

  /** A plan whose yearly price is ten monthly prices saves two monthly
      prices, which is 17% of twelve. */
  lemma TenMonthsForTwelve(monthly: int)
    requires monthly > 0
    ensures CalculateSavings(monthly, 10 * monthly) == Savings(2 * monthly, Finite(17))
  {
    var d := 12 * monthly;
    var s := CalculateSavings(monthly, 10 * monthly);
    assert RoundsTo(17, 100 * s.amount, d) by {
      assert 2 * d * 17 == 408 * monthly;
    }
    RoundsToIsUnique(s.percentage.value, 17, 100 * s.amount, d);
  }

  /** A plan that costs more yearly than twelve months (100 a month, 1300
      a year) shows a negative percentage: nothing clamps it to zero. */
  lemma NegativeSavingsAreNotClamped()
    ensures CalculateSavings(100, 1300) == Savings(-100, Finite(-8))
  {
  }

  /** A zero monthly price gives no finite percentage. */
  lemma ZeroMonthlyPriceIsNotGuarded(yearly: int)
    ensures CalculateSavings(0, yearly).percentage
      == if yearly > 0 then NegInfinity else if yearly < 0 then PosInfinity else NaN
  {
  }

  // ---------------------------------------------------------------------
  // Facts about the plan table
  // ---------------------------------------------------------------------

  /** Every plan charges ten monthly prices for a year, so every card's
      savings line reads two monthly prices and 17%, not the 20% the
      Yearly badge advertises. */
  lemma PlanTableSavings()
    ensures forall p :: p in Plans ==>
      p.monthlyPrice > 0 && p.yearlyPrice == 10 * p.monthlyPrice
      && CalculateSavings(p.monthlyPrice, p.yearlyPrice) == Savings(2 * p.monthlyPrice, Finite(17))
      && CalculateSavings(p.monthlyPrice, p.yearlyPrice).percentage != Finite(AdvertisedSavingsPercent)
  {
    forall p | p in Plans
      ensures p.monthlyPrice > 0 && p.yearlyPrice == 10 * p.monthlyPrice
      ensures CalculateSavings(p.monthlyPrice, p.yearlyPrice) == Savings(2 * p.monthlyPrice, Finite(17))
    {
      TenMonthsForTwelve(p.monthlyPrice);
    }
  }

  /** Exactly one plan, Professional, is marked popular. */
  lemma ExactlyOnePopularPlan()
    ensures forall i :: 0 <= i < |Plans| ==> (Plans[i].popular <==> Plans[i].name == "Professional")
    ensures forall i, j :: 0 <= i < |Plans| && 0 <= j < |Plans| && Plans[i].popular && Plans[j].popular ==> i == j
  {
  }

  // ---------------------------------------------------------------------
  // What a plan card shows
  // ---------------------------------------------------------------------

  /** The price figure, its unit, and the savings line of a card, which is
      rendered only while yearly billing is selected. */
  datatype PriceCard = PriceCard(price: int, unit: string, savingsLine: Option<Savings>)

  function Card(plan: Plan, isYearly: bool): (c: PriceCard)
    ensures c.price == if isYearly then plan.yearlyPrice else plan.monthlyPrice
    ensures c.unit == if isYearly then "/year" else "/month"
    ensures c.savingsLine.Some? <==> isYearly
    ensures isYearly ==> c.savingsLine == Some(CalculateSavings(plan.monthlyPrice, plan.yearlyPrice))
  {
    var price := if isYearly then plan.yearlyPrice else plan.monthlyPrice;
    var savings := CalculateSavings(plan.monthlyPrice, plan.yearlyPrice);
    PriceCard(price, if isYearly then "/year" else "/month", if isYearly then Some(savings) else None)
  }

  /** The amount on the yearly card's savings line is twelve times the
      price the monthly card shows minus the price the yearly card shows. */
  lemma YearlyLineMatchesShownPrices(plan: Plan)
    ensures Card(plan, true).savingsLine.Some?
    ensures Card(plan, true).savingsLine.value.amount
      == 12 * Card(plan, false).price - Card(plan, true).price
  {
  }

  // ---------------------------------------------------------------------
  // The billing toggle
  // ---------------------------------------------------------------------

  class Billing {
    var isYearly: bool

    constructor ()
      ensures !isYearly
    {
      isYearly := false;
    }

    /** The Monthly button. */
    method ChooseMonthly()
      modifies this
      ensures !isYearly
    {
      isYearly := false;
    }

    /** The Yearly button. */
    method ChooseYearly()
      modifies this
      ensures isYearly
    {
      isYearly := true;
    }

    /** The percentage on the "Save 20%" badge of the Yearly button, which
        is rendered only while yearly billing is selected. */
    function Badge(): (b: Option<int>)
      reads this
      ensures b.Some? <==> isYearly
      ensures b.Some? ==> b.value == AdvertisedSavingsPercent
    {
      if isYearly then Some(AdvertisedSavingsPercent) else None
    }

    /** The cards of all plans, in table order, for the current toggle. */
    function Cards(): (cs: seq<PriceCard>)
      reads this
      ensures |cs| == |Plans|
      ensures forall i :: 0 <= i < |Plans| ==> cs[i] == Card(Plans[i], isYearly)
    {
      var yearly := isYearly;
      seq(|Plans|, i requires 0 <= i < |Plans| => Card(Plans[i], yearly))
    }
  }

  /** While yearly billing is selected, the badge reads 20% but every card's
      savings line reads 17%. */
  lemma {:induction false} YearlyBadgeDisagreesWithCards(billing: Billing)
    requires billing.isYearly
    ensures billing.Badge() == Some(AdvertisedSavingsPercent)
    ensures forall i :: 0 <= i < |Plans| ==>
      billing.Cards()[i].savingsLine == Some(Savings(2 * Plans[i].monthlyPrice, Finite(17)))
  {
    PlanTableSavings();
    forall i | 0 <= i < |Plans|
      ensures billing.Cards()[i].savingsLine == Some(Savings(2 * Plans[i].monthlyPrice, Finite(17)))
    {
      assert Plans[i] in Plans;
    }
  }
}
