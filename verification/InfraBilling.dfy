/** Accruing a server's monthly price over elapsed time (src/lib/infra-billing.ts). A price or a charge is
    whole cents, a carry millicents; quotients are exact rationals. */
module InfraBilling {

  const HOURS_PER_MONTH := 730
  const MS_PER_MONTH := 730 * 3600 * 1000
  const MS_PER_72_HOURS := 72 * 3600 * 1000

  /** `Math.round(n / d)`: the nearest whole number, a half rounded up. */
  function RoundQuotient(n: int, d: int): int
    requires d > 0
  {
    (2 * n + d) / (2 * d)
  }

  /** `Math.ceil(n / d)` */
  function CeilQuotient(n: int, d: int): int
    requires d > 0
  {
    -((-n) / d)
  }

  datatype Accrual = Accrual(chargeCents: int, carryMillicents: int)

  function AccrueInfraCharge(monthlyCents: int, elapsedMs: int, carryMillicents: int): Accrual {
    if monthlyCents <= 0 || elapsedMs <= 0 then Accrual(0, carryMillicents)
    else
      var accrued := RoundQuotient(monthlyCents * 1000 * elapsedMs, MS_PER_MONTH);
      var due := carryMillicents + accrued;
      var charge := due / 1000;
      Accrual(charge, due - charge * 1000)
  }

  function MinimumBalanceToStartCents(monthlyCents: int): int {
    CeilQuotient(monthlyCents * 72, HOURS_PER_MONTH)
  }

  /** One billing tick: the price at the time and the milliseconds since the last tick. */
  datatype Tick = Tick(monthlyCents: int, elapsedMs: int)

  /** The charges of a run of ticks added up, and the carry left at the end. */
  function Accrue(ticks: seq<Tick>, carryMillicents: int): Accrual {
    if ticks == [] then Accrual(0, carryMillicents)
    else
      var first := AccrueInfraCharge(ticks[0].monthlyCents, ticks[0].elapsedMs, carryMillicents);
      var rest := Accrue(ticks[1..], first.carryMillicents);
      Accrual(first.chargeCents + rest.chargeCents, rest.carryMillicents)
  }

  /** The exact amount a run owes, in millicents times `MS_PER_MONTH`. */
  function ExactScaled(ticks: seq<Tick>): int {
    if ticks == [] then 0
    else
      (if ticks[0].monthlyCents <= 0 || ticks[0].elapsedMs <= 0 then 0
       else 1000 * ticks[0].monthlyCents * ticks[0].elapsedMs) +
      ExactScaled(ticks[1..])
  }

  /** What a run moved, charge and carry together, in millicents times `MS_PER_MONTH`. */
  function MovedScaled(ticks: seq<Tick>, carryMillicents: int): int {
    var end := Accrue(ticks, carryMillicents);
    (1000 * end.chargeCents + end.carryMillicents - carryMillicents) * MS_PER_MONTH
  }

  lemma RoundQuotientIsNearest(n: int, d: int)
    requires d > 0
    ensures -d <= 2 * n - 2 * d * RoundQuotient(n, d) < d
    ensures n >= 0 ==> RoundQuotient(n, d) >= 0
  {
    var q := (2 * n + d) / (2 * d);
    assert (2 * d) * q <= 2 * n + d < (2 * d) * q + 2 * d;
  }

  /** One tick charges and carries exactly what it accrued, rounded to the nearest millicent. */
  lemma TickIsNearest(tick: Tick, carryMillicents: int)
    ensures -MS_PER_MONTH <= 2 * ExactScaled([tick]) - 2 * MovedScaled([tick], carryMillicents) <= MS_PER_MONTH
    ensures 0 <= carryMillicents < 1000 ==> 0 <= Accrue([tick], carryMillicents).carryMillicents < 1000
    ensures 0 <= carryMillicents ==> 0 <= Accrue([tick], carryMillicents).chargeCents
  {
    hide RoundQuotient;
    OneTick(tick.monthlyCents, tick.elapsedMs, carryMillicents);
    assert [tick][1..] == [];
    if tick.monthlyCents > 0 && tick.elapsedMs > 0 {
      var n := tick.monthlyCents * 1000 * tick.elapsedMs;
      assert ExactScaled([tick]) == n;
      assert n > 0;
      RoundQuotientIsNearest(n, MS_PER_MONTH);
      assert MovedScaled([tick], carryMillicents) == RoundQuotient(n, MS_PER_MONTH) * MS_PER_MONTH;
    }
  }

  /** Over any run of `n` ticks the charges and the carry together are within `n / 2` millicents of the
      exact price of the elapsed time, and the carry stays below one cent. */
  lemma {:induction false} RunIsExactWithinHalfPerTick(ticks: seq<Tick>, carryMillicents: int)
    requires 0 <= carryMillicents < 1000
    ensures var error := 2 * (MovedScaled(ticks, carryMillicents) - ExactScaled(ticks));
            -|ticks| * MS_PER_MONTH <= error <= |ticks| * MS_PER_MONTH
    ensures 0 <= Accrue(ticks, carryMillicents).carryMillicents < 1000
    ensures 0 <= Accrue(ticks, carryMillicents).chargeCents
  {
    hide AccrueInfraCharge;
    if ticks != [] {
      hide Accrue, ExactScaled;
      TickIsNearest(ticks[0], carryMillicents);
      RunIsExactWithinHalfPerTick(ticks[1..], Accrue([ticks[0]], carryMillicents).carryMillicents);
      Unfolds(ticks, carryMillicents);
    }
  }

  lemma Unfolds(ticks: seq<Tick>, carryMillicents: int)
    requires ticks != []
    ensures var first := Accrue([ticks[0]], carryMillicents);
            Accrue(ticks, carryMillicents) ==
            Accrual(first.chargeCents + Accrue(ticks[1..], first.carryMillicents).chargeCents,
                    Accrue(ticks[1..], first.carryMillicents).carryMillicents)
    ensures ExactScaled(ticks) == ExactScaled([ticks[0]]) + ExactScaled(ticks[1..])
  {
    hide AccrueInfraCharge;
    assert [ticks[0]][1..] == [];
  }

  // ---------------------------------------------------------------- the balance that covers 72 hours

  /** The ticks of a server whose price stays the same. */
  predicate AtPrice(ticks: seq<Tick>, monthlyCents: int) {
    forall i | 0 <= i < |ticks| :: ticks[i].monthlyCents == monthlyCents && ticks[i].elapsedMs >= 0
  }

  function Elapsed(ticks: seq<Tick>): int {
    if ticks == [] then 0 else ticks[0].elapsedMs + Elapsed(ticks[1..])
  }

  lemma {:induction false} ExactAtPrice(ticks: seq<Tick>, monthlyCents: nat)
    requires AtPrice(ticks, monthlyCents)
    ensures ExactScaled(ticks) == 1000 * monthlyCents * Elapsed(ticks)
  {
    if ticks != [] {
      assert AtPrice(ticks[1..], monthlyCents);
      ExactAtPrice(ticks[1..], monthlyCents);
    }
  }

  lemma CeilQuotientIsLeast(n: int, d: int)
    requires d > 0
    ensures n <= d * CeilQuotient(n, d) < n + d
  {
    assert d * ((-n) / d) <= -n < d * ((-n) / d) + d;
  }

  /** 72 hours cut into fewer than 2000 ticks never charge more than the balance a start requires, when
      nothing is carried in, and at most a cent more whatever the carry. */
  lemma BalanceCovers72Hours(ticks: seq<Tick>, monthlyCents: nat, carryMillicents: int)
    requires AtPrice(ticks, monthlyCents) && Elapsed(ticks) == MS_PER_72_HOURS
    requires 0 <= carryMillicents < 1000 && |ticks| < 2000
    ensures Accrue(ticks, carryMillicents).chargeCents <=
            MinimumBalanceToStartCents(monthlyCents) + (if carryMillicents == 0 then 0 else 1)
  {
    hide Accrue, ExactScaled, CeilQuotient;
    RunIsExactWithinHalfPerTick(ticks, carryMillicents);
    ExactAtPrice(ticks, monthlyCents);
    CeilQuotientIsLeast(monthlyCents * 72, HOURS_PER_MONTH);
    var end := Accrue(ticks, carryMillicents);
    assert 2 * 1000 * end.chargeCents * MS_PER_MONTH <=
           2000 * monthlyCents * MS_PER_72_HOURS + (1999 + 2 * carryMillicents) * MS_PER_MONTH;
  }

  // The bound of 2000 ticks is exact.

  const WORST_PRICE := 1_314_000

  /** `n` ticks of one millisecond. */
  function Milliseconds(n: nat, monthlyCents: int): seq<Tick> {
    seq(n, i => Tick(monthlyCents, 1))
  }

  /** `n` ticks in which no time passes. */
  function NoTime(n: nat, monthlyCents: int): seq<Tick> {
    seq(n, i => Tick(monthlyCents, 0))
  }

  /** A split of 72 hours into `n` ticks, of which 2000 accrue half a millicent too much. */
  function WorstSplit(n: nat): seq<Tick>
    requires n >= 2000
  {
    Milliseconds(1999, WORST_PRICE) + [Tick(WORST_PRICE, MS_PER_72_HOURS - 1999)] + NoTime(n - 2000, WORST_PRICE)
  }

  lemma {:induction false} AccrueConcat(a: seq<Tick>, b: seq<Tick>, carryMillicents: int)
    ensures var first := Accrue(a, carryMillicents);
            var second := Accrue(b, first.carryMillicents);
            Accrue(a + b, carryMillicents) == Accrual(first.chargeCents + second.chargeCents, second.carryMillicents)
    ensures Elapsed(a + b) == Elapsed(a) + Elapsed(b)
  {
    hide AccrueInfraCharge;
    if a == [] {
      assert a + b == b;
    } else {
      assert (a + b)[1..] == a[1..] + b;
      AccrueConcat(a[1..], b, AccrueInfraCharge(a[0].monthlyCents, a[0].elapsedMs, carryMillicents).carryMillicents);
    }
  }

  /** At the worst price a millisecond is worth half a millicent and accrues a whole one. */
  lemma {:induction false} MillisecondsRoundUp(n: nat, carryMillicents: nat)
    requires carryMillicents < 1000
    ensures var end := Accrue(Milliseconds(n, WORST_PRICE), carryMillicents);
            1000 * end.chargeCents + end.carryMillicents == carryMillicents + n && 0 <= end.carryMillicents < 1000
    ensures Elapsed(Milliseconds(n, WORST_PRICE)) == n
  {
    if n > 0 {
      assert Milliseconds(n, WORST_PRICE)[1..] == Milliseconds(n - 1, WORST_PRICE);
      var first := AccrueInfraCharge(WORST_PRICE, 1, carryMillicents);
      assert 1000 * first.chargeCents + first.carryMillicents == carryMillicents + 1;
      MillisecondsRoundUp(n - 1, first.carryMillicents);
    }
  }

  lemma {:induction false} NoTimeCostsNothing(n: nat, carryMillicents: int)
    ensures Accrue(NoTime(n, WORST_PRICE), carryMillicents) == Accrual(0, carryMillicents)
    ensures Elapsed(NoTime(n, WORST_PRICE)) == 0
  {
    if n > 0 {
      assert NoTime(n, WORST_PRICE)[1..] == NoTime(n - 1, WORST_PRICE);
      NoTimeCostsNothing(n - 1, carryMillicents);
    }
  }

  lemma WorstSplitOvershoots(n: nat)
    requires n >= 2000
    ensures |WorstSplit(n)| == n && AtPrice(WorstSplit(n), WORST_PRICE) && Elapsed(WorstSplit(n)) == MS_PER_72_HOURS
    ensures Accrue(WorstSplit(n), 0).chargeCents == MinimumBalanceToStartCents(WORST_PRICE) + 1
  {
    var a, b, c := Milliseconds(1999, WORST_PRICE), [Tick(WORST_PRICE, MS_PER_72_HOURS - 1999)], NoTime(n - 2000, WORST_PRICE);
    MillisecondsRoundUp(1999, 0);
    var carry := Accrue(a, 0).carryMillicents;
    AccrueConcat(a + b, c, 0);
    AccrueConcat(a, b, 0);
    OneTick(WORST_PRICE, MS_PER_72_HOURS - 1999, carry);
    NoTimeCostsNothing(n - 2000, Accrue(a + b, 0).carryMillicents);
  }

  lemma OneTick(monthlyCents: int, elapsedMs: int, carryMillicents: int)
    ensures Accrue([Tick(monthlyCents, elapsedMs)], carryMillicents) ==
            AccrueInfraCharge(monthlyCents, elapsedMs, carryMillicents)
    ensures Elapsed([Tick(monthlyCents, elapsedMs)]) == elapsedMs
  {
    assert [Tick(monthlyCents, elapsedMs)][1..] == [];
  }

  ghost predicate Covers72Hours(n: nat) {
    forall ticks: seq<Tick>, monthlyCents: nat |
      |ticks| == n && AtPrice(ticks, monthlyCents) && Elapsed(ticks) == MS_PER_72_HOURS ::
      Accrue(ticks, 0).chargeCents <= MinimumBalanceToStartCents(monthlyCents)
  }

  /** The balance a start requires covers every split of 72 hours into `n` ticks, at every price, if and
      only if `n` is below 2000. */
  lemma CoversExactlyBelow2000Ticks(n: nat)
    ensures Covers72Hours(n) <==> n < 2000
  {
    if n < 2000 {
      forall ticks: seq<Tick>, monthlyCents: nat |
        |ticks| == n && AtPrice(ticks, monthlyCents) && Elapsed(ticks) == MS_PER_72_HOURS
        ensures Accrue(ticks, 0).chargeCents <= MinimumBalanceToStartCents(monthlyCents)
      {
        BalanceCovers72Hours(ticks, monthlyCents, 0);
      }
    } else {
      hide Accrue, Elapsed, AtPrice, WorstSplit;
      WorstSplitOvershoots(n);
      var ticks, price: nat := WorstSplit(n), WORST_PRICE;
      assert |ticks| == n && AtPrice(ticks, price) && Elapsed(ticks) == MS_PER_72_HOURS;
    }
  }
}
