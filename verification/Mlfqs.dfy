/** The multi-level feedback queue accounting: load average, recent CPU and priorities
    (threads/thread.c, devices/timer.c).

    The idle thread takes no part in the accounting and is not on the list here. */
module Mlfqs {
  import opened FixedPoint
  import opened Integers
  import opened Storage

  const TIMER_FREQ := 100
  const PRI_MAX := 63
  const NICE_MAX := 20

  /** No nice value that NiceFits accepts is larger than this. */
  const NICE_LIMIT := 0x2000_0000

  /** A thread occupies a page of the 4 GB address space. */
  const MAX_THREADS := 0x10_0000

  /** `active` is true for a running or ready thread. */
  datatype Account = Account(nice: int, recent: int, priority: int, active: bool)

  function LowRecent(limit: nat): int {
    -20 * (2 * limit + 1) * F
  }

  function HighRecent(limit: nat): int {
    (240 * limit + 20) * F
  }

  predicate LoadOk(limit: nat, load: int) {
    0 <= load <= limit * F
  }

  function ActiveCount(all: seq<Account>): (n: nat)
    ensures n <= |all|
  {
    if all == [] then 0
    else ActiveCount(all[..|all| - 1]) + if all[|all| - 1].active then 1 else 0
  }

  function NextLoad(load: int, active: nat): int
    requires 0 <= load <= MAX_THREADS * F && active <= MAX_THREADS
  {
    IntDiv(IntAdd(IntMult(load, 59), active), 60)
  }

  /** The decay factor 2 * load / (2 * load + 1). */
  function Decay(load: int): int
    requires 0 <= load <= MAX_THREADS * F
  {
    Div(IntMult(load, 2), IntAdd(IntMult(load, 2), 1))
  }

  /** The range in which no intermediate result overflows. */
  predicate RecentFits(recent: int) {
    -40 * (MAX_THREADS + 1) * F <= recent <= 240 * (MAX_THREADS + 1) * F
  }

  lemma DecayRange(load: int)
    requires 0 <= load <= MAX_THREADS * F
    ensures 0 <= Decay(load) < F
  {
    var d := 2 * load + F;
    QuotientBounds(2 * load * F, d);
    if Decay(load) >= F {
      MulAtMost(F, Decay(load), d);
    }
  }

  lemma ProductSign(c: int, x: int)
    requires 0 <= c
    ensures x >= 0 ==> c * x >= 0
    ensures x <= 0 ==> c * x <= 0
  {
  }

  lemma ScaledDown(c: int, x: int)
    requires 0 <= c < F
    ensures x >= 0 ==> 0 <= Quotient(c * x, F) <= x
    ensures x <= 0 ==> x <= Quotient(c * x, F) <= 0
  {
    ProductSign(c, x);
    SignOfQuotient(c * x, F);
    QuotientBounds(c * x, F);
    if x >= 0 {
      MulAtMost(c, F, x);
    } else {
      MulAtMost(c, F, -x);
      assert c * -x == -(c * x) && F * -x == -(F * x);
    }
  }

  lemma ProductRange(c: int, x: int, m: int)
    requires 0 <= c < F && -m <= x <= m
    ensures -F * m <= c * x <= F * m
  {
    MulAtMost(x, m, c);
    MulAtMost(-m, x, c);
    MulAtMost(c, F, m);
  }

  lemma DecayedFits(c: int, recent: int)
    requires 0 <= c < F && RecentFits(recent)
    ensures Fits(c * recent) && -40 * (MAX_THREADS + 1) * F <= Mult(c, recent) <= 240 * (MAX_THREADS + 1) * F
  {
    ProductRange(c, recent, 240 * (MAX_THREADS + 1) * F);
    ScaledDown(c, recent);
  }

  function NextRecent(load: int, recent: int, nice: int): (r: int)
    requires 0 <= load <= MAX_THREADS * F && RecentFits(recent) && -NICE_LIMIT <= nice <= NICE_LIMIT
    ensures -INT_LIMIT * F <= r <= INT_LIMIT * F
  {
    DecayRange(load);
    DecayedFits(Decay(load), recent);
    IntAdd(Mult(Decay(load), recent), nice)
  }

  function PriorityFor(recent: int, nice: int): int
    requires -INT_LIMIT * F <= recent <= INT_LIMIT * F
  {
    QuotientBounds(recent, 4);
    var p := PRI_MAX - ToIntNearest(IntDiv(recent, 4)) - nice * 2;
    if p < 0 then 0 else if p > PRI_MAX then PRI_MAX else p
  }

  /** The largest and the smallest recent CPU that a second's decay leaves, before the nice
      value is added. */
  function MostDecayed(limit: nat): int
    requires limit <= MAX_THREADS
  {
    DecayRange(limit * F);
    DecayedFits(Decay(limit * F), HighRecent(limit) + TIMER_FREQ * F);
    Mult(Decay(limit * F), HighRecent(limit) + TIMER_FREQ * F)
  }

  function LeastDecayed(limit: nat): int
    requires limit <= MAX_THREADS
  {
    DecayRange(limit * F);
    DecayedFits(Decay(limit * F), LowRecent(limit));
    Mult(Decay(limit * F), LowRecent(limit))
  }

  /** The nice values with which one second keeps recent CPU within bounds (NiceExact). */
  predicate NiceFits(limit: nat, nice: int)
    requires limit <= MAX_THREADS
  {
    LowRecent(limit) <= LeastDecayed(limit) + nice * F && MostDecayed(limit) + nice * F <= HighRecent(limit)
  }

  /** The bounds of one thread `k` ticks after the last second. */
  predicate AccountOk(limit: nat, k: nat, a: Account)
    requires limit <= MAX_THREADS
  {
    && NiceFits(limit, a.nice)
    && LowRecent(limit) <= a.recent <= HighRecent(limit) + k * F
    && 0 <= a.priority <= PRI_MAX
  }

  predicate AllOk(limit: nat, k: nat, all: seq<Account>)
    requires limit <= MAX_THREADS
  {
    forall i | 0 <= i < |all| :: AccountOk(limit, k, all[i])
  }

  lemma NiceSmall(limit: nat, nice: int)
    requires limit <= MAX_THREADS && NiceFits(limit, nice)
    ensures -NICE_LIMIT <= nice <= NICE_LIMIT
  {
    DecayRange(limit * F);
    ScaledDown(Decay(limit * F), HighRecent(limit) + TIMER_FREQ * F);
    ScaledDown(Decay(limit * F), LowRecent(limit));
  }

  /** The load average never leaves [0, limit]. */
  lemma LoadBounded(limit: nat, load: int, active: nat)
    requires limit <= MAX_THREADS && LoadOk(limit, load) && active <= limit
    ensures LoadOk(limit, NextLoad(load, active))
  {
    QuotientBounds(load * 59 + active * F, 60);
  }

  lemma Distribute(x: int, y: int, z: int)
    ensures x * (y - z) == x * y - x * z
  {
  }

  lemma Reorder(x: int, y: int, z: int)
    ensures x * y * z == (x * z) * y
  {
  }

  lemma DecayRatio(limit: nat, load: int, c: int)
    requires 0 <= c < F && 0 <= load <= limit * F && c * (2 * load + F) <= 2 * load * F
    ensures c * (2 * limit + 1) <= 2 * limit * F
  {
    var b := F - c;
    assert c * F <= 2 * load * b by {
      Distribute(2 * load, F, c);
      Distribute(c, 2 * load + F, 2 * load);
    }
    MulAtMost(2 * load, 2 * limit * F, b);
    assert c <= 2 * limit * b by {
      Reorder(2 * limit, F, b);
      assert c * F <= (2 * limit * b) * F;
    }
    Distribute(2 * limit, F, c);
    Distribute(c, 2 * limit + 1, 2 * limit);
  }

  /** With load <= limit the decay factor is at most 2 limit / (2 limit + 1). */
  lemma DecayBound(limit: nat, load: int)
    requires limit <= MAX_THREADS && LoadOk(limit, load)
    ensures 0 <= Decay(load) && Decay(load) * (2 * limit + 1) <= 2 * limit * F
  {
    var d, c := 2 * load + F, Decay(load);
    DecayRange(load);
    QuotientBounds(2 * load * F, d);
    assert c * d <= 2 * load * F;
    DecayRatio(limit, load, c);
  }

  lemma FractionMonotone(a: int, b: int, c: int, d: int)
    requires a >= 0 && b > 0 && c >= 0 && d > 0 && a * d <= c * b
    ensures a / b <= c / d
  {
    var p, q := a / b, c / d;
    DivBounds(a, b);
    DivBounds(c, d);
    MulAtMost(p * b, a, d);
    assert p * b * d == (p * d) * b;
    assert (c + 1) * b == c * b + b;
    LessByProduct(p * d, c + 1, b);
    assert (q + 1) * d == q * d + d;
    LessByProduct(p, q + 1, d);
  }

  /** A higher load decays less. */
  lemma DecayMonotone(load: int, most: int)
    requires 0 <= load <= most <= MAX_THREADS * F
    ensures Decay(load) <= Decay(most)
  {
    var a, b, c, d := 2 * load * F, 2 * load + F, 2 * most * F, 2 * most + F;
    assert a * d == 4 * (load * most) * F + 2 * load * F * F;
    assert c * b == 4 * (load * most) * F + 2 * most * F * F;
    FractionMonotone(a, b, c, d);
  }

  lemma MultMonotone(c: int, e: int, x: int, y: int)
    requires 0 <= c <= e < F && Fits(c * x) && Fits(e * y)
    ensures x <= y && 0 <= y ==> Mult(c, x) <= Mult(e, y)
    ensures y <= x && y <= 0 ==> Mult(e, y) <= Mult(c, x)
  {
    if x <= y && 0 <= y {
      MulAtMost(x, y, c);
      MulAtMost(c, e, y);
      QuotientMonotone(c * x, e * y, F);
    }
    if y <= x && y <= 0 {
      MulAtMost(y, x, c);
      MulAtMost(c, e, -y);
      assert c * -y == -(c * y) && e * -y == -(e * y);
      QuotientMonotone(e * y, c * x, F);
    }
  }

  /** One second's decay brings the recent CPU back inside the bounds. */
  lemma RecentBounded(limit: nat, load: int, recent: int, nice: int)
    requires limit <= MAX_THREADS && LoadOk(limit, load) && NiceFits(limit, nice)
    requires LowRecent(limit) <= recent <= HighRecent(limit) + TIMER_FREQ * F
    ensures RecentFits(recent) && -NICE_LIMIT <= nice <= NICE_LIMIT
    ensures LowRecent(limit) <= NextRecent(load, recent, nice) <= HighRecent(limit)
  {
    NiceSmall(limit, nice);
    DecayRange(load);
    DecayRange(limit * F);
    DecayMonotone(load, limit * F);
    DecayedFits(Decay(load), recent);
    DecayedFits(Decay(limit * F), HighRecent(limit) + TIMER_FREQ * F);
    DecayedFits(Decay(limit * F), LowRecent(limit));
    MultMonotone(Decay(load), Decay(limit * F), recent, HighRecent(limit) + TIMER_FREQ * F);
    MultMonotone(Decay(load), Decay(limit * F), recent, LowRecent(limit));
  }

  /** A second keeps recent CPU within bounds. */
  ghost predicate SecondKeeps(limit: nat, load: int, recent: int, nice: int)
    requires limit <= MAX_THREADS && -NICE_LIMIT <= nice <= NICE_LIMIT
  {
    LoadOk(limit, load) && LowRecent(limit) <= recent <= HighRecent(limit) + TIMER_FREQ * F ==>
      LowRecent(limit) <= NextRecent(load, recent, nice) <= HighRecent(limit)
  }

  /** A nice value keeps every thread within bounds, whatever its recent CPU and the load,
      exactly if it fits. */
  lemma NiceExact(limit: nat, nice: int)
    requires limit <= MAX_THREADS && -NICE_LIMIT <= nice <= NICE_LIMIT
    ensures NiceFits(limit, nice) <==> forall load, recent :: SecondKeeps(limit, load, recent, nice)
  {
    if NiceFits(limit, nice) {
      forall load, recent ensures SecondKeeps(limit, load, recent, nice) {
        if LoadOk(limit, load) && LowRecent(limit) <= recent <= HighRecent(limit) + TIMER_FREQ * F {
          RecentBounded(limit, load, recent, nice);
        }
      }
    } else {
      assert !SecondKeeps(limit, limit * F, HighRecent(limit) + TIMER_FREQ * F, nice)
             || !SecondKeeps(limit, limit * F, LowRecent(limit), nice);
    }
  }

  lemma Scaled(limit: nat, c: int, x: int, m: int, g: nat)
    requires 0 <= c && c * (2 * limit + 1) <= 2 * limit * F && 0 <= x <= g * (2 * limit + 1) * F && m * F <= c * x
    ensures m <= g * (2 * limit) * F
  {
    var w, gf := 2 * limit + 1, g * F;
    assert x <= w * gf by { Reorder(g, w, F); }
    MulAtMost(x, w * gf, c);
    assert c * (w * gf) == (c * w) * gf;
    MulAtMost(c * w, 2 * limit * F, gf);
    assert m * F <= (2 * limit * F) * gf;
    Reorder(2 * limit, F, gf);
    Reorder(2 * limit, g, F);
    assert m * F <= (2 * limit * gf) * F;
  }

  lemma DecayedHigh(limit: nat, c: int, x: int, m: int)
    requires 0 <= c && c * (2 * limit + 1) <= 2 * limit * F && 0 <= x <= (240 * limit + 120) * F && m * F <= c * x
    ensures m <= 240 * limit * F
  {
    Scaled(limit, c, x, m, 120);
  }

  lemma DecayedLow(limit: nat, c: int, x: int, m: int)
    requires 0 <= c && c * (2 * limit + 1) <= 2 * limit * F && 0 <= x <= 20 * (2 * limit + 1) * F && m * F <= c * x
    ensures m <= 40 * limit * F
  {
    Scaled(limit, c, x, m, 20);
  }

  lemma DecayedBounds(limit: nat, c: int, x: int)
    requires 0 <= c < F && c * (2 * limit + 1) <= 2 * limit * F && RecentFits(x) && Fits(c * x)
    requires LowRecent(limit) <= x <= HighRecent(limit) + TIMER_FREQ * F
    ensures -40 * limit * F <= Mult(c, x) <= 240 * limit * F
  {
    var m := Mult(c, x);
    ProductSign(c, x);
    QuotientBounds(c * x, F);
    if x >= 0 {
      DecayedHigh(limit, c, x, m);
    } else {
      assert c * -x == -(c * x);
      DecayedLow(limit, c, -x, -m);
    }
  }

  /** The documented nice values fit, however many threads there are. */
  lemma NiceDocumented(limit: nat, nice: int)
    requires limit <= MAX_THREADS && -NICE_MAX <= nice <= NICE_MAX
    ensures NiceFits(limit, nice)
  {
    DecayRange(limit * F);
    DecayBound(limit, limit * F);
    DecayedFits(Decay(limit * F), HighRecent(limit) + TIMER_FREQ * F);
    DecayedFits(Decay(limit * F), LowRecent(limit));
    DecayedBounds(limit, Decay(limit * F), HighRecent(limit) + TIMER_FREQ * F);
    DecayedBounds(limit, Decay(limit * F), LowRecent(limit));
    assert LowRecent(limit) == -40 * limit * F - 20 * F;
  }

  /** With a nice value of 21, a single thread at the upper bound that runs for a second at
      a load of 1 ends above it. */
  lemma NiceTooHigh()
    ensures LoadOk(1, F) && !NiceFits(1, NICE_MAX + 1)
    ensures NextRecent(F, HighRecent(1) + TIMER_FREQ * F, NICE_MAX + 1) > HighRecent(1)
  {
    assert Decay(F) == 10922;
    assert Mult(10922, HighRecent(1) + TIMER_FREQ * F) == 10922 * 360;
  }

  lemma RecentInRange(limit: nat, k: nat, a: Account)
    requires limit <= MAX_THREADS && k <= TIMER_FREQ && AccountOk(limit, k, a)
    ensures RecentFits(a.recent)
  {
  }

  /** More CPU use never raises a priority, and a nicer thread never gets a higher one. */
  lemma PriorityAntitone(r1: int, r2: int, n1: int, n2: int)
    requires RecentFits(r1) && RecentFits(r2) && r1 <= r2 && n1 <= n2
    ensures PriorityFor(r1, n1) >= PriorityFor(r2, n2)
  {
    QuotientBounds(r1, 4);
    QuotientBounds(r2, 4);
    QuotientMonotone(r1, r2, 4);
    ToIntMonotone(IntDiv(r1, 4), IntDiv(r2, 4));
  }

  // What the numbers are ------------------------------------------------------------

  /** p is PRI_MAX - recent / 4 - 2 * nice within rounding, and at the ends of the scale
      exactly where that is beyond them. */
  predicate PricedFor(recent: int, nice: int, p: int) {
    && 0 <= p <= PRI_MAX
    && (p == 0 <==> if nice <= 31 then recent >= (250 - 8 * nice) * F else recent > (250 - 8 * nice) * F)
    && (p == PRI_MAX <==> if nice <= 0 then recent < (2 - 8 * nice) * F else recent <= (2 - 8 * nice) * F)
    && (0 < p < PRI_MAX ==> -(2 * F + 3) <= 4 * F * (PRI_MAX - 2 * nice - p) - recent <= 2 * F + 3)
  }

  /** A quarter of recent CPU, rounded, is m or more from here on. */
  lemma RoundedQuarter(recent: int, m: int)
    requires -INT_LIMIT * F <= recent <= INT_LIMIT * F
    ensures -INT_LIMIT * F <= IntDiv(recent, 4) <= (INT_LIMIT - 1) * F
    ensures ToIntNearest(IntDiv(recent, 4)) >= m <==>
              if m > 0 then recent >= (4 * m - 2) * F else recent > (4 * m - 2) * F
  {
    QuotientBounds(recent, 4);
    var q := IntDiv(recent, 4);
    QuotientBounds(q + F / 2, F);
    QuotientBounds(q - F / 2, F);
  }

  lemma PriorityMeaning(recent: int, nice: int)
    requires -INT_LIMIT * F <= recent <= INT_LIMIT * F
    ensures PricedFor(recent, nice, PriorityFor(recent, nice))
  {
    QuotientBounds(recent, 4);
    RoundedQuarter(recent, PRI_MAX - 2 * nice);
    RoundedQuarter(recent, 1 - 2 * nice);
    RoundsToNearest(IntDiv(recent, 4));
  }

  /** Whole numbers are not rounded. */
  lemma PriorityWhole(k: int, nice: int)
    requires -INT_LIMIT <= 4 * k <= INT_LIMIT && 0 <= PRI_MAX - k - 2 * nice <= PRI_MAX
    ensures PriorityFor(4 * F * k, nice) == PRI_MAX - k - 2 * nice
  {
    assert IntDiv(4 * F * k, 4) == FromInt(k);
    RoundTrip(k);
  }

  /** load' is 59/60 of the load and 1/60 of the runnable threads, rounded down. */
  predicate LoadFrom(load: int, active: nat, load': int) {
    60 * load' <= 59 * load + active * F < 60 * load' + 60
  }

  lemma LoadMeaning(load: int, active: nat)
    requires 0 <= load <= MAX_THREADS * F && active <= MAX_THREADS
    ensures LoadFrom(load, active, NextLoad(load, active))
  {
    QuotientBounds(load * 59 + active * F, 60);
  }

  /** recent' is 2 load / (2 load + 1) of recent CPU, plus the nice value, within one part in
      F of it and one more. */
  predicate RecentFrom(load: int, recent: int, nice: int, recent': int) {
    var x, d := recent' - nice * F, 2 * load + F;
    if recent >= 0 then 0 <= F * (2 * load * recent - x * d) <= d * (recent + F)
    else 0 <= F * (x * d - 2 * load * recent) <= d * (F - recent)
  }

  lemma ProductTimes(x: int, p: int, d: int)
    requires 0 <= d && F * x <= p < F * x + F
    ensures F * (x * d) <= p * d <= F * (x * d) + F * d
  {
    MulAtMost(F * x, p, d);
    MulAtMost(p, F * x + F, d);
    assert (F * x + F) * d == F * x * d + F * d;
    assert F * x * d == F * (x * d);
  }

  lemma QuotientTimes(q: int, y: int, d: int, recent: int)
    requires 0 <= recent && q <= y * F < q + d
    ensures q * recent <= F * (y * recent) <= q * recent + d * recent
  {
    MulAtMost(q, y * F, recent);
    MulAtMost(y * F, q + d, recent);
    assert (q + d) * recent == q * recent + d * recent;
    assert y * F * recent == F * (y * recent);
  }

  lemma ScaledTwice(load: int, recent: int, c: int, x: int)
    requires 0 <= load && 0 <= recent && F * x <= c * recent < F * x + F
    requires c * (2 * load + F) <= 2 * load * F < c * (2 * load + F) + (2 * load + F)
    ensures 0 <= F * (2 * load * recent - x * (2 * load + F)) <= (2 * load + F) * (recent + F)
  {
    var d := 2 * load + F;
    ProductTimes(x, c * recent, d);
    assert (c * recent) * d == (c * d) * recent;
    QuotientTimes(c * d, 2 * load, d, recent);
    Distribute(F, 2 * load * recent, x * d);
    assert d * (recent + F) == d * recent + F * d;
  }

  lemma RecentMeaning(load: int, recent: int, nice: int)
    requires 0 <= load <= MAX_THREADS * F && RecentFits(recent) && -NICE_LIMIT <= nice <= NICE_LIMIT
    ensures RecentFrom(load, recent, nice, NextRecent(load, recent, nice))
  {
    var c, d := Decay(load), 2 * load + F;
    DecayRange(load);
    DecayedFits(c, recent);
    QuotientBounds(2 * load * F, d);
    QuotientBounds(c * recent, F);
    ProductSign(c, recent);
    var x := Mult(c, recent);
    if recent >= 0 {
      ScaledTwice(load, recent, c, x);
    } else {
      assert c * -recent == -(c * recent) && F * -x == -(F * x);
      ScaledTwice(load, -recent, c, -x);
      assert 2 * load * -recent == -(2 * load * recent) && -x * d == -(x * d);
    }
  }

  ghost function Actives(all: seq<Account>): set<int> {
    set i | 0 <= i < |all| && all[i].active
  }

  lemma {:induction false} CountMeaning(all: seq<Account>)
    ensures ActiveCount(all) == |Actives(all)|
    decreases |all|
  {
    if all != [] {
      var n := |all| - 1;
      CountMeaning(all[..n]);
      assert Actives(all) == Actives(all[..n]) + if all[n].active then {n} else {};
    } else {
      assert Actives(all) == {};
    }
  }

  /** An account before and after a second at that load. */
  predicate SecondOf(load: int, a: Account, b: Account) {
    && b.nice == a.nice && b.active == a.active
    && RecentFrom(load, a.recent, a.nice, b.recent) && PricedFor(b.recent, b.nice, b.priority)
  }

  /** thread_recompute_priority of one thread, with the recent CPU decayed first. */
  function Decayed(load: int, a: Account): Account
    requires 0 <= load <= MAX_THREADS * F && RecentFits(a.recent) && -NICE_LIMIT <= a.nice <= NICE_LIMIT
  {
    var recent := NextRecent(load, a.recent, a.nice);
    a.(recent := recent, priority := PriorityFor(recent, a.nice))
  }

  lemma DecayedOk(limit: nat, load: int, a: Account)
    requires limit <= MAX_THREADS && LoadOk(limit, load) && AccountOk(limit, TIMER_FREQ, a)
    ensures RecentFits(a.recent)
    ensures -NICE_LIMIT <= a.nice <= NICE_LIMIT && AccountOk(limit, 0, Decayed(load, a))
  {
    RecentBounded(limit, load, a.recent, a.nice);
  }

  lemma AllFit(limit: nat, k: nat, all: seq<Account>)
    requires limit <= MAX_THREADS && k <= TIMER_FREQ && AllOk(limit, k, all)
    ensures forall i | 0 <= i < |all| :: RecentFits(all[i].recent)
  {
    forall i | 0 <= i < |all| ensures RecentFits(all[i].recent) {
      RecentInRange(limit, k, all[i]);
    }
  }

  // The accounts as a whole -------------------------------------------------------

  /** The state of the accounting. */
  datatype Book = Book(ticks: nat, load: int, all: seq<Account>)

  predicate BookOk(limit: nat, s: Book) {
    && limit <= MAX_THREADS && |s.all| <= limit
    && LoadOk(limit, s.load) && AllOk(limit, s.ticks % TIMER_FREQ, s.all)
  }

  datatype Event =
    | Tick(current: Option<nat>)
    | Fork(i: nat) | Quit(i: nat) | Renice(i: nat, nice: int) | Runnable(i: nat, active: bool)

  /** The running thread is charged one tick. */
  function ChargedAll(all: seq<Account>, current: Option<nat>): (r: seq<Account>)
    ensures |r| == |all|
  {
    if current.Some? && current.value < |all| then
      var a := all[current.value];
      all[current.value := a.(recent := a.recent + F)]
    else all
  }

  /** The running thread's priority is computed again. */
  function RepricedAll(all: seq<Account>, current: Option<nat>): (r: seq<Account>)
    requires forall i | 0 <= i < |all| :: RecentFits(all[i].recent)
    ensures |r| == |all|
  {
    if current.Some? && current.value < |all| then
      var a := all[current.value];
      assert RecentFits(a.recent);
      all[current.value := a.(priority := PriorityFor(a.recent, a.nice))]
    else all
  }

  /** No intermediate result of a second overflows. */
  predicate Decayable(a: Account) {
    RecentFits(a.recent) && -NICE_LIMIT <= a.nice <= NICE_LIMIT
  }

  predicate AllDecayable(all: seq<Account>) {
    forall i | 0 <= i < |all| :: Decayable(all[i])
  }

  /** A thread's account before and after a second at that load. */
  predicate DecaysTo(load: int, a: Account, b: Account) {
    0 <= load <= MAX_THREADS * F && Decayable(a) && b == Decayed(load, a)
  }

  function DecayedAll(load: int, all: seq<Account>): (r: seq<Account>)
    requires 0 <= load <= MAX_THREADS * F && AllDecayable(all)
    ensures |r| == |all| && forall i | 0 <= i < |all| :: DecaysTo(load, all[i], r[i])
    decreases |all|
  {
    if all == [] then []
    else
      var n := |all| - 1;
      assert Decayable(all[n]);
      DecayedAll(load, all[..n]) + [Decayed(load, all[n])]
  }

  lemma DecayedAllOk(limit: nat, load: int, all: seq<Account>)
    requires limit <= MAX_THREADS && LoadOk(limit, load) && AllOk(limit, TIMER_FREQ, all)
    ensures AllDecayable(all) && AllOk(limit, 0, DecayedAll(load, all))
  {
    forall i | 0 <= i < |all| ensures Decayable(all[i]) {
      assert AccountOk(limit, TIMER_FREQ, all[i]);
      DecayedOk(limit, load, all[i]);
    }
    var r := DecayedAll(load, all);
    forall i | 0 <= i < |r| ensures AccountOk(limit, 0, r[i]) {
      assert DecaysTo(load, all[i], r[i]);
      DecayedOk(limit, load, all[i]);
    }
  }

  lemma ChargedOk(limit: nat, k: nat, all: seq<Account>, current: Option<nat>)
    requires limit <= MAX_THREADS && k < TIMER_FREQ && AllOk(limit, k, all)
    ensures AllOk(limit, k + 1, ChargedAll(all, current))
    ensures forall i | 0 <= i < |all| :: RecentFits(ChargedAll(all, current)[i].recent)
  {
    var r := ChargedAll(all, current);
    forall i | 0 <= i < |all| ensures AccountOk(limit, k + 1, r[i]) {
      assert AccountOk(limit, k, all[i]);
    }
    AllFit(limit, k + 1, r);
  }

  lemma RepricedOk(limit: nat, k: nat, all: seq<Account>, current: Option<nat>)
    requires limit <= MAX_THREADS && k <= TIMER_FREQ && AllOk(limit, k, all)
    ensures forall i | 0 <= i < |all| :: RecentFits(all[i].recent)
    ensures AllOk(limit, k, RepricedAll(all, current))
  {
    AllFit(limit, k, all);
    var r := RepricedAll(all, current);
    forall i | 0 <= i < |r| ensures AccountOk(limit, k, r[i]) {
      assert AccountOk(limit, k, all[i]);
    }
  }

  lemma NextTick(ticks: nat)
    ensures (ticks + 1) % TIMER_FREQ == 0 ==> ticks % TIMER_FREQ + 1 == TIMER_FREQ
    ensures (ticks + 1) % TIMER_FREQ != 0 ==> (ticks + 1) % TIMER_FREQ == ticks % TIMER_FREQ + 1
  {
  }

  predicate SecondFits(s: Book) {
    0 <= s.load <= MAX_THREADS * F && |s.all| <= MAX_THREADS && AllDecayable(s.all)
  }

  /** The load, then every thread, once a second. */
  function AfterSecond(s: Book): Book
    requires SecondFits(s)
  {
    LoadBounded(MAX_THREADS, s.load, ActiveCount(s.all));
    var load := NextLoad(s.load, ActiveCount(s.all));
    Book(s.ticks, load, DecayedAll(load, s.all))
  }

  /** A second brings every thread back inside the bounds. */
  lemma SecondBounded(limit: nat, s: Book)
    requires limit <= MAX_THREADS && |s.all| <= limit && LoadOk(limit, s.load) && AllOk(limit, TIMER_FREQ, s.all)
    ensures SecondFits(s)
    ensures var r := AfterSecond(s);
            LoadOk(limit, r.load) && AllOk(limit, 0, r.all) && r.ticks == s.ticks && |r.all| == |s.all|
  {
    LoadBounded(limit, s.load, ActiveCount(s.all));
    DecayedAllOk(limit, NextLoad(s.load, ActiveCount(s.all)), s.all);
  }

  function Charged(s: Book, current: Option<nat>): Book {
    Book(s.ticks + 1, s.load, ChargedAll(s.all, current))
  }

  /** A timer tick: charge the running thread, then each second recompute the load and
      every thread, else on each fourth tick the running thread's priority. */
  function AfterTick(s: Book, current: Option<nat>): Book
    requires SecondFits(Charged(s, current))
  {
    var t := Charged(s, current);
    if t.ticks % TIMER_FREQ == 0 then AfterSecond(t)
    else if t.ticks % 4 == 0 then
      assert forall i | 0 <= i < |t.all| :: Decayable(t.all[i]);
      t.(all := RepricedAll(t.all, current))
    else t
  }

  /** A tick keeps the bounds, with one more unit of recent CPU until the next second. */
  lemma TickBounded(limit: nat, s: Book, current: Option<nat>)
    requires BookOk(limit, s)
    ensures SecondFits(Charged(s, current))
    ensures var r := AfterTick(s, current);
            BookOk(limit, r) && r.ticks == s.ticks + 1 && |r.all| == |s.all|
  {
    var t, k := Charged(s, current), s.ticks % TIMER_FREQ;
    ChargedOk(limit, k, s.all, current);
    NextTick(s.ticks);
    forall i | 0 <= i < |t.all| ensures Decayable(t.all[i]) {
      assert AccountOk(limit, k + 1, t.all[i]);
      NiceSmall(limit, t.all[i].nice);
    }
    if t.ticks % TIMER_FREQ == 0 {
      SecondBounded(limit, t);
    } else if t.ticks % 4 == 0 {
      RepricedOk(limit, t.ticks % TIMER_FREQ, t.all, current);
    }
  }

  /** The recent CPU that thread i enters a tick with, once the running thread is charged. */
  function RecentAt(s: Book, current: Option<nat>, i: nat): int
    requires i < |s.all|
  {
    s.all[i].recent + if current == Some(i) then F else 0
  }

  /** What a tick makes of thread i: at the end of a second it decays, and on each fourth
      tick the running thread gets a new priority. */
  predicate TickOfThread(s: Book, current: Option<nat>, r: Book, i: nat)
    requires i < |s.all| == |r.all|
  {
    var a := s.all[i].(recent := RecentAt(s, current, i));
    if r.ticks % TIMER_FREQ == 0 then SecondOf(r.load, a, r.all[i])
    else if r.ticks % 4 == 0 && current == Some(i) then
      r.all[i] == a.(priority := r.all[i].priority) && PricedFor(a.recent, a.nice, r.all[i].priority)
    else r.all[i] == a
  }

  ghost predicate TickOf(s: Book, current: Option<nat>, r: Book) {
    && r.ticks == s.ticks + 1 && |r.all| == |s.all|
    && (if r.ticks % TIMER_FREQ == 0 then LoadFrom(s.load, |Actives(s.all)|, r.load) else r.load == s.load)
    && forall i | 0 <= i < |s.all| :: TickOfThread(s, current, r, i)
  }

  lemma SecondMeaning(s: Book)
    requires SecondFits(s)
    ensures var r := AfterSecond(s);
            && LoadFrom(s.load, |Actives(s.all)|, r.load) && |r.all| == |s.all|
            && forall i | 0 <= i < |s.all| :: SecondOf(r.load, s.all[i], r.all[i])
  {
    var r := AfterSecond(s);
    CountMeaning(s.all);
    LoadMeaning(s.load, ActiveCount(s.all));
    forall i | 0 <= i < |s.all| ensures SecondOf(r.load, s.all[i], r.all[i]) {
      assert DecaysTo(r.load, s.all[i], r.all[i]);
      RecentMeaning(r.load, s.all[i].recent, s.all[i].nice);
      PriorityMeaning(r.all[i].recent, r.all[i].nice);
    }
  }

  lemma TickMeaning(s: Book, current: Option<nat>)
    requires SecondFits(Charged(s, current))
    ensures TickOf(s, current, AfterTick(s, current))
  {
    var c, r := Charged(s, current), AfterTick(s, current);
    assert Actives(c.all) == Actives(s.all);
    assert forall i | 0 <= i < |s.all| :: c.all[i] == s.all[i].(recent := RecentAt(s, current, i));
    if c.ticks % TIMER_FREQ == 0 {
      SecondMeaning(c);
    } else if c.ticks % 4 == 0 && current.Some? && current.value < |s.all| {
      var a := c.all[current.value];
      assert Decayable(a);
      PriorityMeaning(a.recent, a.nice);
    }
    forall i | 0 <= i < |s.all| ensures TickOfThread(s, current, r, i) {
      assert r.ticks % TIMER_FREQ == 0 ==> SecondOf(r.load, c.all[i], r.all[i]);
    }
  }

  /** init_thread: a new thread inherits nice and recent CPU from its creator. */
  function AfterFork(limit: nat, s: Book, i: nat): (r: Book)
    requires BookOk(limit, s) && i < |s.all|
    ensures BookOk(limit, r) && r.ticks == s.ticks
  {
    AllFit(limit, s.ticks % TIMER_FREQ, s.all);
    var a := s.all[i];
    if |s.all| == limit then s
    else s.(all := s.all + [Account(a.nice, a.recent, PriorityFor(a.recent, a.nice), true)])
  }

  /** One event.  A thread number out of range names nobody, and a nice value that does not
      fit is not set. */
  function After(limit: nat, s: Book, e: Event): (r: Book)
    requires BookOk(limit, s)
    ensures BookOk(limit, r)
  {
    if e.Tick? then
      TickBounded(limit, s, e.current);
      AfterTick(s, e.current)
    else if e.i >= |s.all| then s
    else match e
      case Fork(i) => AfterFork(limit, s, i)
      case Quit(i) => s.(all := s.all[..i] + s.all[i + 1..])
      case Renice(i, nice) =>
        if NiceFits(limit, nice) then s.(all := s.all[i := s.all[i].(nice := nice)]) else s
      case Runnable(i, active) => s.(all := s.all[i := s.all[i].(active := active)])
      case _ => s
  }

  /** The accounts after a whole run; they are within bounds after every part of it. */
  function AfterAll(limit: nat, s: Book, events: seq<Event>): (r: Book)
    requires BookOk(limit, s)
    ensures BookOk(limit, r)
    decreases |events|
  {
    if events == [] then s
    else After(limit, AfterAll(limit, s, events[..|events| - 1]), events[|events| - 1])
  }

  /** A thread made by thread a. */
  predicate ChildOf(a: Account, b: Account) {
    b.nice == a.nice && b.recent == a.recent && b.active && PricedFor(b.recent, b.nice, b.priority)
  }

  /** What an event does to the accounts. */
  ghost predicate EventOf(limit: nat, s: Book, e: Event, r: Book)
    requires limit <= MAX_THREADS
  {
    if e.Tick? then TickOf(s, e.current, r)
    else
      && r.ticks == s.ticks && r.load == s.load
      && var n := |s.all|;
         if e.i >= n then r == s
         else match e
           case Fork(i) =>
             if n == limit then r == s
             else |r.all| == n + 1 && r.all[..n] == s.all && ChildOf(s.all[i], r.all[n])
           case Quit(i) =>
             |r.all| == n - 1 && forall k | 0 <= k < n - 1 :: r.all[k] == s.all[if k < i then k else k + 1]
           case Renice(i, nice) =>
             if NiceFits(limit, nice) then r.all == s.all[i := s.all[i].(nice := nice)] else r == s
           case Runnable(i, active) => r.all == s.all[i := s.all[i].(active := active)]
           case _ => r == s
  }

  lemma EventMeaning(limit: nat, s: Book, e: Event)
    requires BookOk(limit, s)
    ensures EventOf(limit, s, e, After(limit, s, e))
  {
    if e.Tick? {
      TickBounded(limit, s, e.current);
      TickMeaning(s, e.current);
    } else if e.Fork? && e.i < |s.all| {
      AllFit(limit, s.ticks % TIMER_FREQ, s.all);
      PriorityMeaning(s.all[e.i].recent, s.all[e.i].nice);
    }
  }

  ghost predicate EventAt(limit: nat, s: Book, events: seq<Event>, n: nat)
    requires BookOk(limit, s) && n < |events|
  {
    EventOf(limit, AfterAll(limit, s, events[..n]), events[n], AfterAll(limit, s, events[..n + 1]))
  }

  /** Every event of a run does to the accounts what EventOf says. */
  lemma RunMeaning(limit: nat, s: Book, events: seq<Event>, n: nat)
    requires BookOk(limit, s) && n < |events|
    ensures EventAt(limit, s, events, n)
  {
    assert events[..n + 1][..n] == events[..n];
    EventMeaning(limit, AfterAll(limit, s, events[..n]), events[n]);
  }

  function TickCount(events: seq<Event>): nat {
    if events == [] then 0
    else TickCount(events[..|events| - 1]) + if events[|events| - 1].Tick? then 1 else 0
  }

  lemma {:induction false} TicksCounted(limit: nat, s: Book, events: seq<Event>)
    requires BookOk(limit, s)
    ensures AfterAll(limit, s, events).ticks == s.ticks + TickCount(events)
    decreases |events|
  {
    if events != [] {
      TicksCounted(limit, s, events[..|events| - 1]);
    }
  }

  // A nice value too high --------------------------------------------------------

  /** A timer tick while thread 0 runs, in which nothing overflows. */
  predicate TickAt(trace: seq<Book>, i: int) {
    0 <= i < |trace| - 1 ==> SecondFits(Charged(trace[i], Some(0))) && trace[i + 1] == AfterTick(trace[i], Some(0))
  }

  /** `trace` is a run of such ticks. */
  ghost predicate IsTicks(trace: seq<Book>) {
    |trace| > 0 && forall i :: TickAt(trace, i)
  }

  lemma MoreTicks(trace: seq<Book>, t: Book)
    requires IsTicks(trace) && SecondFits(Charged(trace[|trace| - 1], Some(0)))
    requires t == AfterTick(trace[|trace| - 1], Some(0))
    ensures IsTicks(trace + [t])
  {
    forall i ensures TickAt(trace + [t], i) {
      assert TickAt(trace, i);
    }
  }

  /** A single thread with a nice value of 21, running all the time. */
  predicate Lone(s: Book) {
    && |s.all| == 1 && s.all[0].nice == NICE_MAX + 1 && s.all[0].active && LoadOk(1, s.load)
    && 0 <= s.all[0].recent <= (300 + s.ticks % TIMER_FREQ) * F
  }

  lemma LoneDecay(load: int, recent: int)
    requires LoadOk(1, load) && 0 <= recent <= 400 * F
    ensures 0 <= NextRecent(load, recent, NICE_MAX + 1) <= 300 * F
  {
    DecayRange(load);
    DecayMonotone(load, F);
    assert Decay(F) == 10922;
    MulAtMost(0, recent, Decay(load));
    MulAtMost(Decay(load), 10922, recent);
    QuotientMonotone(Decay(load) * recent, 10922 * recent, F);
    QuotientMonotone(10922 * recent, 10922 * (400 * F), F);
    SignOfQuotient(Decay(load) * recent, F);
  }

  lemma LoneTick(s: Book)
    requires Lone(s)
    ensures SecondFits(Charged(s, Some(0))) && Lone(AfterTick(s, Some(0)))
    ensures var t := AfterTick(s, Some(0));
            && t.ticks == s.ticks + 1
            && if t.ticks % TIMER_FREQ != 0 then t.load == s.load && t.all[0].recent == s.all[0].recent + F
               else t.load == NextLoad(s.load, 1)
                    && t.all[0].recent == NextRecent(t.load, s.all[0].recent + F, NICE_MAX + 1)
  {
    var c := Charged(s, Some(0));
    assert c.all == [s.all[0].(recent := s.all[0].recent + F)] && Decayable(c.all[0]);
    NextTick(s.ticks);
    if c.ticks % TIMER_FREQ == 0 {
      assert c.all[..0] == [] && ActiveCount(c.all) == 1;
      LoadBounded(1, s.load, 1);
      var t := AfterSecond(c);
      assert DecaysTo(t.load, c.all[0], t.all[0]);
      LoneDecay(t.load, c.all[0].recent);
    }
  }

  /** One more tick of that thread. */
  lemma LoneMore(trace: seq<Book>) returns (t: Book)
    requires IsTicks(trace) && Lone(trace[|trace| - 1])
    ensures IsTicks(trace + [t]) && Lone(t)
    ensures var s := trace[|trace| - 1];
            && t.ticks == s.ticks + 1
            && if t.ticks % TIMER_FREQ != 0 then t.load == s.load && t.all[0].recent == s.all[0].recent + F
               else t.load == NextLoad(s.load, 1)
                    && t.all[0].recent == NextRecent(t.load, s.all[0].recent + F, NICE_MAX + 1)
  {
    LoneTick(trace[|trace| - 1]);
    t := AfterTick(trace[|trace| - 1], Some(0));
    MoreTicks(trace, t);
  }

  lemma WithinSecond(ticks: nat, j: nat)
    requires ticks % TIMER_FREQ == 0 && j <= TIMER_FREQ
    ensures (ticks + j) % TIMER_FREQ == if j < TIMER_FREQ then j else 0
  {
  }

  /** A second of it: each tick but the last just charges it. */
  lemma LoneSecond(trace: seq<Book>) returns (more: seq<Book>)
    requires IsTicks(trace) && Lone(trace[|trace| - 1]) && trace[|trace| - 1].ticks % TIMER_FREQ == 0
    ensures IsTicks(more) && more[0] == trace[0]
    ensures var s, t := trace[|trace| - 1], more[|more| - 1];
            && Lone(t) && t.ticks % TIMER_FREQ == 0 && t.load == NextLoad(s.load, 1)
            && t.all[0].recent == NextRecent(t.load, s.all[0].recent + TIMER_FREQ * F, NICE_MAX + 1)
  {
    var s := trace[|trace| - 1];
    more := trace;
    var t;
    for j := 0 to TIMER_FREQ - 1
      invariant IsTicks(more) && more[0] == trace[0]
      invariant var u := more[|more| - 1];
                Lone(u) && u.ticks == s.ticks + j && u.load == s.load && u.all[0].recent == s.all[0].recent + j * F
    {
      WithinSecond(s.ticks, j + 1);
      t := LoneMore(more);
      more := more + [t];
    }
    WithinSecond(s.ticks, TIMER_FREQ);
    t := LoneMore(more);
    more := more + [t];
  }

  lemma LoadRises(load: int)
    requires LoadOk(1, load)
    ensures load <= NextLoad(load, 1) <= F && (load <= F - 60 ==> load < NextLoad(load, 1))
  {
    QuotientBounds(load * 59 + F, 60);
  }

  /** At a load near 1, recent CPU rises every second until it is past the bound. */
  lemma RecentRises(load: int, recent: int)
    requires F - 59 <= load <= F && 0 <= recent <= HighRecent(1)
    ensures recent < NextRecent(load, recent + TIMER_FREQ * F, NICE_MAX + 1)
  {
    var x := recent + TIMER_FREQ * F;
    DecayRange(load);
    DecayMonotone(F - 59, load);
    assert Decay(F - 59) == 10909;
    MulAtMost(10909, Decay(load), x);
    QuotientMonotone(10909 * x, Decay(load) * x, F);
    QuotientBounds(10909 * x, F);
  }

  lemma {:induction false} LoneExceeds(trace: seq<Book>) returns (more: seq<Book>)
    requires IsTicks(trace) && Lone(trace[|trace| - 1]) && trace[|trace| - 1].ticks % TIMER_FREQ == 0
    ensures IsTicks(more) && more[0] == trace[0]
    ensures var t := more[|more| - 1];
            t.ticks % TIMER_FREQ == 0 && |t.all| == 1 && t.all[0].recent > HighRecent(1)
    decreases F - trace[|trace| - 1].load, 300 * F - trace[|trace| - 1].all[0].recent
  {
    var s := trace[|trace| - 1];
    if s.all[0].recent > HighRecent(1) {
      more := trace;
    } else {
      more := LoneSecond(trace);
      var t := more[|more| - 1];
      LoadRises(s.load);
      if s.load == t.load {
        RecentRises(t.load, s.all[0].recent);
      }
      more := LoneExceeds(more);
    }
  }

  /** The initial state, after the thread set its nice value to 21. */
  function NiceStart(): Book {
    Book(0, 0, [Account(NICE_MAX + 1, 0, PRI_MAX, true)])
  }

  /** A run of ticks that ends with a second, and with its one thread past the bound. */
  ghost predicate Exceeds(trace: seq<Book>) {
    && IsTicks(trace)
    && var t := trace[|trace| - 1]; t.ticks % TIMER_FREQ == 0 && |t.all| == 1 && t.all[0].recent > HighRecent(1)
  }

  /** With a nice value of 21 the initial thread gets past the bound, just by running. */
  lemma NiceBreaksBound()
    ensures exists trace :: Exceeds(trace) && trace[0] == NiceStart()
  {
    var trace := LoneExceeds([NiceStart()]);
    assert Exceeds(trace);
  }

  class Accounting {
    const limit: nat
    var ticks: nat
    var load: int
    var all: seq<Account>

    function State(): Book
      reads this
    {
      Book(ticks, load, all)
    }

    ghost predicate Bounded()
      reads this
    {
      BookOk(limit, State())
    }

    constructor (limit: nat)
      requires 1 <= limit <= MAX_THREADS
      ensures Bounded() && this.limit == limit && State() == Book(0, 0, [Account(0, 0, PRI_MAX, true)])
    {
      NiceDocumented(limit, 0);
      this.limit, ticks, load := limit, 0, 0;
      all := [Account(0, 0, PRI_MAX, true)];
    }

    /** thread_get_ready_threads */
    method ReadyThreads() returns (n: nat)
      ensures n == ActiveCount(all) == |Actives(all)|
    {
      n := 0;
      for i := 0 to |all|
        invariant n == ActiveCount(all[..i])
      {
        assert all[..i + 1][..i] == all[..i];
        if all[i].active {
          n := n + 1;
        }
      }
      assert all[..|all|] == all;
      CountMeaning(all);
    }

    /** thread_foreach(thread_recompute_priority, NULL) */
    method DecayAll()
      requires 0 <= load <= MAX_THREADS * F && AllDecayable(all)
      modifies this`all
      ensures all == DecayedAll(load, old(all))
    {
      ghost var goal := DecayedAll(load, all);
      for i := 0 to |all|
        invariant |all| == |old(all)|
        invariant forall j | 0 <= j < i :: all[j] == goal[j]
        invariant forall j | i <= j < |all| :: all[j] == old(all)[j]
      {
        assert Decayable(old(all)[i]) && DecaysTo(load, old(all)[i], goal[i]);
        all := all[i := Decayed(load, all[i])];
      }
    }

    /** thread_recompute_load_avg, then every thread's recent CPU and priority. */
    method EverySecond()
      requires SecondFits(State())
      modifies this`load, this`all
      ensures State() == AfterSecond(old(State()))
      ensures LoadFrom(old(load), |Actives(old(all))|, load) && |all| == |old(all)|
      ensures forall i | 0 <= i < |all| :: SecondOf(load, old(all)[i], all[i])
    {
      SecondMeaning(State());
      var active := ReadyThreads();
      LoadBounded(MAX_THREADS, load, active);
      load := NextLoad(load, active);
      DecayAll();
    }

    /** The accounting of timer_interrupt; `current` is None while the idle thread runs. */
    method Timer(current: Option<nat>)
      requires SecondFits(Charged(State(), current))
      modifies this`ticks, this`load, this`all
      ensures State() == AfterTick(old(State()), current) && (old(Bounded()) ==> Bounded())
      ensures TickOf(old(State()), current, State())
    {
      TickMeaning(State(), current);
      ghost var s := State();
      ghost var goal := AfterTick(s, current);
      if Bounded() {
        TickBounded(limit, s, current);
      }
      ticks := ticks + 1;
      all := ChargedAll(all, current);
      assert State() == Charged(s, current);
      if ticks % TIMER_FREQ == 0 {
        EverySecond();
      } else if ticks % 4 == 0 {
        assert forall i | 0 <= i < |all| :: Decayable(all[i]);
        all := RepricedAll(all, current);
      }
      assert State() == goal;
    }

    method Spawn(parent: nat) returns (created: bool)
      requires Bounded() && parent < |all|
      modifies this`all
      ensures Bounded() && created == (|old(all)| < limit) && State() == AfterFork(limit, old(State()), parent)
      ensures created ==> |all| == |old(all)| + 1 && ChildOf(old(all)[parent], all[|old(all)|])
    {
      EventMeaning(limit, State(), Fork(parent));
      var a := all[parent];
      AllFit(limit, ticks % TIMER_FREQ, all);
      created := |all| < limit;
      if created {
        all := all + [Account(a.nice, a.recent, PriorityFor(a.recent, a.nice), true)];
      }
    }

    method Exit(i: nat)
      requires Bounded() && i < |all|
      modifies this`all
      ensures Bounded() && all == old(all)[..i] + old(all)[i + 1..]
    {
      all := all[..i] + all[i + 1..];
    }

    /** thread_set_nice: accepts any value. */
    method SetNice(i: nat, nice: int)
      requires Bounded() && i < |all|
      modifies this`all
      ensures all == old(all)[i := old(all)[i].(nice := nice)]
      ensures Bounded() <==> NiceFits(limit, nice)
    {
      all := all[i := all[i].(nice := nice)];
      assert Bounded() ==> AccountOk(limit, ticks % TIMER_FREQ, all[i]);
    }

    /** Thread i starts or stops being runnable. */
    method SetActive(i: nat, active: bool)
      requires Bounded() && i < |all|
      modifies this`all
      ensures Bounded() && all == old(all)[i := old(all)[i].(active := active)]
    {
      all := all[i := all[i].(active := active)];
    }

    method Perform(event: Event)
      requires Bounded()
      modifies this`ticks, this`load, this`all
      ensures Bounded() && State() == After(limit, old(State()), event)
    {
      if event.Tick? {
        TickBounded(limit, State(), event.current);
        Timer(event.current);
      } else if event.i < |all| {
        match event {
          case Fork(i) => var created := Spawn(i);
          case Quit(i) => Exit(i);
          case Renice(i, nice) =>
            if NiceFits(limit, nice) {
              SetNice(i, nice);
            }
          case Runnable(i, active) => SetActive(i, active);
        }
      }
    }

    /** Over every run, with any interleaving of ticks and thread events, the accounts are
        those of the event-by-event specification; nothing overflows, and the load average,
        every recent CPU and every priority stay within bounds. */
    method Run(events: seq<Event>)
      requires Bounded()
      modifies this`ticks, this`load, this`all
      ensures Bounded() && State() == AfterAll(limit, old(State()), events)
      ensures forall n | 0 <= n < |events| :: EventAt(limit, old(State()), events, n)
      ensures ticks == old(ticks) + TickCount(events) && 0 <= load <= limit * F
      ensures forall i | 0 <= i < |all| ::
                && LowRecent(limit) <= all[i].recent <= HighRecent(limit) + (ticks % TIMER_FREQ) * F
                && 0 <= all[i].priority <= PRI_MAX
    {
      ghost var s := State();
      for n := 0 to |events|
        invariant Bounded() && State() == AfterAll(limit, s, events[..n])
      {
        assert events[..n + 1][..n] == events[..n];
        Perform(events[n]);
      }
      assert events[..|events|] == events;
      TicksCounted(limit, s, events);
      forall n | 0 <= n < |events| ensures EventAt(limit, s, events, n) {
        RunMeaning(limit, s, events, n);
      }
      assert forall i | 0 <= i < |all| :: AccountOk(limit, ticks % TIMER_FREQ, all[i]);
    }
  }
}
