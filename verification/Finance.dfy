/** Trip finances over exact decimals: rounding to cents, the totals of a trip, and currency
    conversion there and back. */
module Finance {

  datatype Result<+T> = Ok(value: T) | UnsupportedSource(code: string) | UnsupportedTarget(code: string)

  /** ROUND_HALF_UP: ties away from zero. */
  function RoundHalfUp(y: real): int {
    if y >= 0.0 then (y + 0.5).Floor else -((-y + 0.5).Floor)
  }

  function Cents(amount: real): int {
    RoundHalfUp(amount * 100.0)
  }

  function Round2(amount: real): real {
    Cents(amount) as real / 100.0
  }

  /** Amounts and percentages are bounded as the request schema bounds them. */
  datatype TripRequest = TripRequest(flight: real, nightlyRate: real, nights: int, dailyFood: real,
                                     activities: real, taxPct: real, bufferPct: real)
  {
    predicate Valid() {
      && flight >= 0.0 && nightlyRate >= 0.0 && 1 <= nights <= 90 && dailyFood >= 0.0 && activities >= 0.0
      && 0.0 <= taxPct <= 100.0 && 0.0 <= bufferPct <= 50.0
    }
  }

  datatype Totals = Totals(subtotal: real, hotel: real, food: real, flight: real, activities: real,
                           taxes: real, buffer: real, grand: real, daily: real)

  function Exact(r: TripRequest): Totals
    requires r.Valid()
  {
    var hotel := r.nightlyRate * r.nights as real;
    var food := r.dailyFood * r.nights as real;
    var subtotal := hotel + food + r.flight + r.activities;
    var taxes := subtotal * (r.taxPct / 100.0);
    var buffer := subtotal * (r.bufferPct / 100.0);
    var grand := subtotal + taxes + buffer;
    Totals(subtotal, hotel, food, r.flight, r.activities, taxes, buffer, grand,
           grand / (if r.nights > 1 then r.nights else 1) as real)
  }

  function CalculateTripFinances(r: TripRequest): Totals
    requires r.Valid()
  {
    var t := Exact(r);
    Totals(Round2(t.subtotal), Round2(t.hotel), Round2(t.food), Round2(t.flight), Round2(t.activities),
           Round2(t.taxes), Round2(t.buffer), Round2(t.grand), Round2(t.daily))
  }

  /** Units of each currency for one US dollar. */
  const EXCHANGE_RATES: map<string, real> := map[
    "USD" := 1.0, "EUR" := 0.92, "GBP" := 0.79, "JPY" := 155.40, "CAD" := 1.36,
    "AUD" := 1.52, "INR" := 83.50, "SGD" := 1.35, "CHF" := 0.90]

  /** Upper case, as far as it can decide about the codes above: beside the ASCII letters only the
      long s and the dotless i have a single ASCII letter as their upper case, and no letter whose
      upper case is several letters makes up a part of a code. */
  function UpperChar(c: char): char {
    if 'a' <= c <= 'z' then c - 'a' + 'A'
    else if c == '\U{17F}' then 'S'
    else if c == '\U{131}' then 'I'
    else c
  }

  function Upper(code: string): string {
    seq(|code|, i requires 0 <= i < |code| => UpperChar(code[i]))
  }

  /** By way of dollars. */
  function ToTarget(amount: real, rateFrom: real, rateTo: real): real
    requires rateFrom > 0.0
  {
    amount / rateFrom * rateTo
  }

  function Converted(amount: real, rateFrom: real, rateTo: real): real
    requires rateFrom > 0.0
  {
    Round2(ToTarget(amount, rateFrom, rateTo))
  }

  // ---------- rounding ----------

  lemma RoundIsOdd(y: real)
    ensures RoundHalfUp(-y) == -RoundHalfUp(y)
  {
    assert (0.5).Floor == 0;
  }

  /** n is the nearest integer to y, on a tie the one away from zero. */
  lemma RoundsTo(y: real, n: int)
    ensures y >= 0.0 ==> (RoundHalfUp(y) == n <==> n as real - 0.5 <= y < n as real + 0.5)
    ensures y < 0.0 ==> (RoundHalfUp(y) == n <==> n as real - 0.5 < y <= n as real + 0.5)
  {
    RoundIsOdd(y);
  }

  lemma RoundMonotone(y: real, z: real)
    requires 0.0 <= y <= z
    ensures 0 <= RoundHalfUp(y) <= RoundHalfUp(z)
  {
  }

  // ---------- the displayed parts of a trip ----------

  /** x is shown as y: to the nearest cent, on a tie away from zero. */
  predicate ShownAs(x: real, y: real) {
    if x >= 0.0 then -0.005 < y - x <= 0.005 else -0.005 <= y - x < 0.005
  }

  lemma Shown(x: real)
    ensures ShownAs(x, Round2(x))
  {
    RoundsTo(x * 100.0, Cents(x));
  }

  function ConvertCurrency(amount: real, source: string, target: string): (r: Result<real>)
    ensures r.Ok? <==> Upper(source) in EXCHANGE_RATES && Upper(target) in EXCHANGE_RATES
    ensures r.UnsupportedTarget? ==> Upper(source) in EXCHANGE_RATES
    ensures r.Ok? ==>
              EXCHANGE_RATES[Upper(source)] > 0.0 &&
              ShownAs(ToTarget(amount, EXCHANGE_RATES[Upper(source)], EXCHANGE_RATES[Upper(target)]), r.value)
  {
    var f, t := Upper(source), Upper(target);
    if f !in EXCHANGE_RATES then UnsupportedSource(f)
    else if t !in EXCHANGE_RATES then UnsupportedTarget(t)
    else
      assert EXCHANGE_RATES[f] > 0.0;
      Shown(ToTarget(amount, EXCHANGE_RATES[f], EXCHANGE_RATES[t]));
      Ok(Converted(amount, EXCHANGE_RATES[f], EXCHANGE_RATES[t]))
  }

  /** The parts shown add up to the totals shown, to within one cent for the grand total and
      two for the subtotal, whatever the request. */
  lemma DisplayedPartsAddUp(r: TripRequest)
    requires r.Valid()
    ensures var s := CalculateTripFinances(r);
            && -0.01 <= s.subtotal + s.taxes + s.buffer - s.grand <= 0.01
            && -0.02 <= s.hotel + s.food + s.flight + s.activities - s.subtotal <= 0.02
  {
    var t := Exact(r);
    NonNegative(r);
    SumOfThree(t.subtotal * 100.0, t.taxes * 100.0, t.buffer * 100.0);
    SumOfFour(t.hotel * 100.0, t.food * 100.0, t.flight * 100.0, t.activities * 100.0);
    assert t.grand * 100.0 == t.subtotal * 100.0 + t.taxes * 100.0 + t.buffer * 100.0;
    assert t.subtotal * 100.0 == t.hotel * 100.0 + t.food * 100.0 + t.flight * 100.0 + t.activities * 100.0;
  }

  /** What the exact amounts are: the nights count for hotel and food, taxes and buffer are their
      percentages of the subtotal, and the total is spread over the nights. */
  lemma ExactAmounts(r: TripRequest)
    requires r.Valid()
    ensures var t, nights := Exact(r), r.nights as real;
            && t.hotel == r.nightlyRate * nights && t.food == r.dailyFood * nights
            && t.flight == r.flight && t.activities == r.activities
            && t.subtotal == t.hotel + t.food + r.flight + r.activities
            && t.taxes == t.subtotal * (r.taxPct / 100.0) && t.buffer == t.subtotal * (r.bufferPct / 100.0)
            && t.grand == t.subtotal + t.taxes + t.buffer && t.daily == t.grand / nights
  {
  }

  /** Every amount shown is the exact one to the nearest cent. */
  lemma DisplayedAmounts(r: TripRequest)
    requires r.Valid()
    ensures var t, s := Exact(r), CalculateTripFinances(r);
            && ShownAs(t.hotel, s.hotel) && ShownAs(t.food, s.food) && ShownAs(t.flight, s.flight)
            && ShownAs(t.activities, s.activities) && ShownAs(t.subtotal, s.subtotal)
            && ShownAs(t.taxes, s.taxes) && ShownAs(t.buffer, s.buffer) && ShownAs(t.grand, s.grand)
            && ShownAs(t.daily, s.daily)
  {
    EachIsShown(Exact(r));
  }

  lemma EachIsShown(t: Totals)
    ensures ShownAs(t.hotel, Round2(t.hotel)) && ShownAs(t.food, Round2(t.food))
    ensures ShownAs(t.flight, Round2(t.flight)) && ShownAs(t.activities, Round2(t.activities))
    ensures ShownAs(t.subtotal, Round2(t.subtotal)) && ShownAs(t.taxes, Round2(t.taxes))
    ensures ShownAs(t.buffer, Round2(t.buffer)) && ShownAs(t.grand, Round2(t.grand))
    ensures ShownAs(t.daily, Round2(t.daily))
  {
    Shown(t.hotel);
    Shown(t.food);
    Shown(t.flight);
    Shown(t.activities);
    Shown(t.subtotal);
    Shown(t.taxes);
    Shown(t.buffer);
    Shown(t.grand);
    Shown(t.daily);
  }

  lemma NonNegative(r: TripRequest)
    requires r.Valid()
    ensures var t := Exact(r);
            t.hotel >= 0.0 && t.food >= 0.0 && t.subtotal >= 0.0 && t.taxes >= 0.0 && t.buffer >= 0.0 && t.grand >= 0.0
  {
    Product(r.nightlyRate, r.nights as real);
    Product(r.dailyFood, r.nights as real);
    Product(Exact(r).subtotal, r.taxPct / 100.0);
    Product(Exact(r).subtotal, r.bufferPct / 100.0);
  }

  lemma SumOfThree(a: real, b: real, c: real)
    requires a >= 0.0 && b >= 0.0 && c >= 0.0
    ensures -1 <= RoundHalfUp(a) + RoundHalfUp(b) + RoundHalfUp(c) - RoundHalfUp(a + b + c) <= 1
  {
  }

  lemma SumOfFour(a: real, b: real, c: real, d: real)
    requires a >= 0.0 && b >= 0.0 && c >= 0.0 && d >= 0.0
    ensures -2 <= RoundHalfUp(a) + RoundHalfUp(b) + RoundHalfUp(c) + RoundHalfUp(d) - RoundHalfUp(a + b + c + d) <= 2
  {
  }

  /** Both bounds are reached. */
  lemma DisplayBoundsAreTight()
    ensures exists r: TripRequest :: r.Valid() &&
              var t := Exact(r); Cents(t.subtotal) + Cents(t.taxes) + Cents(t.buffer) - Cents(t.grand) == 1
    ensures exists r: TripRequest :: r.Valid() &&
              var t := Exact(r);
              Cents(t.hotel) + Cents(t.food) + Cents(t.flight) + Cents(t.activities) - Cents(t.subtotal) == 2
  {
    var half := TripRequest(0.01, 0.0, 1, 0.0, 0.0, 50.0, 50.0);
    assert half.Valid() && Exact(half).subtotal * 100.0 == 1.0 && Exact(half).taxes * 100.0 == 0.5
        && Exact(half).buffer * 100.0 == 0.5 && Exact(half).grand * 100.0 == 2.0;
    var ties := TripRequest(0.005, 0.005, 1, 0.005, 0.005, 0.0, 0.0);
    assert ties.Valid() && Exact(ties).subtotal * 100.0 == 2.0;
  }

  // ---------- there and back ----------

  function ThereAndBack(n: int, rateFrom: real, rateTo: real): real
    requires rateFrom > 0.0 && rateTo > 0.0
  {
    Converted(Converted(n as real / 100.0, rateFrom, rateTo), rateTo, rateFrom)
  }

  function Scaled(n: int, q: real): real {
    n as real * q
  }

  function Unscaled(m: int, q: real): real
    requires q > 0.0
  {
    m as real / q
  }

  /** `n` cents converted at rate ratio q and the cents that come back. */
  function There(n: int, q: real): int {
    RoundHalfUp(Scaled(n, q))
  }

  function Back(n: int, q: real): int
    requires q > 0.0
  {
    RoundHalfUp(Unscaled(There(n, q), q))
  }

  lemma Product(x: real, y: real)
    requires x >= 0.0 && y >= 0.0
    ensures x * y >= 0.0
  {
  }

  lemma Distribute(x: real, y: real, a: real)
    ensures (x - y) * a == x * a - y * a
  {
  }

  lemma Monotone(x: real, y: real, a: real)
    requires x < y && a > 0.0
    ensures x * a < y * a
  {
    Distribute(y, x, a);
    assert (y - x) * a > 0.0;
  }

  /** The arithmetic of one conversion: y is the amount in dollars, q the ratio of the rates. */
  lemma Scaling(amount: real, y: real, a: real, b: real, q: real)
    requires y * a == amount && q * a == b
    ensures y * b * 100.0 == amount * 100.0 * q
  {
    assert y * b == y * (q * a) == q * (y * a);
  }

  lemma InTarget(amount: real, m: int, rateFrom: real, rateTo: real, q: real)
    requires rateFrom > 0.0 && q * rateFrom == rateTo && amount * 100.0 == m as real
    ensures ToTarget(amount, rateFrom, rateTo) * 100.0 == Scaled(m, q)
  {
    var y := amount / rateFrom;
    assert y * rateFrom == amount;
    Scaling(amount, y, rateFrom, rateTo, q);
  }

  lemma Reciprocal(m: int, p: real, q: real)
    requires q > 0.0 && p * q == 1.0
    ensures Scaled(m, p) == Unscaled(m, q)
  {
    var x := m as real;
    assert (x * p) * q == x * (p * q);
    Cancel(x * p, x / q, q);
  }

  lemma Cancel(x: real, y: real, a: real)
    requires a > 0.0 && x * a == y * a
    ensures x == y
  {
    if x < y {
      Monotone(x, y, a);
    } else if y < x {
      Monotone(y, x, a);
    }
  }

  /** q and p are the ratios of the rates, one way and the other. */
  lemma ConvertIsScaling(n: int, rateFrom: real, rateTo: real, q: real, p: real)
    requires rateFrom > 0.0 && rateTo > 0.0 && q > 0.0 && p * q == 1.0
    requires q * rateFrom == rateTo && p * rateTo == rateFrom
    ensures ThereAndBack(n, rateFrom, rateTo) == Back(n, q) as real / 100.0
  {
    var m := There(n, q);
    InTarget(n as real / 100.0, n, rateFrom, rateTo, q);
    assert Converted(n as real / 100.0, rateFrom, rateTo) == m as real / 100.0;
    InTarget(m as real / 100.0, m, rateTo, rateFrom, p);
    Reciprocal(m, p, q);
  }

  lemma Ratios(a: real, b: real) returns (q: real, p: real)
    requires a > 0.0 && b > 0.0
    ensures q > 0.0 && p * q == 1.0 && q * a == b && p * b == a
    ensures q >= 1.0 <==> b >= a
  {
    q, p := b / a, a / b;
    assert q * a == b && p * b == a;
    OneRatio(p, q, a, b);
  }

  lemma OneRatio(p: real, q: real, a: real, b: real)
    requires a > 0.0 && b > 0.0 && q * a == b && p * b == a
    ensures q > 0.0 && p * q == 1.0 && (q >= 1.0 <==> b >= a)
  {
    assert (p * q) * a == p * (q * a);
    Cancel(p * q, 1.0, a);
    if q < 1.0 {
      Monotone(q, 1.0, a);
    } else if q > 1.0 {
      Monotone(1.0, q, a);
    }
  }

  lemma NonNegativeError(n: nat, q: real)
    requires q > 0.0
    ensures -0.5 / q - 0.5 <= (Back(n, q) - n) as real <= 0.5 / q + 0.5
    ensures q >= 1.0 ==> Back(n, q) == n
  {
    var m := There(n, q);
    Product(n as real, q);
    RoundsTo(Scaled(n, q), m);
    RoundMonotone(0.0, Scaled(n, q));
    Quotient(m as real, n as real, q);
    RoundsTo(Unscaled(m, q), Back(n, q));
    if q == 1.0 {
      RoundsTo(n as real, n);
    } else if q > 1.0 {
      HalfOver(q);
      RoundsTo(Unscaled(m, q), n);
    }
  }

  lemma ScaledIsOdd(n: int, q: real)
    ensures Scaled(-n, q) == -Scaled(n, q)
  {
    assert (-n) as real == -(n as real);
    Distribute(0.0, n as real, q);
  }

  lemma QuotientIsOdd(x: real, q: real)
    requires q > 0.0
    ensures (-x) / q == -(x / q)
  {
    var y, z := (-x) / q, x / q;
    assert y * q == -x && z * q == x;
    Distribute(0.0, z, q);
    Cancel(y, -z, q);
  }

  lemma BackIsOdd(n: int, q: real)
    requires q > 0.0
    ensures Back(-n, q) == -Back(n, q)
  {
    hide RoundHalfUp;
    var m := There(n, q);
    ScaledIsOdd(n, q);
    RoundIsOdd(Scaled(n, q));
    QuotientIsOdd(m as real, q);
    RoundIsOdd(Unscaled(m, q));
  }

  /** What comes back is off by at most half a cent each way, the first scaled by the ratio. */
  lemma RoundTripError(n: int, q: real)
    requires q > 0.0
    ensures -0.5 / q - 0.5 <= (Back(n, q) - n) as real <= 0.5 / q + 0.5
    ensures q >= 1.0 ==> Back(n, q) == n
  {
    if n >= 0 {
      NonNegativeError(n, q);
    } else {
      NonNegativeError(-n, q);
      BackIsOdd(-n, q);
    }
  }

  lemma HalfByRatio(p: real, q: real)
    requires q > 0.0 && p * q == 1.0
    ensures 0.5 / q == 0.5 * p
  {
    assert (0.5 * p) * q == 0.5 * (p * q);
    Cancel(0.5 / q, 0.5 * p, q);
  }

  lemma InCents(back: int, n: int, p: real)
    requires -(0.5 * p) - 0.5 <= (back - n) as real <= 0.5 * p + 0.5
    ensures -(0.005 * p + 0.005) <= back as real / 100.0 - n as real / 100.0 <= 0.005 * p + 0.005
  {
  }

  /** In money: the amount that comes back differs by at most half a cent times the ratio of the
      source rate to the target rate, plus half a cent. */
  lemma ConversionError(n: int, rateFrom: real, rateTo: real)
    requires rateFrom > 0.0 && rateTo > 0.0
    ensures var off := ThereAndBack(n, rateFrom, rateTo) - n as real / 100.0;
            -(0.005 * (rateFrom / rateTo) + 0.005) <= off <= 0.005 * (rateFrom / rateTo) + 0.005
  {
    hide ThereAndBack, Back;
    var q, p := Ratios(rateFrom, rateTo);
    ConvertIsScaling(n, rateFrom, rateTo, q, p);
    RoundTripError(n, q);
    HalfByRatio(p, q);
    InCents(Back(n, q), n, p);
    assert p == rateFrom / rateTo by {
      Cancel(p, rateFrom / rateTo, rateTo);
    }
  }

  lemma Quotient(m: real, n: real, q: real)
    requires q > 0.0 && m >= 0.0 && m - 0.5 <= n * q < m + 0.5
    ensures 0.0 <= m / q && n - 0.5 / q < m / q <= n + 0.5 / q
  {
    var x, h := m / q, 0.5 / q;
    assert x * q == m && h * q == 0.5;
    Bracket(x, n, h, q);
  }

  lemma Bracket(x: real, n: real, h: real, q: real)
    requires q > 0.0 && x * q >= 0.0 && x * q - h * q <= n * q < x * q + h * q
    ensures 0.0 <= x && n - h < x <= n + h
  {
    Distribute(x, h, q);
    Distribute(n, h, q);
    if x < 0.0 {
      Monotone(x, 0.0, q);
    }
    if n < x - h {
      Monotone(n, x - h, q);
    }
    if x < n - h {
      Monotone(x, n - h, q);
    }
  }

  lemma HalfOver(q: real)
    requires q > 1.0
    ensures 0.0 < 0.5 / q < 0.5
  {
    var h := 0.5 / q;
    assert h * q == 0.5;
    if h <= 0.0 {
      Product(-h, q);
    } else if h >= 0.5 {
      Monotone(1.0, q, h);
    }
  }

  /** If nothing were lost at ratio q, distinct amounts would stay distinct, so no amount
      could shrink. */
  lemma {:induction false} LosslessGrows(q: real, n: nat)
    requires q > 0.0 && forall k: nat :: k <= n ==> Back(k, q) == k
    ensures There(n, q) >= n
  {
    if n == 0 {
      RoundsTo(0.0, 0);
    } else {
      LosslessGrows(q, n - 1);
      Product((n - 1) as real, q);
      Monotone((n - 1) as real, n as real, q);
      RoundMonotone(Scaled(n - 1, q), Scaled(n, q));
      assert Back(n, q) == n && Back(n - 1, q) == n - 1;
    }
  }

  /** From some amount on, scaling down loses more than half a cent. */
  lemma Shrinks(q: real) returns (n: nat)
    requires 0.0 < q < 1.0
    ensures There(n, q) < n
  {
    n := Above(Loser(1.0 - q));
    Loses(n as real, Loser(1.0 - q), q, 1.0 - q, 0.5);
    RoundsTo(Scaled(n, q), There(n, q));
  }

  function Loser(d: real): (x: real)
    requires d > 0.0
    ensures x * d == 0.5
  {
    0.5 / d
  }

  lemma Above(x: real) returns (n: nat)
    ensures n as real > x
  {
    n := if x < 0.0 then 0 else x.Floor + 1;
  }

  lemma Loses(y: real, x: real, q: real, d: real, h: real)
    requires q > 0.0 && d > 0.0 && q + d == 1.0 && y >= 0.0 && x * d == h && y > x
    ensures 0.0 <= y * q < y - h
  {
    Monotone(x, y, d);
    SumToOne(y, q, d);
    Product(y, q);
  }

  lemma SumToOne(y: real, q: real, d: real)
    requires q + d == 1.0
    ensures y * q == y - y * d
  {
    Distribute(1.0, d, y);
  }

  lemma LossyAmount(q: real) returns (n: nat)
    requires 0.0 < q < 1.0
    ensures Back(n, q) != n
  {
    var big := Shrinks(q);
    if forall k: nat :: k <= big ==> Back(k, q) == k {
      LosslessGrows(q, big);
      assert false;
    }
    n :| n <= big && Back(n, q) != n;
  }

  /** Every cent amount, of either sign, survives the round trip exactly when the target rate is not below the
      source rate; otherwise some amount is changed. */
  lemma RoundTripIff(rateFrom: real, rateTo: real)
    requires rateFrom > 0.0 && rateTo > 0.0
    ensures (forall n: nat :: ThereAndBack(n, rateFrom, rateTo) == n as real / 100.0) <==> rateTo >= rateFrom
    ensures (forall n: int :: ThereAndBack(n, rateFrom, rateTo) == n as real / 100.0) <==> rateTo >= rateFrom
  {
    var q, p := Ratios(rateFrom, rateTo);
    if q >= 1.0 {
      forall n: int ensures ThereAndBack(n, rateFrom, rateTo) == n as real / 100.0 {
        ConvertIsScaling(n, rateFrom, rateTo, q, p);
        RoundTripError(n, q);
      }
    } else {
      var n := LossyAmount(q);
      ConvertIsScaling(n, rateFrom, rateTo, q, p);
      assert ThereAndBack(n, rateFrom, rateTo) != n as real / 100.0;
    }
  }

  /** One dollar buys, in each currency on offer, the amount quoted for it. */
  lemma OneDollarBuys()
    ensures ConvertCurrency(1.0, "USD", "USD") == Ok(1.0) && ConvertCurrency(1.0, "USD", "EUR") == Ok(0.92)
    ensures ConvertCurrency(1.0, "USD", "GBP") == Ok(0.79) && ConvertCurrency(1.0, "USD", "JPY") == Ok(155.40)
    ensures ConvertCurrency(1.0, "USD", "CAD") == Ok(1.36) && ConvertCurrency(1.0, "USD", "AUD") == Ok(1.52)
    ensures ConvertCurrency(1.0, "USD", "INR") == Ok(83.50) && ConvertCurrency(1.0, "USD", "SGD") == Ok(1.35)
    ensures ConvertCurrency(1.0, "USD", "CHF") == Ok(0.90)
  {
    Quoted("USD", 1.0);
    Quoted("EUR", 0.92);
    Quoted("GBP", 0.79);
    Quoted("JPY", 155.40);
    Quoted("CAD", 1.36);
    Quoted("AUD", 1.52);
    Quoted("INR", 83.50);
    Quoted("SGD", 1.35);
    Quoted("CHF", 0.90);
  }

  lemma Quoted(target: string, rate: real)
    requires target in EXCHANGE_RATES && EXCHANGE_RATES[target] == rate && Round2(rate) == rate
    requires forall i | 0 <= i < |target| :: 'A' <= target[i] <= 'Z'
    ensures ConvertCurrency(1.0, "USD", target) == Ok(rate)
  {
    assert Upper(target) == target;
    assert Upper("USD") == "USD";
    assert ToTarget(1.0, 1.0, rate) == rate;
  }

  /** The same for the currencies on offer, whatever the case of their codes. */
  lemma SupportedRoundTrip(n: int, source: string, target: string)
    requires Upper(source) in EXCHANGE_RATES && Upper(target) in EXCHANGE_RATES
    requires EXCHANGE_RATES[Upper(target)] >= EXCHANGE_RATES[Upper(source)]
    ensures var there := ConvertCurrency(n as real / 100.0, source, target);
            there.Ok? && ConvertCurrency(there.value, target, source) == Ok(n as real / 100.0)
  {
    var f, t := EXCHANGE_RATES[Upper(source)], EXCHANGE_RATES[Upper(target)];
    RoundTripIff(f, t);
    assert ThereAndBack(n, f, t) == n as real / 100.0;
  }
}
