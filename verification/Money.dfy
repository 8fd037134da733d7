/**
 Minor units, the carry, and the two roundings (ubb-platform/core/money.py),
 with the loop that carries one line's remainder into the next
 (ubb-platform/apps/billing/invoicing/services/postpaid_service.py).
 */
module Money {
  import opened Wrappers
  import opened Arithmetic

  const MICROS_PER_UNIT: int := 1_000_000
  const MONEY_COLUMN_MAX: int := 0x7FFF_FFFF_FFFF_FFFF
  const MONEY_COLUMN_MIN: int := -0x8000_0000_0000_0000

  predicate FitsAMoneyColumn(amount: int) {
    MONEY_COLUMN_MIN <= amount <= MONEY_COLUMN_MAX
  }

  /** The signed reading of a 64-bit word. */
  function SignedWord(word: nat): int
    requires word < 0x1_0000_0000_0000_0000
  {
    if word < 0x8000_0000_0000_0000 then word else word - 0x1_0000_0000_0000_0000
  }

  /** An amount fits a money column exactly when some 64-bit word reads as it. */
  lemma ColumnHoldsTheSignedWords(amount: int)
    ensures FitsAMoneyColumn(amount) <==>
            exists word: nat :: word < 0x1_0000_0000_0000_0000 && SignedWord(word) == amount
  {
    if FitsAMoneyColumn(amount) {
      var word: nat := if amount < 0 then amount + 0x1_0000_0000_0000_0000 else amount;
      assert SignedWord(word) == amount;
    }
  }

  // ----- the minor unit ---------------------------------------------------------------

  function LowerChar(c: char): char {
    if 'A' <= c <= 'Z' then (c as int - 'A' as int + 'a' as int) as char else c
  }

  function Lower(text: string): string {
    seq(|text|, i requires 0 <= i < |text| => LowerChar(text[i]))
  }

  /** The digits a supported currency's minor unit takes. */
  function Exponent(code: string): Option<nat> {
    if code in {"usd", "eur", "gbp", "aud", "cad", "chf", "nzd", "sgd", "hkd",
                "sek", "nok", "dkk", "pln", "czk", "mxn", "brl", "inr", "zar"}
    then Some(2) else None
  }

  function Pow10(n: nat): (r: int)
    ensures r > 0
  {
    if n == 0 then 1 else 10 * Pow10(n - 1)
  }

  datatype Fault = UnknownCurrency | MisalignedAmount | BadDenominator

  /** Micros in one minor unit. */
  function MinorUnits(currency: string): (r: Result<int, Fault>)
    ensures r.Ok? ==> r.value == 10_000
  {
    match Exponent(Lower(currency))
    case Some(exponent) => Ok(MICROS_PER_UNIT / Pow10(exponent))
    case None => Err(UnknownCurrency)
  }

  function ToMinor(amount: int, currency: string): Result<(int, int), Fault> {
    var unit :- MinorUnits(currency);
    Ok((amount / unit, amount % unit))
  }

  function FromMinor(amount: int, currency: string): Result<int, Fault> {
    var unit :- MinorUnits(currency);
    Ok(amount * unit)
  }

  function AssertAligned(amount: int, currency: string): Result<(), Fault> {
    var parts :- ToMinor(amount, currency);
    if parts.1 != 0 then Err(MisalignedAmount) else Ok(())
  }

  /** The assertion passes exactly the amounts that are some whole number of minor units. */
  lemma AlignedIsTheImage(amount: int, currency: string)
    ensures AssertAligned(amount, currency).Ok? <==> exists minor :: FromMinor(minor, currency) == Ok(amount)
    ensures AssertAligned(amount, currency) == Err(UnknownCurrency) <==> MinorUnits(currency).Err?
  {
    if AssertAligned(amount, currency).Ok? {
      assert FromMinor(ToMinor(amount, currency).value.0, currency) == Ok(amount);
    }
  }

  /** Reassembly is exact, the remainder is a real fraction, and no other pair does both. */
  lemma ToMinorIsTheOnlySplit(amount: int, currency: string, minor: int, remainder: int)
    requires MinorUnits(currency).Ok?
    ensures ToMinor(amount, currency) == Ok((minor, remainder)) <==>
            && FromMinor(minor, currency).value + remainder == amount
            && 0 <= remainder < MinorUnits(currency).value
  {
  }

  // ----- a stream of amounts, each remainder carried ------------------------------------

  function Sum(amounts: seq<int>): int {
    if amounts == [] then 0 else Sum(amounts[..|amounts| - 1]) + amounts[|amounts| - 1]
  }

  lemma SumAppend(amounts: seq<int>, last: int)
    ensures Sum(amounts + [last]) == Sum(amounts) + last
  {
    assert (amounts + [last])[..|amounts|] == amounts;
  }

  lemma {:induction false} SumConcat(a: seq<int>, b: seq<int>)
    ensures Sum(a + b) == Sum(a) + Sum(b)
  {
    if b == [] {
      assert a + b == a;
    } else {
      assert (a + b)[..|a + b| - 1] == a + b[..|b| - 1];
      SumConcat(a, b[..|b| - 1]);
    }
  }

  lemma {:induction false} SumIgnoresOrder(a: seq<int>, b: seq<int>)
    requires multiset(a) == multiset(b)
    ensures Sum(a) == Sum(b)
    decreases |a|
  {
    if a == [] {
      assert |multiset(b)| == 0;
      assert |b| == 0;
    } else {
      var last, front := a[|a| - 1], a[..|a| - 1];
      assert a == front + [last];
      assert last in multiset(b);
      var i :| 0 <= i < |b| && b[i] == last;
      var rest := b[..i] + b[i + 1..];
      assert b == b[..i] + ([last] + b[i + 1..]);
      assert multiset(rest) == multiset(b) - multiset{last};
      assert multiset(front) == multiset(a) - multiset{last};
      SumIgnoresOrder(front, rest);
      SumConcat(b[..i], [last] + b[i + 1..]);
      SumConcat([last], b[i + 1..]);
      SumConcat(b[..i], b[i + 1..]);
      assert Sum([last]) == last by {
        SumAppend([], last);
        assert [] + [last] == [last];
      }
    }
  }

  /** A billed line: which one, and how many minor units. */
  datatype Billed = Billed(line: nat, minor: int)

  function MinorsOf(billed: seq<Billed>): seq<int> {
    seq(|billed|, i requires 0 <= i < |billed| => billed[i].minor)
  }

  lemma BilledAppend(billed: seq<Billed>, last: Billed)
    ensures Sum(MinorsOf(billed + [last])) == Sum(MinorsOf(billed)) + last.minor
  {
    SumAppend(MinorsOf(billed), last.minor);
    assert MinorsOf(billed + [last]) == MinorsOf(billed) + [last.minor];
  }

  predicate CarriedExactly(billed: seq<Billed>, residual: int, carriedIn: int, amounts: seq<int>) {
    Sum(MinorsOf(billed)) * 10_000 + residual == carriedIn + Sum(amounts)
  }

  lemma CarryStep(billed: seq<Billed>, residual: int, carriedIn: int, amounts: seq<int>,
                  next: Billed, amount: int, left: int)
    requires CarriedExactly(billed, residual, carriedIn, amounts)
    requires next.minor * 10_000 + left == amount + residual
    ensures CarriedExactly(billed + [next], left, carriedIn, amounts + [amount])
    ensures next.minor == 0 ==> CarriedExactly(billed, left, carriedIn, amounts + [amount])
  {
    SumAppend(amounts, amount);
    BilledAppend(billed, next);
  }

  /** Lines below n, in their order, none of them empty. */
  predicate Numbered(billed: seq<Billed>, n: nat) {
    && (forall i :: 0 <= i < |billed| ==> billed[i].minor != 0 && billed[i].line < n)
    && (forall i, j :: 0 <= i < j < |billed| ==> billed[i].line < billed[j].line)
  }

  /**
   Each line is floored with the remainder of the one before it. However many
   lines there are and however they fall: nothing is lost, what is billed is
   the floor of the grand total, and what is left is its remainder. A line that
   comes to no minor units is not billed.
   */
  method BillLines(amounts: seq<int>, carriedIn: int, currency: string)
    returns (billed: seq<Billed>, residual: int)
    requires MinorUnits(currency).Ok?
    ensures Sum(MinorsOf(billed)) * MinorUnits(currency).value + residual == carriedIn + Sum(amounts)
    ensures amounts != [] ==> 0 <= residual < MinorUnits(currency).value
    ensures amounts != [] ==> ToMinor(carriedIn + Sum(amounts), currency) == Ok((Sum(MinorsOf(billed)), residual))
    ensures amounts == [] ==> billed == [] && residual == carriedIn
    ensures Numbered(billed, |amounts|)
  {
    billed, residual := [], carriedIn;
    for i := 0 to |amounts|
      invariant CarriedExactly(billed, residual, carriedIn, amounts[..i])
      invariant i > 0 ==> 0 <= residual < 10_000
      invariant i == 0 ==> billed == [] && residual == carriedIn
      invariant Numbered(billed, i)
    {
      var parts := ToMinor(amounts[i] + residual, currency).value;
      CarryStep(billed, residual, carriedIn, amounts[..i], Billed(i, parts.0), amounts[i], parts.1);
      assert amounts[..i + 1] == amounts[..i] + [amounts[i]];
      residual := parts.1;
      if parts.0 != 0 {
        billed := billed + [Billed(i, parts.0)];
      }
    }
    assert amounts[..|amounts|] == amounts;
  }

  /** What two streams bill is the same however their amounts are ordered or batched. */
  lemma BillingIgnoresOrder(a: seq<int>, b: seq<int>, carriedIn: int, currency: string)
    requires MinorUnits(currency).Ok? && multiset(a) == multiset(b)
    ensures ToMinor(carriedIn + Sum(a), currency) == ToMinor(carriedIn + Sum(b), currency)
  {
    SumIgnoresOrder(a, b);
  }

  lemma BillingIgnoresBatching(a: seq<int>, b: seq<int>, carriedIn: int, currency: string)
    requires MinorUnits(currency).Ok?
    ensures var first := ToMinor(carriedIn + Sum(a), currency).value;
            var second := ToMinor(first.1 + Sum(b), currency).value;
            ToMinor(carriedIn + Sum(a + b), currency) == Ok((first.0 + second.0, second.1))
  {
    SumConcat(a, b);
  }

  // ----- rounding ------------------------------------------------------------------------

  function Abs(n: int): (r: int)
    ensures r >= 0
  {
    if n < 0 then -n else n
  }

  function Magnitude(n: int, d: int): int
    requires d > 0
  {
    (Abs(n) + d / 2) / d
  }

  function RoundCharge(n: int, d: int): Result<int, Fault> {
    if d <= 0 then Err(BadDenominator)
    else if n < 0 then Ok(-Magnitude(n, d))
    else Ok(Magnitude(n, d))
  }

  function RoundCeiling(n: int, d: int): Result<int, Fault> {
    if d <= 0 then Err(BadDenominator) else Ok(n / d)
  }

  /** `r` is a nearest integer to `n / d`, and where two are, the one away from zero. */
  predicate IsNearest(n: int, d: int, r: int) {
    || 2 * Abs(r * d - n) < d
    || (2 * Abs(r * d - n) == d && Abs(r * d) > Abs(n))
  }

  /** Two nearest integers would be a tie about `n / d`, and only one of a tie lies away from zero. */
  lemma NearestIsNotAbove(n: int, d: int, r: int, s: int, x: int, y: int)
    requires d > 0 && x == r * d && y == s * d
    requires IsNearest(n, d, r) && IsNearest(n, d, s)
    ensures r <= s
  {
    if r > s {
      assert (r - s) * d == x - y;
      assert (-s) * d == -y;
      if s <= -1 {
        MulAtLeast(-s, d);
      }
      if r >= 1 {
        MulAtLeast(r, d);
      }
      MulAtLeast(r - s, d);
    }
  }

  lemma NearestIsUnique(n: int, d: int, r: int, s: int)
    requires d > 0 && IsNearest(n, d, r) && IsNearest(n, d, s)
    ensures r == s
  {
    NearestIsNotAbove(n, d, r, s, r * d, s * d);
    NearestIsNotAbove(n, d, s, r, s * d, r * d);
  }

  lemma MagnitudeIsNearest(n: int, d: int)
    requires d > 0
    ensures IsNearest(Abs(n), d, Magnitude(n, d)) && Magnitude(n, d) >= 0
  {
    var q, r := (Abs(n) + d / 2) / d, (Abs(n) + d / 2) % d;
    assert Abs(n) + d / 2 == q * d + r;
    assert d == 2 * (d / 2) || d == 2 * (d / 2) + 1;
    Arithmetic.DivAtLeast(Abs(n) + d / 2, d, 0);
  }

  lemma NearestIsOdd(n: int, d: int, r: int)
    ensures IsNearest(-n, d, -r) <==> IsNearest(n, d, r)
  {
    assert (-r) * d == -(r * d);
  }

  /** R1: the nearest whole micro, a tie away from zero, and that alone. */
  lemma RoundChargeIsNearest(n: int, d: int, r: int)
    requires d > 0
    ensures RoundCharge(n, d) == Ok(r) <==> IsNearest(n, d, r)
  {
    var rounded := RoundCharge(n, d).value;
    MagnitudeIsNearest(n, d);
    if n < 0 {
      NearestIsOdd(-n, d, Magnitude(n, d));
    }
    if IsNearest(n, d, r) {
      NearestIsUnique(n, d, r, rounded);
    }
  }

  lemma RoundChargeIsOdd(n: int, d: int)
    requires d > 0
    ensures RoundCharge(-n, d) == Ok(-RoundCharge(n, d).value)
  {
  }

  lemma NearestScales(n: int, d: int, k: int, r: int)
    requires d > 0 && k > 0
    ensures IsNearest(n * k, d * k, r) <==> IsNearest(n, d, r)
  {
    var x, y := r * d - n, r * d;
    assert r * (d * k) == y * k;
    assert y * k - n * k == x * k;
    AbsScales(x, k);
    AbsScales(y, k);
    AbsScales(n, k);
    ScaledComparisons(Abs(x), Abs(y), Abs(n), d, k);
  }

  lemma ScaledComparisons(x: int, y: int, n: int, d: int, k: int)
    requires k > 0
    ensures 2 * (x * k) < d * k <==> 2 * x < d
    ensures 2 * (x * k) == d * k <==> 2 * x == d
    ensures y * k > n * k <==> y > n
  {
    assert 2 * (x * k) == (2 * x) * k;
    ScaleKeepsOrder(2 * x, d, k);
    ScaleKeepsOrder(n, y, k);
  }

  lemma AbsScales(x: int, k: int)
    requires k > 0
    ensures Abs(x * k) == Abs(x) * k
  {
    assert (-x) * k == -(x * k);
    if x < 0 {
      MulAtLeast(-x, k);
    } else if x > 0 {
      MulAtLeast(x, k);
    }
  }

  lemma ScaleKeepsOrder(a: int, b: int, k: int)
    requires k > 0
    ensures a * k < b * k <==> a < b
    ensures a * k == b * k <==> a == b
  {
    assert (b - a) * k == b * k - a * k;
    assert (a - b) * k == a * k - b * k;
    if a < b {
      MulAtLeast(b - a, k);
    } else if b < a {
      MulAtLeast(a - b, k);
    }
  }

  lemma RoundChargeScales(n: int, d: int, k: int)
    requires d > 0 && k > 0
    ensures d * k > 0 && RoundCharge(n * k, d * k) == RoundCharge(n, d)
  {
    MulAtLeast(k, d);
    var r := RoundCharge(n, d).value;
    RoundChargeIsNearest(n, d, r);
    NearestScales(n, d, k, r);
    RoundChargeIsNearest(n * k, d * k, r);
  }

  /** The same rational, however it is written, rounds to the same amount. */
  lemma RoundChargeReadsTheRational(n: int, d: int, m: int, e: int)
    requires d > 0 && e > 0 && n * e == m * d
    ensures RoundCharge(n, d) == RoundCharge(m, e)
  {
    RoundChargeScales(n, d, e);
    RoundChargeScales(m, e, d);
    assert d * e == e * d;
  }

  lemma RoundChargeAscendsOver(n: int, m: int, d: int)
    requires d > 0 && n <= m
    ensures RoundCharge(n, d).value <= RoundCharge(m, d).value
  {
    MagnitudeIsNearest(n, d);
    MagnitudeIsNearest(m, d);
    if 0 <= n {
      DivMonotone(Abs(n) + d / 2, Abs(m) + d / 2, d);
    } else if m < 0 {
      DivMonotone(Abs(m) + d / 2, Abs(n) + d / 2, d);
    }
  }

  /** A larger rational never rounds to a smaller amount. */
  lemma RoundChargeAscends(n: int, d: int, m: int, e: int)
    requires d > 0 && e > 0 && n * e <= m * d
    ensures RoundCharge(n, d).value <= RoundCharge(m, e).value
  {
    RoundChargeScales(n, d, e);
    RoundChargeScales(m, e, d);
    assert d * e == e * d;
    RoundChargeAscendsOver(n * e, m * d, d * e);
  }

  /** R4: a ceiling is the floor, never above the charge and at most one below it. */
  lemma CeilingTrailsCharge(n: int, d: int)
    requires d > 0
    ensures RoundCeiling(n, d).value * d <= n < (RoundCeiling(n, d).value + 1) * d
    ensures RoundCeiling(n, d).value <= RoundCharge(n, d).value <= RoundCeiling(n, d).value + 1
  {
    var floor := n / d;
    assert n == floor * d + n % d;
    assert (floor + 1) * d == floor * d + d;
    RoundChargeIsNearest(n, d, RoundCharge(n, d).value);
    NearestIsBesideFloor(n, d, floor, RoundCharge(n, d).value);
  }

  lemma NearestIsBesideFloor(n: int, d: int, floor: int, r: int)
    requires d > 0 && floor * d <= n < floor * d + d && IsNearest(n, d, r)
    ensures floor <= r <= floor + 1
  {
    var gap := r - floor;
    assert gap * d == r * d - floor * d;
    if gap >= 2 {
      assert (gap - 1) * d == gap * d - d;
      MulAtLeast(gap - 1, d);
    } else if gap <= -1 {
      assert (-gap) * d == -(gap * d);
      MulAtLeast(-gap, d);
    }
  }

  // ----- lines and their reversals -----------------------------------------------------------

  /** A price line: an exact rational. */
  datatype Line = Line(n: int, d: int)

  predicate Priced(lines: seq<Line>) {
    forall i :: 0 <= i < |lines| ==> lines[i].d > 0
  }

  function Charges(lines: seq<Line>): seq<int>
    requires Priced(lines)
  {
    seq(|lines|, i requires 0 <= i < |lines| => RoundCharge(lines[i].n, lines[i].d).value)
  }

  function Reversal(lines: seq<Line>): (r: seq<Line>)
    requires Priced(lines)
    ensures Priced(r)
  {
    seq(|lines|, i requires 0 <= i < |lines| => Line(-lines[i].n, lines[i].d))
  }

  /** A report and its equal-and-opposite reversal cancel to the micro. */
  lemma {:induction false} ReversalCancels(lines: seq<Line>)
    requires Priced(lines)
    ensures Sum(Charges(lines)) + Sum(Charges(Reversal(lines))) == 0
  {
    if lines == [] {
    } else {
      var front, last := lines[..|lines| - 1], lines[|lines| - 1];
      ReversalCancels(front);
      RoundChargeIsOdd(last.n, last.d);
      assert Charges(lines)[..|lines| - 1] == Charges(front);
      assert Charges(Reversal(lines))[..|lines| - 1] == Charges(Reversal(front));
    }
  }
}
