/**
 The option spread payoff evaluator of the spread widget: the PnL of one leg
 at a hypothetical underlying price, the PnL of a whole spread, and the PnL
 series over a grid of prices.

 Prices, strikes, contract sizes and last prices are exact reals; positions
 are integers. `LegPnl`, `SpreadPnl` and `PnlSeries` assume every symbol
 resolves; `TryLegPnl`, `TrySpreadPnl` and `TryPnlSeries` model what happens
 when the engine returns nothing for a symbol.
 */
module SpreadEvaluator {
  import opened Wrappers
  import opened Errors
  import opened Engine
  import opened PyDict

  function Max(a: real, b: real): real {
    if a >= b then a else b
  }

  /** The value of one unit of the contract when the underlying is at `price`:
      the intrinsic value of a call or a put, the price itself for anything else. */
  function UnitValue(c: Contract, price: real): (u: real)
    ensures c.optionType == Call ==> u >= 0.0 && u >= price - c.strike && (u == 0.0 || u == price - c.strike)
    ensures c.optionType == Put ==> u >= 0.0 && u >= c.strike - price && (u == 0.0 || u == c.strike - price)
    ensures c.optionType == NoOptionType ==> u == price
  {
    match c.optionType
    case Call => Max(price - c.strike, 0.0)
    case Put => Max(c.strike - price, 0.0)
    case NoOptionType => price
  }

  /** The PnL of holding `pos` of `symbol` if the underlying moved to `price`,
      measured against the last traded price of the leg. */
  function LegPnl(m: Market, symbol: string, pos: int, price: real): real
    requires m.Knows(symbol)
  {
    var c := m.contracts[symbol];
    (UnitValue(c, price) - m.lastPrices[symbol]) * c.size * pos as real
  }

  /** The error raised when `symbol` does not resolve: the contract is read first. */
  function LookupError(m: Market, symbol: string): Error
    requires !m.Knows(symbol)
  {
    if symbol !in m.contracts then ContractNotFound(symbol) else TickNotFound(symbol)
  }

  /** One leg's PnL, or the error of dereferencing a missing contract or tick. */
  function TryLegPnl(m: Market, symbol: string, pos: int, price: real): Result<real, Error>
  {
    if m.Knows(symbol) then Success(LegPnl(m, symbol, pos, price))
    else Failure(LookupError(m, symbol))
  }

  /** Evaluating one leg is evaluating the one-leg spread made of it. */
  lemma TryLegPnlIsOneLegSpread(m: Market, symbol: string, pos: int, price: real)
    ensures TryLegPnl(m, symbol, pos, price) == TrySpreadPnl(m, [Entry(symbol, pos)], price)
  {
    var d := [Entry(symbol, pos)];
    assert d[1..] == [];
    assert Keys(d) == {symbol};
  }

  /** Whether a leg raises, and what it raises, depends on its symbol only: the
      position and the price play no part in the lookups. */
  lemma TryLegErrorIgnoresInputs(m: Market, symbol: string, pos: int, price: real, pos': int, price': real)
    ensures TryLegPnl(m, symbol, pos, price).Failure? <==> TryLegPnl(m, symbol, pos', price').Failure?
    ensures TryLegPnl(m, symbol, pos, price).Failure? ==>
      TryLegPnl(m, symbol, pos, price) == TryLegPnl(m, symbol, pos', price')
  {
  }

  /** A product of two non-negative reals is non-negative. */
  lemma MulNonNeg(a: real, b: real)
    requires a >= 0.0 && b >= 0.0
    ensures a * b >= 0.0
  {
  }

  /** A product with a positive factor is zero only when the other factor is. */
  lemma MulZero(a: real, b: real)
    requires b > 0.0 && a * b == 0.0
    ensures a == 0.0
  {
  }

  // ---------------------------------------------------------------------------
  // Single legs

  /** The payoff of each kind of leg, written out case by case: a call is worth
      `price - strike` above the strike and nothing below it, a put the mirror
      image, and any other contract moves one for one with the price. */
  lemma LegPnlCases(m: Market, symbol: string, pos: int, price: real)
    requires m.Knows(symbol)
    ensures var c, last := m.contracts[symbol], m.lastPrices[symbol];
      var r := LegPnl(m, symbol, pos, price);
      && (c.optionType == Call && price >= c.strike ==> r == (price - c.strike - last) * c.size * pos as real)
      && (c.optionType == Call && price <= c.strike ==> r == -last * c.size * pos as real)
      && (c.optionType == Put && price <= c.strike ==> r == (c.strike - price - last) * c.size * pos as real)
      && (c.optionType == Put && price >= c.strike ==> r == -last * c.size * pos as real)
      && (c.optionType == NoOptionType ==> r == (price - last) * c.size * pos as real)
  {
  }

  /** The strike of a leg that is not a call or a put has no effect on its PnL. */
  lemma StrikeIgnoredForLinearLeg(m: Market, symbol: string, strike: real, pos: int, price: real)
    requires m.Knows(symbol) && m.contracts[symbol].optionType == NoOptionType
    ensures var c := m.contracts[symbol];
      var m' := m.(contracts := m.contracts[symbol := c.(strike := strike)]);
      m'.Knows(symbol) && LegPnl(m', symbol, pos, price) == LegPnl(m, symbol, pos, price)
  {
  }

  /** Leg PnL is linear in the position: it is the position times the PnL of a
      single unit, so no position gives nothing and an opposite position gives
      the opposite PnL. */
  lemma LegPnlLinear(m: Market, symbol: string, pos: int, price: real)
    requires m.Knows(symbol)
    ensures LegPnl(m, symbol, pos, price) == pos as real * LegPnl(m, symbol, 1, price)
    ensures LegPnl(m, symbol, 0, price) == 0.0
    ensures LegPnl(m, symbol, -pos, price) == -LegPnl(m, symbol, pos, price)
  {
    var c := m.contracts[symbol];
    var u := UnitValue(c, price) - m.lastPrices[symbol];
    assert u * c.size * pos as real == pos as real * (u * c.size * 1 as real);
    assert u * c.size * (-pos) as real == -(u * c.size * pos as real);
  }

  /** Multiplying a position by a factor multiplies its PnL by that factor. */
  lemma LegPnlScale(m: Market, symbol: string, pos: int, factor: int, price: real)
    requires m.Knows(symbol)
    ensures LegPnl(m, symbol, factor * pos, price) == factor as real * LegPnl(m, symbol, pos, price)
  {
    var c := m.contracts[symbol];
    var k := (UnitValue(c, price) - m.lastPrices[symbol]) * c.size;
    assert (factor * pos) as real == factor as real * pos as real;
    assert k * (factor as real * pos as real) == factor as real * (k * pos as real);
  }

  /** Splitting a position in two splits its PnL in two. */
  lemma LegPnlAdditiveInPosition(m: Market, symbol: string, a: int, b: int, price: real)
    requires m.Knows(symbol)
    ensures LegPnl(m, symbol, a + b, price) == LegPnl(m, symbol, a, price) + LegPnl(m, symbol, b, price)
  {
    var c := m.contracts[symbol];
    var k := (UnitValue(c, price) - m.lastPrices[symbol]) * c.size;
    assert k * (a + b) as real == k * a as real + k * b as real;
  }

  /** A long option position loses at most what its premium at the last price
      is worth, because intrinsic value never goes below zero; the bound is
      reached exactly when the option expires worthless. */
  lemma LongOptionLossBounded(m: Market, symbol: string, pos: int, price: real)
    requires m.Knows(symbol)
    requires m.contracts[symbol].optionType != NoOptionType
    requires pos > 0 && m.contracts[symbol].size > 0.0
    ensures var c, last := m.contracts[symbol], m.lastPrices[symbol];
      && LegPnl(m, symbol, pos, price) >= -last * c.size * pos as real
      && (UnitValue(c, price) == 0.0 <==> LegPnl(m, symbol, pos, price) == -last * c.size * pos as real)
  {
    var c, last := m.contracts[symbol], m.lastPrices[symbol];
    var k := c.size * pos as real;
    var u := UnitValue(c, price);
    MulNonNeg(c.size, pos as real);
    assert k > 0.0;
    MulNonNeg(u, k);
    assert LegPnl(m, symbol, pos, price) == (u - last) * k == u * k - last * k;
    if LegPnl(m, symbol, pos, price) == -last * k {
      MulZero(u, k);
    }
  }

  /** With a non-negative exposure (`size * pos >= 0`), a higher underlying price
      never lowers the PnL of a call or of a linear leg, and never raises the PnL
      of a put. */
  lemma LegPnlMonotone(m: Market, symbol: string, pos: int, lo: real, hi: real)
    requires m.Knows(symbol)
    requires lo <= hi
    requires m.contracts[symbol].size * pos as real >= 0.0
    ensures m.contracts[symbol].optionType != Put ==> LegPnl(m, symbol, pos, lo) <= LegPnl(m, symbol, pos, hi)
    ensures m.contracts[symbol].optionType == Put ==> LegPnl(m, symbol, pos, lo) >= LegPnl(m, symbol, pos, hi)
  {
    var c, last := m.contracts[symbol], m.lastPrices[symbol];
    var k := c.size * pos as real;
    var ul, uh := UnitValue(c, lo), UnitValue(c, hi);
    assert LegPnl(m, symbol, pos, lo) == (ul - last) * k;
    assert LegPnl(m, symbol, pos, hi) == (uh - last) * k;
    if c.optionType == Put {
      assert ul >= uh;
      MulNonNeg(ul - uh, k);
    } else {
      assert ul <= uh;
      MulNonNeg(uh - ul, k);
    }
  }

  /** Put-call parity of the payoffs: long a call and short a put of the same
      strike and size moves like the underlying, offset by the strike and the
      two last prices, whatever the price. */
  lemma PutCallParity(m: Market, call: string, put: string, pos: int, price: real)
    requires m.Knows(call) && m.Knows(put)
    requires m.contracts[call].optionType == Call && m.contracts[put].optionType == Put
    requires m.contracts[call].strike == m.contracts[put].strike
    requires m.contracts[call].size == m.contracts[put].size
    ensures var k, size := m.contracts[call].strike, m.contracts[call].size;
      LegPnl(m, call, pos, price) + LegPnl(m, put, -pos, price)
        == (price - k - m.lastPrices[call] + m.lastPrices[put]) * size * pos as real
  {
    var k, size := m.contracts[call].strike, m.contracts[call].size;
    var uc, up := UnitValue(m.contracts[call], price), UnitValue(m.contracts[put], price);
    assert uc - up == price - k;
    var q := size * pos as real;
    assert LegPnl(m, call, pos, price) == (uc - m.lastPrices[call]) * q;
    assert LegPnl(m, put, -pos, price) == -((up - m.lastPrices[put]) * q);
    assert (uc - m.lastPrices[call]) * q - (up - m.lastPrices[put]) * q
        == (uc - up - m.lastPrices[call] + m.lastPrices[put]) * q;
  }

  // ---------------------------------------------------------------------------
  // Spreads

  /** Every leg of the spread resolves in the engine. */
  predicate Resolves(m: Market, d: Dict) {
    forall k :: k in Keys(d) ==> m.Knows(k)
  }

  /** The spread PnL: the leg PnLs added up in the dict's iteration order. */
  function SpreadPnl(m: Market, d: Dict, price: real): real
    requires Resolves(m, d)
  {
    if d == [] then 0.0 else LegPnl(m, d[0].key, d[0].value, price) + SpreadPnl(m, d[1..], price)
  }

  /** The spread PnL, or the error of the first leg (in iteration order) that does
      not resolve; the legs before it are computed and discarded. */
  function TrySpreadPnl(m: Market, d: Dict, price: real): (r: Result<real, Error>)
    ensures r.Success? <==> Resolves(m, d)
    ensures r.Success? ==> r.value == SpreadPnl(m, d, price)
    ensures r.Failure? ==>
      exists i :: (&& 0 <= i < |d| && !m.Knows(d[i].key)
                   && (forall j :: 0 <= j < i ==> m.Knows(d[j].key))
                   && r.error == LookupError(m, d[i].key))
  {
    if d == [] then Success(0.0)
    else
      match TryLegPnl(m, d[0].key, d[0].value, price)
      case Failure(e) => Failure(e)
      case Success(leg) =>
        var rest := TrySpreadPnl(m, d[1..], price);
        assert forall i :: 1 <= i < |d| ==> d[i] == d[1..][i - 1];
        match rest
        case Failure(e) =>
          assert exists i :: (&& 1 <= i < |d| && !m.Knows(d[i].key)
                              && (forall j :: 0 <= j < i ==> m.Knows(d[j].key))
                              && e == LookupError(m, d[i].key)) by {
            var i :| 0 <= i < |d[1..]| && !m.Knows(d[1..][i].key)
              && (forall j :: 0 <= j < i ==> m.Knows(d[1..][j].key))
              && e == LookupError(m, d[1..][i].key);
            assert d[i + 1] == d[1..][i];
          }
          Failure(e)
        case Success(v) => Success(leg + v)
  }

  /** An empty spread is worth nothing at any price. */
  lemma EmptySpread(m: Market, price: real)
    ensures Resolves(m, []) && SpreadPnl(m, [], price) == 0.0
  {
  }

  /** A one-leg spread is worth exactly that leg. */
  lemma SingleLegSpread(m: Market, e: Entry, price: real)
    requires m.Knows(e.key)
    ensures Resolves(m, [e]) && SpreadPnl(m, [e], price) == LegPnl(m, e.key, e.value, price)
  {
    assert [e][1..] == [];
  }

  /** Spread PnL adds up over a split of the legs into a front and a back part. */
  lemma {:induction false} SpreadPnlAppend(m: Market, a: Dict, b: Dict, price: real)
    requires Resolves(m, a) && Resolves(m, b)
    ensures Resolves(m, a + b)
    ensures SpreadPnl(m, a + b, price) == SpreadPnl(m, a, price) + SpreadPnl(m, b, price)
  {
    KeysAppend(a, b);
    if a == [] {
      assert a + b == b;
    } else {
      assert (a + b)[1..] == a[1..] + b;
      SpreadPnlAppend(m, a[1..], b, price);
    }
  }

  /** Two spreads on disjoint symbols merge into one dict whose PnL is the sum
      of theirs. */
  lemma DisjointSpreadsAdd(m: Market, a: Dict, b: Dict, price: real)
    requires DistinctKeys(a) && DistinctKeys(b) && Keys(a) !! Keys(b)
    requires Resolves(m, a) && Resolves(m, b)
    ensures DistinctKeys(a + b) && ToMap(a + b) == ToMap(a) + ToMap(b)
    ensures Resolves(m, a + b)
    ensures SpreadPnl(m, a + b, price) == SpreadPnl(m, a, price) + SpreadPnl(m, b, price)
  {
    DisjointConcat(a, b);
    SpreadPnlAppend(m, a, b, price);
  }

  /** Taking out the leg at index `i` takes its PnL out of the spread PnL. */
  lemma SpreadPnlRemoveAt(m: Market, d: Dict, i: nat, price: real)
    requires Resolves(m, d)
    requires i < |d|
    ensures m.Knows(d[i].key) && Resolves(m, d[..i] + d[i + 1..])
    ensures SpreadPnl(m, d, price) == LegPnl(m, d[i].key, d[i].value, price) + SpreadPnl(m, d[..i] + d[i + 1..], price)
  {
    var front, back := d[..i], d[i + 1..];
    assert d == front + ([d[i]] + back);
    KeysAppend(front, [d[i]] + back);
    KeysAppend([d[i]], back);
    assert [d[i]][1..] == [];
    SpreadPnlAppend(m, front, [d[i]] + back, price);
    SpreadPnlAppend(m, [d[i]], back, price);
    SpreadPnlAppend(m, front, back, price);
  }

  /** The spread PnL depends only on the symbol-to-position mapping, not on the
      order in which the dict holds its legs. */
  lemma {:induction false} SpreadPnlOrderIndependent(m: Market, a: Dict, b: Dict, price: real)
    requires DistinctKeys(a) && DistinctKeys(b) && ToMap(a) == ToMap(b)
    requires Resolves(m, a)
    ensures Resolves(m, b)
    ensures SpreadPnl(m, a, price) == SpreadPnl(m, b, price)
    decreases |a|
  {
    assert Keys(a) == Keys(b);
    if a != [] {
      var k := a[0].key;
      KeysAt(b, k);
      var i :| 0 <= i < |b| && b[i].key == k;
      ToMapAt(b, i);
      ToMapRemove(b, i);
      SpreadPnlRemoveAt(m, b, i, price);
      SpreadPnlOrderIndependent(m, a[1..], b[..i] + b[i + 1..], price);
    }
  }

  /** The opposite spread: every leg with its position negated. */
  function Reverse(d: Dict): (r: Dict)
    ensures Keys(r) == Keys(d)
    ensures |r| == |d|
    ensures forall i :: 0 <= i < |d| ==> r[i] == Entry(d[i].key, -d[i].value)
  {
    if d == [] then [] else [Entry(d[0].key, -d[0].value)] + Reverse(d[1..])
  }

  /** Taking the opposite side of every leg turns the spread PnL into its negation
      at every price. */
  lemma {:induction false} ReverseNegatesPnl(m: Market, d: Dict, price: real)
    requires Resolves(m, d)
    ensures Resolves(m, Reverse(d))
    ensures SpreadPnl(m, Reverse(d), price) == -SpreadPnl(m, d, price)
  {
    var r := Reverse(d);
    if d != [] {
      assert r == [Entry(d[0].key, -d[0].value)] + Reverse(d[1..]);
      assert r[1..] == Reverse(d[1..]);
      ReverseNegatesPnl(m, d[1..], price);
      LegPnlLinear(m, d[0].key, d[0].value, price);
    }
  }

  // ---------------------------------------------------------------------------
  // Series over a price grid

  /** The PnL curve: the spread PnL at each price, in the order of the prices. */
  function PnlSeries(m: Market, d: Dict, prices: seq<real>): (s: seq<real>)
    requires Resolves(m, d)
    ensures |s| == |prices|
    ensures forall i :: 0 <= i < |prices| ==> s[i] == SpreadPnl(m, d, prices[i])
  {
    if prices == [] then []
    else [SpreadPnl(m, d, prices[0])] + PnlSeries(m, d, prices[1..])
  }

  /** The curve, or the error the first evaluation raised. Nothing is looked up
      when there are no prices, so an empty grid never raises. */
  function TryPnlSeries(m: Market, d: Dict, prices: seq<real>): (r: Result<seq<real>, Error>)
    ensures prices == [] ==> r == Success([])
    ensures prices != [] ==> (r.Success? <==> Resolves(m, d))
    ensures r.Success? && Resolves(m, d) ==> r.value == PnlSeries(m, d, prices)
    ensures r.Failure? ==> TrySpreadPnl(m, d, prices[0]) == Failure(r.error)
  {
    if prices == [] then Success([])
    else
      match TrySpreadPnl(m, d, prices[0])
      case Failure(e) => Failure(e)
      case Success(v) =>
        match TryPnlSeries(m, d, prices[1..])
        case Failure(e) => Failure(e)
        case Success(rest) => Success([v] + rest)
  }

  /** The curve over two grids one after the other is the two curves one after
      the other. */
  lemma PnlSeriesAppend(m: Market, d: Dict, p: seq<real>, q: seq<real>)
    requires Resolves(m, d)
    ensures PnlSeries(m, d, p + q) == PnlSeries(m, d, p) + PnlSeries(m, d, q)
  {
    var l, r := PnlSeries(m, d, p + q), PnlSeries(m, d, p) + PnlSeries(m, d, q);
    assert |l| == |r|;
    forall i | 0 <= i < |l| ensures l[i] == r[i] {
      if i < |p| { assert (p + q)[i] == p[i]; } else { assert (p + q)[i] == q[i - |p|]; }
    }
  }

  /** The curve of two spreads on disjoint symbols merged into one is the
      pointwise sum of their curves. */
  lemma PnlSeriesDisjointSum(m: Market, a: Dict, b: Dict, prices: seq<real>)
    requires DistinctKeys(a) && DistinctKeys(b) && Keys(a) !! Keys(b)
    requires Resolves(m, a) && Resolves(m, b)
    ensures Resolves(m, a + b)
    ensures var s, sa, sb := PnlSeries(m, a + b, prices), PnlSeries(m, a, prices), PnlSeries(m, b, prices);
      forall i :: 0 <= i < |prices| ==> s[i] == sa[i] + sb[i]
  {
    KeysAppend(a, b);
    forall i | 0 <= i < |prices|
      ensures SpreadPnl(m, a + b, prices[i]) == SpreadPnl(m, a, prices[i]) + SpreadPnl(m, b, prices[i])
    {
      SpreadPnlAppend(m, a, b, prices[i]);
    }
  }
}
