# Option spread PnL evaluator

A Dafny model of the payoff evaluator in the option master's spread widget
(`OptionSpreadWidget`). The widget lets a trader enter up to four legs (a symbol
and a signed position each) and a start/stop/step price range. It then plots
the profit and loss of the combined position at each underlying price of the
range.

Modules, one per piece of the widget's logic:

- `Wrappers`, `Errors`: the `Option`/`Result` datatypes and the exceptions the
  computation can raise. These are a missing contract, a missing tick and a
  zero `range` step.
- `Engine`: the market data the widget reads through its main engine. Each
  symbol has a contract (option type, strike, size) and a last traded price.
  The engine is two maps.
- `PyDict`: the `spread_pos` dict. It is an insertion-ordered sequence of
  `symbol: position` entries with distinct keys, and `ToMap` is its unordered
  view. `SetItem` is `d[k] = v`.
- `PyRange`: `list(range(start, stop, step))` over integers.
- `SpreadEvaluator`: `calculate_leg_pnl`, `calculate_spread_pnl` and the
  list comprehension of `show_spread_pnls`. Each comes in two forms. The total
  form requires every symbol to resolve. The `Try` form returns the error that
  the source raises when a lookup returns nothing.
- `SpreadAnalysis`: `run_analysis`. It collects the leg rows into the dict,
  stops on an empty range field, builds the grid and computes the curve.
- `Scenarios`: worked examples. They cover the grid, a single call, a bull
  call spread, an unknown symbol, a repeated symbol and a whole run.

Prices, strikes, sizes and last prices are exact reals. Positions and range
bounds are integers.

Notes on behaviour, as the Python code has it:

- `range` raises on a zero step (`ZeroRangeStep`); it does not give an empty grid.
- A negative step gives a descending grid, strictly above `stop`.
- A symbol that does not resolve raises the error of whichever lookup came back
  empty. The contract is dereferenced first, so a missing contract is reported
  even when the tick is missing too.
- The dict keeps each symbol where its first row put it, and the spread loop
  visits the legs in that order, so the order of the rows decides which
  unresolved symbol is reported.
- Nothing requires underlying prices to be non-negative.

## Model

| member | source | states |
|---|---|---|
| SpreadEvaluator.UnitValue | vnpy/app/option_master/ui/spread.py:87-92 | A call's value is `max(P - strike, 0)`: it is at least 0 and at least `P - strike`, and equal to one of them. A put's value is the mirror image, and any other contract is worth `P`. |
| SpreadEvaluator.LegPnl | vnpy/app/option_master/ui/spread.py:82-95 | Definition of `calculate_leg_pnl` for a symbol that resolves, with no contract of its own; its properties are stated by the lemma rows `LegPnlCases` to `PutCallParity`. |
| SpreadEvaluator.LegPnlCases | vnpy/app/option_master/ui/spread.py:87-94 | A call is worth `(P - strike - last) * size * pos` at or above the strike and `-last * size * pos` at or below it. A put is the mirror image. Any other leg is `(P - last) * size * pos`. |
| SpreadEvaluator.StrikeIgnoredForLinearLeg | vnpy/app/option_master/ui/spread.py:91-92 | For a leg that is neither a call nor a put, changing the contract's strike leaves the PnL unchanged. |
| SpreadEvaluator.LegPnlLinear | vnpy/app/option_master/ui/spread.py:94 | Leg PnL is `pos` times the PnL of one unit. It is 0 for pos 0, and negating pos negates it. |
| SpreadEvaluator.LegPnlScale | vnpy/app/option_master/ui/spread.py:94 | Multiplying the position by a factor multiplies the leg PnL by that factor. |
| SpreadEvaluator.LegPnlAdditiveInPosition | vnpy/app/option_master/ui/spread.py:94 | The PnL of position `a + b` is the PnL of `a` plus the PnL of `b`. |
| SpreadEvaluator.LongOptionLossBounded | vnpy/app/option_master/ui/spread.py:87-94 | A long call or put with positive size never loses more than `last * size * pos`. The bound is reached exactly when intrinsic value is 0. |
| SpreadEvaluator.LegPnlMonotone | vnpy/app/option_master/ui/spread.py:87-94 | With `size * pos >= 0`, a higher price never lowers the PnL of a call or a linear leg, and never raises the PnL of a put. |
| SpreadEvaluator.PutCallParity | vnpy/app/option_master/ui/spread.py:87-94 | For a call and a put with equal strike and size, long the call plus short the put equals `(P - strike - lastCall + lastPut) * size * pos`. |
| SpreadEvaluator.LookupError | vnpy/app/option_master/ui/spread.py:84-92 | Definition of the error raised for a symbol that does not resolve, with no contract of its own: the contract is dereferenced first (line 87), so a missing contract is reported before a missing tick. Its behaviour is stated by the `TrySpreadPnl` and `TryLegErrorIgnoresInputs` rows. |
| SpreadEvaluator.TryLegPnl | vnpy/app/option_master/ui/spread.py:82-95 | Definition of `calculate_leg_pnl` including the error raised when a lookup returns `None`, with no contract of its own. Its properties are stated by the `TryLegPnlIsOneLegSpread`, `TryLegErrorIgnoresInputs` and `TrySpreadPnl` rows. |
| SpreadEvaluator.TryLegPnlIsOneLegSpread | vnpy/app/option_master/ui/spread.py:82-105 | Evaluating one leg, including the error it raises, is the same as evaluating the one-leg spread dict made of it. |
| SpreadEvaluator.TryLegErrorIgnoresInputs | vnpy/app/option_master/ui/spread.py:84-92 | Whether a leg raises, and which error it raises, depends only on its symbol, never on the position or the price. |
| SpreadEvaluator.SpreadPnl | vnpy/app/option_master/ui/spread.py:97-105 | Definition of `calculate_spread_pnl` for a spread whose legs all resolve, with no contract of its own; its properties are stated by the lemma rows `EmptySpread` to `ReverseNegatesPnl`. |
| SpreadEvaluator.TrySpreadPnl | vnpy/app/option_master/ui/spread.py:97-105 | It succeeds exactly when every leg resolves, and then it gives the spread PnL. Otherwise it raises the error of the first unresolved leg in dict order. |
| SpreadEvaluator.EmptySpread | vnpy/app/option_master/ui/spread.py:99-105 | An empty dict has PnL 0 at every price. |
| SpreadEvaluator.SingleLegSpread | vnpy/app/option_master/ui/spread.py:101-105 | A one-leg spread has exactly that leg's PnL. |
| SpreadEvaluator.SpreadPnlAppend | vnpy/app/option_master/ui/spread.py:101-103 | The PnL over legs `a` followed by legs `b` is the PnL of `a` plus the PnL of `b`. |
| SpreadEvaluator.DisjointSpreadsAdd | vnpy/app/option_master/ui/spread.py:97-105 | Dicts on disjoint symbols merge into a dict whose view is the map union. Its PnL is the sum of their PnLs. |
| SpreadEvaluator.SpreadPnlRemoveAt | vnpy/app/option_master/ui/spread.py:101-103 | Removing the leg at index `i` removes exactly that leg's PnL from the total. |
| SpreadEvaluator.SpreadPnlOrderIndependent | vnpy/app/option_master/ui/spread.py:101-105 | Two dicts with the same symbol-to-position map have the same PnL, whatever their insertion order. |
| SpreadEvaluator.ReverseNegatesPnl | vnpy/app/option_master/ui/spread.py:94-105 | Negating every leg's position negates the spread PnL. |
| SpreadEvaluator.PnlSeries | vnpy/app/option_master/ui/spread.py:107-109 | The curve has one value per price, in the same order. Element `i` is the spread PnL at `prices[i]`. |
| SpreadEvaluator.TryPnlSeries | vnpy/app/option_master/ui/spread.py:107-109 | An empty grid gives an empty curve and never raises. A non-empty grid succeeds exactly when every leg resolves. Otherwise it raises the first evaluation's error. |
| SpreadEvaluator.PnlSeriesAppend | vnpy/app/option_master/ui/spread.py:109 | The curve over two grids concatenated is the two curves concatenated. |
| SpreadEvaluator.PnlSeriesDisjointSum | vnpy/app/option_master/ui/spread.py:97-109 | The curve of two merged disjoint spreads is the pointwise sum of their curves. |
| PyDict.ToMap | vnpy/app/option_master/ui/spread.py:114-123 | The keys of the map view are the keys of the dict. |
| PyDict.SetItem | vnpy/app/option_master/ui/spread.py:123 | After `d[k] = v` the keys are the old keys plus `k`, and the dict stays free of duplicate keys. An existing key keeps its position and every key stays where it was. A new key is appended after the others. |
| PyDict.SetItemView | vnpy/app/option_master/ui/spread.py:123 | After `d[k] = v` the view maps `k` to `v` and every other key as before. |
| PyDict.ToMapAt | vnpy/app/option_master/ui/spread.py:101 | In a dict, the view maps each entry's key to that entry's position. |
| PyDict.ToMapRemove | vnpy/app/option_master/ui/spread.py:101 | Dropping an entry removes exactly its key from the view. |
| PyDict.DisjointConcat | vnpy/app/option_master/ui/spread.py:97-101 | Concatenating dicts with disjoint keys gives a dict whose view is the union of the views. |
| PyRange.Progression | vnpy/app/option_master/ui/spread.py:132-136 | Term `i` is `start + i * step`. Every term is strictly before `stop` in the step's direction, and the next term would not be. |
| PyRange.Range | vnpy/app/option_master/ui/spread.py:132-136 | It raises exactly when the step is 0, with `ZeroRangeStep`. Otherwise `x` is in the list if and only if it lies on the half-open interval from `start` towards `stop` and is a whole number of steps from `start`; the list starts at `start` and consecutive elements differ by exactly `step`. |
| PyRange.ProgressionBounds | vnpy/app/option_master/ui/spread.py:132-136 | With step > 0 every term is in `[start, stop)`. With step < 0 every term is in `(stop, start]`. Consecutive terms differ by exactly `step`. |
| PyRange.ProgressionMembership | vnpy/app/option_master/ui/spread.py:132-136 | `x` is in the grid if and only if it is on the half-open interval and a whole number of steps from `start`. |
| PyRange.ProgressionEmpty | vnpy/app/option_master/ui/spread.py:132-136 | The grid is empty exactly when `start >= stop` (step > 0) or `start <= stop` (step < 0). |
| SpreadAnalysis.ReadRow | vnpy/app/option_master/ui/spread.py:119-123 | A row with an empty symbol leaves the dict as it is. Otherwise the view maps the symbol to the row's position; a symbol already present keeps its place, and a new one is appended. |
| SpreadAnalysis.CollectLegs | vnpy/app/option_master/ui/spread.py:114-123 | The dict has distinct keys and no more entries than rows. Its keys are exactly the non-empty symbols of the rows. Each symbol maps to the position of the last row that names it. The entries are in the order in which their symbols first occur on the form. |
| SpreadAnalysis.CollectedUnique | vnpy/app/option_master/ui/spread.py:114-123 | Only one dict meets the contract of `CollectLegs`, so keys, positions and order are all fixed by the rows. |
| SpreadAnalysis.CollectStepKeys | vnpy/app/option_master/ui/spread.py:116-123 | Reading one more row adds its symbol to the keys when the symbol is non-empty, and only then. |
| SpreadAnalysis.CollectStepValues | vnpy/app/option_master/ui/spread.py:123 | After reading one more row, each symbol still maps to the position of its last row. |
| SpreadAnalysis.CollectStepOrder | vnpy/app/option_master/ui/spread.py:116-123 | After reading one more row, the entries are still in the order of their symbols' first rows. |
| SpreadAnalysis.CollectWithoutRepeats | vnpy/app/option_master/ui/spread.py:116-123 | When no symbol repeats, the dict is the non-empty rows in form order. |
| SpreadAnalysis.AtMostFourLegs | vnpy/app/option_master/ui/spread.py:52 | The four leg rows give at most four legs. |
| SpreadAnalysis.RunAnalysis | vnpy/app/option_master/ui/spread.py:112-138 | An empty range field means nothing is run. A zero step raises. With a filled form and a non-zero step, a run that succeeds always plots. The plotted prices are the range, and the curve has one PnL per price, computed from the collected legs. The run fails exactly when the grid is non-empty and some leg does not resolve, and the error is that of the first such leg. |
| Scenarios.GridExamples | vnpy/app/option_master/ui/spread.py:132-136 | `range(10, 20, 5)` is `[10, 15]`. `range(10, 10, 1)` and `range(20, 10, 5)` are empty. `range(20, 10, -5)` is `[20, 15]`. A zero step raises. |
| Scenarios.SingleCallCurve | vnpy/app/option_master/ui/spread.py:87-109 | A long call (strike 100, last price 2) over prices 90, 100, 110 gives -2, -2, 8. |
| Scenarios.BullCallSpread | vnpy/app/option_master/ui/spread.py:97-105 | Long the 100 call (last price 3) and short the 110 call (last price 1) gives 2 + 1 = 3 at price 105. |
| Scenarios.UnknownSymbolRaises | vnpy/app/option_master/ui/spread.py:84-87 | A symbol with no contract raises `ContractNotFound`, and no value is returned. |
| Scenarios.RepeatedSymbolRows | vnpy/app/option_master/ui/spread.py:116-123 | A repeated symbol takes the later row's position but keeps its first place. An empty row is skipped. |
| Scenarios.FirstRowDecidesError | vnpy/app/option_master/ui/spread.py:101-123 | Rows A:1, B:2, A:3 give the dict A:3, B:2, and on a market that knows neither symbol the spread raises on A. |
| Scenarios.TwoPointCurve | vnpy/app/option_master/ui/spread.py:107-109 | The curve of a call plus a future over 100 and 110 is -3, 27. |
| Scenarios.PlotsCurve | vnpy/app/option_master/ui/spread.py:132-138 | When the grid and the curve succeed, the run plots exactly them. |
| Scenarios.EndToEnd | vnpy/app/option_master/ui/spread.py:112-138 | The full run on a form with a repeated symbol and an empty row plots prices 100 and 110 against PnLs -3 and 27. |
| Scenarios.EmptyFieldDoesNothing | vnpy/app/option_master/ui/spread.py:129-130 | With an empty stop field nothing is computed, even for an unknown symbol. |

## Left out

- Widget construction and layout (`init_ui`): this is user interface only.
- Chart configuration and the `setData` call: these are rendering side effects. The model returns the prices and the curve that would be plotted (`Plotted`).
- The unused `contour` import: it is dead code.
- The engine's answers are taken as one snapshot for the whole run. The code reads the contract and the tick again for each leg at each price (`calculate_leg_pnl` is called from the spread loop inside the list comprehension), so a tick that arrives mid-run would change later points of the curve; that is not modelled, and `PnlSeries`, `PnlSeriesDisjointSum` and `RunAnalysis` hold only for an engine that does not change during the run.
- How the main engine finds contracts and ticks: the engine is not part of this model. Its answers are two maps, and a missing entry stands for a `None` return.
- Parsing of the text fields with `int()`: parse failures are library behaviour. An empty field is `None` and a filled one is already an integer.
- Floating-point rounding: all arithmetic is exact over the reals.
- The integer-versus-float type of the result: when the dict is empty, Python returns the integer `0` rather than a float. The model returns `0.0`.
- SpreadAnalysis.RunAnalysis: requires exactly four rows, because the widget always builds four leg rows.
