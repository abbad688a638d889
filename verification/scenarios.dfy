/** Worked examples of the evaluator and of the price grid. */
module Scenarios {
  import opened Wrappers
  import opened Errors
  import opened Engine
  import opened PyDict
  import opened PyRange
  import opened SpreadEvaluator
  import opened SpreadAnalysis

  /** Ascending, empty and wrong-direction grids, and the zero step. */
  lemma GridExamples()
    ensures Range(10, 20, 5) == Success([10, 15])
    ensures Range(10, 10, 1) == Success([])
    ensures Range(20, 10, 5) == Success([])
    ensures Range(20, 10, -5) == Success([20, 15])
    ensures Range(0, 5, 0) == Failure(ZeroRangeStep)
  {
    assert Progression(20, 20, 5) == [];
    assert Progression(15, 20, 5) == [15];
    assert Progression(10, 20, 5) == [10, 15];
    assert Progression(10, 10, -5) == [];
    assert Progression(15, 10, -5) == [15];
    assert Progression(20, 10, -5) == [20, 15];
  }

  /** A market with a call at 100 (last 3), a call at 110 (last 1), a call at 100
      with last price 2 and a future (last 100), all of size 1. */
  function Book(): Market {
    Market(
      map["C100" := Contract(Call, 100.0, 1.0), "C110" := Contract(Call, 110.0, 1.0),
          "C100b" := Contract(Call, 100.0, 1.0), "F" := Contract(NoOptionType, 0.0, 1.0)],
      map["C100" := 3.0, "C110" := 1.0, "C100b" := 2.0, "F" := 100.0])
  }

  /** One long call, strike 100, last price 2: below and at the strike only the
      premium is lost, above it the intrinsic value comes back. */
  lemma SingleCallCurve()
    ensures Book().Knows("C100b") && Resolves(Book(), [Entry("C100b", 1)])
    ensures PnlSeries(Book(), [Entry("C100b", 1)], [90.0, 100.0, 110.0]) == [-2.0, -2.0, 8.0]
  {
    var m, d := Book(), [Entry("C100b", 1)];
    assert Keys(d) == {"C100b"};
    var s := PnlSeries(m, d, [90.0, 100.0, 110.0]);
    assert s[0] == SpreadPnl(m, d, 90.0) == -2.0;
    assert s[1] == SpreadPnl(m, d, 100.0) == -2.0;
    assert s[2] == SpreadPnl(m, d, 110.0) == 8.0;
  }

  /** A bull call spread at 105: the long 100 call gains 5 - 3, the short 110
      call keeps its premium of 1, together 3. */
  lemma BullCallSpread()
    ensures Resolves(Book(), [Entry("C100", 1), Entry("C110", -1)])
    ensures LegPnl(Book(), "C100", 1, 105.0) == 2.0
    ensures LegPnl(Book(), "C110", -1, 105.0) == 1.0
    ensures SpreadPnl(Book(), [Entry("C100", 1), Entry("C110", -1)], 105.0) == 3.0
  {
    var d := [Entry("C100", 1), Entry("C110", -1)];
    assert d[1..] == [Entry("C110", -1)];
    assert d[1..][1..] == [];
  }

  /** A symbol the engine does not know makes the evaluation raise; nothing is
      returned. */
  lemma UnknownSymbolRaises()
    ensures TrySpreadPnl(Book(), [Entry("C100", 1), Entry("X", 2)], 105.0) == Failure(ContractNotFound("X"))
    ensures TryPnlSeries(Book(), [Entry("X", 2)], [100.0]) == Failure(ContractNotFound("X"))
  {
    var d := [Entry("C100", 1), Entry("X", 2)];
    assert d[1..] == [Entry("X", 2)];
    assert !Book().Knows("X");
  }

  /** The legs of a form with a repeated symbol and an empty row: the second
      "F" row wins but "F" keeps the place of its first row, and the empty row
      is skipped. */
  lemma RepeatedSymbolRows()
    ensures CollectLegs([Row("C100", 1), Row("F", 5), Row("", 7), Row("F", 2)])
      == [Entry("C100", 1), Entry("F", 2)]
  {
    var rows := [Row("C100", 1), Row("F", 5), Row("", 7), Row("F", 2)];
    assert rows[..3] == [Row("C100", 1), Row("F", 5), Row("", 7)];
    assert rows[..3][..2] == [Row("C100", 1), Row("F", 5)];
    assert rows[..3][..2][..1] == [Row("C100", 1)];
    assert [Row("C100", 1)][..0] == [];
    assert CollectLegs([Row("C100", 1)]) == [Entry("C100", 1)];
    assert CollectLegs(rows[..3][..2]) == [Entry("C100", 1), Entry("F", 5)] by {
      assert "F" !in Keys([Entry("C100", 1)]);
    }
    assert CollectLegs(rows[..3]) == [Entry("C100", 1), Entry("F", 5)];
    var d := [Entry("C100", 1), Entry("F", 5)];
    assert d[1..] == [Entry("F", 5)];
    assert SetItem(d, "F", 2) == [Entry("C100", 1), Entry("F", 2)];
  }

  /** A symbol repeated after another keeps its first place, so on a market that
      knows neither symbol it is the one whose lookup fails. */
  lemma FirstRowDecidesError()
    ensures CollectLegs([Row("A", 1), Row("B", 2), Row("A", 3)]) == [Entry("A", 3), Entry("B", 2)]
    ensures TrySpreadPnl(Market(map[], map[]), [Entry("A", 3), Entry("B", 2)], 0.0)
      == Failure(ContractNotFound("A"))
  {
    var rows := [Row("A", 1), Row("B", 2), Row("A", 3)];
    assert rows[..2] == [Row("A", 1), Row("B", 2)];
    assert rows[..2][..1] == [Row("A", 1)];
    assert [Row("A", 1)][..0] == [];
    assert CollectLegs([Row("A", 1)]) == [Entry("A", 1)];
    assert CollectLegs(rows[..2]) == [Entry("A", 1), Entry("B", 2)] by {
      assert "B" !in Keys([Entry("A", 1)]);
    }
    var d := [Entry("A", 1), Entry("B", 2)];
    assert d[1..] == [Entry("B", 2)];
    assert SetItem(d, "A", 3) == [Entry("A", 3), Entry("B", 2)];
  }

  /** The curve of the legs above over the grid 100, 110: at 100 only the
      call's premium is lost; at 110 the call is 10 in the money and the two
      futures gain 10 each. */
  lemma TwoPointCurve()
    ensures TryPnlSeries(Book(), [Entry("C100", 1), Entry("F", 2)], [100.0, 110.0]) == Success([-3.0, 27.0])
  {
    var m, d := Book(), [Entry("C100", 1), Entry("F", 2)];
    assert d[1..] == [Entry("F", 2)];
    assert Keys(d) == {"C100", "F"};
    assert SpreadPnl(m, d, 100.0) == -3.0;
    assert SpreadPnl(m, d, 110.0) == 27.0;
    var series := PnlSeries(m, d, [100.0, 110.0]);
    assert series == [-3.0, 27.0] by {
      assert |series| == 2 && series[0] == -3.0 && series[1] == 27.0;
    }
  }

  /** The grid from 100 below 120 in steps of 10. */
  lemma GridFrom100()
    ensures Progression(100, 120, 10) == [100, 110]
  {
    assert Progression(120, 120, 10) == [];
    assert Progression(110, 120, 10) == [110];
  }

  /** The action plots whatever the grid and the curve come to. */
  lemma PlotsCurve(m: Market, f: Form, d: Dict, prices: seq<int>, reals: seq<real>, pnls: seq<real>)
    requires |f.rows| == LegRows && RangeFilled(f) && f.step.value != 0
    requires CollectLegs(f.rows) == d
    requires Progression(f.start.value, f.stop.value, f.step.value) == prices
    requires AsReals(prices) == reals
    requires TryPnlSeries(m, d, reals) == Success(pnls)
    ensures RunAnalysis(m, f) == Success(Plotted(prices, pnls))
  {
  }

  /** The grid 100, 110 as reals. */
  lemma GridAsReals()
    ensures AsReals([100, 110]) == [100.0, 110.0]
  {
    assert [100, 110][1..] == [110];
  }

  /** The whole action on that form, with the grid from 100 below 120 in steps of 10. */
  lemma EndToEnd()
    ensures RunAnalysis(Book(), Form([Row("C100", 1), Row("F", 5), Row("", 7), Row("F", 2)],
                                     Some(100), Some(120), Some(10)))
      == Success(Plotted([100, 110], [-3.0, 27.0]))
  {
    RepeatedSymbolRows();
    GridFrom100();
    GridAsReals();
    TwoPointCurve();
    PlotsCurve(Book(), Form([Row("C100", 1), Row("F", 5), Row("", 7), Row("F", 2)], Some(100), Some(120), Some(10)),
               [Entry("C100", 1), Entry("F", 2)], [100, 110], [100.0, 110.0], [-3.0, 27.0]);
  }

  /** With the stop field left empty nothing is computed, even though the rows
      are filled in. */
  lemma EmptyFieldDoesNothing()
    ensures RunAnalysis(Book(), Form([Row("X", 1), Row("", 0), Row("", 0), Row("", 0)],
                                     Some(100), None, Some(10)))
      == Success(NotRun)
  {
  }
}
