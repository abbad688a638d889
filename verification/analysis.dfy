/**
 The "calculate" action of the spread widget: read up to four leg rows into a
 symbol-to-position dict, read the start/stop/step fields, build the price
 grid with `range`, and hand the PnL curve over that grid to the chart.
 Text fields are already parsed: an empty field is `None`, a filled one
 carries its integer.
 */
module SpreadAnalysis {
  import opened Wrappers
  import opened Errors
  import opened Engine
  import opened PyDict
  import opened PyRange
  import opened SpreadEvaluator

  /** The widget has four leg rows. */
  const LegRows := 4

  /** One leg row of the form: the symbol text and the parsed position. */
  datatype Row = Row(symbol: string, pos: int)

  /** Row `i` is the last row that names its symbol. */
  predicate LastRowFor(rows: seq<Row>, i: int)
    requires 0 <= i < |rows|
  {
    forall j :: i < j < |rows| ==> rows[j].symbol != rows[i].symbol
  }

  /** Some row carries symbol `k`. */
  ghost predicate Named(rows: seq<Row>, k: string) {
    exists i :: 0 <= i < |rows| && rows[i].symbol == k
  }

  /** The keys of `d` are exactly the non-empty symbols of the rows. */
  ghost predicate KeysFromRows(rows: seq<Row>, d: Dict) {
    forall k :: k in Keys(d) <==> k != "" && Named(rows, k)
  }

  /** Each non-empty symbol is mapped to the position of the last row that names it. */
  ghost predicate LastRowWins(rows: seq<Row>, d: Dict) {
    forall i :: 0 <= i < |rows| && rows[i].symbol != "" && LastRowFor(rows, i) ==>
      rows[i].symbol in ToMap(d) && ToMap(d)[rows[i].symbol] == rows[i].pos
  }

  /** The index of the first row that names `k`, or `|rows|` when none does. */
  function FirstRow(rows: seq<Row>, k: string): (n: nat)
    ensures n <= |rows|
    ensures n < |rows| ==> rows[n].symbol == k
    ensures forall q :: 0 <= q < n ==> rows[q].symbol != k
  {
    if rows == [] then 0
    else if rows[0].symbol == k then 0
    else 1 + FirstRow(rows[1..], k)
  }

  /** The entries of `d` appear in the order in which their symbols first occur
      on the form. */
  predicate FirstRowOrder(rows: seq<Row>, d: Dict) {
    forall i, j :: 0 <= i < j < |d| ==> FirstRow(rows, d[i].key) < FirstRow(rows, d[j].key)
  }

  /** `d` is what the rows describe: a dict with no more entries than rows, whose
      keys are the non-empty symbols, each mapped to its last row's position and
      placed where its first row put it. */
  ghost predicate Collected(rows: seq<Row>, d: Dict) {
    && DistinctKeys(d)
    && |d| <= |rows|
    && KeysFromRows(rows, d)
    && LastRowWins(rows, d)
    && FirstRowOrder(rows, d)
  }

  /** The dict after reading one more row. */
  function ReadRow(d: Dict, row: Row): (d': Dict)
    ensures Keys(d') == if row.symbol == "" then Keys(d) else Keys(d) + {row.symbol}
    ensures DistinctKeys(d) ==> DistinctKeys(d')
    ensures |d'| <= |d| + 1
    ensures row.symbol == "" ==> d' == d
    ensures row.symbol != "" ==> ToMap(d') == ToMap(d)[row.symbol := row.pos]
    ensures row.symbol in Keys(d) ==> |d'| == |d| && forall i :: 0 <= i < |d| ==> d'[i].key == d[i].key
    ensures row.symbol != "" && row.symbol !in Keys(d) ==> d' == d + [Entry(row.symbol, row.pos)]
  {
    if row.symbol == "" then d
    else
      SetItemView(d, row.symbol, row.pos);
      SetItem(d, row.symbol, row.pos)
  }

  lemma CollectStepKeys(rows: seq<Row>, d: Dict, row: Row)
    requires KeysFromRows(rows, d)
    ensures KeysFromRows(rows + [row], ReadRow(d, row))
  {
    var rows' := rows + [row];
    var d' := ReadRow(d, row);
    forall k ensures k in Keys(d') <==> k != "" && Named(rows', k) {
      if k != "" && k == row.symbol {
        assert rows'[|rows|].symbol == k;
      }
      if Named(rows, k) {
        var i :| 0 <= i < |rows| && rows[i].symbol == k;
        assert rows'[i].symbol == k;
      }
      if Named(rows', k) {
        var i :| 0 <= i < |rows'| && rows'[i].symbol == k;
        if i < |rows| { assert rows[i].symbol == k; }
      }
    }
  }

  lemma CollectStepValues(rows: seq<Row>, d: Dict, row: Row)
    requires LastRowWins(rows, d)
    ensures LastRowWins(rows + [row], ReadRow(d, row))
  {
    var rows' := rows + [row];
    var d' := ReadRow(d, row);
    forall i | 0 <= i < |rows'| && rows'[i].symbol != "" && LastRowFor(rows', i)
      ensures rows'[i].symbol in ToMap(d') && ToMap(d')[rows'[i].symbol] == rows'[i].pos
    {
      if i < |rows| {
        assert rows'[i] == rows[i];
        assert rows'[|rows|].symbol != rows'[i].symbol;
        assert LastRowFor(rows, i) by {
          forall j | i < j < |rows| ensures rows[j].symbol != rows[i].symbol {
            assert rows'[j] == rows[j];
          }
        }
      }
    }
  }

  /** A symbol is named on the form exactly when its first row is a real row. */
  lemma FirstRowNamed(rows: seq<Row>, k: string)
    ensures Named(rows, k) <==> FirstRow(rows, k) < |rows|
  {
  }

  /** One more row does not move the first row of a symbol already named, and a
      symbol first named by the new row has that row as its first. */
  lemma FirstRowExtend(rows: seq<Row>, row: Row, k: string)
    ensures Named(rows, k) ==> FirstRow(rows + [row], k) == FirstRow(rows, k)
    ensures !Named(rows, k) && row.symbol == k ==> FirstRow(rows + [row], k) == |rows|
  {
    var rows' := rows + [row];
    var f, f' := FirstRow(rows, k), FirstRow(rows', k);
    FirstRowNamed(rows, k);
    if f < |rows| {
      assert rows'[f].symbol == k;
      assert forall q :: 0 <= q < f ==> rows'[q] == rows[q];
    } else if row.symbol == k {
      assert rows'[|rows|].symbol == k;
      assert forall q :: 0 <= q < |rows| ==> rows'[q] == rows[q];
    }
  }

  /** The symbols already in the dict keep their first rows when a row is added. */
  lemma FirstRowsKept(rows: seq<Row>, d: Dict, row: Row)
    requires KeysFromRows(rows, d)
    ensures forall i :: 0 <= i < |d| ==>
      FirstRow(rows + [row], d[i].key) == FirstRow(rows, d[i].key) < |rows|
  {
    forall i | 0 <= i < |d| ensures FirstRow(rows + [row], d[i].key) == FirstRow(rows, d[i].key) < |rows| {
      KeysAt(d, d[i].key);
      FirstRowExtend(rows, row, d[i].key);
      FirstRowNamed(rows, d[i].key);
    }
  }

  /** A dict whose keys stay in place, each keeping its first row, stays ordered. */
  lemma OrderSameKeys(rows: seq<Row>, rows': seq<Row>, d: Dict, d': Dict)
    requires FirstRowOrder(rows, d)
    requires |d'| == |d| && forall i :: 0 <= i < |d| ==> d'[i].key == d[i].key
    requires forall i :: 0 <= i < |d| ==> FirstRow(rows', d[i].key) == FirstRow(rows, d[i].key)
    ensures FirstRowOrder(rows', d')
  {
    forall i, j | 0 <= i < j < |d'| ensures FirstRow(rows', d'[i].key) < FirstRow(rows', d'[j].key) {
      assert d'[i].key == d[i].key && d'[j].key == d[j].key;
    }
  }

  /** Appending a key whose first row comes after all the others keeps the order. */
  lemma OrderAppend(rows: seq<Row>, rows': seq<Row>, d: Dict, e: Entry)
    requires FirstRowOrder(rows, d)
    requires forall i :: 0 <= i < |d| ==> FirstRow(rows', d[i].key) == FirstRow(rows, d[i].key) < |rows|
    requires FirstRow(rows', e.key) == |rows|
    ensures FirstRowOrder(rows', d + [e])
  {
    var d' := d + [e];
    forall i, j | 0 <= i < j < |d'| ensures FirstRow(rows', d'[i].key) < FirstRow(rows', d'[j].key) {
      assert d'[i] == d[i];
      if j < |d| { assert d'[j] == d[j]; }
    }
  }

  lemma CollectStepOrder(rows: seq<Row>, d: Dict, row: Row)
    requires DistinctKeys(d) && KeysFromRows(rows, d) && FirstRowOrder(rows, d)
    ensures FirstRowOrder(rows + [row], ReadRow(d, row))
  {
    FirstRowsKept(rows, d, row);
    if row.symbol != "" && row.symbol !in Keys(d) {
      FirstRowExtend(rows, row, row.symbol);
      OrderAppend(rows, rows + [row], d, Entry(row.symbol, row.pos));
    } else {
      OrderSameKeys(rows, rows + [row], d, ReadRow(d, row));
    }
  }

  /** Reading one more row keeps the dict what the rows describe. */
  lemma CollectStep(rows: seq<Row>, d: Dict)
    requires rows != [] && Collected(rows[..|rows| - 1], d)
    ensures Collected(rows, ReadRow(d, rows[|rows| - 1]))
  {
    var front, row := rows[..|rows| - 1], rows[|rows| - 1];
    assert front + [row] == rows;
    CollectStepKeys(front, d, row);
    CollectStepValues(front, d, row);
    CollectStepOrder(front, d, row);
  }

  /** The leg-collection loop: rows with an empty symbol are skipped, and
      `spread_pos[symbol] = pos` for every other row in turn. */
  function CollectLegs(rows: seq<Row>): (d: Dict)
    ensures Collected(rows, d)
    decreases |rows|
  {
    if rows == [] then []
    else
      var front, row := rows[..|rows| - 1], rows[|rows| - 1];
      var d := CollectLegs(front);
      CollectStep(rows, d);
      ReadRow(d, row)
  }

  /** Dropping the first entry of a dict drops exactly its key and keeps the
      order by first rows. */
  lemma DropFirst(rows: seq<Row>, a: Dict)
    requires a != [] && DistinctKeys(a) && FirstRowOrder(rows, a)
    ensures DistinctKeys(a[1..]) && Keys(a[1..]) == Keys(a) - {a[0].key}
    ensures FirstRowOrder(rows, a[1..])
  {
    var t := a[1..];
    forall p, q | 0 <= p < q < |t| ensures FirstRow(rows, t[p].key) < FirstRow(rows, t[q].key) {
      assert t[p] == a[p + 1] && t[q] == a[q + 1];
    }
  }

  /** Two non-empty dicts with the same keys, each ordered by first rows, start
      with the same key. */
  lemma SameFirstKey(rows: seq<Row>, a: Dict, b: Dict)
    requires a != [] && b != [] && Keys(a) == Keys(b)
    requires FirstRowOrder(rows, a) && FirstRowOrder(rows, b)
    ensures a[0].key == b[0].key
  {
    var k, l := a[0].key, b[0].key;
    KeysAt(b, k);
    KeysAt(a, l);
    var j :| 0 <= j < |b| && b[j].key == k;
    var i :| 0 <= i < |a| && a[i].key == l;
    assert i > 0 ==> FirstRow(rows, k) < FirstRow(rows, l);
    assert j > 0 ==> FirstRow(rows, l) < FirstRow(rows, k);
  }

  /** Two dicts with the same keys, each ordered by first rows, hold their keys in
      the same order. */
  lemma {:induction false} OrderedKeysUnique(rows: seq<Row>, a: Dict, b: Dict)
    requires DistinctKeys(a) && DistinctKeys(b) && Keys(a) == Keys(b)
    requires FirstRowOrder(rows, a) && FirstRowOrder(rows, b)
    ensures |a| == |b| && forall i :: 0 <= i < |a| ==> a[i].key == b[i].key
    decreases |a|
  {
    if a == [] {
      assert Keys(b) == {};
    } else {
      assert a[0].key in Keys(b);
      SameFirstKey(rows, a, b);
      DropFirst(rows, a);
      DropFirst(rows, b);
      OrderedKeysUnique(rows, a[1..], b[1..]);
      forall i | 0 <= i < |a| ensures a[i].key == b[i].key {
        if i > 0 { assert a[i] == a[1..][i - 1] && b[i] == b[1..][i - 1]; }
      }
    }
  }

  /** A named symbol has a last row. */
  lemma {:induction false} LastRowExists(rows: seq<Row>, k: string)
    requires Named(rows, k)
    ensures exists i :: 0 <= i < |rows| && rows[i].symbol == k && LastRowFor(rows, i)
    decreases |rows|
  {
    var n := |rows| - 1;
    if rows[n].symbol == k {
      assert LastRowFor(rows, n);
    } else {
      var front := rows[..n];
      var p :| 0 <= p < |rows| && rows[p].symbol == k;
      assert front[p].symbol == k;
      LastRowExists(front, k);
      var i :| 0 <= i < |front| && front[i].symbol == k && LastRowFor(front, i);
      assert rows[i] == front[i];
      assert LastRowFor(rows, i) by {
        forall q | i < q < |rows| ensures rows[q].symbol != rows[i].symbol {
          if q < n { assert rows[q] == front[q]; }
        }
      }
    }
  }

  /** The rows describe exactly one dict, so `CollectLegs` is fully determined
      by its contract. */
  lemma CollectedUnique(rows: seq<Row>, a: Dict, b: Dict)
    requires Collected(rows, a) && Collected(rows, b)
    ensures a == b
  {
    assert Keys(a) == Keys(b);
    OrderedKeysUnique(rows, a, b);
    forall k | k in Keys(a) ensures ToMap(a)[k] == ToMap(b)[k] {
      LastRowExists(rows, k);
    }
    forall i | 0 <= i < |a| ensures a[i] == b[i] {
      ToMapAt(a, i);
      ToMapAt(b, i);
    }
  }

  /** The non-empty rows as entries, in row order. */
  function NamedRows(rows: seq<Row>): Dict
    decreases |rows|
  {
    if rows == [] then []
    else
      var front, row := rows[..|rows| - 1], rows[|rows| - 1];
      NamedRows(front) + (if row.symbol == "" then [] else [Entry(row.symbol, row.pos)])
  }

  /** Rows whose non-empty symbols all differ. */
  predicate NoRepeats(rows: seq<Row>) {
    forall i, j :: 0 <= i < j < |rows| && rows[i].symbol != "" ==> rows[i].symbol != rows[j].symbol
  }

  /** Without repeats, the last row's symbol is not named by the rows before it. */
  lemma LastNotNamedBefore(rows: seq<Row>)
    requires rows != [] && NoRepeats(rows) && rows[|rows| - 1].symbol != ""
    ensures !Named(rows[..|rows| - 1], rows[|rows| - 1].symbol)
  {
    var front := rows[..|rows| - 1];
    forall i | 0 <= i < |front| ensures front[i].symbol != rows[|rows| - 1].symbol {
      assert front[i] == rows[i];
    }
  }

  /** Without repeats, each row read appends its entry to the dict. */
  lemma WithoutRepeatsStep(rows: seq<Row>)
    requires rows != [] && NoRepeats(rows)
    requires CollectLegs(rows[..|rows| - 1]) == NamedRows(rows[..|rows| - 1])
    ensures CollectLegs(rows) == NamedRows(rows)
  {
    var front, row := rows[..|rows| - 1], rows[|rows| - 1];
    var d := CollectLegs(front);
    assert CollectLegs(rows) == ReadRow(d, row);
    assert NamedRows(rows) == d + (if row.symbol == "" then [] else [Entry(row.symbol, row.pos)]);
    if row.symbol != "" {
      LastNotNamedBefore(rows);
      assert KeysFromRows(front, d);
      assert row.symbol !in Keys(d);
    }
  }

  /** When no symbol is repeated, the dict holds the non-empty rows in the order
      they appear on the form. */
  lemma {:induction false} CollectWithoutRepeats(rows: seq<Row>)
    requires NoRepeats(rows)
    ensures CollectLegs(rows) == NamedRows(rows)
    decreases |rows|
  {
    if rows != [] {
      var front := rows[..|rows| - 1];
      assert forall i :: 0 <= i < |front| ==> front[i] == rows[i];
      CollectWithoutRepeats(front);
      WithoutRepeatsStep(rows);
    }
  }

  /** The form: the leg rows and the three range fields. */
  datatype Form = Form(rows: seq<Row>, start: Option<int>, stop: Option<int>, step: Option<int>)

  /** What the action hands to the chart, if anything. */
  datatype Outcome = NotRun | Plotted(prices: seq<int>, pnls: seq<real>)

  /** All three range fields are filled in. */
  predicate RangeFilled(f: Form) {
    f.start.Some? && f.stop.Some? && f.step.Some?
  }

  /** Integer prices as reals. */
  function AsReals(xs: seq<int>): (r: seq<real>)
    ensures |r| == |xs|
    ensures forall i :: 0 <= i < |xs| ==> r[i] == xs[i] as real
  {
    if xs == [] then [] else [xs[0] as real] + AsReals(xs[1..])
  }

  /** The whole action. Missing range fields stop it before anything is computed;
      a zero step makes `range` raise; otherwise the curve over the grid is
      computed, which raises the lookup error of the first unresolved leg as soon
      as the grid has a price. */
  function RunAnalysis(m: Market, f: Form): (r: Result<Outcome, Error>)
    requires |f.rows| == LegRows
    ensures !RangeFilled(f) ==> r == Success(NotRun)
    ensures RangeFilled(f) && f.step.value == 0 ==> r == Failure(ZeroRangeStep)
    ensures RangeFilled(f) && f.step.value != 0 && r.Success? ==> r.value.Plotted?
    ensures r.Success? && r.value.Plotted? ==>
      && RangeFilled(f) && f.step.value != 0
      && r.value.prices == Progression(f.start.value, f.stop.value, f.step.value)
      && |r.value.pnls| == |r.value.prices|
      && forall i :: 0 <= i < |r.value.prices| ==>
           Resolves(m, CollectLegs(f.rows))
           && r.value.pnls[i] == SpreadPnl(m, CollectLegs(f.rows), r.value.prices[i] as real)
    ensures RangeFilled(f) && f.step.value != 0 ==>
      var prices := Progression(f.start.value, f.stop.value, f.step.value);
      (r.Success? <==> prices == [] || Resolves(m, CollectLegs(f.rows)))
      && (r.Failure? ==> TrySpreadPnl(m, CollectLegs(f.rows), prices[0] as real) == Failure(r.error))
  {
    var legs := CollectLegs(f.rows);
    if !RangeFilled(f) then Success(NotRun)
    else
      match Range(f.start.value, f.stop.value, f.step.value)
      case Failure(e) => Failure(e)
      case Success(prices) =>
        match TryPnlSeries(m, legs, AsReals(prices))
        case Failure(e) => Failure(e)
        case Success(pnls) => Success(Plotted(prices, pnls))
  }

  /** At most four legs ever reach the evaluator. */
  lemma AtMostFourLegs(f: Form)
    requires |f.rows| == LegRows
    ensures |CollectLegs(f.rows)| <= 4
  {
  }
}
