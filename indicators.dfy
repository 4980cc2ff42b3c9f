/** `computeSeries` of the dashboard and the table rows built from it.
    The indicators themselves (SMA, EMA, RSI of the trading-signals library) are not
    modelled: the dashboard only creates one with a period, feeds it prices one by one
    with `update`, asks `isStable` after each, and reads `getResultOrThrow` when it is.
    `Library` gives those four operations over an indicator state of unknown shape,
    so everything proved here holds whatever the indicators compute, provided `update`
    never throws and `result` is never NaN, as `Library` assumes. */
module Indicators {
  import opened Seqs
  import opened JsNumber

  /** The three indicators the dashboard offers. */
  datatype Kind = SMA | EMA | RSI

  /** What the dashboard uses of the indicator library, over indicator states `S`:
      `create(kind, period)` is `new SMA(period)` (or EMA, RSI), `update` feeds one
      price, `isStable` tells whether enough prices have been seen, and `result` is
      `getResultOrThrow` on a stable indicator. */
  datatype Library<!S> = Library(
    create: (Kind, int) -> S,
    update: (S, Num) -> S,
    isStable: S -> bool,
    result: S -> Num)

  /** The state of a fresh indicator after it has been fed `prices` in order. */
  function StateAfter<S>(lib: Library<S>, kind: Kind, period: int, prices: seq<Num>): S
    decreases |prices|
  {
    if prices == [] then lib.create(kind, period)
    else lib.update(StateAfter(lib, kind, period, prices[..|prices| - 1]), prices[|prices| - 1])
  }

  /** What the dashboard reads from an indicator: the result when stable, else
      `undefined`. */
  function Observe<S>(lib: Library<S>, s: S): Option<Num> {
    if lib.isStable(s) then Some(lib.result(s)) else None
  }

  /** The indicator series for `prices`: one entry per price, read right after that
      price was fed. */
  function Series<S>(lib: Library<S>, kind: Kind, period: int, prices: seq<Num>): (out: seq<Option<Num>>)
    ensures |out| == |prices|
    decreases |prices|
  {
    if prices == [] then []
    else Series(lib, kind, period, prices[..|prices| - 1]) + [Observe(lib, StateAfter(lib, kind, period, prices))]
  }

  /** An indicator object of the library, as `new SMA(period)` creates it. */
  class Indicator<S> {
    const lib: Library<S>
    const kind: Kind
    const period: int
    var state: S
    /** The prices fed so far. */
    ghost var updates: seq<Num>

    ghost predicate Valid()
      reads this
    {
      state == StateAfter(lib, kind, period, updates)
    }

    constructor (lib: Library<S>, kind: Kind, period: int)
      ensures Valid() && updates == []
      ensures this.lib == lib && this.kind == kind && this.period == period
    {
      this.lib := lib;
      this.kind := kind;
      this.period := period;
      state := lib.create(kind, period);
      updates := [];
    }

    /** `update(price)`. */
    method Update(price: Num)
      requires Valid()
      modifies this
      ensures Valid() && updates == old(updates) + [price]
    {
      state := lib.update(state, price);
      updates := updates + [price];
      assert updates[..|updates| - 1] == old(updates);
    }

    /** `isStable`. */
    function IsStable(): bool
      reads this
    {
      lib.isStable(state)
    }

    /** `getResultOrThrow()`, called only when stable. */
    function GetResultOrThrow(): Num
      reads this
      requires IsStable()
    {
      lib.result(state)
    }
  }

  /** `computeSeries`: a fresh indicator of the chosen kind and period, fed every
      price in order, with its result (or `undefined`) recorded after each. */
  method ComputeSeries<S>(lib: Library<S>, kind: Kind, period: int, prices: seq<Num>)
    returns (out: seq<Option<Num>>)
    ensures out == Series(lib, kind, period, prices)
  {
    out := [];
    if |prices| == 0 {
      return;
    }
    var ind := new Indicator(lib, kind, period);
    for i := 0 to |prices|
      invariant ind.lib == lib && ind.kind == kind && ind.period == period
      invariant ind.Valid() && ind.updates == prices[..i]
      invariant out == Series(lib, kind, period, prices[..i])
    {
      ind.Update(prices[i]);
      out := out + [if ind.IsStable() then Some(ind.GetResultOrThrow()) else None];
      assert prices[..i + 1][..i] == prices[..i];
    }
    assert prices[..|prices|] == prices;
  }

  // ---- properties of the series ----

  /** Entry `i` is `undefined` exactly when the indicator is not yet stable after the
      first `i + 1` prices, and otherwise its result at that point. */
  lemma {:induction false} SeriesAt<S>(lib: Library<S>, kind: Kind, period: int, prices: seq<Num>, i: nat)
    requires i < |prices|
    ensures Series(lib, kind, period, prices)[i] == None <==>
      !lib.isStable(StateAfter(lib, kind, period, prices[..i + 1]))
    ensures Series(lib, kind, period, prices)[i] != None ==>
      Series(lib, kind, period, prices)[i] == Some(lib.result(StateAfter(lib, kind, period, prices[..i + 1])))
    decreases |prices|
  {
    var n := |prices| - 1;
    if i < n {
      SeriesAt(lib, kind, period, prices[..n], i);
      assert prices[..n][..i + 1] == prices[..i + 1];
    } else {
      assert prices[..i + 1] == prices;
    }
  }

  /** An entry depends only on the prices up to it: the series of a prefix is the
      prefix of the series. */
  lemma {:induction false} SeriesPrefix<S>(lib: Library<S>, kind: Kind, period: int, prices: seq<Num>, k: nat)
    requires k <= |prices|
    ensures Series(lib, kind, period, prices[..k]) == Series(lib, kind, period, prices)[..k]
    decreases |prices|
  {
    if k < |prices| {
      var n := |prices| - 1;
      SeriesPrefix(lib, kind, period, prices[..n], k);
      assert prices[..n][..k] == prices[..k];
    } else {
      assert prices[..k] == prices;
    }
  }

  /** An indicator that stays stable once stable gives a series whose `undefined`
      entries all come before its first result. */
  lemma WarmUpIsPrefix<S>(lib: Library<S>, kind: Kind, period: int, prices: seq<Num>, i: nat, j: nat)
    requires forall s: S, p: Num :: lib.isStable(s) ==> lib.isStable(lib.update(s, p))
    requires i <= j < |prices|
    requires Series(lib, kind, period, prices)[i] != None
    ensures Series(lib, kind, period, prices)[j] != None
  {
    SeriesAt(lib, kind, period, prices, i);
    SeriesAt(lib, kind, period, prices, j);
    assert prices[..j + 1][..i + 1] == prices[..i + 1];
    StableAfter(lib, kind, period, prices[..j + 1], i + 1);
  }

  /** Stability after a prefix carries over to the whole sequence, when updates keep
      a stable indicator stable. */
  lemma {:induction false} StableAfter<S>(lib: Library<S>, kind: Kind, period: int, prices: seq<Num>, k: nat)
    requires forall s: S, p: Num :: lib.isStable(s) ==> lib.isStable(lib.update(s, p))
    requires k <= |prices|
    requires lib.isStable(StateAfter(lib, kind, period, prices[..k]))
    ensures lib.isStable(StateAfter(lib, kind, period, prices))
    decreases |prices| - k
  {
    if k < |prices| {
      assert prices[..k + 1][..k] == prices[..k];
      assert StateAfter(lib, kind, period, prices[..k + 1])
        == lib.update(StateAfter(lib, kind, period, prices[..k]), prices[k]);
      StableAfter(lib, kind, period, prices, k + 1);
    } else {
      assert prices[..k] == prices;
    }
  }

  // ---- table rows ----

  /** One table row: its 1-based number, the price and the indicator value. */
  datatype Row = Row(index: int, close: Num, result: Option<Num>)

  /** `prices.map((p, i) => ({ index: i + 1, close: p, result: series[i] }))`; an index
      past the end of `series` reads as `undefined`. */
  function Rows(prices: seq<Num>, series: seq<Option<Num>>): (rows: seq<Row>)
    ensures |rows| == |prices|
  {
    seq(|prices|, i requires 0 <= i < |prices| => Row(i + 1, prices[i], if i < |series| then series[i] else None))
  }

  /** Row `i` shows price `i`, numbered from 1, next to the indicator value read right
      after that price was fed. */
  lemma RowsAlignment<S>(lib: Library<S>, kind: Kind, period: int, prices: seq<Num>, i: nat)
    requires i < |prices|
    ensures Rows(prices, Series(lib, kind, period, prices))[i] ==
      Row(i + 1, prices[i], Observe(lib, StateAfter(lib, kind, period, prices[..i + 1])))
  {
    SeriesAt(lib, kind, period, prices, i);
  }
}
