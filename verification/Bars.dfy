/** Time and volume bars, accumulated per symbol. */
module Bars {
  const U64: nat := 0x1_0000_0000_0000_0000

  datatype TradeEvent = TradeEvent(symbol: nat, price: nat, qty: nat, ts: nat)

  /** An accumulator; it is a bar in the making. `INACTIVE` is the source's default-constructed one. */
  datatype Acc = Acc(active: bool, start: nat, end: nat, open: nat, high: nat, low: nat, close: nat, volume: nat)

  const INACTIVE := Acc(false, 0, 0, 0, 0, 0, 0, 0)

  datatype Kind = TimeBar | VolumeBar

  datatype Bar = Bar(symbol: nat, acc: Acc, kind: Kind)

  // ----- one trade, on values

  /** The accumulator after a trade, before any bar is closed. */
  function Extend(a: Acc, t: TradeEvent): Acc {
    if !a.active then Acc(true, t.ts, t.ts, t.price, t.price, t.price, t.price, t.qty)
    else a.(end := t.ts, high := if t.price > a.high then t.price else a.high,
            low := if t.price < a.low then t.price else a.low, close := t.price, volume := a.volume + t.qty)
  }

  /** Unsigned 64-bit difference of timestamps. */
  function Elapsed(start: nat, ts: nat): nat {
    (ts - start) % U64
  }

  /** A time bar is closed by a trade, other than its first, that comes `width` or more after its start. */
  function TimeStep(a: Acc, t: TradeEvent, width: nat): (r: (Acc, seq<Acc>)) {
    var b := Extend(a, t);
    if a.active && Elapsed(a.start, t.ts) >= width then (INACTIVE, [b]) else (b, [])
  }

  /** The carry loop comes to an end: with a bar size of 0 it does only if there is nothing to carry. */
  predicate CarryEnds(a: Acc, size: nat) {
    size > 0 || !a.active || a.volume == 0
  }

  /** The carry loop: closes bars of exactly `size` as long as the accumulator holds as much. */
  function Carry(a: Acc, t: TradeEvent, size: nat): (r: (Acc, seq<Acc>))
    requires CarryEnds(a, size)
    decreases a.volume
  {
    if !a.active || a.volume < size then (a, []) else
      var bar := a.(volume := size);
      if a.volume == size then (INACTIVE, [bar]) else
        var rest := a.(volume := a.volume - size, start := t.ts, open := t.price, high := t.price, low := t.price,
                       close := t.price);
        var r := Carry(rest, t, size);
        (r.0, [bar] + r.1)
  }

  function VolumeStep(a: Acc, t: TradeEvent, size: nat): (r: (Acc, seq<Acc>))
    requires CarryEnds(Extend(a, t), size)
  {
    Carry(Extend(a, t), t, size)
  }

  // ----- the aggregator in place

  function Label(accs: seq<Acc>, symbol: nat, kind: Kind): seq<Bar> {
    seq(|accs|, i requires 0 <= i < |accs| => Bar(symbol, accs[i], kind))
  }

  lemma LabelOneMore(accs: seq<Acc>, a: Acc, symbol: nat, kind: Kind)
    ensures Label(accs + [a], symbol, kind) == Label(accs, symbol, kind) + [Bar(symbol, a, kind)]
  {
  }

  function CountBars(bars: seq<Bar>, kind: Kind): nat {
    if bars == [] then 0
    else CountBars(bars[..|bars| - 1], kind) + if bars[|bars| - 1].kind == kind then 1 else 0
  }

  /** The accumulators of all symbols, and the bars written so far. */
  datatype Aggregate = Aggregate(time: seq<Acc>, volume: seq<Acc>, out: seq<Bar>)

  function NoBars(symbols: nat): Aggregate {
    Aggregate(seq(symbols, _ => INACTIVE), seq(symbols, _ => INACTIVE), [])
  }

  predicate Sized(g: Aggregate) {
    |g.time| == |g.volume|
  }

  function WithTime(g: Aggregate, t: TradeEvent, width: nat): Aggregate
    requires t.symbol < |g.time|
  {
    var r := TimeStep(g.time[t.symbol], t, width);
    g.(time := g.time[t.symbol := r.0], out := g.out + Label(r.1, t.symbol, TimeBar))
  }

  function WithVolume(g: Aggregate, t: TradeEvent, size: nat): Aggregate
    requires t.symbol < |g.volume| && CarryEnds(Extend(g.volume[t.symbol], t), size)
  {
    var r := VolumeStep(g.volume[t.symbol], t, size);
    g.(volume := g.volume[t.symbol := r.0], out := g.out + Label(r.1, t.symbol, VolumeBar))
  }

  function WithTrade(g: Aggregate, t: TradeEvent, width: nat, size: nat): (g': Aggregate)
    requires Sized(g)
    requires t.symbol < |g.time| ==> CarryEnds(Extend(g.volume[t.symbol], t), size)
    ensures Sized(g') && |g'.time| == |g.time|
  {
    if t.symbol >= |g.time| then g else WithVolume(WithTime(g, t, width), t, size)
  }

  function FlushTime(g: Aggregate, s: nat): Aggregate
    requires s < |g.time|
  {
    if g.time[s].active then g.(time := g.time[s := INACTIVE], out := g.out + [Bar(s, g.time[s], TimeBar)]) else g
  }

  function FlushVolume(g: Aggregate, s: nat): Aggregate
    requires s < |g.volume|
  {
    if g.volume[s].active && g.volume[s].volume > 0
    then g.(volume := g.volume[s := INACTIVE], out := g.out + [Bar(s, g.volume[s], VolumeBar)])
    else g
  }

  /** Flushing the first `n` symbols. */
  function Flushed(g: Aggregate, n: nat): (g': Aggregate)
    requires Sized(g) && n <= |g.time|
    ensures Sized(g') && |g'.time| == |g.time|
  {
    if n == 0 then g else FlushVolume(FlushTime(Flushed(g, n - 1), n - 1), n - 1)
  }

  class BarAggregator {
    const width: nat
    const size: nat
    const time: array<Acc>
    const volume: array<Acc>
    var timeBars: nat
    var volumeBars: nat
    /** The bars written so far. */
    var out: seq<Bar>

    ghost predicate Valid()
      reads this
    {
      && time != volume && time.Length == volume.Length
      && timeBars == CountBars(out, TimeBar) && volumeBars == CountBars(out, VolumeBar)
    }

    ghost function AsValue(): Aggregate
      reads this, time, volume
    {
      Aggregate(time[..], volume[..], out)
    }

    constructor (symbols: nat, timeBarNs: nat, volumeBarQty: nat)
      ensures Valid() && fresh(time) && fresh(volume) && time.Length == symbols
      ensures width == timeBarNs && size == volumeBarQty
      ensures AsValue() == NoBars(symbols)
    {
      width, size := timeBarNs, volumeBarQty;
      time := new Acc[symbols](_ => INACTIVE);
      volume := new Acc[symbols](_ => INACTIVE);
      timeBars, volumeBars, out := 0, 0, [];
    }

    method WriteBar(symbol: nat, a: Acc, kind: Kind)
      requires Valid()
      modifies this`out, this`timeBars, this`volumeBars
      ensures Valid() && out == old(out) + [Bar(symbol, a, kind)]
    {
      assert (out + [Bar(symbol, a, kind)])[..|out|] == out;
      out := out + [Bar(symbol, a, kind)];
      if kind == TimeBar {
        timeBars := timeBars + 1;
      } else {
        volumeBars := volumeBars + 1;
      }
    }

    method OnTime(t: TradeEvent)
      requires Valid() && t.symbol < time.Length
      modifies this`out, this`timeBars, this`volumeBars, time
      ensures Valid() && AsValue() == WithTime(old(AsValue()), t, width)
    {
      var a := time[t.symbol];
      if !a.active {
        time[t.symbol] := Extend(a, t);
        return;
      }
      a := Extend(a, t);
      time[t.symbol] := a;
      if Elapsed(a.start, t.ts) >= width {
        WriteBar(t.symbol, a, TimeBar);
        time[t.symbol] := INACTIVE;
      }
    }

    method OnVolume(t: TradeEvent)
      requires Valid() && t.symbol < volume.Length && CarryEnds(Extend(volume[t.symbol], t), size)
      modifies this`out, this`timeBars, this`volumeBars, volume
      ensures Valid() && AsValue() == WithVolume(old(AsValue()), t, size)
    {
      var a := Extend(volume[t.symbol], t);
      ghost var closed := Carry(a, t, size);
      a := CloseBars(a, t);
      volume[t.symbol] := a;
      assert volume[..] == old(volume[..])[t.symbol := closed.0];
    }

    /** The carry loop of `OnVolume`. */
    method CloseBars(start: Acc, t: TradeEvent) returns (a: Acc)
      requires Valid() && CarryEnds(start, size)
      modifies this`out, this`timeBars, this`volumeBars
      ensures Valid() && a == Carry(start, t, size).0
      ensures out == old(out) + Label(Carry(start, t, size).1, t.symbol, VolumeBar)
    {
      a := start;
      ghost var emitted: seq<Acc> := [];
      ghost var goal := Carry(start, t, size);
      assert emitted + goal.1 == goal.1;
      while a.active && a.volume >= size
        invariant Valid() && CarryEnds(a, size)
        invariant goal == (Carry(a, t, size).0, emitted + Carry(a, t, size).1)
        invariant out == old(out) + Label(emitted, t.symbol, VolumeBar)
        decreases if a.active then a.volume + 1 else 0
      {
        ghost var bar := a.(volume := size);
        WriteBar(t.symbol, a.(volume := size), VolumeBar);
        LabelOneMore(emitted, bar, t.symbol, VolumeBar);
        assert out == old(out) + Label(emitted + [bar], t.symbol, VolumeBar);
        var leftover := a.volume - size;
        if leftover == 0 {
          emitted := emitted + [bar];
          assert goal == (INACTIVE, emitted);
          a := INACTIVE;
          break;
        }
        ghost var rest := Carry(a, t, size).1;
        a := a.(volume := leftover, start := t.ts, open := t.price, high := t.price, low := t.price, close := t.price);
        assert emitted + rest == emitted + [bar] + Carry(a, t, size).1;
        emitted := emitted + [bar];
      }
      assert emitted + [] == emitted;
      assert goal == (a, emitted);
    }

    method OnTrade(t: TradeEvent)
      requires Valid() && (t.symbol < volume.Length ==> CarryEnds(Extend(volume[t.symbol], t), size))
      modifies this`out, this`timeBars, this`volumeBars, time, volume
      ensures Valid() && AsValue() == WithTrade(old(AsValue()), t, width, size)
    {
      if t.symbol >= time.Length {
        return;
      }
      OnTime(t);
      OnVolume(t);
    }

    method FlushAll()
      requires Valid()
      modifies this`out, this`timeBars, this`volumeBars, time, volume
      ensures Valid() && AsValue() == Flushed(old(AsValue()), time.Length)
    {
      ghost var g := AsValue();
      for s := 0 to time.Length
        invariant Valid() && AsValue() == Flushed(g, s)
      {
        if time[s].active {
          WriteBar(s, time[s], TimeBar);
          time[s] := INACTIVE;
        }
        assert AsValue() == FlushTime(Flushed(g, s), s);
        if volume[s].active && volume[s].volume > 0 {
          WriteBar(s, volume[s], VolumeBar);
          volume[s] := INACTIVE;
        }
      }
    }
  }
}
