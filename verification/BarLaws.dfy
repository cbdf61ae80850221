/**
 What the bars are: summaries of consecutive segments of a symbol's trades. Time bars cover whole trades; volume
 bars cover trades split into pieces so that every bar holds exactly the bar size.
 */
module BarLaws {
  import opened Arithmetic
  import opened Bars

  // ----- summaries

  /** The accumulator after the trades of a segment. */
  function Summary(seg: seq<TradeEvent>): Acc {
    if seg == [] then INACTIVE else Extend(Summary(seg[..|seg| - 1]), seg[|seg| - 1])
  }

  function Total(seg: seq<TradeEvent>): nat {
    if seg == [] then 0 else Total(seg[..|seg| - 1]) + seg[|seg| - 1].qty
  }

  function Summaries(segs: seq<seq<TradeEvent>>): seq<Acc> {
    seq(|segs|, i requires 0 <= i < |segs| => Summary(segs[i]))
  }

  function Flatten(segs: seq<seq<TradeEvent>>): seq<TradeEvent> {
    if segs == [] then [] else Flatten(segs[..|segs| - 1]) + segs[|segs| - 1]
  }

  /** Open, high, low, close, times and volume of a segment, said directly. */
  lemma {:induction false} SummaryIsOhlc(seg: seq<TradeEvent>)
    requires seg != []
    ensures var a, last := Summary(seg), seg[|seg| - 1];
            && a.active && a.start == seg[0].ts && a.end == last.ts && a.open == seg[0].price && a.close == last.price
            && (forall i :: 0 <= i < |seg| ==> a.low <= seg[i].price <= a.high)
            && (exists i :: 0 <= i < |seg| && seg[i].price == a.high)
            && (exists i :: 0 <= i < |seg| && seg[i].price == a.low)
            && a.volume == Total(seg)
  {
    var front, last := seg[..|seg| - 1], seg[|seg| - 1];
    if front != [] {
      SummaryIsOhlc(front);
      var hi :| 0 <= hi < |front| && front[hi].price == Summary(front).high;
      var lo :| 0 <= lo < |front| && front[lo].price == Summary(front).low;
      assert seg[hi] == front[hi] && seg[lo] == front[lo];
    }
    assert seg[|seg| - 1].price == last.price;
  }

  lemma {:induction false} SummaryTotal(seg: seq<TradeEvent>)
    ensures Summary(seg).volume == Total(seg) && (Summary(seg).active <==> seg != [])
  {
    if seg != [] {
      SummaryTotal(seg[..|seg| - 1]);
    }
  }

  lemma EmptySegment()
    ensures Summary([]) == INACTIVE && Total([]) == 0
    ensures Flatten([]) == [] && Summaries([]) == []
  {
  }

  lemma SummaryExtends(seg: seq<TradeEvent>, t: TradeEvent)
    ensures Summary(seg + [t]) == Extend(Summary(seg), t)
    ensures Total(seg + [t]) == Total(seg) + t.qty
  {
    assert (seg + [t])[..|seg|] == seg;
  }

  lemma FlattenExtends(segs: seq<seq<TradeEvent>>, seg: seq<TradeEvent>)
    ensures Flatten(segs + [seg]) == Flatten(segs) + seg
    ensures Summaries(segs + [seg]) == Summaries(segs) + [Summary(seg)]
  {
    assert (segs + [seg])[..|segs|] == segs;
  }

  lemma {:induction false} FlattenJoins(a: seq<seq<TradeEvent>>, b: seq<seq<TradeEvent>>)
    ensures Flatten(a + b) == Flatten(a) + Flatten(b)
    ensures Summaries(a + b) == Summaries(a) + Summaries(b)
    decreases |b|
  {
    hide Summary, Flatten;
    EmptySegment();
    if b == [] {
      assert a + b == a;
    } else {
      var n := |b| - 1;
      FlattenJoins(a, b[..n]);
      assert a + b == (a + b[..n]) + [b[n]];
      assert b == b[..n] + [b[n]];
      FlattenExtends(a + b[..n], b[n]);
      FlattenExtends(b[..n], b[n]);
    }
  }

  // ----- time bars

  /** The accumulator and the bars that one symbol's trades make. */
  function TimeRun(ts: seq<TradeEvent>, width: nat): (Acc, seq<Acc>) {
    if ts == [] then (INACTIVE, []) else
      var r := TimeRun(ts[..|ts| - 1], width);
      var s := TimeStep(r.0, ts[|ts| - 1], width);
      (s.0, r.1 + s.1)
  }

  /** No trade of the segment other than the first reaches the width. */
  ghost predicate Short(seg: seq<TradeEvent>, width: nat) {
    forall k :: 1 <= k < |seg| ==> Elapsed(seg[0].ts, seg[k].ts) < width
  }

  /** The last trade of the segment, and no earlier one, reaches the width. */
  ghost predicate JustLongEnough(seg: seq<TradeEvent>, width: nat) {
    && |seg| >= 2 && Short(seg[..|seg| - 1], width)
    && Elapsed(seg[0].ts, seg[|seg| - 1].ts) >= width
  }

  /** The time bars so far are the summaries of the closed segments, and the accumulator that of the open one. */
  ghost predicate TimePartition(ts: seq<TradeEvent>, width: nat, closed: seq<seq<TradeEvent>>, open: seq<TradeEvent>) {
    && Flatten(closed) + open == ts
    && TimeRun(ts, width).0 == Summary(open) && TimeRun(ts, width).1 == Summaries(closed)
    && (forall i :: 0 <= i < |closed| ==> JustLongEnough(closed[i], width))
    && Short(open, width)
  }

  lemma TimeBarCloses(ts: seq<TradeEvent>, t: TradeEvent, width: nat, closed: seq<seq<TradeEvent>>, open: seq<TradeEvent>)
    requires TimePartition(ts, width, closed, open)
    requires open != [] && Elapsed(open[0].ts, t.ts) >= width
    ensures TimePartition(ts + [t], width, closed + [open + [t]], [])
  {
    hide Summary, Flatten, Total;
    assert (ts + [t])[..|ts|] == ts && (open + [t])[..|open|] == open;
    SummaryIsOhlc(open);
    SummaryExtends(open, t);
    EmptySegment();
    FlattenExtends(closed, open + [t]);
  }

  lemma TimeBarGrows(ts: seq<TradeEvent>, t: TradeEvent, width: nat, closed: seq<seq<TradeEvent>>, open: seq<TradeEvent>)
    requires TimePartition(ts, width, closed, open)
    requires open == [] || Elapsed(open[0].ts, t.ts) < width
    ensures TimePartition(ts + [t], width, closed, open + [t])
  {
    hide Summary, Flatten, Total;
    assert (ts + [t])[..|ts|] == ts;
    SummaryExtends(open, t);
    EmptySegment();
    if open != [] {
      SummaryIsOhlc(open);
    }
    var r := TimeRun(ts, width);
    assert r.1 + [] == r.1;
  }

  /** Time bars are the summaries of consecutive disjoint segments that together cover all trades. */
  lemma {:induction false} TimeBarsPartition(ts: seq<TradeEvent>, width: nat)
    returns (closed: seq<seq<TradeEvent>>, open: seq<TradeEvent>)
    ensures TimePartition(ts, width, closed, open)
  {
    if ts == [] {
      return [], [];
    }
    var front, t := ts[..|ts| - 1], ts[|ts| - 1];
    assert ts == front + [t];
    closed, open := TimeBarsPartition(front, width);
    hide TimePartition, Flatten, Total, Summary;
    if open != [] && Elapsed(open[0].ts, t.ts) >= width {
      TimeBarCloses(front, t, width, closed, open);
      closed, open := closed + [open + [t]], [];
    } else {
      TimeBarGrows(front, t, width, closed, open);
      open := open + [t];
    }
  }

  // ----- time bars by the clock

  /** The elapsed time is the 64-bit number that leads from the start to the trade, around 2^64 if the trade is earlier. */
  lemma ElapsedIsDifference(start: nat, ts: nat)
    ensures Elapsed(start, ts) < 0x1_0000_0000_0000_0000
    ensures (start + Elapsed(start, ts)) % 0x1_0000_0000_0000_0000 == ts % 0x1_0000_0000_0000_0000
    ensures start <= ts < 0x1_0000_0000_0000_0000 ==> Elapsed(start, ts) == ts - start
    ensures ts < start < 0x1_0000_0000_0000_0000 ==> Elapsed(start, ts) == 0x1_0000_0000_0000_0000 - (start - ts)
  {
  }

  /** The trades come in the order of their timestamps, which are 64-bit numbers. */
  ghost predicate Chronological(ts: seq<TradeEvent>) {
    && (forall i :: 0 <= i < |ts| ==> ts[i].ts < 0x1_0000_0000_0000_0000)
    && (forall i, j :: 0 <= i < j < |ts| ==> ts[i].ts <= ts[j].ts)
  }

  /** Every trade of the segment but the first comes less than `width` after the first one. */
  ghost predicate LastsLess(seg: seq<TradeEvent>, width: nat) {
    forall k :: 1 <= k < |seg| ==> seg[k].ts - seg[0].ts < width
  }

  /** The last trade of the segment is the first one to come `width` or more after the start. */
  ghost predicate LastsJust(seg: seq<TradeEvent>, width: nat) {
    |seg| >= 2 && LastsLess(seg[..|seg| - 1], width) && seg[|seg| - 1].ts - seg[0].ts >= width
  }

  lemma ClockOfSegment(seg: seq<TradeEvent>, width: nat)
    requires Chronological(seg)
    ensures Short(seg, width) <==> LastsLess(seg, width)
    ensures JustLongEnough(seg, width) <==> LastsJust(seg, width)
  {
    hide Elapsed;
    forall k | 0 <= k < |seg|
      ensures Elapsed(seg[0].ts, seg[k].ts) == seg[k].ts - seg[0].ts
    {
      ElapsedIsDifference(seg[0].ts, seg[k].ts);
    }
  }

  lemma ChronologicalParts(a: seq<TradeEvent>, b: seq<TradeEvent>)
    requires Chronological(a + b)
    ensures Chronological(a) && Chronological(b)
  {
    assert forall i :: 0 <= i < |a| ==> a[i] == (a + b)[i];
    assert forall i :: 0 <= i < |b| ==> b[i] == (a + b)[|a| + i];
  }

  lemma {:induction false} ChronologicalSegments(segs: seq<seq<TradeEvent>>)
    requires Chronological(Flatten(segs))
    ensures forall i :: 0 <= i < |segs| ==> Chronological(segs[i])
  {
    hide Chronological;
    if segs != [] {
      ChronologicalParts(Flatten(segs[..|segs| - 1]), segs[|segs| - 1]);
      ChronologicalSegments(segs[..|segs| - 1]);
    }
  }

  /** On trades in order of time, a time bar closes at the first trade that comes `width` or more after its first one. */
  lemma TimeBarsByTheClock(ts: seq<TradeEvent>, width: nat) returns (closed: seq<seq<TradeEvent>>, open: seq<TradeEvent>)
    requires Chronological(ts)
    ensures Flatten(closed) + open == ts
    ensures TimeRun(ts, width) == (Summary(open), Summaries(closed))
    ensures LastsLess(open, width) && forall i :: 0 <= i < |closed| ==> LastsJust(closed[i], width)
  {
    hide Chronological, Short, JustLongEnough, LastsLess, LastsJust, Summary, Flatten;
    closed, open := TimeBarsPartition(ts, width);
    ChronologicalParts(Flatten(closed), open);
    ChronologicalSegments(closed);
    ClockOfSegment(open, width);
    forall i | 0 <= i < |closed|
      ensures LastsJust(closed[i], width)
    {
      ClockOfSegment(closed[i], width);
    }
  }

  // ----- volume bars

  function VolumeRun(ts: seq<TradeEvent>, size: nat): (Acc, seq<Acc>)
    requires size > 0
  {
    if ts == [] then (INACTIVE, []) else
      var r := VolumeRun(ts[..|ts| - 1], size);
      var s := VolumeStep(r.0, ts[|ts| - 1], size);
      (s.0, r.1 + s.1)
  }

  /** How a trade is split when `have` of a bar's quantity is already there. */
  function Pieces(have: nat, t: TradeEvent, size: nat): seq<TradeEvent>
    requires have < size
    decreases t.qty
  {
    if have + t.qty <= size then [t]
    else [t.(qty := size - have)] + Pieces(0, t.(qty := t.qty - (size - have)), size)
  }

  /** The pieces of a trade are that trade, with its quantity divided up. */
  lemma {:induction false} PiecesOfTrade(have: nat, t: TradeEvent, size: nat)
    requires have < size
    ensures var ps := Pieces(have, t, size);
            && Total(ps) == t.qty
            && forall i :: 0 <= i < |ps| ==> ps[i].(qty := t.qty) == t && 0 < |ps|
    decreases t.qty
  {
    if have + t.qty > size {
      var rest := t.(qty := t.qty - (size - have));
      PiecesOfTrade(0, rest, size);
      TotalPrepend(t.(qty := size - have), Pieces(0, rest, size));
    } else {
      assert [t][..0] == [];
    }
  }

  lemma {:induction false} TotalPrepend(t: TradeEvent, seg: seq<TradeEvent>)
    ensures Total([t] + seg) == t.qty + Total(seg)
    decreases |seg|
  {
    if seg == [] {
      assert [t] + seg == [t] && [t][..0] == [];
    } else {
      var n := |seg| - 1;
      assert ([t] + seg)[..n + 1] == [t] + seg[..n];
      TotalPrepend(t, seg[..n]);
    }
  }

  /** What the carry loop does with an open segment and the next piece `p` of trade `t`. */
  ghost predicate CarryPartition(open: seq<TradeEvent>, p: TradeEvent, t: TradeEvent, size: nat,
                                 closed: seq<seq<TradeEvent>>, open': seq<TradeEvent>)
    requires size > 0 && Total(open) < size
  {
    && Carry(Extend(Summary(open), p), t, size).0 == Summary(open')
    && Carry(Extend(Summary(open), p), t, size).1 == Summaries(closed)
    && Flatten(closed) + open' == open + Pieces(Total(open), p, size)
    && Total(open') < size && forall i :: 0 <= i < |closed| ==> Total(closed[i]) == size
  }

  lemma CarryUnfolds(open: seq<TradeEvent>, p: TradeEvent, t: TradeEvent, size: nat)
    requires size > 0 && Total(open) < size && Total(open) + p.qty > size && p.ts == t.ts && p.price == t.price
    ensures var r := Carry(Extend(Summary(open), p), t, size);
            var piece, left := p.(qty := size - Total(open)), p.(qty := p.qty - (size - Total(open)));
            var rest := Carry(Extend(INACTIVE, left), t, size);
            r.0 == rest.0 && r.1 == [Summary(open + [piece])] + rest.1
  {
    hide Summary, Total;
    SummaryTotal(open);
    EmptySegment();
    var piece, left := p.(qty := size - Total(open)), p.(qty := p.qty - (size - Total(open)));
    SummaryExtends(open, piece);
    var a := Extend(Summary(open), p);
    assert a.(volume := size) == Summary(open + [piece]);
    assert a.(volume := a.volume - size, start := t.ts, open := t.price, high := t.price, low := t.price,
              close := t.price) == Extend(INACTIVE, left);
  }

  /** The loop closes a bar of exactly the bar size and goes on with the rest of the trade. */
  lemma CarryStep(open: seq<TradeEvent>, p: TradeEvent, t: TradeEvent, size: nat,
                  more: seq<seq<TradeEvent>>, last: seq<TradeEvent>)
    requires size > 0 && Total(open) < size && Total(open) + p.qty > size && p.ts == t.ts && p.price == t.price
    requires CarryPartition([], p.(qty := p.qty - (size - Total(open))), t, size, more, last)
    ensures CarryPartition(open, p, t, size, [open + [p.(qty := size - Total(open))]] + more, last)
  {
    hide Summary, Flatten, Total, Carry;
    EmptySegment();
    CarryUnfolds(open, p, t, size);
    var piece := p.(qty := size - Total(open));
    var left := p.(qty := p.qty - (size - Total(open)));
    var seg := open + [piece];
    SummaryExtends(open, piece);
    FlattenExtends([], seg);
    assert [] + [seg] == [seg];
    FlattenJoins([seg], more);
    Regroup(seg, Flatten(more), last, [], Pieces(0, left, size));
    assert seg + [] == seg;
    assert Carry(Extend(Summary(open), p), t, size).1 == Summaries([seg] + more);
    assert open + ([piece] + Pieces(0, left, size)) == seg + Pieces(0, left, size);
  }

  /** One piece of a trade joins an open segment; the carry loop closes segments of exactly the bar size. */
  lemma {:induction false} CarryPartitions(open: seq<TradeEvent>, p: TradeEvent, t: TradeEvent, size: nat)
    returns (closed: seq<seq<TradeEvent>>, open': seq<TradeEvent>)
    requires size > 0 && Total(open) < size && p.ts == t.ts && p.price == t.price
    ensures CarryPartition(open, p, t, size, closed, open')
    decreases p.qty
  {
    hide Summary, Flatten, Total;
    SummaryTotal(open);
    EmptySegment();
    SummaryExtends(open, p);
    if Total(open) + p.qty < size {
      return [], open + [p];
    }
    if Total(open) + p.qty == size {
      FlattenExtends([], open + [p]);
      assert [] + [open + [p]] == [open + [p]];
      return [open + [p]], [];
    }
    hide CarryPartition;
    var more, last := CarryPartitions([], p.(qty := p.qty - (size - Total(open))), t, size);
    CarryStep(open, p, t, size, more, last);
    return [open + [p.(qty := size - Total(open))]] + more, last;
  }

  /** All trades of a run, split where volume bars end. */
  function AllPieces(ts: seq<TradeEvent>, size: nat): seq<TradeEvent>
    requires size > 0
  {
    if ts == [] then [] else
      AllPieces(ts[..|ts| - 1], size) + Pieces(Total(ts[..|ts| - 1]) % size, ts[|ts| - 1], size)
  }

  /**
   Volume bars are the summaries of consecutive segments of the split trades, each of exactly the bar size; what is
   left over is less than a bar.
   */
  lemma {:induction false} VolumeBarsPartition(ts: seq<TradeEvent>, size: nat)
    returns (closed: seq<seq<TradeEvent>>, open: seq<TradeEvent>)
    requires size > 0
    ensures Flatten(closed) + open == AllPieces(ts, size)
    ensures VolumeRun(ts, size).0 == Summary(open) && VolumeRun(ts, size).1 == Summaries(closed)
    ensures forall i :: 0 <= i < |closed| ==> Total(closed[i]) == size
    ensures |closed| == Total(ts) / size && Total(open) == Total(ts) % size
  {
    if ts == [] {
      return [], [];
    }
    hide Summary, Flatten, Total, Carry, Pieces;
    var front, t := ts[..|ts| - 1], ts[|ts| - 1];
    var before, rest := VolumeBarsPartition(front, size);
    var more, last := CarryPartitions(rest, t, t, size);
    FlattenJoins(before, more);
    closed, open := before + more, last;
    Regroup(Flatten(before), Flatten(more), last, rest, Pieces(Total(rest), t, size));
    CarriedTotal(rest, t, size, more, last);
    assert ts == front + [t];
    SummaryExtends(front, t);
    DivisionAdds(Total(front), t.qty, size, |more|, Total(last));
  }

  lemma Regroup<T>(a: seq<T>, b: seq<T>, c: seq<T>, d: seq<T>, e: seq<T>)
    requires b + c == d + e
    ensures a + b + c == a + d + e
  {
    assert a + b + c == a + (b + c) && a + d + e == a + (d + e);
  }

  lemma CarriedTotal(open: seq<TradeEvent>, t: TradeEvent, size: nat, closed: seq<seq<TradeEvent>>, open': seq<TradeEvent>)
    requires size > 0 && Total(open) < size
    requires Flatten(closed) + open' == open + Pieces(Total(open), t, size)
    requires forall i :: 0 <= i < |closed| ==> Total(closed[i]) == size
    ensures Total(open) + t.qty == size * |closed| + Total(open')
  {
    PiecesOfTrade(Total(open), t, size);
    TotalJoins(open, Pieces(Total(open), t, size));
    TotalJoins(Flatten(closed), open');
    TotalOfEqual(closed, size);
  }

  lemma {:induction false} TotalJoins(a: seq<TradeEvent>, b: seq<TradeEvent>)
    ensures Total(a + b) == Total(a) + Total(b)
    decreases |b|
  {
    if b == [] {
      assert a + b == a;
    } else {
      var n := |b| - 1;
      TotalJoins(a, b[..n]);
      assert (a + b)[..|a| + n] == a + b[..n];
    }
  }

  lemma {:induction false} TotalOfEqual(segs: seq<seq<TradeEvent>>, size: nat)
    requires forall i :: 0 <= i < |segs| ==> Total(segs[i]) == size
    ensures Total(Flatten(segs)) == size * |segs|
  {
    hide Total;
    EmptySegment();
    if segs != [] {
      var n := |segs| - 1;
      TotalOfEqual(segs[..n], size);
      TotalJoins(Flatten(segs[..n]), segs[n]);
      assert size * |segs| == size * n + size;
    }
  }

  // ----- all symbols together

  function AllBars(symbols: nat, ts: seq<TradeEvent>, width: nat, size: nat): (g: Aggregate)
    requires size > 0
    ensures Sized(g) && |g.time| == symbols
  {
    if ts == [] then NoBars(symbols)
    else WithTrade(AllBars(symbols, ts[..|ts| - 1], width, size), ts[|ts| - 1], width, size)
  }

  function TradesOf(ts: seq<TradeEvent>, symbol: nat): seq<TradeEvent> {
    if ts == [] then [] else
      var front := TradesOf(ts[..|ts| - 1], symbol);
      if ts[|ts| - 1].symbol == symbol then front + [ts[|ts| - 1]] else front
  }

  function BarsOf(out: seq<Bar>, symbol: nat, kind: Kind): seq<Acc> {
    if out == [] then [] else
      var front, bar := BarsOf(out[..|out| - 1], symbol, kind), out[|out| - 1];
      if bar.symbol == symbol && bar.kind == kind then front + [bar.acc] else front
  }

  lemma {:induction false} BarsOfJoins(a: seq<Bar>, b: seq<Bar>, symbol: nat, kind: Kind)
    ensures BarsOf(a + b, symbol, kind) == BarsOf(a, symbol, kind) + BarsOf(b, symbol, kind)
    decreases |b|
  {
    if b == [] {
      assert a + b == a;
    } else {
      var n := |b| - 1;
      BarsOfJoins(a, b[..n], symbol, kind);
      assert (a + b)[..|a| + n] == a + b[..n];
    }
  }

  lemma {:induction false} BarsOfLabel(accs: seq<Acc>, s: nat, k: Kind, symbol: nat, kind: Kind)
    ensures BarsOf(Label(accs, s, k), symbol, kind) == if s == symbol && k == kind then accs else []
  {
    if accs != [] {
      var n := |accs| - 1;
      BarsOfLabel(accs[..n], s, k, symbol, kind);
      assert Label(accs, s, k)[..n] == Label(accs[..n], s, k);
      assert accs == accs[..n] + [accs[n]];
    }
  }

  lemma TradeAffectsItsSymbol(g: Aggregate, t: TradeEvent, width: nat, size: nat, symbol: nat)
    requires Sized(g) && size > 0 && symbol < |g.time|
    ensures var g' := WithTrade(g, t, width, size);
            if t.symbol == symbol then
              var r, v := TimeStep(g.time[symbol], t, width), VolumeStep(g.volume[symbol], t, size);
              && g'.time[symbol] == r.0 && g'.volume[symbol] == v.0
              && BarsOf(g'.out, symbol, TimeBar) == BarsOf(g.out, symbol, TimeBar) + r.1
              && BarsOf(g'.out, symbol, VolumeBar) == BarsOf(g.out, symbol, VolumeBar) + v.1
            else
              && g'.time[symbol] == g.time[symbol] && g'.volume[symbol] == g.volume[symbol]
              && BarsOf(g'.out, symbol, TimeBar) == BarsOf(g.out, symbol, TimeBar)
              && BarsOf(g'.out, symbol, VolumeBar) == BarsOf(g.out, symbol, VolumeBar)
  {
    hide BarsOf, Label, TimeStep, VolumeStep;
    if t.symbol < |g.time| {
      var r, v := TimeStep(g.time[t.symbol], t, width), VolumeStep(g.volume[t.symbol], t, size);
      var rs, vs := Label(r.1, t.symbol, TimeBar), Label(v.1, t.symbol, VolumeBar);
      BarsOfJoins(g.out, rs, symbol, TimeBar);
      BarsOfJoins(g.out, rs, symbol, VolumeBar);
      BarsOfJoins(g.out + rs, vs, symbol, TimeBar);
      BarsOfJoins(g.out + rs, vs, symbol, VolumeBar);
      BarsOfLabel(r.1, t.symbol, TimeBar, symbol, TimeBar);
      BarsOfLabel(r.1, t.symbol, TimeBar, symbol, VolumeBar);
      BarsOfLabel(v.1, t.symbol, VolumeBar, symbol, TimeBar);
      BarsOfLabel(v.1, t.symbol, VolumeBar, symbol, VolumeBar);
    }
  }

  /** The bars of a symbol are those that its own trades make; other symbols do not disturb them. */
  lemma {:induction false} SymbolsAreIndependent(symbols: nat, ts: seq<TradeEvent>, width: nat, size: nat, symbol: nat)
    requires size > 0 && symbol < symbols
    ensures var g := AllBars(symbols, ts, width, size);
            var own := TradesOf(ts, symbol);
            && g.time[symbol] == TimeRun(own, width).0 && BarsOf(g.out, symbol, TimeBar) == TimeRun(own, width).1
            && g.volume[symbol] == VolumeRun(own, size).0 && BarsOf(g.out, symbol, VolumeBar) == VolumeRun(own, size).1
  {
    hide TimeStep, VolumeStep, WithTrade, BarsOf;
    if ts == [] {
      NoBarsOf(symbol);
    } else {
      var front, t := ts[..|ts| - 1], ts[|ts| - 1];
      SymbolsAreIndependent(symbols, front, width, size, symbol);
      TradeAffectsItsSymbol(AllBars(symbols, front, width, size), t, width, size, symbol);
      var own := TradesOf(front, symbol);
      assert (own + [t])[..|own|] == own;
    }
  }

  lemma NoBarsOf(symbol: nat)
    ensures BarsOf([], symbol, TimeBar) == [] && BarsOf([], symbol, VolumeBar) == []
  {
  }

  // ----- flushing

  function Volumes(accs: seq<Acc>): nat {
    if accs == [] then 0 else Volumes(accs[..|accs| - 1]) + accs[|accs| - 1].volume
  }

  /** Flushing writes the open bars of a symbol, once. */
  lemma {:induction false} FlushedSymbol(g: Aggregate, n: nat, symbol: nat)
    requires Sized(g) && symbol < |g.time| && n <= |g.time|
    ensures var g', a, v := Flushed(g, n), g.time[symbol], g.volume[symbol];
            && BarsOf(g'.out, symbol, TimeBar)
               == BarsOf(g.out, symbol, TimeBar) + (if n > symbol && a.active then [a] else [])
            && BarsOf(g'.out, symbol, VolumeBar)
               == BarsOf(g.out, symbol, VolumeBar) + (if n > symbol && v.active && v.volume > 0 then [v] else [])
            && (n <= symbol ==> g'.time[symbol] == a && g'.volume[symbol] == v)
  {
    hide BarsOf;
    if n > 0 {
      FlushedSymbol(g, n - 1, symbol);
      FlushStep(Flushed(g, n - 1), n - 1, symbol);
    }
  }

  lemma FlushStep(g: Aggregate, s: nat, symbol: nat)
    requires Sized(g) && s < |g.time| && symbol < |g.time|
    ensures var g', a, v := FlushVolume(FlushTime(g, s), s), g.time[s], g.volume[s];
            && BarsOf(g'.out, symbol, TimeBar)
               == BarsOf(g.out, symbol, TimeBar) + (if s == symbol && a.active then [a] else [])
            && BarsOf(g'.out, symbol, VolumeBar)
               == BarsOf(g.out, symbol, VolumeBar) + (if s == symbol && v.active && v.volume > 0 then [v] else [])
            && (s != symbol ==> g'.time[symbol] == g.time[symbol] && g'.volume[symbol] == g.volume[symbol])
  {
    hide BarsOf;
    var h := FlushTime(g, s);
    BarsOfOne(g.out, s, g.time[s], TimeBar, symbol, TimeBar);
    BarsOfOne(g.out, s, g.time[s], TimeBar, symbol, VolumeBar);
    BarsOfOne(h.out, s, g.volume[s], VolumeBar, symbol, TimeBar);
    BarsOfOne(h.out, s, g.volume[s], VolumeBar, symbol, VolumeBar);
  }

  lemma BarsOfOne(out: seq<Bar>, s: nat, a: Acc, k: Kind, symbol: nat, kind: Kind)
    ensures BarsOf(out + [Bar(s, a, k)], symbol, kind)
         == BarsOf(out, symbol, kind) + if s == symbol && k == kind then [a] else []
  {
    assert (out + [Bar(s, a, k)])[..|out|] == out;
  }

  lemma {:induction false} VolumesOfSummaries(segs: seq<seq<TradeEvent>>)
    ensures Volumes(Summaries(segs)) == Total(Flatten(segs))
  {
    hide Summary, Total;
    EmptySegment();
    if segs != [] {
      var n := |segs| - 1;
      VolumesOfSummaries(segs[..n]);
      assert Summaries(segs)[..n] == Summaries(segs[..n]);
      TotalJoins(Flatten(segs[..n]), segs[n]);
      SummaryTotal(segs[n]);
    }
  }

  lemma {:induction false} TotalOfPieces(ts: seq<TradeEvent>, size: nat)
    requires size > 0
    ensures Total(AllPieces(ts, size)) == Total(ts)
  {
    hide Pieces;
    if ts != [] {
      var front, t := ts[..|ts| - 1], ts[|ts| - 1];
      TotalOfPieces(front, size);
      PiecesOfTrade(Total(front) % size, t, size);
      TotalJoins(AllPieces(front, size), Pieces(Total(front) % size, t, size));
    }
  }

  /** What the time bars of a symbol are after a flush. */
  ghost predicate TimeBarsOf(bars: seq<Acc>, own: seq<TradeEvent>, width: nat, segs: seq<seq<TradeEvent>>) {
    && bars == Summaries(segs) && Flatten(segs) == own
    && (forall i :: 0 <= i < |segs| ==> segs[i] != [] && (Short(segs[i], width) || JustLongEnough(segs[i], width)))
    && (forall i :: 0 <= i < |segs| - 1 ==> JustLongEnough(segs[i], width))
  }

  /** What the volume bars of a symbol are after a flush: `rest` is what no bar shows. */
  ghost predicate VolumeBarsOf(bars: seq<Acc>, own: seq<TradeEvent>, size: nat,
                               segs: seq<seq<TradeEvent>>, rest: seq<TradeEvent>)
    requires size > 0
  {
    && bars == Summaries(segs) && Flatten(segs) + rest == AllPieces(own, size) && Total(rest) == 0
    && (forall i :: 0 <= i < |segs| ==> 0 < Total(segs[i]) <= size)
    && (forall i :: 0 <= i < |segs| - 1 ==> Total(segs[i]) == size)
    && |segs| == Total(own) / size + if Total(own) % size > 0 then 1 else 0
  }

  lemma TimeBarsAfterFlush(own: seq<TradeEvent>, width: nat) returns (segs: seq<seq<TradeEvent>>)
    ensures var r := TimeRun(own, width);
            TimeBarsOf(r.1 + (if r.0.active then [r.0] else []), own, width, segs)
  {
    hide Summary, Flatten, Short;
    var closed, open := TimeBarsPartition(own, width);
    SummaryTotal(open);
    if open == [] {
      assert Summaries(closed) + [] == Summaries(closed) && Flatten(closed) + [] == Flatten(closed);
      return closed;
    }
    FlattenExtends(closed, open);
    return closed + [open];
  }

  lemma VolumeBarsAfterFlush(own: seq<TradeEvent>, size: nat)
    returns (segs: seq<seq<TradeEvent>>, rest: seq<TradeEvent>)
    requires size > 0
    ensures var r := VolumeRun(own, size);
            VolumeBarsOf(r.1 + (if r.0.active && r.0.volume > 0 then [r.0] else []), own, size, segs, rest)
  {
    hide Summary, Flatten, AllPieces;
    EmptySegment();
    var closed, open := VolumeBarsPartition(own, size);
    SummaryTotal(open);
    if Total(open) == 0 {
      assert Summaries(closed) + [] == Summaries(closed);
      return closed, open;
    }
    hide Total;
    FlattenExtends(closed, open);
    assert Flatten(closed + [open]) + [] == Flatten(closed + [open]);
    return closed + [open], [];
  }

  /**
   After a flush, the time bars of a symbol are the summaries of consecutive disjoint segments that are all its trades;
   its volume bars are those of its trades split at bar ends, each full but the last, and only pieces without quantity
   are missing at the end.
   */
  lemma FlushedBarsPartition(symbols: nat, ts: seq<TradeEvent>, width: nat, size: nat, symbol: nat)
    returns (segs: seq<seq<TradeEvent>>, pieces: seq<seq<TradeEvent>>, rest: seq<TradeEvent>)
    requires size > 0 && symbol < symbols
    ensures var out := Flushed(AllBars(symbols, ts, width, size), symbols).out;
            && TimeBarsOf(BarsOf(out, symbol, TimeBar), TradesOf(ts, symbol), width, segs)
            && VolumeBarsOf(BarsOf(out, symbol, VolumeBar), TradesOf(ts, symbol), size, pieces, rest)
  {
    hide BarsOf, TradesOf, AllBars, TimeRun, VolumeRun, TimeBarsOf, VolumeBarsOf;
    var own := TradesOf(ts, symbol);
    SymbolsAreIndependent(symbols, ts, width, size, symbol);
    FlushedSymbol(AllBars(symbols, ts, width, size), symbols, symbol);
    segs := TimeBarsAfterFlush(own, width);
    pieces, rest := VolumeBarsAfterFlush(own, size);
  }

  /** Conservation: after a flush, a symbol's time bars and its volume bars each hold exactly what it traded. */
  lemma QuantityIsConserved(symbols: nat, ts: seq<TradeEvent>, width: nat, size: nat, symbol: nat)
    requires size > 0 && symbol < symbols
    ensures var out := Flushed(AllBars(symbols, ts, width, size), symbols).out;
            && Volumes(BarsOf(out, symbol, TimeBar)) == Total(TradesOf(ts, symbol))
            && Volumes(BarsOf(out, symbol, VolumeBar)) == Total(TradesOf(ts, symbol))
  {
    hide Summary, Total, Flatten, Volumes, BarsOf, TradesOf, AllBars, AllPieces, Short, JustLongEnough;
    var segs, pieces, rest := FlushedBarsPartition(symbols, ts, width, size, symbol);
    VolumesOfSummaries(segs);
    VolumesOfSummaries(pieces);
    TotalJoins(Flatten(pieces), rest);
    TotalOfPieces(TradesOf(ts, symbol), size);
  }

  // ----- what a flush leaves behind

  /** Nothing of this symbol is left to be written. */
  predicate Cleared(g: Aggregate, s: nat)
    requires Sized(g) && s < |g.time|
  {
    !g.time[s].active && (!g.volume[s].active || g.volume[s].volume == 0)
  }

  /** What a flush of the first `n` symbols leaves of a symbol's accumulators. */
  lemma {:induction false} FlushedAccumulators(g: Aggregate, n: nat, symbol: nat)
    requires Sized(g) && symbol < |g.time| && n <= |g.time|
    ensures var g', a, v := Flushed(g, n), g.time[symbol], g.volume[symbol];
            && g'.time[symbol] == (if n > symbol && a.active then INACTIVE else a)
            && g'.volume[symbol] == (if n > symbol && v.active && v.volume > 0 then INACTIVE else v)
  {
    if n > 0 {
      FlushedAccumulators(g, n - 1, symbol);
    }
  }

  lemma {:induction false} ClearedStays(g: Aggregate, n: nat)
    requires Sized(g) && n <= |g.time| && forall s :: 0 <= s < n ==> Cleared(g, s)
    ensures Flushed(g, n) == g
  {
    if n > 0 {
      ClearedStays(g, n - 1);
      assert Cleared(g, n - 1);
    }
  }

  /** A flush clears every symbol, and a second one writes no bar and changes nothing. */
  lemma SecondFlushIsIdle(g: Aggregate)
    requires Sized(g)
    ensures var g' := Flushed(g, |g.time|);
            && (forall s :: 0 <= s < |g.time| ==> Cleared(g', s))
            && Flushed(g', |g.time|) == g'
  {
    var g' := Flushed(g, |g.time|);
    forall s | 0 <= s < |g.time|
      ensures Cleared(g', s)
    {
      FlushedAccumulators(g, |g.time|, s);
    }
    ClearedStays(g', |g.time|);
  }

  // ----- the order of the bars

  lemma {:induction false} CarriedBarsEnd(a: Acc, t: TradeEvent, size: nat)
    requires CarryEnds(a, size) && (a.active ==> a.end == t.ts)
    ensures forall i :: 0 <= i < |Carry(a, t, size).1| ==> Carry(a, t, size).1[i].end == t.ts
    decreases a.volume
  {
    if a.active && a.volume > size && size > 0 {
      CarriedBarsEnd(a.(volume := a.volume - size, start := t.ts, open := t.price, high := t.price, low := t.price,
                        close := t.price), t, size);
    }
  }

  /** The bars that a trade writes: its symbol's, ending at its time, and a time bar only as the first of them. */
  lemma BarsOfTrade(g: Aggregate, t: TradeEvent, width: nat, size: nat)
    requires Sized(g) && (t.symbol < |g.time| ==> CarryEnds(Extend(g.volume[t.symbol], t), size))
    ensures var out := WithTrade(g, t, width, size).out;
            && |out| >= |g.out| && out[..|g.out|] == g.out
            && forall i :: |g.out| <= i < |out| ==>
                 && t.symbol < |g.time| && out[i].symbol == t.symbol && out[i].acc.end == t.ts
                 && (out[i].kind == TimeBar ==> i == |g.out|)
  {
    if t.symbol < |g.time| {
      CarriedBarsEnd(Extend(g.volume[t.symbol], t), t, size);
    }
  }

  /** A flush writes by symbol, and of each symbol the time bar first. */
  predicate WrittenBefore(a: Bar, b: Bar) {
    a.symbol < b.symbol || (a.symbol == b.symbol && a.kind == TimeBar && b.kind == VolumeBar)
  }

  lemma {:induction false} FlushWritesInOrder(g: Aggregate, n: nat)
    requires Sized(g) && n <= |g.time|
    ensures var out := Flushed(g, n).out;
            && |out| >= |g.out| && out[..|g.out|] == g.out
            && (forall i :: |g.out| <= i < |out| ==> out[i].symbol < n)
            && (forall i, j :: |g.out| <= i < j < |out| ==> WrittenBefore(out[i], out[j]))
  {
    if n > 0 {
      FlushWritesInOrder(g, n - 1);
    }
  }

  /** The bar counters count the bars of their kind. */
  lemma {:induction false} CountIsNumberOfBars(out: seq<Bar>, kind: Kind)
    ensures CountBars(out, kind) == |PlacesOf(out, kind)|
  {
    hide PlacesOf;
    if out == [] {
      NoPlaces(kind);
    } else {
      CountIsNumberOfBars(out[..|out| - 1], kind);
      PlacesExtend(out, kind);
    }
  }

  /** The places in a sequence of bars that hold one of this kind. */
  function PlacesOf(out: seq<Bar>, kind: Kind): set<nat> {
    set i | 0 <= i < |out| && out[i].kind == kind
  }

  lemma NoPlaces(kind: Kind)
    ensures PlacesOf([], kind) == {}
  {
  }

  lemma PlacesExtend(out: seq<Bar>, kind: Kind)
    requires out != []
    ensures var n := |out| - 1;
            n !in PlacesOf(out[..n], kind)
            && PlacesOf(out, kind) == PlacesOf(out[..n], kind) + if out[n].kind == kind then {n} else {}
  {
  }

  // ----- runs with flushes in between

  datatype Action = Deal(trade: TradeEvent) | Flush

  function AfterActions(symbols: nat, acts: seq<Action>, width: nat, size: nat): (g: Aggregate)
    requires size > 0
    ensures Sized(g) && |g.time| == symbols
  {
    if acts == [] then NoBars(symbols) else
      var g := AfterActions(symbols, acts[..|acts| - 1], width, size);
      match acts[|acts| - 1]
      case Deal(t) => WithTrade(g, t, width, size)
      case Flush => Flushed(g, symbols)
  }

  /** The trades of a symbol in a run with flushes. */
  function DealsOf(acts: seq<Action>, symbol: nat): seq<TradeEvent> {
    if acts == [] then [] else
      var front, last := DealsOf(acts[..|acts| - 1], symbol), acts[|acts| - 1];
      if last.Deal? && last.trade.symbol == symbol then front + [last.trade] else front
  }

  /** The time bars so far are the summaries of the closed segments, the accumulator is that of the open one. */
  ghost predicate SegmentsSoFar(bars: seq<Acc>, a: Acc, own: seq<TradeEvent>, width: nat,
                                closed: seq<seq<TradeEvent>>, open: seq<TradeEvent>) {
    && bars == Summaries(closed) && a == Summary(open) && Flatten(closed) + open == own
    && Short(open, width)
    && forall i :: 0 <= i < |closed| ==> closed[i] != [] && (Short(closed[i], width) || JustLongEnough(closed[i], width))
  }

  lemma DealExtendsSegments(bars: seq<Acc>, a: Acc, own: seq<TradeEvent>, t: TradeEvent, width: nat,
                            closed: seq<seq<TradeEvent>>, open: seq<TradeEvent>)
    returns (closed': seq<seq<TradeEvent>>, open': seq<TradeEvent>)
    requires SegmentsSoFar(bars, a, own, width, closed, open)
    ensures var r := TimeStep(a, t, width);
            SegmentsSoFar(bars + r.1, r.0, own + [t], width, closed', open')
  {
    hide Summary, Flatten, Elapsed;
    EmptySegment();
    SummaryTotal(open);
    SummaryExtends(open, t);
    if open != [] {
      SummaryIsOhlc(open);
    }
    assert (open + [t])[..|open|] == open;
    if open != [] && Elapsed(open[0].ts, t.ts) >= width {
      FlattenExtends(closed, open + [t]);
      return closed + [open + [t]], [];
    }
    assert bars + [] == bars;
    return closed, open + [t];
  }

  lemma FlushExtendsSegments(bars: seq<Acc>, a: Acc, own: seq<TradeEvent>, width: nat,
                             closed: seq<seq<TradeEvent>>, open: seq<TradeEvent>)
    returns (closed': seq<seq<TradeEvent>>)
    requires SegmentsSoFar(bars, a, own, width, closed, open)
    ensures !a.active ==> a == INACTIVE
    ensures SegmentsSoFar(bars + (if a.active then [a] else []), INACTIVE, own, width, closed', [])
  {
    hide Summary, Flatten;
    EmptySegment();
    SummaryTotal(open);
    if open == [] {
      assert bars + [] == bars;
      return closed;
    }
    FlattenExtends(closed, open);
    assert Flatten(closed) + open + [] == Flatten(closed) + open;
    return closed + [open];
  }

  /**
   Whatever flushes come in between: the time bars of a symbol are the summaries of consecutive disjoint segments that
   with the open one are all its trades, none counted twice and none lost.
   */
  lemma {:induction false} SegmentsOfActions(symbols: nat, acts: seq<Action>, width: nat, size: nat, symbol: nat)
    returns (closed: seq<seq<TradeEvent>>, open: seq<TradeEvent>)
    requires size > 0 && symbol < symbols
    ensures var g := AfterActions(symbols, acts, width, size);
            SegmentsSoFar(BarsOf(g.out, symbol, TimeBar), g.time[symbol], DealsOf(acts, symbol), width, closed, open)
  {
    hide TimeStep, VolumeStep, WithTrade, BarsOf, Flushed, SegmentsSoFar;
    if acts == [] {
      NoBarsOf(symbol);
      NoSegments(width);
      return [], [];
    }
    var before, last := acts[..|acts| - 1], acts[|acts| - 1];
    closed, open := SegmentsOfActions(symbols, before, width, size, symbol);
    var g, own := AfterActions(symbols, before, width, size), DealsOf(before, symbol);
    match last
    case Deal(t) =>
      TradeAffectsItsSymbol(g, t, width, size, symbol);
      if t.symbol == symbol {
        closed, open := DealExtendsSegments(BarsOf(g.out, symbol, TimeBar), g.time[symbol], own, t, width, closed, open);
      }
    case Flush =>
      FlushedSymbol(g, symbols, symbol);
      FlushedAccumulators(g, symbols, symbol);
      closed := FlushExtendsSegments(BarsOf(g.out, symbol, TimeBar), g.time[symbol], own, width, closed, open);
      open := [];
  }

  lemma NoSegments(width: nat)
    ensures SegmentsSoFar([], INACTIVE, [], width, [], [])
  {
  }

  /** All pieces are parts of trade `t`: alike but for the quantity, and together of its quantity. */
  predicate PartsOf(pieces: seq<TradeEvent>, t: TradeEvent) {
    && Total(pieces) == t.qty
    && forall i :: 0 <= i < |pieces| ==>
         pieces[i].symbol == t.symbol && pieces[i].price == t.price && pieces[i].ts == t.ts
  }

  /** The pieces are the parts of the first trade, then those of the second, and so on. */
  ghost predicate Splits(pieces: seq<TradeEvent>, own: seq<TradeEvent>)
    decreases |own|
  {
    if own == [] then pieces == [] else
      exists cut :: 0 <= cut <= |pieces|
        && PartsOf(pieces[cut..], own[|own| - 1]) && Splits(pieces[..cut], own[..|own| - 1])
  }

  lemma SplitsExtend(pieces: seq<TradeEvent>, own: seq<TradeEvent>, parts: seq<TradeEvent>, t: TradeEvent)
    requires Splits(pieces, own) && PartsOf(parts, t)
    ensures Splits(pieces + parts, own + [t])
  {
    hide PartsOf;
    var all, cut := pieces + parts, |pieces|;
    assert all[cut..] == parts && all[..cut] == pieces && (own + [t])[..|own|] == own;
  }

  lemma {:induction false} SplitsKeepTotal(pieces: seq<TradeEvent>, own: seq<TradeEvent>)
    requires Splits(pieces, own)
    ensures Total(pieces) == Total(own)
    decreases |own|
  {
    if own != [] {
      var cut :| 0 <= cut <= |pieces|
        && PartsOf(pieces[cut..], own[|own| - 1]) && Splits(pieces[..cut], own[..|own| - 1]);
      SplitsKeepTotal(pieces[..cut], own[..|own| - 1]);
      TotalJoins(pieces[..cut], pieces[cut..]);
      assert pieces == pieces[..cut] + pieces[cut..];
    }
  }

  /** The volume bars so far are the summaries of the closed segments, the accumulator is that of the open one. */
  ghost predicate PiecesSoFar(bars: seq<Acc>, a: Acc, own: seq<TradeEvent>, size: nat,
                              closed: seq<seq<TradeEvent>>, open: seq<TradeEvent>) {
    && bars == Summaries(closed) && a == Summary(open) && Total(open) < size
    && Splits(Flatten(closed) + open, own)
    && forall i :: 0 <= i < |closed| ==> 0 < Total(closed[i]) <= size
  }

  lemma PiecesAreParts(have: nat, t: TradeEvent, size: nat)
    requires have < size
    ensures PartsOf(Pieces(have, t, size), t)
  {
    hide Pieces, Total;
    PiecesOfTrade(have, t, size);
    var ps := Pieces(have, t, size);
    forall i | 0 <= i < |ps|
      ensures ps[i].symbol == t.symbol && ps[i].price == t.price && ps[i].ts == t.ts
    {
      assert ps[i].(qty := t.qty) == t;
    }
  }

  /** The pieces that volume bars are made of are the trades, split into parts. */
  lemma {:induction false} AllPiecesSplit(ts: seq<TradeEvent>, size: nat)
    requires size > 0
    ensures Splits(AllPieces(ts, size), ts)
  {
    hide Pieces, PartsOf, Total;
    if ts != [] {
      var front, t := ts[..|ts| - 1], ts[|ts| - 1];
      AllPiecesSplit(front, size);
      PiecesAreParts(Total(front) % size, t, size);
      SplitsExtend(AllPieces(front, size), front, Pieces(Total(front) % size, t, size), t);
      assert ts == front + [t];
    }
  }

  lemma DealExtendsPieces(bars: seq<Acc>, a: Acc, own: seq<TradeEvent>, t: TradeEvent, size: nat,
                          closed: seq<seq<TradeEvent>>, open: seq<TradeEvent>)
    returns (closed': seq<seq<TradeEvent>>, open': seq<TradeEvent>)
    requires size > 0 && PiecesSoFar(bars, a, own, size, closed, open)
    ensures var r := VolumeStep(a, t, size);
            PiecesSoFar(bars + r.1, r.0, own + [t], size, closed', open')
  {
    hide Summary, Flatten, Total, Carry, Pieces, Splits, PartsOf;
    var more, last := CarryPartitions(open, t, t, size);
    FlattenJoins(closed, more);
    Regroup(Flatten(closed), Flatten(more), last, open, Pieces(Total(open), t, size));
    PiecesAreParts(Total(open), t, size);
    SplitsExtend(Flatten(closed) + open, own, Pieces(Total(open), t, size), t);
    return closed + more, last;
  }

  lemma FlushExtendsPieces(bars: seq<Acc>, a: Acc, own: seq<TradeEvent>, size: nat,
                           closed: seq<seq<TradeEvent>>, open: seq<TradeEvent>)
    returns (closed': seq<seq<TradeEvent>>, open': seq<TradeEvent>)
    requires PiecesSoFar(bars, a, own, size, closed, open)
    ensures var written := a.active && a.volume > 0;
            && PiecesSoFar(bars + (if written then [a] else []), if written then INACTIVE else a, own, size, closed', open')
            && Total(open') == 0
  {
    hide Summary, Flatten, Splits;
    EmptySegment();
    SummaryTotal(open);
    if Total(open) == 0 {
      assert bars + [] == bars;
      return closed, open;
    }
    hide Total;
    FlattenExtends(closed, open);
    assert Flatten(closed) + open + [] == Flatten(closed) + open;
    return closed + [open], [];
  }

  /**
   Whatever flushes come in between: the volume bars of a symbol are the summaries of consecutive segments of at most
   the bar size, which with the open one are its trades split into parts, none counted twice and none lost.
   */
  lemma {:induction false} PiecesOfActions(symbols: nat, acts: seq<Action>, width: nat, size: nat, symbol: nat)
    returns (closed: seq<seq<TradeEvent>>, open: seq<TradeEvent>)
    requires size > 0 && symbol < symbols
    ensures var g := AfterActions(symbols, acts, width, size);
            PiecesSoFar(BarsOf(g.out, symbol, VolumeBar), g.volume[symbol], DealsOf(acts, symbol), size, closed, open)
    ensures acts != [] && acts[|acts| - 1].Flush? ==> Total(open) == 0
  {
    hide TimeStep, VolumeStep, WithTrade, BarsOf, Flushed, PiecesSoFar;
    if acts == [] {
      NoBarsOf(symbol);
      NoPieces(size);
      return [], [];
    }
    var before, last := acts[..|acts| - 1], acts[|acts| - 1];
    closed, open := PiecesOfActions(symbols, before, width, size, symbol);
    var g, own := AfterActions(symbols, before, width, size), DealsOf(before, symbol);
    match last
    case Deal(t) =>
      TradeAffectsItsSymbol(g, t, width, size, symbol);
      if t.symbol == symbol {
        closed, open := DealExtendsPieces(BarsOf(g.out, symbol, VolumeBar), g.volume[symbol], own, t, size, closed, open);
      }
    case Flush =>
      FlushedSymbol(g, symbols, symbol);
      FlushedAccumulators(g, symbols, symbol);
      closed, open := FlushExtendsPieces(BarsOf(g.out, symbol, VolumeBar), g.volume[symbol], own, size, closed, open);
  }

  lemma NoPieces(size: nat)
    requires size > 0
    ensures PiecesSoFar([], INACTIVE, [], size, [], [])
  {
  }

  /** Conservation over whole runs, whatever flushes come in between. */
  lemma ActionsConserve(symbols: nat, acts: seq<Action>, width: nat, size: nat, symbol: nat)
    requires size > 0 && symbol < symbols
    ensures var g, total := AfterActions(symbols, acts, width, size), Total(DealsOf(acts, symbol));
            && Volumes(BarsOf(g.out, symbol, TimeBar)) + g.time[symbol].volume == total
            && Volumes(BarsOf(g.out, symbol, VolumeBar)) + g.volume[symbol].volume == total
  {
    hide Summary, Total, Flatten, Volumes, BarsOf, DealsOf, AfterActions, Splits;
    var closed, open := SegmentsOfActions(symbols, acts, width, size, symbol);
    VolumesOfSummaries(closed);
    SummaryTotal(open);
    TotalJoins(Flatten(closed), open);
    var closed', open' := PiecesOfActions(symbols, acts, width, size, symbol);
    VolumesOfSummaries(closed');
    SummaryTotal(open');
    TotalJoins(Flatten(closed'), open');
    SplitsKeepTotal(Flatten(closed') + open', DealsOf(acts, symbol));
  }

  function Deals(ts: seq<TradeEvent>): seq<Action> {
    seq(|ts|, i requires 0 <= i < |ts| => Deal(ts[i]))
  }

  /** Trades without quantity do not fill a volume bar. */
  lemma {:induction false} IdleVolumeRun(rest: seq<TradeEvent>, size: nat)
    requires size > 0 && Total(rest) == 0
    ensures VolumeRun(rest, size) == (Summary(rest), [])
  {
    if rest != [] {
      var front, t := rest[..|rest| - 1], rest[|rest| - 1];
      IdleVolumeRun(front, size);
      SummaryTotal(rest);
      var a := Extend(Summary(front), t);
      assert a == Summary(rest) && a.volume == 0;
      RunsExtend(front, t, 0, size);
      assert rest == front + [t];
      var none: seq<Acc> := [];
      assert none + none == none;
    }
  }

  /**
   The bars written since the last flush are those of the trades since then. The time accumulator starts afresh, the
   volume accumulator with nothing but the trades without quantity that `rest` holds.
   */
  lemma {:induction false} BarsSinceFlush(symbols: nat, before: seq<Action>, ts: seq<TradeEvent>, width: nat, size: nat,
                                          symbol: nat)
    returns (rest: seq<TradeEvent>)
    requires size > 0 && symbol < symbols
    ensures var own := TradesOf(ts, symbol);
            var g0 := AfterActions(symbols, before + [Flush], width, size);
            var g := AfterActions(symbols, before + [Flush] + Deals(ts), width, size);
            && Total(rest) == 0
            && g.time[symbol] == TimeRun(own, width).0
            && BarsOf(g.out, symbol, TimeBar) == BarsOf(g0.out, symbol, TimeBar) + TimeRun(own, width).1
            && g.volume[symbol] == VolumeRun(rest + own, size).0
            && BarsOf(g.out, symbol, VolumeBar) == BarsOf(g0.out, symbol, VolumeBar) + VolumeRun(rest + own, size).1
    decreases |ts|
  {
    hide TimeStep, VolumeStep, WithTrade, BarsOf, Flushed, TimeRun, VolumeRun, Total;
    var flushed := before + [Flush];
    if ts == [] {
      EmptyRuns(width, size);
      rest := FlushLeavesRest(symbols, before, width, size, symbol);
      assert flushed + Deals(ts) == flushed;
      assert rest + [] == rest;
    } else {
      var front, t := ts[..|ts| - 1], ts[|ts| - 1];
      rest := BarsSinceFlush(symbols, before, front, width, size, symbol);
      var acts := flushed + Deals(ts);
      assert acts[..|acts| - 1] == flushed + Deals(front) && acts[|acts| - 1] == Deal(t);
      var g := AfterActions(symbols, flushed + Deals(front), width, size);
      TradeAffectsItsSymbol(g, t, width, size, symbol);
      var own := TradesOf(front, symbol);
      RunsExtend(own, t, width, size);
      RunsExtend(rest + own, t, width, size);
      assert rest + (own + [t]) == rest + own + [t];
    }
  }

  lemma EmptyRuns(width: nat, size: nat)
    requires size > 0
    ensures TimeRun([], width) == (INACTIVE, []) && VolumeRun([], size) == (INACTIVE, [])
  {
  }

  lemma RunsExtend(ts: seq<TradeEvent>, t: TradeEvent, width: nat, size: nat)
    requires size > 0
    ensures var r, s := TimeRun(ts, width), TimeStep(TimeRun(ts, width).0, t, width);
            TimeRun(ts + [t], width) == (s.0, r.1 + s.1)
    ensures var r, s := VolumeRun(ts, size), VolumeStep(VolumeRun(ts, size).0, t, size);
            VolumeRun(ts + [t], size) == (s.0, r.1 + s.1)
  {
    hide TimeStep, VolumeStep;
    assert (ts + [t])[..|ts|] == ts;
  }

  lemma FlushLeavesRest(symbols: nat, before: seq<Action>, width: nat, size: nat, symbol: nat)
    returns (rest: seq<TradeEvent>)
    requires size > 0 && symbol < symbols
    ensures var g := AfterActions(symbols, before + [Flush], width, size);
            Total(rest) == 0 && g.time[symbol] == INACTIVE && VolumeRun(rest, size) == (g.volume[symbol], [])
  {
    hide BarsOf, Flushed, Total, AfterActions, Splits, Flatten, DealsOf;
    var flushed := before + [Flush];
    assert flushed[..|before|] == before && flushed[|flushed| - 1] == Flush;
    var closed, open := PiecesOfActions(symbols, flushed, width, size, symbol);
    rest := open;
    IdleVolumeRun(rest, size);
    FlushStartsAfresh(symbols, before, width, size, symbol);
  }

  lemma FlushStartsAfresh(symbols: nat, before: seq<Action>, width: nat, size: nat, symbol: nat)
    requires size > 0 && symbol < symbols
    ensures AfterActions(symbols, before + [Flush], width, size).time[symbol] == INACTIVE
  {
    hide BarsOf, Flushed, Flatten, DealsOf, Summary;
    var flushed := before + [Flush];
    assert flushed[..|before|] == before && flushed[|flushed| - 1] == Flush;
    FlushedAccumulators(AfterActions(symbols, before, width, size), symbols, symbol);
    var closed, open := SegmentsOfActions(symbols, before, width, size, symbol);
    SummaryTotal(open);
    EmptySegment();
  }

  // ----- the bar size

  function CarryRound(a: Acc, t: TradeEvent, size: nat): Acc
    requires a.volume >= size
  {
    if a.volume == size then INACTIVE
    else a.(volume := a.volume - size, start := t.ts, open := t.price, high := t.price, low := t.price, close := t.price)
  }

  predicate GoesOn(a: Acc, size: nat) {
    a.active && a.volume >= size
  }

  /** The accumulator after `n` rounds of the carry loop, or when it ended before. */
  function CarryRounds(a: Acc, t: TradeEvent, size: nat, n: nat): Acc
    decreases n
  {
    if n == 0 || !GoesOn(a, size) then a else CarryRounds(CarryRound(a, t, size), t, size, n - 1)
  }

  lemma {:induction false} ZeroSizeGoesOn(a: Acc, t: TradeEvent, n: nat)
    requires a.active && a.volume > 0
    ensures GoesOn(CarryRounds(a, t, 0, n), 0)
    decreases n
  {
    if n > 0 {
      ZeroSizeGoesOn(CarryRound(a, t, 0), t, n - 1);
    }
  }

  lemma {:induction false} PositiveSizeEnds(a: Acc, t: TradeEvent, size: nat) returns (n: nat)
    requires size > 0
    ensures !GoesOn(CarryRounds(a, t, size, n), size)
    decreases if a.active then a.volume + 1 else 0
  {
    if GoesOn(a, size) {
      var m := PositiveSizeEnds(CarryRound(a, t, size), t, size);
      n := m + 1;
    } else {
      n := 0;
    }
  }

  /** The carry loop ends if and only if the bar size is positive or there is nothing to carry. */
  lemma CarryLoopEnds(a: Acc, t: TradeEvent, size: nat)
    ensures (exists n: nat :: !GoesOn(CarryRounds(a, t, size, n), size)) <==> CarryEnds(a, size)
  {
    if size > 0 {
      var n := PositiveSizeEnds(a, t, size);
    } else if a.active && a.volume > 0 {
      forall n: nat
        ensures GoesOn(CarryRounds(a, t, size, n), size)
      {
        ZeroSizeGoesOn(a, t, n);
      }
    } else {
      assert !GoesOn(CarryRounds(a, t, size, 1), size);
    }
  }
}
