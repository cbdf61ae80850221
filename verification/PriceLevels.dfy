/**
 One side of one symbol's book: a quantity per price level, a bitmap of the occupied levels and the cached
 best price. `SideState` is the value the side stands for; `SideBook` keeps it in arrays and machine words.
 */
module PriceLevels {
  import opened Bits

  /** Quantities are `uint32_t`. */
  const U32: nat := 0x1_0000_0000

  datatype SideState = SideState(qty: seq<nat>, occ: set<nat>, best: nat)

  function EmptySide(n: nat): SideState {
    SideState(seq(n, _ => 0), {}, 0)
  }

  /** How many bits the bitmap of a side with `n` quantities has. */
  function BitmapSize(n: nat): (r: nat)
    requires n >= 1
    ensures r >= n
  {
    WORD * ((n - 1) / WORD + 1)
  }

  // ----- the linear scans that the word scans must agree with

  /** The largest occupied price at or below `p`, 0 if there is none. */
  function HighestAtMost(occ: set<nat>, p: nat): nat {
    if p in occ || p == 0 then p else HighestAtMost(occ, p - 1)
  }

  /** The smallest occupied price at or above `p` and below `limit`, 0 if there is none. */
  function LowestAtLeast(occ: set<nat>, p: nat, limit: nat): nat
    decreases limit - p
  {
    if p >= limit then 0 else if p in occ then p else LowestAtLeast(occ, p + 1, limit)
  }

  lemma {:induction false} HighestIsMax(occ: set<nat>, p: nat)
    ensures var r := HighestAtMost(occ, p);
            && r <= p && (r in occ || r == 0)
            && forall q :: q in occ && q <= p ==> q <= r
  {
    if !(p in occ || p == 0) {
      HighestIsMax(occ, p - 1);
    }
  }

  lemma {:induction false} LowestIsMin(occ: set<nat>, p: nat, limit: nat)
    ensures var r := LowestAtLeast(occ, p, limit);
            && (r == 0 || (r in occ && p <= r < limit))
            && forall q :: q in occ && p <= q < limit ==> r in occ && r <= q
    decreases limit - p
  {
    if p < limit && p !in occ {
      LowestIsMin(occ, p + 1, limit);
    }
  }

  lemma {:induction false} HighestSkips(occ: set<nat>, hi: nat, lo: nat)
    requires lo <= hi
    requires forall q :: lo < q <= hi ==> q !in occ
    ensures HighestAtMost(occ, hi) == HighestAtMost(occ, lo)
  {
    if lo < hi {
      HighestSkips(occ, hi - 1, lo);
    }
  }

  /** When nothing in between is occupied, `p` is what the upward scan finds. */
  lemma LowestFound(occ: set<nat>, lo: nat, p: nat, limit: nat)
    requires lo <= p < limit && p in occ
    requires forall q :: lo <= q < p ==> q !in occ
    ensures LowestAtLeast(occ, lo, limit) == p
  {
    LowestSkips(occ, lo, p, limit);
  }

  lemma {:induction false} LowestSkips(occ: set<nat>, lo: nat, hi: nat, limit: nat)
    requires lo <= hi
    requires forall q :: lo <= q < hi ==> q !in occ
    ensures LowestAtLeast(occ, lo, limit) == LowestAtLeast(occ, hi, limit)
    decreases hi - lo
  {
    if lo < hi {
      LowestSkips(occ, lo + 1, hi, limit);
    }
  }

  // ----- the updates, on values

  function Rescan(s: SideState, isBid: bool): nat
    requires |s.qty| >= 1
  {
    if isBid then HighestAtMost(s.occ, s.best) else LowestAtLeast(s.occ, s.best, BitmapSize(|s.qty|))
  }

  function LevelAdded(s: SideState, price: nat, qty: nat, isBid: bool): SideState
    requires price < |s.qty|
  {
    var was := s.qty[price];
    SideState(
      s.qty[price := (was + qty) % U32],
      if was == 0 then s.occ + {price} else s.occ,
      if s.best == 0 || (if isBid then price > s.best else price < s.best) then price else s.best)
  }

  function LevelRemoved(s: SideState, price: nat, qty: nat, isBid: bool): SideState
    requires price < |s.qty|
  {
    var now := if qty >= s.qty[price] then 0 else s.qty[price] - qty;
    var s' := SideState(s.qty[price := now], if now == 0 then s.occ - {price} else s.occ, s.best);
    if price == s.best && now == 0 then s'.(best := Rescan(s', isBid)) else s'
  }

  // ----- what a side promises

  /** `best` is the best price of `occ`: the largest for bids, the smallest for asks, 0 if there is none. */
  ghost predicate IsBest(occ: set<nat>, best: nat, isBid: bool) {
    if occ == {} then best == 0
    else best in occ && forall q :: q in occ ==> if isBid then q <= best else best <= q
  }

  /** The three structures of a side agree: a level is occupied if it holds a quantity, and the cache is exact. */
  ghost predicate Coherent(s: SideState, isBid: bool) {
    && |s.qty| >= 1 && s.qty[0] == 0
    && s.occ == (set p | 0 <= p < |s.qty| && s.qty[p] > 0)
    && IsBest(s.occ, s.best, isBid)
  }

  lemma AddKeepsCoherent(s: SideState, price: nat, qty: nat, isBid: bool)
    requires Coherent(s, isBid) && 1 <= price < |s.qty| && qty > 0
    requires s.qty[price] + qty < U32
    ensures Coherent(LevelAdded(s, price, qty, isBid), isBid)
  {
    var s' := LevelAdded(s, price, qty, isBid);
    assert s'.occ == s.occ + {price};
  }

  lemma RemoveKeepsCoherent(s: SideState, price: nat, qty: nat, isBid: bool)
    requires Coherent(s, isBid) && 1 <= price < |s.qty|
    ensures Coherent(LevelRemoved(s, price, qty, isBid), isBid)
  {
    var s' := LevelRemoved(s, price, qty, isBid);
    HighestIsMax(s'.occ, s.best);
    LowestIsMin(s'.occ, s.best, BitmapSize(|s.qty|));
  }

  // ----- what a side keeps even when a quantity has wrapped around

  /** Every quantity has its bit, and the cache is exact for the bits; a bit may stay after its quantity wrapped to 0. */
  ghost predicate Marked(s: SideState, isBid: bool) {
    && |s.qty| >= 1
    && (forall p :: 0 <= p < |s.qty| ==> s.qty[p] < 0x1_0000_0000 && (s.qty[p] > 0 ==> p in s.occ))
    && (forall p :: p in s.occ ==> 1 <= p < |s.qty|)
    && IsBest(s.occ, s.best, isBid)
  }

  /** An addition of any quantity: the level counts modulo 2^32, its bit is set, and nothing else changes. */
  lemma AddKeepsMarked(s: SideState, price: nat, qty: nat, isBid: bool)
    requires Marked(s, isBid) && 1 <= price < |s.qty|
    ensures var s' := LevelAdded(s, price, qty, isBid);
            && Marked(s', isBid) && s'.occ == s.occ + {price}
            && |s'.qty| == |s.qty| && (s'.qty[price] - s.qty[price] - qty) % 0x1_0000_0000 == 0
            && forall p :: 0 <= p < |s.qty| && p != price ==> s'.qty[p] == s.qty[p]
  {
    WrapsByMultiple(s.qty[price] + qty);
  }

  lemma WrapsByMultiple(x: nat)
    ensures (x % U32 - x) % 0x1_0000_0000 == 0
  {
  }

  /** A removal of any quantity: the level loses as much of it as it holds, and its bit if nothing is left. */
  lemma RemoveKeepsMarked(s: SideState, price: nat, qty: nat, isBid: bool)
    requires Marked(s, isBid) && 1 <= price < |s.qty|
    ensures var s' := LevelRemoved(s, price, qty, isBid);
            && Marked(s', isBid) && s'.occ == (if s'.qty[price] == 0 then s.occ - {price} else s.occ)
            && |s'.qty| == |s.qty| && s.qty[price] - s'.qty[price] <= qty
            && s'.qty[price] <= s.qty[price] && (s'.qty[price] > 0 ==> s.qty[price] - s'.qty[price] == qty)
            && forall p :: 0 <= p < |s.qty| && p != price ==> s'.qty[p] == s.qty[p]
  {
    var s' := LevelRemoved(s, price, qty, isBid);
    HighestIsMax(s'.occ, s.best);
    LowestIsMin(s'.occ, s.best, BitmapSize(|s.qty|));
  }

  // ----- the bitmap

  ghost function OccupiedSet(words: seq<nat>): set<nat> {
    set p | 0 <= p < WORD * |words| && Bit(words[p / WORD], p % WORD)
  }

  lemma InOccupiedSet(words: seq<nat>, word: nat, i: nat)
    requires word < |words| && i < WORD
    ensures WORD * word + i in OccupiedSet(words) <==> Bit(words[word], i)
  {
    var p := WORD * word + i;
    assert p / WORD == word && p % WORD == i;
  }

  /** `bits` holds the occupied prices of one word that lie between `lo` and `hi`. */
  ghost predicate Masked(occ: set<nat>, word: nat, bits: nat, lo: nat, hi: nat) {
    forall i :: 0 <= i < WORD ==> (Bit(bits, i) <==> lo <= WORD * word + i <= hi && WORD * word + i in occ)
  }

  lemma BitIsPrice(occ: set<nat>, word: nat, bits: nat, lo: nat, hi: nat, i: nat)
    requires Masked(occ, word, bits, lo, hi) && i < WORD && Bit(bits, i)
    ensures lo <= WORD * word + i <= hi && WORD * word + i in occ
  {
  }

  lemma NoBitNoPrice(occ: set<nat>, word: nat, bits: nat, lo: nat, hi: nat, from: nat, to: nat)
    requires Masked(occ, word, bits, lo, hi) && from <= to <= WORD
    requires forall i :: from <= i < to ==> !Bit(bits, i)
    ensures forall q :: WORD * word + from <= q < WORD * word + to && lo <= q <= hi ==> q !in occ
  {
    forall q: nat | WORD * word + from <= q < WORD * word + to && lo <= q <= hi
      ensures q !in occ
    {
      assert !Bit(bits, q - WORD * word);
    }
  }

  /** The lowest bit of the first word with one is the next occupied price upwards. */
  lemma LowestBitIsLowest(occ: set<nat>, word: nat, bits: nat, lo: nat, limit: nat, i: nat)
    requires Masked(occ, word, bits, lo, limit) && i < WORD && Bit(bits, i) && WORD * word + i < limit
    requires forall j :: 0 <= j < i ==> !Bit(bits, j)
    requires forall q :: q in occ && q < WORD * word ==> q < lo
    ensures LowestAtLeast(occ, lo, limit) == WORD * word + i
  {
    NoBitNoPrice(occ, word, bits, lo, limit, 0, i);
    LowestFound(occ, lo, WORD * word + i, limit);
  }

  /** The highest bit of the first word with one is the next occupied price downwards. */
  lemma HighestBitIsHighest(occ: set<nat>, word: nat, bits: nat, hi: nat, i: nat)
    requires Masked(occ, word, bits, 0, hi) && i < WORD && Bit(bits, i)
    requires forall j :: i < j < WORD ==> !Bit(bits, j)
    requires forall q :: q in occ && WORD * word + WORD <= q ==> q > hi
    ensures HighestAtMost(occ, hi) == WORD * word + i
  {
    NoBitNoPrice(occ, word, bits, 0, hi, i + 1, WORD);
    HighestSkips(occ, hi, WORD * word + i);
  }

  lemma ZeroHasNoBits(i: nat)
    ensures forall j: nat :: j < i ==> !Bit(0, j)
  {
    forall j: nat | j < i
      ensures !Bit(0, j)
    {
      ZeroBit(j);
    }
  }

  class SideBook {
    const qty: array<nat>
    const occupied: array<nat>
    var bestPrice: nat

    ghost predicate Valid()
      reads this, qty, occupied
    {
      && qty.Length >= 1 && qty != occupied
      && WORD * occupied.Length == BitmapSize(qty.Length)
      && (forall w :: 0 <= w < occupied.Length ==> IsWord(occupied[w]))
      && (forall p :: p in OccupiedSet(occupied[..]) ==> p < qty.Length)
      && bestPrice < qty.Length
    }

    ghost function View(): SideState
      reads this, qty, occupied
    {
      SideState(qty[..], OccupiedSet(occupied[..]), bestPrice)
    }

    constructor (n: nat)
      requires n >= 1
      ensures Valid() && fresh(qty) && fresh(occupied) && qty.Length == n
      ensures View() == EmptySide(n)
    {
      qty := new nat[n](_ => 0);
      occupied := new nat[(n - 1) / WORD + 1](_ => 0);
      bestPrice := 0;
      new;
      forall i | 0 <= i < WORD
        ensures !Bit(0, i)
      {
        ZeroBit(i);
      }
      assert qty[..] == seq(n, _ => 0);
    }

    method SetOccupied(price: nat, on: bool)
      requires Valid() && price < qty.Length
      modifies occupied
      ensures Valid()
      ensures OccupiedSet(occupied[..])
           == if on then OccupiedSet(old(occupied[..])) + {price} else OccupiedSet(old(occupied[..])) - {price}
    {
      hide Bit, Or, And, Not, Pow2;
      var word := price / WORD;
      var bit := price % WORD;
      var w := occupied[word];
      if on {
        OrSetsBit(w, bit);
        occupied[word] := Or(w, Pow2(bit));
      } else {
        AndNotClearsBit(w, bit);
        occupied[word] := And(w, Not(Pow2(bit), WORD));
      }
      ghost var was, now := OccupiedSet(old(occupied[..])), OccupiedSet(occupied[..]);
      forall p | 0 <= p < WORD * occupied.Length
        ensures p in now <==> if p == price then on else p in was
      {
        InOccupiedSet(occupied[..], p / WORD, p % WORD);
        InOccupiedSet(old(occupied[..]), p / WORD, p % WORD);
      }
      assert now == if on then was + {price} else was - {price};
    }

    /** The masked word scan finds the price that the linear scan finds. */
    method RecomputeBest(isBid: bool)
      requires Valid()
      modifies this`bestPrice
      ensures Valid()
      ensures bestPrice == Rescan(old(View()), isBid)
    {
      ghost var words := occupied[..];
      if isBid {
        bestPrice := ScanDown();
      } else {
        bestPrice := ScanUp();
      }
      assert occupied[..] == words;
    }

    /** The bits of a word that a downward scan from the old best price looks at. */
    method BitsAtMost(word: nat) returns (bits: nat)
      requires Valid() && word <= bestPrice / WORD
      ensures IsWord(bits) && Masked(OccupiedSet(occupied[..]), word, bits, 0, bestPrice)
    {
      bits := occupied[word];
      if word == bestPrice / WORD {
        var bit := bestPrice % WORD;
        if bit < 63 {
          LowMaskKeeps(bits, bit);
          bits := And(bits, Pow2(bit + 1) - 1);
        }
      }
      forall i | 0 <= i < WORD
        ensures Bit(bits, i) <==> WORD * word + i <= bestPrice && WORD * word + i in OccupiedSet(occupied[..])
      {
        InOccupiedSet(occupied[..], word, i);
      }
    }

    /** The bits of a word that an upward scan from the old best price looks at. */
    method BitsAtLeast(word: nat) returns (bits: nat)
      requires Valid() && bestPrice / WORD <= word < occupied.Length
      ensures IsWord(bits) && Masked(OccupiedSet(occupied[..]), word, bits, bestPrice, BitmapSize(qty.Length))
    {
      bits := occupied[word];
      if word == bestPrice / WORD {
        var bit := bestPrice % WORD;
        HighMaskKeeps(bits, bit);
        bits := And(bits, Not(Pow2(bit) - 1, WORD));
      }
      forall i | 0 <= i < WORD
        ensures Bit(bits, i) <==> bestPrice <= WORD * word + i && WORD * word + i in OccupiedSet(occupied[..])
      {
        InOccupiedSet(occupied[..], word, i);
      }
    }

    method ScanDown() returns (price: nat)
      requires Valid()
      ensures price == HighestAtMost(OccupiedSet(occupied[..]), bestPrice)
      ensures price < qty.Length
    {
      hide Bit, OccupiedSet, CountLeadingZeros, Masked;
      ghost var occ := OccupiedSet(occupied[..]);
      var word: int := bestPrice / WORD;
      while word >= 0
        invariant -1 <= word <= bestPrice / WORD
        invariant forall q :: q in occ && WORD * word + WORD <= q ==> q > bestPrice
      {
        var bits := BitsAtMost(word);
        if bits != 0 {
          var leading := CountLeadingZeros(bits);
          BitIsPrice(occ, word, bits, 0, bestPrice, 63 - leading);
          HighestBitIsHighest(occ, word, bits, bestPrice, 63 - leading);
          return WORD * word + (63 - leading);
        }
        ZeroHasNoBits(WORD);
        NoBitNoPrice(occ, word, bits, 0, bestPrice, 0, WORD);
        word := word - 1;
      }
      HighestSkips(occ, bestPrice, 0);
      return 0;
    }

    method ScanUp() returns (price: nat)
      requires Valid()
      ensures price == LowestAtLeast(OccupiedSet(occupied[..]), bestPrice, BitmapSize(qty.Length))
      ensures price < qty.Length
    {
      hide Bit, OccupiedSet, CountTrailingZeros, Masked;
      ghost var occ := OccupiedSet(occupied[..]);
      ghost var limit := BitmapSize(qty.Length);
      var word: nat := bestPrice / WORD;
      while word < occupied.Length
        invariant bestPrice / WORD <= word <= occupied.Length
        invariant forall q :: q in occ && q < WORD * word ==> q < bestPrice
      {
        var bits := BitsAtLeast(word);
        if bits != 0 {
          var trailing := CountTrailingZeros(bits);
          BitIsPrice(occ, word, bits, bestPrice, limit, trailing);
          LowestBitIsLowest(occ, word, bits, bestPrice, limit, trailing);
          return WORD * word + trailing;
        }
        ZeroHasNoBits(WORD);
        NoBitNoPrice(occ, word, bits, bestPrice, limit, 0, WORD);
        word := word + 1;
      }
      LowestSkips(occ, bestPrice, limit, limit);
      return 0;
    }

    method AddLevel(price: nat, q: nat, isBid: bool)
      requires Valid() && price < qty.Length
      modifies this`bestPrice, qty, occupied
      ensures Valid()
      ensures View() == LevelAdded(old(View()), price, q, isBid)
    {
      var wasEmpty := qty[price] == 0;
      qty[price] := (qty[price] + q) % U32;
      if wasEmpty {
        SetOccupied(price, true);
      }
      if bestPrice == 0 {
        bestPrice := price;
        return;
      }
      if isBid {
        if price > bestPrice {
          bestPrice := price;
        }
      } else if price < bestPrice {
        bestPrice := price;
      }
    }

    method RemoveLevel(price: nat, q: nat, isBid: bool)
      requires Valid() && price < qty.Length
      modifies this`bestPrice, qty, occupied
      ensures Valid()
      ensures View() == LevelRemoved(old(View()), price, q, isBid)
    {
      if q >= qty[price] {
        qty[price] := 0;
      } else {
        qty[price] := qty[price] - q;
      }
      if qty[price] == 0 {
        SetOccupied(price, false);
      }
      if price == bestPrice && qty[price] == 0 {
        RecomputeBest(isBid);
      }
    }
  }
}
