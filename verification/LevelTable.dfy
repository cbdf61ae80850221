/** The price-level arrays of all symbols: two sides per symbol, which share no storage. */
module LevelTables {
  import opened PriceLevels

  ghost predicate SideFits(s: SideState, levels: nat) {
    |s.qty| == levels + 1 && s.best <= levels && forall p :: p in s.occ ==> p <= levels
  }

  ghost predicate Stores(side: SideBook, s: SideState)
    reads side, side.qty, side.occupied
  {
    side.Valid() && side.View() == s
  }

  ghost predicate Apart(sides: seq<SideBook>) {
    forall i, j :: 0 <= i < j < |sides| ==>
      sides[i] != sides[j] && sides[i].qty != sides[j].qty && sides[i].qty != sides[j].occupied
      && sides[i].occupied != sides[j].qty && sides[i].occupied != sides[j].occupied
  }

  ghost function Storage(sides: seq<SideBook>): set<object> {
    (set i | 0 <= i < |sides| :: sides[i]) + (set i | 0 <= i < |sides| :: sides[i].qty)
    + (set i | 0 <= i < |sides| :: sides[i].occupied)
  }

  class LevelTable {
    const sides: seq<SideBook>
    ghost const repr: set<object>
    ghost var view: seq<SideState>

    ghost predicate Valid()
      reads this, repr
    {
      && repr == Storage(sides) && Apart(sides) && |sides| == |view|
      && forall i :: 0 <= i < |sides| ==> Stores(sides[i], view[i])
    }

    constructor (n: nat, priceLevels: nat)
      ensures Valid() && fresh(repr) && this !in repr
      ensures view == seq(n, _ => EmptySide(priceLevels + 1))
    {
      var made: seq<SideBook> := [];
      for k := 0 to n
        invariant |made| == k && Apart(made)
        invariant forall i :: 0 <= i < k ==>
          fresh(made[i]) && fresh(made[i].qty) && fresh(made[i].occupied) && Stores(made[i], EmptySide(priceLevels + 1))
      {
        var side := new SideBook(priceLevels + 1);
        made := made + [side];
      }
      sides := made;
      repr := Storage(made);
      view := seq(n, _ => EmptySide(priceLevels + 1));
    }

    method AddLevel(i: nat, price: nat, qty: nat, isBid: bool)
      requires Valid() && i < |view| && price < |view[i].qty|
      modifies repr, this`view
      ensures Valid() && view == old(view)[i := LevelAdded(old(view)[i], price, qty, isBid)]
    {
      assert Stores(sides[i], view[i]);
      sides[i].AddLevel(price, qty, isBid);
      view := view[i := LevelAdded(view[i], price, qty, isBid)];
      forall j | 0 <= j < |sides|
        ensures Stores(sides[j], view[j])
      {
        if j != i {
          assert old(Stores(sides[j], view[j]));
        }
      }
    }

    method RemoveLevel(i: nat, price: nat, qty: nat, isBid: bool)
      requires Valid() && i < |view| && price < |view[i].qty|
      modifies repr, this`view
      ensures Valid() && view == old(view)[i := LevelRemoved(old(view)[i], price, qty, isBid)]
    {
      assert Stores(sides[i], view[i]);
      sides[i].RemoveLevel(price, qty, isBid);
      view := view[i := LevelRemoved(view[i], price, qty, isBid)];
      forall j | 0 <= j < |sides|
        ensures Stores(sides[j], view[j])
      {
        if j != i {
          assert old(Stores(sides[j], view[j]));
        }
      }
    }

    method Best(i: nat) returns (price: nat, qty: nat)
      requires Valid() && i < |view|
      ensures price == view[i].best < |view[i].qty|
      ensures qty == if price != 0 then view[i].qty[price] else 0
    {
      assert Stores(sides[i], view[i]);
      price := sides[i].bestPrice;
      qty := if price != 0 then sides[i].qty[price] else 0;
    }
  }
}
