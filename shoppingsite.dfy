/** The logic of the Ubermelon shop's cart: the aggregation that the cart page
    performs over the session's list of melon ids, and the append performed
    when a melon is added to the cart. Prices are whole numbers (cents). */
module ShoppingSite {
  import opened Wrappers

  type MelonId = int

  /** The part of a catalog record the cart uses: its display name and price. */
  datatype MelonRecord = MelonRecord(commonName: string, price: int)

  /** The catalog that `melons.get_by_id` consults, as a finite map. */
  type Catalog = map<MelonId, MelonRecord>

  /** One entry of the cart table: `{common_name, unit_cost, qty, total_cost}`. */
  datatype CartLine = CartLine(commonName: string, unitCost: int, qty: nat, totalCost: int)

  /** What the cart page shows: the table keyed by melon id and the order total. */
  datatype CartSummary = CartSummary(lines: map<MelonId, CartLine>, orderTotal: int)

  /** A catalog lookup for an id the catalog does not hold. */
  datatype CartError = NotFound(id: MelonId)

  // ---------------------------------------------------------------------------
  // Reference definitions

  /** Number of occurrences of `x` in `ids`. */
  function Count(ids: seq<MelonId>, x: MelonId): nat
    decreases |ids|
  {
    if ids == [] then 0
    else Count(ids[..|ids| - 1], x) + (if ids[|ids| - 1] == x then 1 else 0)
  }

  /** The distinct ids of `ids`. */
  function Elems(ids: seq<MelonId>): set<MelonId>
  {
    set x | x in ids
  }

  predicate AllInCatalog(ids: seq<MelonId>, catalog: Catalog)
  {
    forall i :: 0 <= i < |ids| ==> ids[i] in catalog
  }

  /** Sum of the catalog prices of every id, duplicates included. */
  function PriceSum(ids: seq<MelonId>, catalog: Catalog): int
    requires AllInCatalog(ids, catalog)
    decreases |ids|
  {
    if ids == [] then 0
    else PriceSum(ids[..|ids| - 1], catalog) + catalog[ids[|ids| - 1]].price
  }

  lemma KeyExists(keys: set<MelonId>)
    requires keys != {}
    ensures exists k :: k in keys
  {
    if forall k :: k !in keys {
      assert false;
    }
  }

  /** Sum of `totalCost` over the entries of a cart table, in no particular order. */
  ghost function SumLineTotals(lines: map<MelonId, CartLine>): int
    decreases |lines|
  {
    if lines.Keys == {} then 0
    else
      KeyExists(lines.Keys);
      var k :| k in lines.Keys;
      lines[k].totalCost + SumLineTotals(lines - {k})
  }

  /** `s` is the cart table and order total of `ids`: its keys are exactly the
      distinct ids, each entry takes its name and unit price from the catalog,
      counts its id's occurrences and costs qty * unit price, and the order
      total is both the sum of all prices and the sum of the line totals. */
  ghost predicate IsSummaryOf(ids: seq<MelonId>, catalog: Catalog, s: CartSummary)
  {
    && AllInCatalog(ids, catalog)
    && s.lines.Keys == Elems(ids)
    && EntriesMatch(ids, catalog, s.lines)
    && s.orderTotal == PriceSum(ids, catalog)
    && s.orderTotal == SumLineTotals(s.lines)
  }

  // ---------------------------------------------------------------------------
  // The aggregation, as a fold

  const EmptySummary := CartSummary(map[], 0)

  /** One occurrence more of an entry's melon. */
  function Bump(line: CartLine): (r: CartLine)
    ensures r.commonName == line.commonName && r.unitCost == line.unitCost
    ensures r.qty == line.qty + 1 && r.totalCost - line.totalCost == line.unitCost
  {
    line.(qty := line.qty + 1, totalCost := line.totalCost + line.unitCost)
  }

  /** One iteration of the loop: the catalog is consulted only for an id not
      yet in the table; a zero entry is created for it, then bumped. */
  function Step(s: CartSummary, id: MelonId, catalog: Catalog): (r: Result<CartSummary, CartError>)
    ensures r.Failure? <==> id !in s.lines && id !in catalog
    ensures r.Failure? ==> r.error == NotFound(id)
    ensures r.Success? ==>
      var prev := if id in s.lines then s.lines[id] else CartLine(catalog[id].commonName, catalog[id].price, 0, 0);
      && id in r.value.lines && r.value.lines == s.lines[id := r.value.lines[id]]
      && r.value.lines[id].commonName == prev.commonName
      && r.value.lines[id].unitCost == prev.unitCost
      && r.value.lines[id].qty == prev.qty + 1
      && r.value.lines[id].totalCost == prev.totalCost + prev.unitCost
      && r.value.orderTotal == s.orderTotal + prev.unitCost
  {
    if id in s.lines then
      var line := Bump(s.lines[id]);
      Success(CartSummary(s.lines[id := line], s.orderTotal + line.unitCost))
    else if id !in catalog then
      Failure(NotFound(id))
    else
      var melonType := catalog[id];
      var line := Bump(CartLine(melonType.commonName, melonType.price, 0, 0));
      Success(CartSummary(s.lines[id := line], s.orderTotal + line.unitCost))
  }

  /** The loop over the raw cart ids, as a left fold that stops at the first failure. */
  function Aggregate(ids: seq<MelonId>, catalog: Catalog): (r: Result<CartSummary, CartError>)
    ensures r.Failure? ==> r.error.id in ids && r.error.id !in catalog
    decreases |ids|
  {
    if ids == [] then Success(EmptySummary)
    else
      match Aggregate(ids[..|ids| - 1], catalog)
      case Failure(e) => Failure(e)
      case Success(s) => Step(s, ids[|ids| - 1], catalog)
  }

  // ---------------------------------------------------------------------------
  // The cart page's loop

  /** One more id of the cart, in the loop's own terms: the entry already in
      the table, or the catalog's zero entry for a new id, is bumped and its
      unit cost is added to the order total. */
  lemma AggregateExtends(ids: seq<MelonId>, i: nat, catalog: Catalog, s: CartSummary, prev: CartLine)
    requires i < |ids| && Aggregate(ids[..i], catalog) == Success(s)
    requires || (ids[i] in s.lines && prev == s.lines[ids[i]])
             || (ids[i] !in s.lines && ids[i] in catalog
                 && prev == CartLine(catalog[ids[i]].commonName, catalog[ids[i]].price, 0, 0))
    ensures Aggregate(ids[..i + 1], catalog)
      == Success(CartSummary(s.lines[ids[i] := Bump(prev)], s.orderTotal + prev.unitCost))
  {
    AggregateNext(ids, i, catalog, s);
    StepBumps(s, ids[i], catalog, prev);
  }

  lemma AggregateNext(ids: seq<MelonId>, i: nat, catalog: Catalog, s: CartSummary)
    requires i < |ids| && Aggregate(ids[..i], catalog) == Success(s)
    ensures Aggregate(ids[..i + 1], catalog) == Step(s, ids[i], catalog)
  {
    assert ids[..i + 1][..i] == ids[..i];
  }

  lemma StepBumps(s: CartSummary, id: MelonId, catalog: Catalog, prev: CartLine)
    requires || (id in s.lines && prev == s.lines[id])
             || (id !in s.lines && id in catalog && prev == CartLine(catalog[id].commonName, catalog[id].price, 0, 0))
    ensures Step(s, id, catalog) == Success(CartSummary(s.lines[id := Bump(prev)], s.orderTotal + prev.unitCost))
  {
  }

  /** An id that is neither in the table nor in the catalog ends the aggregation. */
  lemma AggregateStopsAt(ids: seq<MelonId>, i: nat, catalog: Catalog, s: CartSummary)
    requires i < |ids| && Aggregate(ids[..i], catalog) == Success(s)
    requires ids[i] !in s.lines && ids[i] !in catalog
    ensures Aggregate(ids, catalog) == Failure(NotFound(ids[i]))
    ensures !AllInCatalog(ids, catalog)
  {
    assert ids[..i + 1][..i] == ids[..i];
    AggregateFailurePersists(ids, i + 1, catalog);
  }

  /** The aggregation performed by the cart page over `rawCartIds`. */
  method ShoppingCart(rawCartIds: seq<MelonId>, catalog: Catalog) returns (r: Result<CartSummary, CartError>)
    ensures r == Aggregate(rawCartIds, catalog)
    ensures r.Success? <==> AllInCatalog(rawCartIds, catalog)
    ensures r.Success? ==> IsSummaryOf(rawCartIds, catalog, r.value)
  {
    var orderTotal := 0;
    var cart: map<MelonId, CartLine> := map[];
    var i := 0;
    while i < |rawCartIds|
      invariant 0 <= i <= |rawCartIds|
      invariant Aggregate(rawCartIds[..i], catalog) == Success(CartSummary(cart, orderTotal))
    {
      var melonId := rawCartIds[i];
      ghost var before := CartSummary(cart, orderTotal);
      var cartInfo: CartLine;
      if melonId in cart {
        cartInfo := cart[melonId];
      } else {
        if melonId !in catalog {
          AggregateStopsAt(rawCartIds, i, catalog, before);
          return Failure(NotFound(melonId));
        }
        var melonType := catalog[melonId];
        cartInfo := CartLine(melonType.commonName, melonType.price, 0, 0);
      }
      AggregateExtends(rawCartIds, i, catalog, before, cartInfo);
      cartInfo := cartInfo.(qty := cartInfo.qty + 1, totalCost := cartInfo.totalCost + cartInfo.unitCost);
      cart := cart[melonId := cartInfo];
      orderTotal := orderTotal + cartInfo.unitCost;
      i := i + 1;
    }
    assert rawCartIds[..i] == rawCartIds;
    AggregateCorrect(rawCartIds, catalog);
    r := Success(CartSummary(cart, orderTotal));
  }

  // ---------------------------------------------------------------------------
  // Add to cart

  /** `session.get('cart', [])`: the session's list, or the empty list when there is none. */
  function CartIds(cart: Option<seq<MelonId>>): (r: seq<MelonId>)
    ensures cart.None? ==> r == []
    ensures cart.Some? ==> r == cart.value
  {
    match cart
    case None => []
    case Some(ids) => ids
  }

  /** The cart after adding `id`: the old cart, or a new empty one, with `id` at
      its end; no deduplication and no catalog check. */
  function Appended(cart: Option<seq<MelonId>>, id: MelonId): (r: seq<MelonId>)
    ensures |r| == |CartIds(cart)| + 1
    ensures r[..|CartIds(cart)|] == CartIds(cart) && r[|r| - 1] == id
  {
    CartIds(cart) + [id]
  }

  /** The session, reduced to the one key the cart logic uses. */
  class Session {
    var cart: Option<seq<MelonId>>

    /** A fresh session holds no cart. */
    constructor ()
      ensures cart == None
    {
      cart := None;
    }

    /** Creates the cart if absent, then appends `id` to it. */
    method AddToCart(id: MelonId)
      modifies this
      ensures cart == Some(Appended(old(cart), id))
    {
      var ids: seq<MelonId>;
      if cart.Some? {
        ids := cart.value;
      } else {
        ids := [];
        cart := Some(ids);
      }
      ids := ids + [id];
      cart := Some(ids);
    }
  }

  // ---------------------------------------------------------------------------
  // Lemmas

  lemma {:induction false} CountAbsent(ids: seq<MelonId>, x: MelonId)
    requires x !in ids
    ensures Count(ids, x) == 0
    decreases |ids|
  {
    if ids != [] {
      assert forall y :: y in ids[..|ids| - 1] ==> y in ids;
      CountAbsent(ids[..|ids| - 1], x);
    }
  }

  lemma {:induction false} SumLineTotalsRemove(lines: map<MelonId, CartLine>, k: MelonId)
    requires k in lines
    ensures SumLineTotals(lines) == lines[k].totalCost + SumLineTotals(lines - {k})
    decreases |lines|
  {
    var j :| j in lines && SumLineTotals(lines) == lines[j].totalCost + SumLineTotals(lines - {j});
    if j != k {
      assert (lines - {j}).Keys == lines.Keys - {j};
      assert (lines - {k}).Keys == lines.Keys - {k};
      SumLineTotalsRemove(lines - {j}, k);
      SumLineTotalsRemove(lines - {k}, j);
      assert lines - {j} - {k} == lines - {k} - {j};
    }
  }

  /** Replacing or adding one entry changes the sum of line totals by the difference. */
  lemma SumLineTotalsUpdate(lines: map<MelonId, CartLine>, k: MelonId, line: CartLine)
    ensures SumLineTotals(lines[k := line])
         == SumLineTotals(lines) - (if k in lines then lines[k].totalCost else 0) + line.totalCost
  {
    SumLineTotalsRemove(lines[k := line], k);
    assert lines[k := line] - {k} == lines - {k};
    if k in lines {
      SumLineTotalsRemove(lines, k);
    } else {
      assert lines - {k} == lines;
    }
  }

  /** The entry facts of `IsSummaryOf`, for one table and its ids. */
  ghost predicate EntriesMatch(ids: seq<MelonId>, catalog: Catalog, lines: map<MelonId, CartLine>)
  {
    forall x :: x in lines ==>
      && x in catalog
      && lines[x].commonName == catalog[x].commonName
      && lines[x].unitCost == catalog[x].price
      && lines[x].qty == Count(ids, x)
      && lines[x].totalCost == lines[x].qty * lines[x].unitCost
  }

  lemma CountSnoc(ids: seq<MelonId>, id: MelonId, x: MelonId)
    ensures Count(ids + [id], x) == Count(ids, x) + (if x == id then 1 else 0)
  {
    assert (ids + [id])[..|ids|] == ids;
  }

  /** The entry new to the table, or the one already there, after one more occurrence. */
  lemma StepEntries(ids: seq<MelonId>, catalog: Catalog, lines: map<MelonId, CartLine>, id: MelonId, prev: CartLine)
    requires EntriesMatch(ids, catalog, lines)
    requires id in catalog
    requires id in lines ==> prev == lines[id]
    requires id !in lines ==> prev == CartLine(catalog[id].commonName, catalog[id].price, 0, 0) && Count(ids, id) == 0
    ensures EntriesMatch(ids + [id], catalog, lines[id := Bump(prev)])
  {
    var ids' := ids + [id];
    var line := Bump(prev);
    var lines' := lines[id := line];
    assert line.totalCost == line.qty * line.unitCost by {
      assert (prev.qty + 1) * prev.unitCost == prev.qty * prev.unitCost + prev.unitCost;
    }
    forall x | x in lines'
      ensures && x in catalog
              && lines'[x].commonName == catalog[x].commonName
              && lines'[x].unitCost == catalog[x].price
              && lines'[x].qty == Count(ids', x)
              && lines'[x].totalCost == lines'[x].qty * lines'[x].unitCost
    {
      CountSnoc(ids, id, x);
      if x == id {
        assert lines'[x] == line;
      } else {
        assert lines'[x] == lines[x];
      }
    }
  }

  lemma ElemsSnoc(ids: seq<MelonId>, id: MelonId)
    ensures Elems(ids + [id]) == Elems(ids) + {id}
  {
  }

  lemma PriceSumSnoc(ids: seq<MelonId>, id: MelonId, catalog: Catalog)
    requires AllInCatalog(ids, catalog) && id in catalog
    ensures AllInCatalog(ids + [id], catalog)
    ensures PriceSum(ids + [id], catalog) == PriceSum(ids, catalog) + catalog[id].price
  {
    assert (ids + [id])[..|ids|] == ids;
  }

  /** One step of the fold keeps `IsSummaryOf` for a catalogued id. */
  lemma StepKeepsSummary(ids: seq<MelonId>, catalog: Catalog, s: CartSummary, id: MelonId)
    requires IsSummaryOf(ids, catalog, s)
    requires id in catalog
    ensures Step(s, id, catalog).Success?
    ensures IsSummaryOf(ids + [id], catalog, Step(s, id, catalog).value)
  {
    var ids' := ids + [id];
    if id !in s.lines {
      assert id !in ids;
      CountAbsent(ids, id);
    }
    var prev := if id in s.lines then s.lines[id] else CartLine(catalog[id].commonName, catalog[id].price, 0, 0);
    var line := Bump(prev);
    var s' := CartSummary(s.lines[id := line], s.orderTotal + prev.unitCost);
    assert Step(s, id, catalog) == Success(s');
    ElemsSnoc(ids, id);
    PriceSumSnoc(ids, id, catalog);
    StepEntries(ids, catalog, s.lines, id, prev);
    SumLineTotalsUpdate(s.lines, id, line);
  }

  /** The fold fails exactly when some id is missing from the catalog, and when
      it succeeds its result is the cart table and order total of `ids`. */
  lemma {:induction false} AggregateCorrect(ids: seq<MelonId>, catalog: Catalog)
    ensures Aggregate(ids, catalog).Success? <==> AllInCatalog(ids, catalog)
    ensures Aggregate(ids, catalog).Success? ==> IsSummaryOf(ids, catalog, Aggregate(ids, catalog).value)
    decreases |ids|
  {
    if ids == [] {
      assert Elems(ids) == {};
    } else {
      var init, id := ids[..|ids| - 1], ids[|ids| - 1];
      assert ids == init + [id];
      AggregateCorrect(init, catalog);
      match Aggregate(init, catalog)
      case Failure(e) =>
        var i :| 0 <= i < |init| && init[i] !in catalog;
        assert ids[i] == init[i];
      case Success(s) =>
        if id in catalog {
          StepKeepsSummary(init, catalog, s, id);
        } else {
          assert id !in Elems(init);
        }
    }
  }

  /** Every price in the catalog is at least zero. */
  predicate PricesNonNegative(catalog: Catalog)
  {
    forall k :: k in catalog ==> catalog[k].price >= 0
  }

  lemma {:induction false} PriceSumNonNegative(ids: seq<MelonId>, catalog: Catalog)
    requires AllInCatalog(ids, catalog) && PricesNonNegative(catalog)
    ensures PriceSum(ids, catalog) >= 0
    decreases |ids|
  {
    if ids != [] {
      var init := ids[..|ids| - 1];
      assert AllInCatalog(init, catalog) by {
        forall i | 0 <= i < |init| ensures init[i] in catalog {
          assert init[i] == ids[i];
        }
      }
      PriceSumNonNegative(init, catalog);
      var last := ids[|ids| - 1];
      assert last in catalog;
      assert catalog[last].price >= 0;
      assert PriceSum(ids, catalog) == PriceSum(init, catalog) + catalog[last].price;
    }
  }

  /** With non-negative prices, no real cart shows a negative amount: every
      unit cost and line total and the order total are at least zero. */
  lemma NonNegativeTotals(ids: seq<MelonId>, catalog: Catalog)
    requires PricesNonNegative(catalog)
    requires Aggregate(ids, catalog).Success?
    ensures Aggregate(ids, catalog).value.orderTotal >= 0
    ensures var lines := Aggregate(ids, catalog).value.lines;
            forall x :: x in lines ==> lines[x].unitCost >= 0 && lines[x].totalCost >= 0
  {
    AggregateCorrect(ids, catalog);
    PriceSumNonNegative(ids, catalog);
    var lines := Aggregate(ids, catalog).value.lines;
    forall x | x in lines ensures lines[x].unitCost >= 0 && lines[x].totalCost >= 0 {
      assert lines[x].unitCost == catalog[x].price;
      assert lines[x].totalCost == lines[x].qty * lines[x].unitCost;
    }
  }

  /** Once the fold has failed on a prefix, it fails the same way on the whole sequence. */
  lemma {:induction false} AggregateFailurePersists(ids: seq<MelonId>, k: nat, catalog: Catalog)
    requires k <= |ids|
    requires Aggregate(ids[..k], catalog).Failure?
    ensures Aggregate(ids, catalog) == Aggregate(ids[..k], catalog)
    decreases |ids|
  {
    if k == |ids| {
      assert ids[..k] == ids;
    } else {
      var init := ids[..|ids| - 1];
      assert init[..k] == ids[..k];
      AggregateFailurePersists(init, k, catalog);
    }
  }

  /** A stale id aborts the whole summary: the result is `NotFound` for the
      first id of the cart that the catalog does not hold. */
  lemma StaleIdFails(ids: seq<MelonId>, catalog: Catalog, k: nat)
    requires k < |ids| && ids[k] !in catalog
    requires forall j :: 0 <= j < k ==> ids[j] in catalog
    ensures Aggregate(ids, catalog) == Failure(NotFound(ids[k]))
  {
    var prefix := ids[..k];
    AggregateCorrect(prefix, catalog);
    assert ids[..k + 1][..k] == prefix;
    assert ids[k] !in Elems(prefix);
    AggregateFailurePersists(ids, k + 1, catalog);
  }

  /** Adding an id grows its count by one and leaves every other count alone. */
  lemma AddToCartCounts(cart: Option<seq<MelonId>>, id: MelonId, x: MelonId)
    ensures Count(Appended(cart, id), x) == Count(CartIds(cart), x) + (if x == id then 1 else 0)
  {
    CountSnoc(CartIds(cart), id, x);
  }

  /** Adding to an empty or absent cart then aggregating gives one entry, for
      that id, with quantity 1 and the catalog price as both totals; with a
      stale id the aggregation fails instead. */
  lemma AddThenSummarize(cart: Option<seq<MelonId>>, id: MelonId, catalog: Catalog)
    requires CartIds(cart) == []
    ensures id in catalog ==>
      Aggregate(Appended(cart, id), catalog)
        == Success(CartSummary(map[id := CartLine(catalog[id].commonName, catalog[id].price, 1, catalog[id].price)],
                               catalog[id].price))
    ensures id !in catalog ==> Aggregate(Appended(cart, id), catalog) == Failure(NotFound(id))
  {
    var r := Appended(cart, id);
    assert r == [id];
    assert r[..0] == [];
  }

  /** Adding an id to a cart whose summary exists adds one unit of that id:
      its entry (new or existing) is bumped, every other entry is unchanged and
      the order total grows by its price. */
  lemma AddThenSummarizeAny(cart: Option<seq<MelonId>>, id: MelonId, catalog: Catalog)
    requires Aggregate(CartIds(cart), catalog).Success?
    requires id in catalog
    ensures Aggregate(Appended(cart, id), catalog).Success?
    ensures var before := Aggregate(CartIds(cart), catalog).value;
            var after := Aggregate(Appended(cart, id), catalog).value;
            && after.lines.Keys == before.lines.Keys + {id}
            && (forall x :: x in before.lines && x != id ==> after.lines[x] == before.lines[x])
            && after.lines[id].qty == (if id in before.lines then before.lines[id].qty else 0) + 1
            && after.orderTotal == before.orderTotal + catalog[id].price
  {
    var r := Appended(cart, id);
    assert r[..|r| - 1] == CartIds(cart);
    AggregateCorrect(CartIds(cart), catalog);
  }

  /** `[A, B, A]` with A at 200 and B at 300 coalesces into two entries. */
  lemma CoalescingExample()
    ensures var catalog := map[1 := MelonRecord("A", 200), 2 := MelonRecord("B", 300)];
            Aggregate([1, 2, 1], catalog)
              == Success(CartSummary(map[1 := CartLine("A", 200, 2, 400), 2 := CartLine("B", 300, 1, 300)], 700))
  {
    var catalog := map[1 := MelonRecord("A", 200), 2 := MelonRecord("B", 300)];
    var ids: seq<MelonId> := [1, 2, 1];
    assert ids[..2] == [1, 2] && ids[..2][..1] == [1] && ids[..1] == [1] && [1][..0] == [];
    var s1 := CartSummary(map[1 := CartLine("A", 200, 1, 200)], 200);
    var s2 := CartSummary(map[1 := CartLine("A", 200, 1, 200), 2 := CartLine("B", 300, 1, 300)], 500);
    assert Aggregate([1], catalog) == Step(EmptySummary, 1, catalog) == Success(s1);
    assert Aggregate([1, 2], catalog) == Step(s1, 2, catalog) == Success(s2);
    assert Aggregate(ids, catalog) == Step(s2, 1, catalog);
    assert s2.lines[1 := CartLine("A", 200, 2, 400)]
        == map[1 := CartLine("A", 200, 2, 400), 2 := CartLine("B", 300, 1, 300)];
  }
}
