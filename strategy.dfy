/** The "Nhà Hoạch Định Chiến Lược" (strategic planner) game: six tagged
    items are dragged into three baskets. A drop into the basket of the
    item's own category earns 10 points and moves the item from the pool
    into that basket; any other drop costs 5 points (the score never drops
    below 0) and moves nothing. Heavy-industry items (`congnghiep`) have no
    basket, so they can never be placed. */
module Strategy {
  import opened Scoring

  datatype Category = LuongThuc | TieuDung | XuatKhau | CongNghiep

  datatype Item = Item(id: string, name: string, category: Category)

  /** The categories that have a basket: food, consumer goods, exports. */
  const BasketKeys: set<Category> := {LuongThuc, TieuDung, XuatKhau}

  /** The six items the pool starts with. */
  function Catalogue(): (c: seq<Item>)
    ensures |c| == 6
  {
    [ Item("1", "Lúa gạo", LuongThuc),
      Item("2", "Tôm đông lạnh", XuatKhau),
      Item("3", "Quần áo", TieuDung),
      Item("4", "Máy móc hạng nặng", CongNghiep),
      Item("5", "Than đá", CongNghiep),
      Item("6", "Cà phê", XuatKhau) ]
  }

  /** No two catalogue items share an id. */
  lemma CatalogueIdsDistinct()
    ensures forall i, j :: 0 <= i < j < |Catalogue()| ==> Catalogue()[i].id != Catalogue()[j].id
  {
    var c := Catalogue();
    assert c[0].id[0] == '1' && c[1].id[0] == '2' && c[2].id[0] == '3';
    assert c[3].id[0] == '4' && c[4].id[0] == '5' && c[5].id[0] == '6';
  }

  /** Catalogue items are told apart by their id alone. */
  lemma CatalogueItemsById(a: Item, b: Item)
    requires a in Catalogue() && b in Catalogue()
    requires a.id == b.id
    ensures a == b
  {
    CatalogueIdsDistinct();
    var c := Catalogue();
    var i :| 0 <= i < |c| && c[i] == a;
    var j :| 0 <= j < |c| && c[j] == b;
    assert i == j;
  }

  /** Every catalogue item occurs in it once. */
  lemma CatalogueOccursOnce(x: Item)
    ensures multiset(Catalogue())[x] <= 1
  {
    CatalogueIdsDistinct();
    DistinctIdsOccurOnce(Catalogue(), x);
  }

  lemma {:induction false} DistinctIdsOccurOnce(s: seq<Item>, x: Item)
    requires forall i, j :: 0 <= i < j < |s| ==> s[i].id != s[j].id
    ensures multiset(s)[x] <= 1
  {
    if s != [] {
      DistinctIdsOccurOnce(s[1..], x);
      assert s == [s[0]] + s[1..];
      if s[0] == x {
        assert x !in s[1..] by {
          forall j | 1 <= j < |s| ensures s[j] != x {
            assert s[0].id != s[j].id;
          }
        }
      }
    }
  }

  // ---------------------------------------------------------------------
  // Basket presentation

  /** The headings of the three baskets. */
  const FoodHeading := "Lương thực"
  const GoodsHeading := "Hàng tiêu dùng"
  const ExportsHeading := "Hàng xuất khẩu"

  /** The colour classes and icons a basket can get. */
  const FoodColours := "from-green-50 to-green-100 border-green-400"
  const GoodsColours := "from-blue-50 to-blue-100 border-blue-400"
  const OtherColours := "from-purple-50 to-purple-100 border-purple-400"
  const FoodIcon := "🌾"
  const GoodsIcon := "🛍️"
  const OtherIcon := "📦"

  lemma HeadingsDiffer()
    ensures FoodHeading != GoodsHeading && FoodHeading != ExportsHeading && GoodsHeading != ExportsHeading
  {
    assert FoodHeading[0] != GoodsHeading[0] && FoodHeading[0] != ExportsHeading[0];
    assert GoodsHeading[5] != ExportsHeading[5];
  }

  lemma LooksDiffer()
    ensures FoodColours != GoodsColours && FoodColours != OtherColours && GoodsColours != OtherColours
    ensures FoodIcon != GoodsIcon && FoodIcon != OtherIcon && GoodsIcon != OtherIcon
  {
    assert FoodColours[5] == 'g' && GoodsColours[5] == 'b' && OtherColours[5] == 'p';
    assert FoodIcon[0] == '🌾' && GoodsIcon[0] == '🛍' && OtherIcon[0] == '📦';
  }

  /** The heading each basket shows for its key: every heading belongs to
      exactly one basket. */
  function BasketLabel(key: Category): (r: string)
    requires key in BasketKeys
    ensures r == FoodHeading <==> key == LuongThuc
    ensures r == GoodsHeading <==> key == TieuDung
    ensures r == ExportsHeading <==> key == XuatKhau
  {
    HeadingsDiffer();
    match key
    case LuongThuc => FoodHeading
    case TieuDung => GoodsHeading
    case XuatKhau => ExportsHeading
  }

  /** `getCategoryColor`: the green set goes to the food heading only, the
      blue set to the consumer-goods heading only, and every other heading
      gets the purple set. */
  function CategoryColor(heading: string): (r: string)
    ensures r == FoodColours <==> heading == FoodHeading
    ensures r == GoodsColours <==> heading == GoodsHeading
    ensures r == OtherColours <==> heading != FoodHeading && heading != GoodsHeading
  {
    LooksDiffer();
    if heading == FoodHeading then FoodColours
    else if heading == GoodsHeading then GoodsColours
    else OtherColours
  }

  /** `getCategoryIcon`: the icon is chosen by the same test. */
  function CategoryIcon(heading: string): (r: string)
    ensures r == FoodIcon <==> heading == FoodHeading
    ensures r == GoodsIcon <==> heading == GoodsHeading
    ensures r == OtherIcon <==> heading != FoodHeading && heading != GoodsHeading
  {
    LooksDiffer();
    if heading == FoodHeading then FoodIcon
    else if heading == GoodsHeading then GoodsIcon
    else OtherIcon
  }

  // ---------------------------------------------------------------------
  // Game state and its transitions

  datatype StrategyState = StrategyState(
    score: int,
    items: seq<Item>,
    placedItems: map<Category, seq<Item>>)

  function EmptyBaskets(): (m: map<Category, seq<Item>>)
    ensures m.Keys == BasketKeys
    ensures forall k :: k in m ==> m[k] == []
  {
    map[LuongThuc := [], TieuDung := [], XuatKhau := []]
  }

  /** The state when the game is mounted, and after `restartGame`. */
  function Initial(): (s: StrategyState)
    ensures s.score == 0 && s.items == Catalogue() && s.placedItems == EmptyBaskets()
  {
    StrategyState(0, Catalogue(), EmptyBaskets())
  }

  /** `items.filter((i) => i.id !== id)`: the pool without every item
      carrying that id. */
  function WithoutId(pool: seq<Item>, id: string): (r: seq<Item>)
    ensures |r| <= |pool|
    ensures forall x :: x in r <==> x in pool && x.id != id
  {
    if pool == [] then []
    else if pool[0].id != id then [pool[0]] + WithoutId(pool[1..], id)
    else WithoutId(pool[1..], id)
  }

  /** When `x` is the only item of the pool with its id, filtering on that
      id removes exactly the copies of `x`. */
  lemma {:induction false} WithoutIdRemovesOnly(pool: seq<Item>, x: Item)
    requires forall y :: y in pool && y.id == x.id ==> y == x
    ensures multiset(WithoutId(pool, x.id)) == multiset(pool)[x := 0]
    decreases |pool|
  {
    if pool != [] {
      var head, tail := pool[0], pool[1..];
      assert pool == [head] + tail;
      assert multiset(pool) == multiset{head} + multiset(tail);
      WithoutIdRemovesOnly(tail, x);
      if head.id == x.id {
        assert WithoutId(pool, x.id) == WithoutId(tail, x.id);
      } else {
        assert WithoutId(pool, x.id) == [head] + WithoutId(tail, x.id);
        assert multiset([head] + WithoutId(tail, x.id)) == multiset{head} + multiset(WithoutId(tail, x.id));
      }
    }
  }

  /** `handleDrop(basketCategory, item)`. A drop into the item's own basket
      earns the reward, appends the item to that basket and removes the
      item's id from the pool; any other drop only costs the penalty. */
  function DropStep(s: StrategyState, basketCategory: Category, item: Item): (r: StrategyState)
    requires basketCategory in s.placedItems
    ensures r.placedItems.Keys == s.placedItems.Keys
    ensures item.category == basketCategory ==>
      && r.score == s.score + Reward
      && r.placedItems[basketCategory] == s.placedItems[basketCategory] + [item]
      && (forall k :: k in s.placedItems && k != basketCategory ==> r.placedItems[k] == s.placedItems[k])
      && (forall x :: x in r.items <==> x in s.items && x.id != item.id)
    ensures item.category != basketCategory ==>
      r == s.(score := Penalized(s.score))
  {
    if item.category == basketCategory then
      s.(score := Rewarded(s.score),
         placedItems := s.placedItems[basketCategory := s.placedItems[basketCategory] + [item]],
         items := WithoutId(s.items, item.id))
    else
      s.(score := Penalized(s.score))
  }

  /** `restartGame`: the whole pool back, three empty baskets, score 0. */
  function RestartStep(s: StrategyState): (r: StrategyState)
    ensures r == Initial()
  {
    StrategyState(0, Catalogue(), EmptyBaskets())
  }

  /** What every reachable state satisfies: the score is non-negative, the
      three baskets (and only those) exist, and every basket holds only
      items of its own category. */
  ghost predicate Invariant(s: StrategyState) {
    && s.score >= 0
    && s.placedItems.Keys == BasketKeys
    && (forall k, x :: k in s.placedItems && x in s.placedItems[k] ==> x.category == k)
  }

  /** The three baskets, one after another. */
  function Placed(s: StrategyState): (r: seq<Item>)
    requires BasketKeys <= s.placedItems.Keys
  {
    s.placedItems[LuongThuc] + s.placedItems[TieuDung] + s.placedItems[XuatKhau]
  }

  /** Pool and baskets together hold each catalogue item exactly once. */
  ghost predicate Partitioned(s: StrategyState) {
    && BasketKeys <= s.placedItems.Keys
    && multiset(s.items + Placed(s)) == multiset(Catalogue())
  }

  // ---------------------------------------------------------------------
  // Properties of the transitions

  lemma InitialInvariant()
    ensures Invariant(Initial()) && Partitioned(Initial())
  {
    assert Placed(Initial()) == [];
    assert Initial().items + [] == Catalogue();
  }

  /** Any drop into one of the three baskets keeps the score non-negative
      and the baskets sorted by category. */
  lemma DropPreservesInvariant(s: StrategyState, basketCategory: Category, item: Item)
    requires Invariant(s)
    requires basketCategory in BasketKeys
    ensures Invariant(DropStep(s, basketCategory, item))
  {
  }

  lemma RestartPreservesInvariant(s: StrategyState)
    ensures Invariant(RestartStep(s)) && Partitioned(RestartStep(s))
  {
    InitialInvariant();
  }

  /** A drop of an item taken from the pool keeps the partition: the item
      leaves the pool exactly when it enters a basket. */
  lemma DropPreservesPartition(s: StrategyState, basketCategory: Category, item: Item)
    requires Partitioned(s)
    requires basketCategory in BasketKeys
    requires item in s.items
    ensures Partitioned(DropStep(s, basketCategory, item))
  {
    if item.category == basketCategory {
      var pool := WithoutId(s.items, item.id);
      var baskets := s.placedItems[basketCategory := s.placedItems[basketCategory] + [item]];
      var r := s.(score := Rewarded(s.score), placedItems := baskets, items := pool);
      assert DropStep(s, basketCategory, item) == r;
      PoolLosesOneCopy(s, item);
      BasketsGainOneCopy(s, basketCategory, item);
      MoveKeepsTotal(s.items, Placed(s), r.items, Placed(r), item);
    }
  }

  /** Moving one item from the pool to the baskets keeps what the two
      hold together. */
  lemma MoveKeepsTotal(pool: seq<Item>, placed: seq<Item>, pool': seq<Item>, placed': seq<Item>, item: Item)
    requires multiset(pool') + multiset{item} == multiset(pool)
    requires multiset(placed') == multiset(placed) + multiset{item}
    ensures multiset(pool' + placed') == multiset(pool + placed)
  {
    calc {
      multiset(pool' + placed');
      multiset(pool') + (multiset(placed) + multiset{item});
      (multiset(pool') + multiset{item}) + multiset(placed);
      multiset(pool + placed);
    }
  }

  /** In a partitioned state, removing a pool item's id from the pool
      removes that one item and nothing else. */
  lemma PoolLosesOneCopy(s: StrategyState, item: Item)
    requires Partitioned(s)
    requires item in s.items
    ensures multiset(WithoutId(s.items, item.id)) + multiset{item} == multiset(s.items)
  {
    var whole := multiset(Catalogue());
    assert multiset(s.items + Placed(s)) == multiset(s.items) + multiset(Placed(s));
    CatalogueIdentifiesItems();
    RemoveSoleCopy(s.items, item, whole);
  }

  /** In the catalogue an id picks out a single item, which occurs once. */
  ghost predicate IdentifiesItems(whole: multiset<Item>) {
    && (forall a, b :: a in whole && b in whole && a.id == b.id ==> a == b)
    && (forall a :: whole[a] <= 1)
  }

  lemma CatalogueIdentifiesItems()
    ensures IdentifiesItems(multiset(Catalogue()))
  {
    forall a, b | a in multiset(Catalogue()) && b in multiset(Catalogue()) && a.id == b.id
      ensures a == b
    {
      CatalogueItemsById(a, b);
    }
    forall a ensures multiset(Catalogue())[a] <= 1 {
      CatalogueOccursOnce(a);
    }
  }

  /** Removing the id of a pool item, when the pool is drawn from a
      collection in which ids identify items. */
  lemma RemoveSoleCopy(pool: seq<Item>, item: Item, whole: multiset<Item>)
    requires item in pool
    requires multiset(pool) <= whole && IdentifiesItems(whole)
    ensures multiset(WithoutId(pool, item.id)) + multiset{item} == multiset(pool)
  {
    forall y | y in pool && y.id == item.id ensures y == item {
      assert y in multiset(pool) && item in multiset(pool);
    }
    WithoutIdRemovesOnly(pool, item);
    assert multiset(pool)[item] == 1 by {
      assert whole[item] <= 1;
    }
  }

  /** Appending an item to one basket adds exactly that item to the
      baskets taken together. */
  lemma BasketsGainOneCopy(s: StrategyState, basketCategory: Category, item: Item)
    requires BasketKeys <= s.placedItems.Keys
    requires basketCategory in BasketKeys
    ensures var p := s.placedItems[basketCategory := s.placedItems[basketCategory] + [item]];
            multiset(Placed(s.(placedItems := p))) == multiset(Placed(s)) + multiset{item}
  {
    var p := s.placedItems;
    var q := p[basketCategory := p[basketCategory] + [item]];
    assert multiset(Placed(s)) == multiset(p[LuongThuc]) + multiset(p[TieuDung]) + multiset(p[XuatKhau]);
    assert multiset(Placed(s.(placedItems := q))) == multiset(q[LuongThuc]) + multiset(q[TieuDung]) + multiset(q[XuatKhau]);
    assert multiset(q[basketCategory]) == multiset(p[basketCategory]) + multiset{item};
  }

  /** Heavy-industry items match none of the three baskets: dropping one
      only costs points, and it stays in the pool. */
  lemma HeavyIndustryNeverPlaced(s: StrategyState, basketCategory: Category, item: Item)
    requires basketCategory in BasketKeys
    requires basketCategory in s.placedItems
    requires item.category == CongNghiep
    ensures DropStep(s, basketCategory, item) == s.(score := Penalized(s.score))
  {
  }

  /** In a partitioned state whose baskets hold only their own category,
      every heavy-industry catalogue item is in the pool. */
  lemma HeavyIndustryInPool(s: StrategyState, x: Item)
    requires Invariant(s) && Partitioned(s)
    requires x in Catalogue() && x.category == CongNghiep
    ensures x in s.items
  {
    assert x !in Placed(s);
    OutsideIsInPool(s.items, Placed(s), multiset(Catalogue()), x);
  }

  /** What pool and baskets hold together, minus the baskets, is in the pool. */
  lemma OutsideIsInPool(pool: seq<Item>, placed: seq<Item>, whole: multiset<Item>, x: Item)
    requires multiset(pool + placed) == whole && x in whole && x !in placed
    ensures x in pool
  {
    assert multiset(pool + placed) == multiset(pool) + multiset(placed);
  }

  /** A drop of player input: a basket and an item from the catalogue. */
  datatype DropEvent = DropEvent(basketCategory: Category, item: Item)

  /** The state after a sequence of drops. */
  function Run(s: StrategyState, events: seq<DropEvent>): (r: StrategyState)
    requires s.placedItems.Keys == BasketKeys
    requires forall e :: e in events ==> e.basketCategory in BasketKeys
    ensures r.placedItems.Keys == BasketKeys
    decreases |events|
  {
    if events == [] then s
    else Run(DropStep(s, events[0].basketCategory, events[0].item), events[1..])
  }

  /** Whatever catalogue items are dropped into whatever baskets, a
      heavy-industry catalogue item in the pool stays there. */
  lemma {:induction false} HeavyIndustryStaysInPool(s: StrategyState, events: seq<DropEvent>, x: Item)
    requires s.placedItems.Keys == BasketKeys
    requires forall e :: e in events ==> e.basketCategory in BasketKeys && e.item in Catalogue()
    requires x in Catalogue() && x.category == CongNghiep && x in s.items
    ensures x in Run(s, events).items
    decreases |events|
  {
    if events != [] {
      var e := events[0];
      if e.item.category == e.basketCategory && e.item.id == x.id {
        CatalogueItemsById(e.item, x);
      }
      HeavyIndustryStaysInPool(DropStep(s, e.basketCategory, e.item), events[1..], x);
    }
  }

  // ---------------------------------------------------------------------
  // The basket's stale drop handler

  /** What a basket's drop actually runs. Each basket registers its drop
      callback through a factory that react-dnd memoises with no
      dependencies, so the callback kept is the one created on the first
      render, whose `handleDrop` still sees the initial score, pool and
      baskets. Each field the handler sets is therefore computed from the
      initial state, and a field it does not set keeps its current value:
      a matching drop sets all three, a wrong drop only the score. */
  function StaleBasketDrop(s: StrategyState, basketCategory: Category, item: Item): (r: StrategyState)
    requires basketCategory in BasketKeys
    ensures item.category == basketCategory ==> r == DropStep(Initial(), basketCategory, item)
    ensures item.category == basketCategory ==> r.score == Reward
    ensures item.category != basketCategory ==> r == s.(score := 0)
  {
    if item.category == basketCategory then
      DropStep(Initial(), basketCategory, item)
    else
      s.(score := Penalized(Initial().score))
  }

  /** Two correct drops in a row: through the stale handler the score is 10
      instead of 20, and the first item is back in the pool and gone from
      its basket; the intended handler scores 20 and keeps both
      placements. */
  lemma StaleDropLosesProgress()
    ensures var c := Catalogue();
            var stale := StaleBasketDrop(StaleBasketDrop(Initial(), LuongThuc, c[0]), TieuDung, c[2]);
            var intended := DropStep(DropStep(Initial(), LuongThuc, c[0]), TieuDung, c[2]);
            && stale.score == 10 && c[0] in stale.items && stale.placedItems[LuongThuc] == []
            && intended.score == 20 && c[0] !in intended.items && intended.placedItems[LuongThuc] == [c[0]]
  {
    var c := Catalogue();
    CatalogueIdsDistinct();
    assert c[0].id != c[2].id;
  }

  /** A correct drop followed by a wrong one: through the stale handler the
      score falls to 0 (the penalty is taken from the initial 0, not from
      10) while the placement stays, whereas the intended handler leaves 5. */
  lemma StaleWrongDropZeroesScore()
    ensures var c := Catalogue();
            var first := StaleBasketDrop(Initial(), LuongThuc, c[0]);
            var stale := StaleBasketDrop(first, LuongThuc, c[4]);
            var intended := DropStep(DropStep(Initial(), LuongThuc, c[0]), LuongThuc, c[4]);
            && stale.score == 0 && stale.items == first.items && stale.placedItems == first.placedItems
            && c[0] !in stale.items && stale.placedItems[LuongThuc] == [c[0]]
            && intended.score == 5
  {
    var c := Catalogue();
    CatalogueIdsDistinct();
  }

  /** With the intended handler every correct drop adds to the running
      score: after `n` correct drops from a state the score has grown by
      exactly `10 * n`. */
  lemma {:induction false} CorrectDropsAccumulate(s: StrategyState, events: seq<DropEvent>)
    requires s.placedItems.Keys == BasketKeys
    requires forall e :: e in events ==> e.basketCategory in BasketKeys && e.item.category == e.basketCategory
    ensures Run(s, events).score == s.score + Reward * |events|
    decreases |events|
  {
    if events != [] {
      var e := events[0];
      CorrectDropsAccumulate(DropStep(s, e.basketCategory, e.item), events[1..]);
    }
  }

  /** Both preservation facts for one drop, in the form a caller that may
      or may not hold them can use. */
  lemma DropKeepsValid(s: StrategyState, basketCategory: Category, item: Item)
    requires basketCategory in BasketKeys && basketCategory in s.placedItems
    ensures Invariant(s) ==> Invariant(DropStep(s, basketCategory, item))
    ensures Invariant(s) && Partitioned(s) && item in s.items ==> Partitioned(DropStep(s, basketCategory, item))
  {
    if Invariant(s) {
      DropPreservesInvariant(s, basketCategory, item);
      if Partitioned(s) && item in s.items {
        DropPreservesPartition(s, basketCategory, item);
      }
    }
  }

  // ---------------------------------------------------------------------
  // The component, with its state held in fields

  class StrategyGame {
    var score: int
    var items: seq<Item>
    var placedItems: map<Category, seq<Item>>

    function State(): StrategyState
      reads this
    {
      StrategyState(score, items, placedItems)
    }

    ghost predicate Valid()
      reads this
    {
      Invariant(State()) && Partitioned(State())
    }

    /** Mounting the component. */
    constructor ()
      ensures State() == Initial() && Valid()
    {
      score := 0;
      items := Catalogue();
      placedItems := EmptyBaskets();
      new;
      InitialInvariant();
    }

    /** A basket calling `handleDrop` with its own key. The partition is
        kept when the dropped item comes from the pool, which is the only
        place the page lets a player drag from. */
    method HandleDrop(basketCategory: Category, item: Item)
      requires basketCategory in BasketKeys && basketCategory in placedItems
      modifies this
      ensures State() == DropStep(old(State()), basketCategory, item)
      ensures old(Invariant(State())) ==> Invariant(State())
      ensures old(Valid()) && item in old(items) ==> Valid()
    {
      ghost var before := State();
      if item.category == basketCategory {
        score := score + Reward;
        placedItems := placedItems[basketCategory := placedItems[basketCategory] + [item]];
        items := WithoutId(items, item.id);
      } else {
        score := Penalized(score);
      }
      assert State() == DropStep(before, basketCategory, item);
      DropKeepsValid(before, basketCategory, item);
    }

    method RestartGame()
      modifies this
      ensures State() == RestartStep(old(State()))
      ensures Valid()
    {
      score := 0;
      items := Catalogue();
      placedItems := EmptyBaskets();
      assert State() == Initial();
      InitialInvariant();
    }
  }
}
