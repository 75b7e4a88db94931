/**
 Keyset pagination of an owner's sample items, walked page by page while items come and go.
 A table is the set of stored rows; the fields a request may change (title, description, done) do not enter
 the order and are left out of a row.
 */
module SampleItemPages {
  import opened Basics

  datatype Item = Item(owner: nat, registeredAt: int, id: int)

  /** The keyset predicate of the query: `item` comes strictly after the cursor. */
  predicate After(item: Item, cursor: Item) {
    item.registeredAt < cursor.registeredAt || (item.registeredAt == cursor.registeredAt && item.id < cursor.id)
  }

  ghost predicate Descending(items: seq<Item>) {
    forall i, j :: 0 <= i < j < |items| ==> After(items[j], items[i])
  }

  /** What the WHERE clause selects. */
  function Matching(table: set<Item>, owner: nat, cursor: Option<Item>): set<Item> {
    set item | item in table && item.owner == owner && (cursor.Some? ==> After(item, cursor.value))
  }

  /** Ids are primary keys. */
  ghost predicate KeysUnique(table: set<Item>) {
    forall a, b :: a in table && b in table && a.id == b.id ==> a == b
  }

  /** ORDER BY registered_at DESC, id DESC. */
  ghost function Sorted(items: set<Item>): seq<Item>
    requires KeysUnique(items)
  {
    if items == {} then []
    else
      GreatestExists(items);
      var top :| top in items && forall other :: other in items && other != top ==> After(other, top);
      [top] + Sorted(items - {top})
  }

  lemma {:induction false} SortedLists(items: set<Item>)
    requires KeysUnique(items)
    ensures Descending(Sorted(items))
    ensures forall item :: item in Sorted(items) <==> item in items
  {
    if items != {} {
      GreatestExists(items);
      var s := Sorted(items);
      SortedLists(items - {s[0]});
      assert s == [s[0]] + Sorted(items - {s[0]});
    }
  }

  lemma {:induction false} GreatestExists(items: set<Item>)
    requires items != {} && KeysUnique(items)
    ensures exists top :: top in items && forall other :: other in items && other != top ==> After(other, top)
  {
    var one :| one in items;
    var rest := items - {one};
    if rest == {} {
      assert items == {one};
    } else {
      GreatestExists(rest);
      var best :| best in rest && forall other :: other in rest && other != best ==> After(other, best);
      assert best in items && one.id != best.id;
      var top := if After(one, best) then best else one;
      forall other | other in items && other != top ensures After(other, top) {
        assert other == one || other in rest;
      }
      assert top in items && forall other :: other in items && other != top ==> After(other, top);
    }
  }

  /** A descending listing of a set is the only one. */
  lemma {:induction false} DescendingIsUnique(a: seq<Item>, b: seq<Item>)
    requires Descending(a) && Descending(b)
    requires forall item :: item in a <==> item in b
    ensures a == b
  {
    if a == [] {
      NonemptyHasMember(b);
    } else {
      assert a[0] in b;
      HeadsAgree(a, b);
      TailMembers(a);
      TailMembers(b);
      DescendingIsUnique(a[1..], b[1..]);
    }
  }

  lemma NonemptyHasMember(a: seq<Item>)
    ensures a == [] || exists item :: item in a
  {
    if a != [] {
      assert a[0] in a;
    }
  }

  lemma HeadsAgree(a: seq<Item>, b: seq<Item>)
    requires Descending(a) && Descending(b) && a != [] && b != []
    requires a[0] in b && b[0] in a
    ensures a[0] == b[0]
  {
    var i :| 0 <= i < |b| && b[i] == a[0];
    var j :| 0 <= j < |a| && a[j] == b[0];
  }

  lemma TailMembers(a: seq<Item>)
    requires Descending(a) && a != []
    ensures forall item :: item in a[1..] <==> item in a && item != a[0]
  {
    forall item ensures item in a[1..] <==> item in a && item != a[0] {
      if item in a[1..] {
        var i :| 0 <= i < |a[1..]| && a[1..][i] == item;
        assert a[i + 1] == item && After(a[i + 1], a[0]);
      }
    }
  }

  // ----- one page -----

  ghost function Listing(table: set<Item>, owner: nat, cursor: Option<Item>): seq<Item>
    requires KeysUnique(table)
  {
    Sorted(Matching(table, owner, cursor))
  }

  lemma ListingHas(table: set<Item>, owner: nat, cursor: Option<Item>, item: Item)
    requires KeysUnique(table)
    ensures item in Listing(table, owner, cursor)
       <==> item in table && item.owner == owner && (cursor.Some? ==> After(item, cursor.value))
  {
    SortedLists(Matching(table, owner, cursor));
  }

  lemma ListingDescends(table: set<Item>, owner: nat, cursor: Option<Item>)
    requires KeysUnique(table)
    ensures Descending(Listing(table, owner, cursor))
  {
    SortedLists(Matching(table, owner, cursor));
  }

  /** `list_by_owner` with LIMIT. */
  ghost function ListByOwner(table: set<Item>, owner: nat, fetchLimit: nat, cursor: Option<Item>): seq<Item>
    requires KeysUnique(table)
  {
    var all := Listing(table, owner, cursor);
    if |all| <= fetchLimit then all else all[..fetchLimit]
  }

  /** A page and the cursor of the next one; the cursor is the page's last item (its encoding is a round trip). */
  datatype Page = Page(items: seq<Item>, next: Option<Item>)

  /** `list_items`: one row more than the limit is fetched to learn whether there is a next page. */
  ghost function ListItems(table: set<Item>, owner: nat, limit: nat, cursor: Option<Item>): Page
    requires KeysUnique(table) && limit >= 1
  {
    var items := ListByOwner(table, owner, limit + 1, cursor);
    if |items| <= limit then Page(items, None) else Page(items[..limit], Some(items[limit - 1]))
  }

  /** Where a listing is cut. */
  function Cut(all: seq<Item>, limit: nat): Page
    requires limit >= 1
  {
    if |all| <= limit then Page(all, None) else Page(all[..limit], Some(all[limit - 1]))
  }

  /** Fetching one row more cuts the listing, and tells exactly whether something is left. */
  lemma PageIsCut(table: set<Item>, owner: nat, limit: nat, cursor: Option<Item>)
    requires KeysUnique(table) && limit >= 1
    ensures ListItems(table, owner, limit, cursor) == Cut(Listing(table, owner, cursor), limit)
  {
  }

  // ----- a walk with interference -----

  /** The pages of a walk that reads a possibly different table at every page, until the last page or the end. */
  ghost function Walk(tables: seq<set<Item>>, owner: nat, limit: nat, cursor: Option<Item>): seq<Page>
    requires limit >= 1 && AllUnique(tables)
    decreases |tables|
  {
    if tables == [] then []
    else
      var page := ListItems(tables[0], owner, limit, cursor);
      if page.next.Some? then [page] + Walk(tables[1..], owner, limit, page.next) else [page]
  }

  ghost predicate AllUnique(tables: seq<set<Item>>) {
    forall i :: 0 <= i < |tables| ==> KeysUnique(tables[i])
  }

  function Flat(pages: seq<Page>): seq<Item> {
    if pages == [] then [] else pages[0].items + Flat(pages[1..])
  }

  /** The walk reached its last page. */
  predicate Complete(pages: seq<Page>) {
    pages != [] && pages[|pages| - 1].next == None
  }

  lemma WalkStep(tables: seq<set<Item>>, owner: nat, limit: nat, cursor: Option<Item>)
    requires limit >= 1 && AllUnique(tables) && tables != []
    ensures var page := Cut(Listing(tables[0], owner, cursor), limit);
            var pages := Walk(tables, owner, limit, cursor);
            if page.next == None then pages == [page] && Flat(pages) == page.items && Complete(pages)
            else
              var rest := Walk(tables[1..], owner, limit, page.next);
              && pages == [page] + rest && Flat(pages) == page.items + Flat(rest)
              && (Complete(pages) <==> Complete(rest))
  {
    PageIsCut(tables[0], owner, limit, cursor);
    var page := Cut(Listing(tables[0], owner, cursor), limit);
    var pages := Walk(tables, owner, limit, cursor);
    if page.next == None {
      assert pages[1..] == [];
    } else {
      assert pages[1..] == Walk(tables[1..], owner, limit, page.next);
    }
  }

  /** A page and its cursor come from the listing. */
  lemma CutKeeps(all: seq<Item>, limit: nat, item: Item)
    requires limit >= 1
    ensures item in Cut(all, limit).items ==> item in all
    ensures Cut(all, limit).next.Some? ==> Cut(all, limit).next.value in all
  {
  }

  lemma FlatMember(first: Page, rest: seq<Page>, item: Item)
    ensures item in Flat([first] + rest) <==> item in first.items || item in Flat(rest)
  {
    assert ([first] + rest)[1..] == rest;
  }

  /** Every item of page i is the owner's, is stored in the table that page i was read from, and is after the cursor. */
  lemma {:induction false} WalkReturnsStored(
      tables: seq<set<Item>>, owner: nat, limit: nat, cursor: Option<Item>, i: nat, item: Item)
    requires limit >= 1 && AllUnique(tables) && i < |Walk(tables, owner, limit, cursor)|
    requires item in Walk(tables, owner, limit, cursor)[i].items
    ensures i < |tables| && item in tables[i] && item.owner == owner && (cursor.Some? ==> After(item, cursor.value))
    decreases |tables|
  {
    WalkStep(tables, owner, limit, cursor);
    var all := Listing(tables[0], owner, cursor);
    var page := Cut(all, limit);
    CutKeeps(all, limit, item);
    if i == 0 {
      ListingHas(tables[0], owner, cursor, item);
    } else {
      ListingHas(tables[0], owner, cursor, page.next.value);
      WalkReturnsStored(tables[1..], owner, limit, page.next, i - 1, item);
    }
  }

  lemma {:induction false} FlatComesFromPage(pages: seq<Page>, item: Item) returns (i: nat)
    requires item in Flat(pages)
    ensures i < |pages| && item in pages[i].items
  {
    if item in pages[0].items {
      i := 0;
    } else {
      var k := FlatComesFromPage(pages[1..], item);
      i := k + 1;
    }
  }

  lemma WalkIsAfterCursor(tables: seq<set<Item>>, owner: nat, limit: nat, cursor: Item)
    requires limit >= 1 && AllUnique(tables)
    ensures forall item :: item in Flat(Walk(tables, owner, limit, Some(cursor))) ==> After(item, cursor)
  {
    forall item | item in Flat(Walk(tables, owner, limit, Some(cursor))) ensures After(item, cursor) {
      var i := FlatComesFromPage(Walk(tables, owner, limit, Some(cursor)), item);
      WalkReturnsStored(tables, owner, limit, Some(cursor), i, item);
    }
  }

  lemma CutDescends(all: seq<Item>, limit: nat)
    requires Descending(all) && limit >= 1
    ensures Descending(Cut(all, limit).items)
  {
  }

  /**
   A walk is strictly descending, newest first and by id among equal times, whatever happens to the table between
   pages; so nothing comes twice.
   */
  lemma {:induction false} WalkDescends(tables: seq<set<Item>>, owner: nat, limit: nat, cursor: Option<Item>)
    requires limit >= 1 && AllUnique(tables)
    ensures Descending(Flat(Walk(tables, owner, limit, cursor)))
    ensures var items := Flat(Walk(tables, owner, limit, cursor));
            forall i, j :: 0 <= i < j < |items| ==>
              items[i].registeredAt > items[j].registeredAt
              || (items[i].registeredAt == items[j].registeredAt && items[i].id > items[j].id)
    decreases |tables|
  {
    if tables != [] {
      WalkStep(tables, owner, limit, cursor);
      var all := Listing(tables[0], owner, cursor);
      var page := Cut(all, limit);
      ListingDescends(tables[0], owner, cursor);
      CutDescends(all, limit);
      if page.next.Some? {
        WalkDescends(tables[1..], owner, limit, page.next);
        WalkIsAfterCursor(tables[1..], owner, limit, page.next.value);
        JoinDescending(page.items, Flat(Walk(tables[1..], owner, limit, page.next)));
      }
    }
  }

  lemma JoinDescending(first: seq<Item>, rest: seq<Item>)
    requires Descending(first) && Descending(rest) && first != []
    requires forall item :: item in rest ==> After(item, first[|first| - 1])
    ensures Descending(first + rest)
  {
    forall i, j | 0 <= i < j < |first + rest| ensures After((first + rest)[j], (first + rest)[i]) {
      if i < |first| <= j {
        assert rest[j - |first|] in rest;
      }
    }
  }

  /** A finished walk has returned every item of the owner that was present throughout. */
  lemma {:induction false} WalkMissesNothingPresent(
      tables: seq<set<Item>>, owner: nat, limit: nat, cursor: Option<Item>, item: Item)
    requires limit >= 1 && AllUnique(tables)
    requires Complete(Walk(tables, owner, limit, cursor))
    requires item.owner == owner && forall i :: 0 <= i < |tables| ==> item in tables[i]
    requires cursor.Some? ==> After(item, cursor.value)
    ensures item in Flat(Walk(tables, owner, limit, cursor))
    decreases |tables|
  {
    WalkStep(tables, owner, limit, cursor);
    var all := Listing(tables[0], owner, cursor);
    var page := Cut(all, limit);
    assert item in tables[0];
    ListingHas(tables[0], owner, cursor, item);
    if page.next.Some? {
      ListingDescends(tables[0], owner, cursor);
      BeyondTheCut(all, limit, item);
      FlatMember(page, Walk(tables[1..], owner, limit, page.next), item);
      if item !in page.items {
        assert forall i :: 0 <= i < |tables[1..]| ==> tables[1..][i] == tables[i + 1];
        WalkMissesNothingPresent(tables[1..], owner, limit, page.next, item);
      }
    }
  }

  /** An item of the listing is on the page or after its cursor, never both. */
  lemma BeyondTheCut(all: seq<Item>, limit: nat, item: Item)
    requires Descending(all) && 1 <= limit < |all| && item in all
    ensures item in all[..limit] <==> !After(item, all[limit - 1])
    ensures item in all[limit..] <==> After(item, all[limit - 1])
  {
    var k :| 0 <= k < |all| && all[k] == item;
    if k < limit {
      assert all[..limit][k] == item;
      assert k < limit - 1 ==> After(all[limit - 1], all[k]);
    } else {
      assert all[limit..][k - limit] == item;
      assert After(all[k], all[limit - 1]);
    }
    assert forall j :: 0 <= j < |all[limit..]| ==> all[limit..][j] == all[limit + j];
  }

  /** The same, for a whole walk from the first page: exactly once. */
  lemma WalkReturnsExactlyOnce(tables: seq<set<Item>>, owner: nat, limit: nat, item: Item)
    requires limit >= 1 && AllUnique(tables)
    requires Complete(Walk(tables, owner, limit, None))
    requires item.owner == owner && forall i :: 0 <= i < |tables| ==> item in tables[i]
    ensures multiset(Flat(Walk(tables, owner, limit, None)))[item] == 1
  {
    WalkMissesNothingPresent(tables, owner, limit, None, item);
    WalkDescends(tables, owner, limit, None);
    DescendingHasNoDuplicates(Flat(Walk(tables, owner, limit, None)), item);
  }

  lemma {:induction false} DescendingHasNoDuplicates(items: seq<Item>, item: Item)
    requires Descending(items)
    ensures multiset(items)[item] == if item in items then 1 else 0
  {
    if items != [] {
      TailMembers(items);
      DescendingHasNoDuplicates(items[1..], item);
      assert items == [items[0]] + items[1..];
      assert multiset(items) == multiset{items[0]} + multiset(items[1..]);
    }
  }

  // ----- a walk without interference -----

  function Same(table: set<Item>, times: nat): seq<set<Item>> {
    seq(times, i => table)
  }

  /** ceil(n / limit), and 1 for an empty list. */
  function PageCount(n: nat, limit: nat): nat
    requires limit >= 1
  {
    if n <= limit then 1 else 1 + PageCount(n - limit, limit)
  }

  lemma {:induction false} PageCountIsCeiling(n: nat, limit: nat)
    requires limit >= 1
    ensures n == 0 ==> PageCount(n, limit) == 1
    ensures n > 0 ==> (PageCount(n, limit) - 1) * limit < n <= PageCount(n, limit) * limit
  {
    if n > limit {
      PageCountIsCeiling(n - limit, limit);
    }
  }

  /** What is after a page's cursor is the rest of the listing. */
  lemma RestOfListing(table: set<Item>, owner: nat, limit: nat, cursor: Option<Item>)
    requires KeysUnique(table) && 1 <= limit < |Listing(table, owner, cursor)|
    ensures var all := Listing(table, owner, cursor);
            Listing(table, owner, Some(all[limit - 1])) == all[limit..]
  {
    var all := Listing(table, owner, cursor);
    var rest := Listing(table, owner, Some(all[limit - 1]));
    var last := all[limit - 1];
    ListingDescends(table, owner, cursor);
    ListingDescends(table, owner, Some(last));
    ListingHas(table, owner, cursor, last);
    forall item ensures item in rest <==> item in all[limit..] {
      ListingHas(table, owner, cursor, item);
      ListingHas(table, owner, Some(last), item);
      if item in all {
        BeyondTheCut(all, limit, item);
      }
      assert item in all[limit..] ==> item in all;
    }
    DescendingIsUnique(rest, all[limit..]);
  }

  /** Left alone, the pages concatenate to the whole listing, in max(1, ceil(n / limit)) pages. */
  lemma {:induction false} UndisturbedWalk(table: set<Item>, owner: nat, limit: nat, cursor: Option<Item>, visits: nat)
    requires KeysUnique(table) && limit >= 1
    requires visits >= PageCount(|Listing(table, owner, cursor)|, limit)
    ensures var pages := Walk(Same(table, visits), owner, limit, cursor);
            && Complete(pages)
            && Flat(pages) == Listing(table, owner, cursor)
            && |pages| == PageCount(|Listing(table, owner, cursor)|, limit)
    decreases visits
  {
    UndisturbedStep(table, owner, limit, cursor, visits);
    var all := Listing(table, owner, cursor);
    if |all| > limit {
      var next := Some(all[limit - 1]);
      assert |Listing(table, owner, next)| == |all| - limit;
      assert PageCount(|all|, limit) == 1 + PageCount(|all| - limit, limit);
      UndisturbedWalk(table, owner, limit, next, visits - 1);
      assert all == all[..limit] + all[limit..];
    }
  }

  lemma UndisturbedStep(table: set<Item>, owner: nat, limit: nat, cursor: Option<Item>, visits: nat)
    requires KeysUnique(table) && limit >= 1 && visits >= 1
    ensures var all := Listing(table, owner, cursor);
            var pages := Walk(Same(table, visits), owner, limit, cursor);
            if |all| <= limit then |pages| == 1 && Flat(pages) == all && Complete(pages)
            else
              var rest := Walk(Same(table, visits - 1), owner, limit, Some(all[limit - 1]));
              && |pages| == 1 + |rest| && Flat(pages) == all[..limit] + Flat(rest)
              && (Complete(rest) ==> Complete(pages))
              && Listing(table, owner, Some(all[limit - 1])) == all[limit..]
  {
    WalkStep(Same(table, visits), owner, limit, cursor);
    if |Listing(table, owner, cursor)| > limit {
      assert Same(table, visits)[1..] == Same(table, visits - 1);
      RestOfListing(table, owner, limit, cursor);
    }
  }
}
