/**
 * The purchased-pieces page: the list of pieces bought in the current game,
 * a sortable table over it, and a Return button per row that puts a piece
 * back into the available pool (by dropping it from the purchased list).
 *
 * The sort state is `{ key, asc }`; `key` starts out null (no sort) and is
 * set by clicking a header that carries a non-empty sort key. Every refresh
 * of the table re-sorts the list in place when a key is set.
 *
 * `Array.prototype.sort` with a comparator is modelled by a stable insertion
 * sort; what is proved of it is what any conforming sort delivers: the
 * result is a permutation of the input and is ordered by the comparator.
 */
module PurchasedView {
  import opened JsNumber
  import opened Pieces

  /** `getSortValue(piece, key)`: the column a header sorts by; any other key
      sorts every piece as 0. */
  function SortValue(p: Piece, key: string): (v: int)
    ensures key == "buttons" ==> v == p.buttons
    ensures key == "cost" ==> v == p.cost
    ensures key == "time" ==> v == p.time
    ensures key != "buttons" && key != "cost" && key != "time" ==> v == 0
  {
    if key == "buttons" then p.buttons
    else if key == "cost" then p.cost
    else if key == "time" then p.time
    else 0
  }

  /** `a` may stay in front of `b`: the comparator `aVal - bVal` (ascending)
      or `bVal - aVal` (descending) is not positive. */
  predicate Before(a: Piece, b: Piece, key: string, asc: bool): (r: bool)
    ensures SortValue(a, key) == SortValue(b, key) ==> r
  {
    if asc then SortValue(a, key) <= SortValue(b, key) else SortValue(a, key) >= SortValue(b, key)
  }

  /** The comparator is consistent, as `Array.prototype.sort` requires: any
      two pieces compare one way or the other, the order is transitive, and
      the two directions are each other's reverse. */
  lemma ComparatorConsistent(a: Piece, b: Piece, c: Piece, key: string, asc: bool)
    ensures Before(a, b, key, asc) || Before(b, a, key, asc)
    ensures Before(a, b, key, asc) && Before(b, c, key, asc) ==> Before(a, c, key, asc)
    ensures Before(a, b, key, false) <==> Before(b, a, key, true)
  {
  }

  /** Every earlier piece may stay in front of every later one. */
  predicate Ordered(s: seq<Piece>, key: string, asc: bool) {
    forall i, j :: 0 <= i < j < |s| ==> Before(s[i], s[j], key, asc)
  }

  /** Places `x` in front of the first piece it may stay in front of. */
  function Insert(x: Piece, t: seq<Piece>, key: string, asc: bool): (r: seq<Piece>)
    ensures multiset(r) == multiset(t) + multiset{x}
  {
    if t == [] || Before(x, t[0], key, asc) then
      [x] + t
    else
      assert t == [t[0]] + t[1..];
      [t[0]] + Insert(x, t[1..], key, asc)
  }

  /** Inserting into an ordered list keeps it ordered. */
  lemma {:induction false} InsertKeepsOrdered(x: Piece, t: seq<Piece>, key: string, asc: bool)
    requires Ordered(t, key, asc)
    ensures Ordered(Insert(x, t, key, asc), key, asc)
  {
    if t != [] && !Before(x, t[0], key, asc) {
      var rest := Insert(x, t[1..], key, asc);
      InsertKeepsOrdered(x, t[1..], key, asc);
      var r := [t[0]] + rest;
      forall j | 0 < j < |r| ensures Before(t[0], r[j], key, asc) {
        assert r[j] in multiset(rest);
        if r[j] != x {
          assert r[j] in t[1..];
          var m :| 0 <= m < |t[1..]| && t[1..][m] == r[j];
          assert t[m + 1] == r[j];
        }
      }
    }
  }

  /** `purchasedPieces.sort(comparator)` for a set key. */
  function SortBy(s: seq<Piece>, key: string, asc: bool): (r: seq<Piece>)
    ensures multiset(r) == multiset(s)
    ensures Ordered(r, key, asc)
  {
    if s == [] then []
    else
      assert s == [s[0]] + s[1..];
      InsertKeepsOrdered(s[0], SortBy(s[1..], key, asc), key, asc);
      Insert(s[0], SortBy(s[1..], key, asc), key, asc)
  }

  /** `sortPurchasedPieces()`: nothing happens while no key is set. */
  function SortedForDisplay(s: seq<Piece>, sortKey: Option<string>, asc: bool): (r: seq<Piece>)
    ensures multiset(r) == multiset(s)
    ensures sortKey.None? || sortKey.value == "" ==> r == s
    ensures sortKey.Some? && sortKey.value != "" ==> Ordered(r, sortKey.value, asc)
  {
    if sortKey.Some? && sortKey.value != "" then SortBy(s, sortKey.value, asc) else s
  }

  /** Sorting a list that is already in order leaves it exactly as it was:
      pieces that compare equal keep their order. */
  lemma {:induction false} SortOrderedIsIdentity(s: seq<Piece>, key: string, asc: bool)
    requires Ordered(s, key, asc)
    ensures SortBy(s, key, asc) == s
  {
    if s != [] {
      SortOrderedIsIdentity(s[1..], key, asc);
      assert s == [s[0]] + s[1..];
      if |s| > 1 {
        assert Before(s[0], s[1..][0], key, asc);
      }
    }
  }

  /** A header whose key names no column sorts every piece as 0, so the
      table keeps the order it had. */
  lemma UnknownKeyKeepsOrder(s: seq<Piece>, key: string, asc: bool)
    requires key != "buttons" && key != "cost" && key != "time"
    ensures SortBy(s, key, asc) == s
  {
    SortOrderedIsIdentity(s, key, asc);
  }

  /** Dropping pieces from an ordered list leaves it ordered. */
  lemma {:induction false} WithoutIdsKeepsOrdered(s: seq<Piece>, ids: set<int>, key: string, asc: bool)
    requires Ordered(s, key, asc)
    ensures Ordered(WithoutIds(s, ids), key, asc)
  {
    if s != [] {
      WithoutIdsKeepsOrdered(s[1..], ids, key, asc);
      WithoutIdsKeepsOthers(s[1..], ids);
      var rest := WithoutIds(s[1..], ids);
      if s[0].id !in ids {
        var r := WithoutIds(s, ids);
        assert r == [s[0]] + rest;
        forall j | 0 < j < |r| ensures Before(r[0], r[j], key, asc) {
          assert r[j] in rest;
          var m :| 0 <= m < |s[1..]| && s[1..][m] == r[j];
          assert s[m + 1] == r[j];
        }
      }
    }
  }

  class PurchasedPage {
    var purchased: seq<Piece>
    var sortKey: Option<string>
    var asc: bool

    /** A key is set (`if (!sortState.key) return` lets nothing else sort). */
    predicate Sorting()
      reads this
    {
      sortKey.Some? && sortKey.value != ""
    }

    /** The table shows the list in the order the sort state asks for. */
    ghost predicate Valid()
      reads this
    {
      Sorting() ==> Ordered(purchased, sortKey.value, asc)
    }

    /** Page load with the stored purchased list: no key, ascending. */
    constructor (stored: seq<Piece>)
      ensures purchased == stored && sortKey == None && asc
      ensures Valid()
    {
      purchased := stored;
      sortKey := None;
      asc := true;
    }

    /** A click on the header with sort key `key`: the same key flips the
        direction, another key sorts by it ascending; the table is then
        refreshed, which sorts. */
    method ClickHeader(key: string)
      requires key != ""
      modifies this
      ensures sortKey == Some(key)
      ensures asc == if old(sortKey) == Some(key) then !old(asc) else true
      ensures purchased == SortBy(old(purchased), key, asc)
      ensures multiset(purchased) == multiset(old(purchased))
      ensures Valid()
    {
      if sortKey == Some(key) {
        asc := !asc;
      } else {
        sortKey := Some(key);
        asc := true;
      }
      purchased := SortedForDisplay(purchased, sortKey, asc);
    }

    /** The Return button of the row showing the piece with id `id`: every
        entry with that id leaves the list, and the table is refreshed. On
        a table already in order the refresh moves nothing. */
    method Return(id: int)
      modifies this
      ensures sortKey == old(sortKey) && asc == old(asc)
      ensures purchased == SortedForDisplay(RemoveId(old(purchased), id), sortKey, asc)
      ensures old(Valid()) ==> purchased == RemoveId(old(purchased), id)
      ensures Valid()
    {
      var kept := RemoveId(purchased, id);
      if Valid() && Sorting() {
        WithoutIdsKeepsOrdered(purchased, {id}, sortKey.value, asc);
        SortOrderedIsIdentity(kept, sortKey.value, asc);
      }
      purchased := SortedForDisplay(kept, sortKey, asc);
    }
  }
}
