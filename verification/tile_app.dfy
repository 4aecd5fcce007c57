/**
 * The earlier single-list page: one list of pieces, created by drawing on
 * the grid and removed when bought. Its state is the module variables
 * `nextId` and `pieces`, changed in place by the Save and Purchase handlers.
 * Pieces of this page carry no colour (the empty colour here).
 *
 * Invariant: ids in the list are strictly increasing and all below
 * `nextId`, since every new piece takes `nextId++` and is pushed at the end.
 */
module TileApp {
  import opened Shapes
  import opened Pieces

  predicate IdsIncreasing(s: seq<Piece>) {
    forall i, j :: 0 <= i < j < |s| ==> s[i].id < s[j].id
  }

  /** Appending a piece whose id exceeds every id present keeps the ids
      increasing; removing any entry does too. */
  lemma {:induction false} IdsIncreasingAppendRemove(s: seq<Piece>, p: Piece, k: nat)
    requires IdsIncreasing(s)
    ensures (forall i :: i in IdsOf(s) ==> i < p.id) ==> IdsIncreasing(s + [p])
    ensures k < |s| ==> IdsIncreasing(RemoveAt(s, k))
  {
    if forall i :: i in IdsOf(s) ==> i < p.id {
      forall i | 0 <= i < |s| ensures s[i].id < p.id {
        assert s[i] in s;
        assert s[i].id in IdsOf(s);
      }
      var t := s + [p];
      forall i, j | 0 <= i < j < |t| ensures t[i].id < t[j].id {
        assert t[i] == s[i];
      }
    }
    if k < |s| {
      var r := RemoveAt(s, k);
      forall i, j | 0 <= i < j < |r| ensures r[i].id < r[j].id {
        var i', j' := if i < k then i else i + 1, if j < k then j else j + 1;
        assert r[i] == s[i'] && r[j] == s[j'];
      }
    }
  }

  /** With increasing ids, the `findIndex` + `splice` of a purchase removes
      exactly the entries with that id: there is at most one. */
  lemma PurchaseRemovesThatId(s: seq<Piece>, id: int)
    requires IdsIncreasing(s)
    ensures var k := IndexOf(s, id);
            (if k < 0 then s else RemoveAt(s, k)) == RemoveId(s, id)
  {
    RemoveIdIsRemoveAt(s, id);
  }

  /** Ids are increasing and all below `nextId`. */
  predicate ListConsistent(nextId: int, pieces: seq<Piece>) {
    IdsIncreasing(pieces) && forall i :: i in IdsOf(pieces) ==> i < nextId
  }

  /** Pushing a piece with id `nextId` and then incrementing keeps the list
      consistent. */
  lemma SaveKeepsConsistent(nextId: int, pieces: seq<Piece>, p: Piece)
    requires ListConsistent(nextId, pieces) && p.id == nextId
    ensures ListConsistent(nextId + 1, pieces + [p])
  {
    IdsIncreasingAppendRemove(pieces, p, 0);
    IdsOfAppend(pieces, p);
  }

  /** A purchase keeps the list consistent and removes exactly that id. */
  lemma PurchaseKeepsConsistent(nextId: int, pieces: seq<Piece>, id: int)
    requires ListConsistent(nextId, pieces)
    ensures var k := IndexOf(pieces, id);
            var r := if k < 0 then pieces else RemoveAt(pieces, k);
            ListConsistent(nextId, r) && r == RemoveId(pieces, id)
  {
    var k := IndexOf(pieces, id);
    PurchaseRemovesThatId(pieces, id);
    IdsOfRemoveId(pieces, id);
    if k >= 0 {
      IdsIncreasingAppendRemove(pieces, pieces[k], k);
    }
  }

  class PieceList {
    var nextId: int
    var pieces: seq<Piece>

    ghost predicate Valid()
      reads this
    {
      ListConsistent(nextId, pieces)
    }

    /** Page load: `nextId = 1`, no pieces. */
    constructor ()
      ensures nextId == 1 && pieces == []
      ensures Valid()
    {
      nextId := 1;
      pieces := [];
    }

    /** The Save button, with the shape read off the grid and the texts of
        the buttons, cost and time inputs. */
    method Save(shape: seq<Cell>, buttonsText: string, costText: string, timeText: string)
      modifies this
      ensures |shape| == 0 ==> nextId == old(nextId) && pieces == old(pieces)
      ensures |shape| > 0 ==>
                && nextId == old(nextId) + 1
                && pieces == old(pieces) + [Piece(old(nextId), shape, FormNumber(buttonsText),
                                                   FormNumber(costText), FormNumber(timeText), "")]
      ensures old(Valid()) ==> Valid()
    {
      if |shape| == 0 {
        return;
      }
      var p := Piece(nextId, shape, FormNumber(buttonsText), FormNumber(costText), FormNumber(timeText), "");
      if Valid() {
        SaveKeepsConsistent(nextId, pieces, p);
      }
      nextId := nextId + 1;
      pieces := pieces + [p];
    }

    /** The Purchase button of the piece with id `id`. */
    method Purchase(id: int)
      modifies this
      ensures nextId == old(nextId)
      ensures var k := IndexOf(old(pieces), id);
              pieces == if k < 0 then old(pieces) else RemoveAt(old(pieces), k)
      ensures old(Valid()) ==> Valid() && pieces == RemoveId(old(pieces), id)
    {
      var index := IndexOf(pieces, id);
      if Valid() {
        PurchaseKeepsConsistent(nextId, pieces, id);
      }
      if index >= 0 {
        pieces := RemoveAt(pieces, index);
      }
    }
  }
}
