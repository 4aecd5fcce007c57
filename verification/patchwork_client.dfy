/**
 * The main page of the helper: a library of user-drawn pieces, the pieces
 * bought in the current game, and the pieces still available.
 *
 * The page keeps four pieces of module state that its event handlers change
 * in place: `nextId`, `pieceLibrary`, `purchasedPieces` and
 * `availablePieces`, plus the id of the piece open in the editor. They are
 * the fields of `TileLibrary`; each handler is a method. Pieces are values
 * here, so where the page mutates an object that two lists share, the model
 * overwrites the entry with that id in each list.
 *
 * The invariant kept by every handler: the available list is exactly the
 * library pieces whose id was not bought, in library order, so it is a
 * subset of the library by id and disjoint from the purchases.
 */
module PatchworkClient {
  import opened JsNumber
  import opened Shapes
  import opened Pieces

  /** `if (!p.color) p.color = '#4caf50'` on one piece. */
  function WithDefaultColor(p: Piece): (q: Piece)
    ensures q.color != ""
    ensures p.color == "" ==> q.color == DefaultColor
    ensures q == p.(color := q.color)
    ensures p.color != "" ==> q == p
  {
    if p.color == "" then p.(color := DefaultColor) else p
  }

  /** `pieces.forEach(p => { if (!p.color) p.color = '#4caf50'; })`. */
  method ApplyDefaultColor(pieces: seq<Piece>) returns (r: seq<Piece>)
    ensures |r| == |pieces|
    ensures forall i :: 0 <= i < |r| ==> r[i] == WithDefaultColor(pieces[i])
    ensures forall i :: 0 <= i < |r| ==> r[i].color != "" && r[i].id == pieces[i].id
    ensures (forall i :: 0 <= i < |pieces| ==> pieces[i].color != "") ==> r == pieces
  {
    r := pieces;
    var i := 0;
    while i < |r|
      invariant 0 <= i <= |r| == |pieces|
      invariant forall j :: 0 <= j < i ==> r[j] == WithDefaultColor(pieces[j])
      invariant forall j :: i <= j < |r| ==> r[j] == pieces[j]
    {
      if r[i].color == "" {
        r := r[i := r[i].(color := DefaultColor)];
      }
      i := i + 1;
    }
  }

  /** `pieceLibrary.filter(p => !purchasedPieces.some(pp => pp.id === p.id))`. */
  function AvailableFrom(library: seq<Piece>, purchased: seq<Piece>): (r: seq<Piece>)
    ensures Subseq(r, library)
    ensures forall p :: p in r <==> p in library && p.id !in IdsOf(purchased)
    ensures IdsOf(r) <= IdsOf(library) && IdsOf(r) !! IdsOf(purchased)
  {
    WithoutIdsKeepsOthers(library, IdsOf(purchased));
    WithoutIds(library, IdsOf(purchased))
  }

  /** What the page needs of stored data for its invariant: library ids are
      distinct and every stored id is below `nextId`. */
  predicate StoreConsistent(nextId: int, library: seq<Piece>, purchased: seq<Piece>) {
    && DistinctIds(library)
    && (forall i :: i in IdsOf(library) ==> i < nextId)
    && (forall i :: i in IdsOf(purchased) ==> i < nextId)
  }

  /** Buying the available piece with id `id` and removing it from the
      available list keeps that list the library minus the purchases. */
  lemma PurchaseKeepsAvailableDerived(library: seq<Piece>, purchased: seq<Piece>, id: int)
    requires DistinctIds(library)
    ensures var available := AvailableFrom(library, purchased);
            var k := IndexOf(available, id);
            k >= 0 ==> AvailableFrom(library, purchased + [available[k]]) == RemoveAt(available, k)
  {
    var available := AvailableFrom(library, purchased);
    var k := IndexOf(available, id);
    if k >= 0 {
      var q := available[k];
      IdsOfAppend(purchased, q);
      WithoutIdsTwice(library, IdsOf(purchased), {id});
      assert IdsOf(purchased) + {id} == IdsOf(purchased + [q]);
      WithoutIdsKeepsDistinct(library, IdsOf(purchased));
      RemoveIdIsRemoveAt(available, id);
    }
  }

  /** The cascading delete keeps the available list derived. */
  lemma DeleteKeepsAvailableDerived(library: seq<Piece>, purchased: seq<Piece>, id: int)
    ensures AvailableFrom(RemoveId(library, id), RemoveId(purchased, id)) ==
            RemoveId(AvailableFrom(library, purchased), id)
  {
    IdsOfRemoveId(purchased, id);
    WithoutIdsTwice(library, {id}, IdsOf(purchased) - {id});
    WithoutIdsTwice(library, IdsOf(purchased), {id});
    assert {id} + (IdsOf(purchased) - {id}) == IdsOf(purchased) + {id};
  }

  /** A newly created piece, whose id nobody bought, joins the end of the
      available list. */
  lemma CreateKeepsAvailableDerived(library: seq<Piece>, purchased: seq<Piece>, p: Piece)
    requires p.id !in IdsOf(purchased)
    ensures AvailableFrom(library + [p], purchased) == AvailableFrom(library, purchased) + [p]
  {
    WithoutIdsAppend(library, [p], IdsOf(purchased));
  }

  /** Mirroring an edit into the available and purchased copies keeps the
      available list derived. */
  lemma EditKeepsAvailableDerived(library: seq<Piece>, purchased: seq<Piece>, q: Piece)
    ensures AvailableFrom(ReplaceFirst(library, q), ReplaceFirst(purchased, q)) ==
            ReplaceFirst(AvailableFrom(library, purchased), q)
  {
    IdsOfReplaceFirst(purchased, q);
    WithoutIdsReplaceFirst(library, q, IdsOf(purchased));
  }

  /** Buying an available piece keeps the store consistent and the
      available list derived. */
  lemma PurchaseKeepsStore(nextId: int, library: seq<Piece>, purchased: seq<Piece>,
                           available: seq<Piece>, id: int)
    requires StoreConsistent(nextId, library, purchased)
    requires available == AvailableFrom(library, purchased)
    ensures var k := IndexOf(available, id);
            k >= 0 ==>
              && StoreConsistent(nextId, library, purchased + [available[k]])
              && RemoveAt(available, k) == AvailableFrom(library, purchased + [available[k]])
  {
    var k := IndexOf(available, id);
    if k >= 0 {
      var bought := available[k];
      PurchaseKeepsAvailableDerived(library, purchased, id);
      assert bought in available;
      assert bought.id in IdsOf(available);
      assert bought.id in IdsOf(library);
      IdsOfAppend(purchased, bought);
    }
  }

  /** Creating a piece with id `nextId` and incrementing `nextId` keeps the
      store consistent and the new piece available. */
  lemma CreateKeepsStore(nextId: int, library: seq<Piece>, purchased: seq<Piece>,
                         available: seq<Piece>, p: Piece)
    requires StoreConsistent(nextId, library, purchased)
    requires available == AvailableFrom(library, purchased)
    requires p.id == nextId
    ensures StoreConsistent(nextId + 1, library + [p], purchased)
    ensures available + [p] == AvailableFrom(library + [p], purchased)
  {
    CreateKeepsAvailableDerived(library, purchased, p);
    IdsOfAppend(library, p);
  }

  /** Editing a piece changes no id, so the store stays consistent and the
      available list, edited alike, stays derived from the other two. */
  lemma EditKeepsStore(nextId: int, library: seq<Piece>, purchased: seq<Piece>,
                       available: seq<Piece>, q: Piece)
    requires StoreConsistent(nextId, library, purchased)
    requires available == AvailableFrom(library, purchased)
    ensures StoreConsistent(nextId, ReplaceFirst(library, q), ReplaceFirst(purchased, q))
    ensures ReplaceFirst(available, q) == AvailableFrom(ReplaceFirst(library, q), ReplaceFirst(purchased, q))
  {
    EditKeepsAvailableDerived(library, purchased, q);
    ReplaceFirstKeepsIds(library, q);
    IdsOfReplaceFirst(library, q);
    IdsOfReplaceFirst(purchased, q);
  }

  /** With nothing bought, every library piece is available. */
  lemma NothingBoughtAllAvailable(library: seq<Piece>)
    ensures AvailableFrom(library, []) == library
  {
    assert IdsOf([]) == {};
    WithoutNoIds(library);
  }

  class TileLibrary {
    var nextId: int
    var pieceLibrary: seq<Piece>
    var purchasedPieces: seq<Piece>
    var availablePieces: seq<Piece>
    var editingPieceId: Option<int>

    ghost predicate Valid()
      reads this
    {
      && StoreConsistent(nextId, pieceLibrary, purchasedPieces)
      && availablePieces == AvailableFrom(pieceLibrary, purchasedPieces)
    }

    /** `if (editingPieceId)`: a piece is being edited (id 0 is falsy). */
    predicate Editing()
      reads this
    {
      editingPieceId.Some? && editingPieceId.value != 0
    }

    /** Page load: read the stored `nextId` (`parseInt(...) || 1`), library
        and purchases, give colourless pieces the default colour and derive
        the available list. */
    constructor Load(storedNextId: Option<string>, storedLibrary: seq<Piece>, storedPurchased: seq<Piece>)
      ensures nextId == OrDefault(ParseIntOpt(storedNextId), 1)
      ensures |pieceLibrary| == |storedLibrary|
      ensures forall i :: 0 <= i < |storedLibrary| ==> pieceLibrary[i] == WithDefaultColor(storedLibrary[i])
      ensures |purchasedPieces| == |storedPurchased|
      ensures forall i :: 0 <= i < |storedPurchased| ==> purchasedPieces[i] == WithDefaultColor(storedPurchased[i])
      ensures availablePieces == AvailableFrom(pieceLibrary, purchasedPieces)
      ensures editingPieceId == None
      ensures StoreConsistent(OrDefault(ParseIntOpt(storedNextId), 1), storedLibrary, storedPurchased) ==> Valid()
    {
      var library := ApplyDefaultColor(storedLibrary);
      var purchased := ApplyDefaultColor(storedPurchased);
      SameIdsSameStore(storedLibrary, library);
      SameIdsSameStore(storedPurchased, purchased);
      nextId, pieceLibrary, purchasedPieces := OrDefault(ParseIntOpt(storedNextId), 1), library, purchased;
      availablePieces, editingPieceId := AvailableFrom(library, purchased), None;
    }

    /** The Purchase button of the piece with id `id`. */
    method Purchase(id: int)
      modifies this
      ensures pieceLibrary == old(pieceLibrary) && nextId == old(nextId)
      ensures editingPieceId == old(editingPieceId)
      ensures var k := IndexOf(old(availablePieces), id);
              if k >= 0 then
                && purchasedPieces == old(purchasedPieces) + [old(availablePieces)[k]]
                && availablePieces == RemoveAt(old(availablePieces), k)
              else
                purchasedPieces == old(purchasedPieces) && availablePieces == old(availablePieces)
      ensures old(Valid()) ==> Valid()
    {
      if Valid() {
        PurchaseKeepsStore(nextId, pieceLibrary, purchasedPieces, availablePieces, id);
      }
      var index := IndexOf(availablePieces, id);
      if index >= 0 {
        purchasedPieces, availablePieces :=
          purchasedPieces + [availablePieces[index]], RemoveAt(availablePieces, index);
      }
    }

    /** The Delete button: the piece goes from the library, the available
        list and the purchases. */
    method Delete(id: int)
      modifies this
      ensures pieceLibrary == RemoveId(old(pieceLibrary), id)
      ensures availablePieces == RemoveId(old(availablePieces), id)
      ensures purchasedPieces == RemoveId(old(purchasedPieces), id)
      ensures nextId == old(nextId) && editingPieceId == old(editingPieceId)
      ensures old(Valid()) ==> Valid()
    {
      DeleteKeepsAvailableDerived(pieceLibrary, purchasedPieces, id);
      IdsOfRemoveId(pieceLibrary, id);
      IdsOfRemoveId(purchasedPieces, id);
      if Valid() {
        WithoutIdsKeepsDistinct(pieceLibrary, {id});
      }
      pieceLibrary := RemoveId(pieceLibrary, id);
      availablePieces := RemoveId(availablePieces, id);
      purchasedPieces := RemoveId(purchasedPieces, id);
    }

    /** The Edit button of the piece with id `id`: it is opened in the form. */
    method BeginEdit(id: int)
      modifies this
      ensures editingPieceId == Some(id)
      ensures nextId == old(nextId) && pieceLibrary == old(pieceLibrary)
      ensures purchasedPieces == old(purchasedPieces) && availablePieces == old(availablePieces)
    {
      editingPieceId := Some(id);
    }

    /** The Add Piece button, and likewise Cancel: the form edits no piece. */
    method StopEditing()
      modifies this
      ensures editingPieceId == None
      ensures nextId == old(nextId) && pieceLibrary == old(pieceLibrary)
      ensures purchasedPieces == old(purchasedPieces) && availablePieces == old(availablePieces)
    {
      editingPieceId := None;
    }

    /** The Save button, with the shape read off the drawing grid and the
        texts of the buttons, cost and time inputs and the colour input. */
    method Save(shape: seq<Cell>, buttonsText: string, costText: string, timeText: string, color: string)
      modifies this
      ensures editingPieceId == old(editingPieceId)
      ensures |shape| == 0 ==>
                && nextId == old(nextId) && pieceLibrary == old(pieceLibrary)
                && purchasedPieces == old(purchasedPieces) && availablePieces == old(availablePieces)
      ensures |shape| > 0 && old(Editing()) ==>
                var k := IndexOf(old(pieceLibrary), old(editingPieceId).value);
                && nextId == old(nextId)
                && (k < 0 ==>
                      && pieceLibrary == old(pieceLibrary)
                      && purchasedPieces == old(purchasedPieces)
                      && availablePieces == old(availablePieces))
                && (k >= 0 ==>
                      var q := old(pieceLibrary)[k].(shape := shape, buttons := FormNumber(buttonsText),
                                                     cost := FormNumber(costText), time := FormNumber(timeText),
                                                     color := color);
                      && pieceLibrary == old(pieceLibrary)[k := q]
                      && availablePieces == ReplaceFirst(old(availablePieces), q)
                      && purchasedPieces == ReplaceFirst(old(purchasedPieces), q))
      ensures |shape| > 0 && !old(Editing()) ==>
                var p := Piece(old(nextId), shape, FormNumber(buttonsText), FormNumber(costText),
                               FormNumber(timeText), color);
                && nextId == old(nextId) + 1
                && pieceLibrary == old(pieceLibrary) + [p]
                && availablePieces == old(availablePieces) + [p]
                && purchasedPieces == old(purchasedPieces)
      ensures old(Valid()) ==> Valid()
    {
      if |shape| == 0 {
        return;
      }
      if Editing() {
        var k := IndexOf(pieceLibrary, editingPieceId.value);
        if k >= 0 {
          var q := pieceLibrary[k].(shape := shape, buttons := FormNumber(buttonsText),
                                    cost := FormNumber(costText), time := FormNumber(timeText),
                                    color := color);
          MirrorEdit(k, q);
        }
      } else {
        var p := Piece(nextId, shape, FormNumber(buttonsText), FormNumber(costText),
                       FormNumber(timeText), color);
        AddNew(p);
      }
    }

    /** The edit branch of Save: the library entry at `k` becomes `q`, and
        `Object.assign` copies it onto the available and purchased entries
        with the same id. */
    method MirrorEdit(k: nat, q: Piece)
      requires k < |pieceLibrary| && k == IndexOf(pieceLibrary, q.id)
      modifies this
      ensures pieceLibrary == old(pieceLibrary)[k := q]
      ensures availablePieces == ReplaceFirst(old(availablePieces), q)
      ensures purchasedPieces == ReplaceFirst(old(purchasedPieces), q)
      ensures nextId == old(nextId) && editingPieceId == old(editingPieceId)
      ensures old(Valid()) ==> Valid()
    {
      if Valid() {
        EditKeepsStore(nextId, pieceLibrary, purchasedPieces, availablePieces, q);
      }
      ReplaceFirstAt(pieceLibrary, q);
      pieceLibrary := ReplaceFirst(pieceLibrary, q);
      availablePieces := ReplaceFirst(availablePieces, q);
      purchasedPieces := ReplaceFirst(purchasedPieces, q);
    }

    /** The create branch of Save: `p` takes id `nextId++` and is pushed onto
        the library and the available list. */
    method AddNew(p: Piece)
      requires p.id == nextId
      modifies this
      ensures nextId == old(nextId) + 1
      ensures pieceLibrary == old(pieceLibrary) + [p]
      ensures availablePieces == old(availablePieces) + [p]
      ensures purchasedPieces == old(purchasedPieces) && editingPieceId == old(editingPieceId)
      ensures old(Valid()) ==> Valid()
    {
      if Valid() {
        CreateKeepsStore(nextId, pieceLibrary, purchasedPieces, availablePieces, p);
      }
      nextId, pieceLibrary, availablePieces := nextId + 1, pieceLibrary + [p], availablePieces + [p];
    }

    /** The New Game button: nothing is bought, everything is available. */
    method NewGame()
      modifies this
      ensures purchasedPieces == [] && availablePieces == pieceLibrary
      ensures pieceLibrary == old(pieceLibrary) && nextId == old(nextId)
      ensures editingPieceId == old(editingPieceId)
      ensures availablePieces == AvailableFrom(pieceLibrary, purchasedPieces)
      ensures old(Valid()) ==> Valid()
    {
      NothingBoughtAllAvailable(pieceLibrary);
      purchasedPieces := [];
      availablePieces := pieceLibrary;
    }
  }

  /** Filling in colours touches no id, so it keeps stored data consistent. */
  lemma SameIdsSameStore(s: seq<Piece>, t: seq<Piece>)
    requires |s| == |t|
    requires forall i :: 0 <= i < |s| ==> t[i].id == s[i].id
    ensures IdsOf(t) == IdsOf(s)
    ensures DistinctIds(s) ==> DistinctIds(t)
  {
    forall i | i in IdsOf(s) ensures i in IdsOf(t) {
      var j :| 0 <= j < |s| && s[j].id == i;
      assert t[j] in t;
    }
    forall i | i in IdsOf(t) ensures i in IdsOf(s) {
      var j :| 0 <= j < |t| && t[j].id == i;
      assert s[j] in s;
    }
  }
}
