/**
 * Pieces (tiles) and the list operations the pages apply to lists of them:
 * `filter` by id, `findIndex`/`find` by id, `splice(index, 1)`, and the
 * in-place `Object.assign` onto the first entry with a given id.
 */
module Pieces {
  import opened JsNumber
  import opened Shapes

  /** The colour given to pieces that have none. */
  const DefaultColor := "#4caf50"

  /** A piece record. A missing `color` property is the empty string: both
      are falsy to `!p.color` and to `p.color || ...`. */
  datatype Piece = Piece(id: int, shape: seq<Cell>, buttons: int, cost: int, time: int, color: string)

  /** A number field of the piece form: `parseInt(input.value, 10) || 0`. */
  function FormNumber(text: string): (n: int)
    ensures ParseInt(text).None? ==> n == 0
    ensures ParseInt(text).Some? ==> n == ParseInt(text).value
  {
    OrDefault(ParseInt(text), 0)
  }

  function IdsOf(s: seq<Piece>): set<int> {
    set p | p in s :: p.id
  }

  predicate DistinctIds(s: seq<Piece>) {
    forall i, j :: 0 <= i < j < |s| ==> s[i].id != s[j].id
  }

  /** `a` is `b` with some entries dropped, the rest in their order. */
  predicate Subseq<T(==)>(a: seq<T>, b: seq<T>)
    decreases |b|
  {
    a == [] || (b != [] && if a[0] == b[0] then Subseq(a[1..], b[1..]) else Subseq(a, b[1..]))
  }

  /** `s.filter(p => !ids.has(p.id))`. */
  function WithoutIds(s: seq<Piece>, ids: set<int>): seq<Piece> {
    if s == [] then []
    else if s[0].id in ids then WithoutIds(s[1..], ids)
    else [s[0]] + WithoutIds(s[1..], ids)
  }

  /** The filter drops every entry whose id is in `ids` and keeps every other
      entry, as often as it was there and in its order. */
  lemma {:induction false} WithoutIdsKeepsOthers(s: seq<Piece>, ids: set<int>)
    ensures var r := WithoutIds(s, ids);
            && Subseq(r, s)
            && (forall p :: p in r <==> p in s && p.id !in ids)
            && (forall p: Piece :: p.id !in ids ==> multiset(r)[p] == multiset(s)[p])
  {
    if s != [] {
      WithoutIdsKeepsOthers(s[1..], ids);
      var rest := WithoutIds(s[1..], ids);
      assert s == [s[0]] + s[1..];
      if s[0].id in ids {
        assert rest == [] || rest[0] != s[0];
      }
    }
  }

  /** `s.filter(p => p.id !== id)`. */
  function RemoveId(s: seq<Piece>, id: int): (r: seq<Piece>)
    ensures forall p :: p in r <==> p in s && p.id != id
  {
    WithoutIdsKeepsOthers(s, {id});
    WithoutIds(s, {id})
  }

  /** `s.findIndex(p => p.id === id)`: the first position holding `id`, or -1. */
  function IndexOf(s: seq<Piece>, id: int): (k: int)
    ensures -1 <= k < |s|
    ensures k >= 0 ==> s[k].id == id
    ensures forall j :: 0 <= j < |s| && (k < 0 || j < k) ==> s[j].id != id
  {
    if s == [] then -1
    else if s[0].id == id then 0
    else
      var k := IndexOf(s[1..], id);
      if k < 0 then -1 else k + 1
  }

  /** `s.splice(k, 1)`. */
  function RemoveAt(s: seq<Piece>, k: nat): (r: seq<Piece>)
    requires k < |s|
    ensures |r| == |s| - 1
    ensures multiset(r) == multiset(s) - multiset{s[k]}
    ensures forall j :: 0 <= j < |r| ==> r[j] == if j < k then s[j] else s[j + 1]
  {
    assert s == s[..k] + [s[k]] + s[k + 1..];
    s[..k] + s[k + 1..]
  }

  /** `Object.assign(s.find(p => p.id === q.id), q)` on records: the first
      entry carrying `q`'s id becomes `q`; nothing else changes. */
  function ReplaceFirst(s: seq<Piece>, q: Piece): (r: seq<Piece>)
    ensures |r| == |s|
    ensures forall j :: 0 <= j < |s| ==> r[j] == if j == IndexOf(s, q.id) then q else s[j]
  {
    if s == [] then []
    else if s[0].id == q.id then [q] + s[1..]
    else [s[0]] + ReplaceFirst(s[1..], q)
  }

  /** Overwriting the first entry of `q`'s id changes no id at any position. */
  lemma ReplaceFirstKeepsIds(s: seq<Piece>, q: Piece)
    ensures forall j :: 0 <= j < |s| ==> ReplaceFirst(s, q)[j].id == s[j].id
  {
  }

  /** When `q`'s id is present, the overwrite is an update at its index. */
  lemma ReplaceFirstAt(s: seq<Piece>, q: Piece)
    requires IndexOf(s, q.id) >= 0
    ensures ReplaceFirst(s, q) == s[IndexOf(s, q.id) := q]
  {
  }

  lemma IdsOfReplaceFirst(s: seq<Piece>, q: Piece)
    ensures IdsOf(ReplaceFirst(s, q)) == IdsOf(s)
  {
    var r := ReplaceFirst(s, q);
    ReplaceFirstKeepsIds(s, q);
    forall i | i in IdsOf(r) ensures i in IdsOf(s) {
      var j :| 0 <= j < |r| && r[j].id == i;
      assert s[j] in s;
    }
    forall i | i in IdsOf(s) ensures i in IdsOf(r) {
      var j :| 0 <= j < |s| && s[j].id == i;
      assert r[j] in r;
    }
  }

  lemma IdsOfAppend(s: seq<Piece>, p: Piece)
    ensures IdsOf(s + [p]) == IdsOf(s) + {p.id}
  {
    assert p in s + [p];
    forall i | i in IdsOf(s) ensures i in IdsOf(s + [p]) {
      var x :| x in s && x.id == i;
      assert x in s + [p];
    }
  }

  lemma IdsOfRemoveId(s: seq<Piece>, id: int)
    ensures IdsOf(RemoveId(s, id)) == IdsOf(s) - {id}
  {
    var r := RemoveId(s, id);
    WithoutIdsKeepsOthers(s, {id});
    forall i | i in IdsOf(s) - {id} ensures i in IdsOf(r) {
      var p :| p in s && p.id == i;
      assert p in r;
    }
  }

  lemma {:induction false} WithoutNoIds(s: seq<Piece>)
    ensures WithoutIds(s, {}) == s
  {
    if s != [] {
      WithoutNoIds(s[1..]);
      assert s == [s[0]] + s[1..];
    }
  }

  lemma {:induction false} WithoutIdsTwice(s: seq<Piece>, a: set<int>, b: set<int>)
    ensures WithoutIds(WithoutIds(s, a), b) == WithoutIds(s, a + b)
  {
    if s != [] {
      WithoutIdsTwice(s[1..], a, b);
    }
  }

  lemma {:induction false} WithoutIdsAppend(s: seq<Piece>, t: seq<Piece>, ids: set<int>)
    ensures WithoutIds(s + t, ids) == WithoutIds(s, ids) + WithoutIds(t, ids)
  {
    if s == [] {
      assert s + t == t;
    } else {
      assert (s + t)[1..] == s[1..] + t;
      WithoutIdsAppend(s[1..], t, ids);
    }
  }

  lemma {:induction false} WithoutIdsKeepsDistinct(s: seq<Piece>, ids: set<int>)
    requires DistinctIds(s)
    ensures DistinctIds(WithoutIds(s, ids))
  {
    if s != [] {
      WithoutIdsKeepsDistinct(s[1..], ids);
      var rest := WithoutIds(s[1..], ids);
      WithoutIdsKeepsOthers(s[1..], ids);
      if s[0].id !in ids {
        forall p | p in rest ensures p.id != s[0].id {
          var j :| 0 <= j < |s[1..]| && s[1..][j] == p;
          assert s[j + 1] == p;
        }
      }
    }
  }

  /** On a list with distinct ids, filtering an id out is the splice at its
      `findIndex` position. */
  lemma {:induction false} RemoveIdIsRemoveAt(s: seq<Piece>, id: int)
    requires DistinctIds(s)
    ensures var k := IndexOf(s, id);
            RemoveId(s, id) == if k < 0 then s else RemoveAt(s, k)
  {
    if s != [] {
      if s[0].id == id {
        RemoveIdAtHead(s, id);
      } else {
        assert DistinctIds(s[1..]);
        RemoveIdIsRemoveAt(s[1..], id);
        RemoveIdPastHead(s, id);
      }
    }
  }

  lemma RemoveIdPastHead(s: seq<Piece>, id: int)
    requires s != [] && s[0].id != id
    requires var k := IndexOf(s[1..], id);
             RemoveId(s[1..], id) == if k < 0 then s[1..] else RemoveAt(s[1..], k)
    ensures var k := IndexOf(s, id);
            RemoveId(s, id) == if k < 0 then s else RemoveAt(s, k)
  {
    var k := IndexOf(s, id);
    assert RemoveId(s, id) == [s[0]] + RemoveId(s[1..], id);
    if k >= 0 {
      RemoveAtPastHead(s, k);
    } else {
      assert s == [s[0]] + s[1..];
    }
  }

  lemma RemoveAtPastHead(s: seq<Piece>, k: nat)
    requires 0 < k < |s|
    ensures RemoveAt(s, k) == [s[0]] + RemoveAt(s[1..], k - 1)
  {
    var t := s[1..];
    assert s[..k] == [s[0]] + t[..k - 1];
    assert s[k + 1..] == t[k..];
  }

  lemma RemoveIdAtHead(s: seq<Piece>, id: int)
    requires DistinctIds(s) && s != [] && s[0].id == id
    ensures RemoveId(s, id) == s[1..] == RemoveAt(s, 0)
  {
    forall p | p in s[1..] ensures p.id != id {
      var j :| 0 <= j < |s[1..]| && s[1..][j] == p;
      assert s[j + 1] == p;
    }
    RemoveIdAbsent(s[1..], id);
  }

  lemma {:induction false} RemoveIdAbsent(s: seq<Piece>, id: int)
    requires forall p :: p in s ==> p.id != id
    ensures RemoveId(s, id) == s
  {
    if s != [] {
      RemoveIdAbsent(s[1..], id);
      assert s == [s[0]] + s[1..];
    }
  }

  /** Filtering commutes with overwriting the first entry of an id. */
  lemma {:induction false} WithoutIdsReplaceFirst(s: seq<Piece>, q: Piece, ids: set<int>)
    ensures WithoutIds(ReplaceFirst(s, q), ids) == ReplaceFirst(WithoutIds(s, ids), q)
  {
    if s != [] {
      if s[0].id == q.id {
        assert ReplaceFirst(s, q)[1..] == s[1..];
        if q.id in ids {
          WithoutIdsKeepsOthers(s[1..], ids);
          ReplaceFirstAbsent(WithoutIds(s[1..], ids), q);
        }
      } else {
        assert ReplaceFirst(s, q)[1..] == ReplaceFirst(s[1..], q);
        WithoutIdsReplaceFirst(s[1..], q, ids);
      }
    }
  }

  lemma ReplaceFirstAbsent(s: seq<Piece>, q: Piece)
    requires forall p :: p in s ==> p.id != q.id
    ensures ReplaceFirst(s, q) == s
  {
  }
}
