/** The ordering contract of sorted_sprites: live sprite records kept in one
    sequence in draw order, by bg priority and then z order, records with equal
    keys in insertion order. `layers()` traversal is the sequence order. */
module SortedSprites {
  import opened SpriteItems

  predicate Sorted(s: seq<Item>) {
    forall i, j :: 0 <= i < j < |s| ==> KeyLe(s[i].key, s[j].key)
  }

  predicate UniqueIds(s: seq<Item>) {
    forall i, j :: 0 <= i < |s| && 0 <= j < |s| && i != j ==> s[i].id != s[j].id
  }

  predicate Contains(s: seq<Item>, id: nat) {
    exists i :: 0 <= i < |s| && s[i].id == id
  }

  /** Where a record with this key goes: after every record whose key is not
      greater, before the first greater one. */
  function InsertPos(s: seq<Item>, key: SortKey): (p: nat)
    ensures p <= |s|
    ensures forall i :: 0 <= i < p ==> KeyLe(s[i].key, key)
    ensures Sorted(s) ==> forall i :: p <= i < |s| ==> !KeyLe(s[i].key, key)
  {
    if |s| == 0 || !KeyLe(s[0].key, key) then 0
    else
      var p := 1 + InsertPos(s[1..], key);
      assert forall i :: 1 <= i < |s| ==> s[1..][i - 1] == s[i];
      p
  }

  /** sorted_sprites::insert */
  function Insert(s: seq<Item>, item: Item): (r: seq<Item>)
    ensures |r| == |s| + 1
    ensures var p := InsertPos(s, item.key);
            r[p] == item &&
            (forall i :: 0 <= i < p ==> r[i] == s[i]) &&
            (forall i :: p < i < |r| ==> r[i] == s[i - 1])
    ensures multiset(r) == multiset(s) + multiset{item}
    ensures Sorted(s) ==> Sorted(r)
  {
    var p := InsertPos(s, item.key);
    SpliceHolds(s, item, p);
    if Sorted(s) then SpliceKeepsOrder(s, item, p); s[..p] + [item] + s[p..] else s[..p] + [item] + s[p..]
  }

  /** Placing a record at index p shifts the records from p on by one. */
  lemma {:induction false} SpliceHolds(s: seq<Item>, item: Item, p: nat)
    requires p <= |s|
    ensures var r := s[..p] + [item] + s[p..];
            |r| == |s| + 1 && r[p] == item &&
            (forall i :: 0 <= i < p ==> r[i] == s[i]) &&
            (forall i :: p < i < |r| ==> r[i] == s[i - 1]) &&
            multiset(r) == multiset(s) + multiset{item}
  {
    assert s == s[..p] + s[p..];
  }

  /** A record placed after every record whose key is not greater and
      before the greater ones keeps the sequence sorted. */
  lemma {:induction false} SpliceKeepsOrder(s: seq<Item>, item: Item, p: nat)
    requires Sorted(s) && p <= |s|
    requires forall i :: 0 <= i < p ==> KeyLe(s[i].key, item.key)
    requires forall i :: p <= i < |s| ==> !KeyLe(s[i].key, item.key)
    ensures Sorted(s[..p] + [item] + s[p..])
  {
    var r := s[..p] + [item] + s[p..];
    forall i, j | 0 <= i < j < |r|
      ensures KeyLe(r[i].key, r[j].key)
    {
      var si := if i < p then i else i - 1;
      var sj := if j < p then j else j - 1;
      if j == p {
        assert r[i] == s[i];
      } else if i == p {
        assert r[j] == s[sj] && !KeyLe(s[sj].key, item.key);
      } else {
        assert r[i] == s[si] && r[j] == s[sj] && si < sj;
      }
    }
  }

  /** sorted_sprites::erase of the record at index k. */
  function RemoveAt(s: seq<Item>, k: nat): (r: seq<Item>)
    requires k < |s|
    ensures |r| == |s| - 1
    ensures forall i :: 0 <= i < |r| ==> r[i] == (if i < k then s[i] else s[i + 1])
    ensures multiset(r) == multiset(s) - multiset{s[k]}
    ensures Sorted(s) ==> Sorted(r)
  {
    var r := s[..k] + s[k + 1..];
    assert s == s[..k] + [s[k]] + s[k + 1..];
    r
  }

  /** The index of the live record with this id. */
  function IndexOf(s: seq<Item>, id: nat): (k: nat)
    requires Contains(s, id)
    ensures k < |s| && s[k].id == id
  {
    if s[0].id == id then 0
    else
      assert Contains(s[1..], id) by {
        var i :| 0 <= i < |s| && s[i].id == id;
        assert s[1..][i - 1] == s[i];
      }
      1 + IndexOf(s[1..], id)
  }

  /** With unique ids the record of an id is the only one at its index. */
  lemma IndexOfIsUnique(s: seq<Item>, id: nat, i: int)
    requires UniqueIds(s) && 0 <= i < |s| && s[i].id == id
    ensures IndexOf(s, id) == i
  {
  }

  /** Replacing a record by one with the same key and id keeps the sequence
      sorted and its ids unique. */
  lemma {:induction false} UpdateKeepsOrder(s: seq<Item>, k: nat, item: Item)
    requires k < |s| && item.key == s[k].key && item.id == s[k].id
    ensures Sorted(s) ==> Sorted(s[k := item])
    ensures UniqueIds(s) ==> UniqueIds(s[k := item])
  {
    var r := s[k := item];
    assert forall i :: 0 <= i < |r| ==> r[i].key == s[i].key && r[i].id == s[i].id;
  }

  /** Inserting a record with a fresh id keeps ids unique. */
  lemma {:induction false} InsertKeepsIdsUnique(s: seq<Item>, item: Item)
    requires UniqueIds(s) && !Contains(s, item.id)
    ensures UniqueIds(Insert(s, item))
    ensures Contains(Insert(s, item), item.id)
  {
    var r := Insert(s, item);
    var p := InsertPos(s, item.key);
    forall i, j | 0 <= i < |r| && 0 <= j < |r| && i != j
      ensures r[i].id != r[j].id
    {
      var si := if i < p then i else i - 1;
      var sj := if j < p then j else j - 1;
      if i != p && j != p {
        assert r[i] == s[si] && r[j] == s[sj] && si != sj;
      } else if i == p {
        assert r[j] == s[sj];
      } else {
        assert r[i] == s[si];
      }
    }
    assert r[p].id == item.id;
  }

  /** Erasing keeps ids unique and removes exactly the erased id. */
  lemma {:induction false} RemoveAtKeepsIdsUnique(s: seq<Item>, k: nat)
    requires UniqueIds(s) && k < |s|
    ensures UniqueIds(RemoveAt(s, k))
    ensures !Contains(RemoveAt(s, k), s[k].id)
    ensures forall id :: Contains(RemoveAt(s, k), id) ==> Contains(s, id)
  {
    var r := RemoveAt(s, k);
    assert forall i :: 0 <= i < |r| ==> r[i] == s[if i < k then i else i + 1];
  }

  /** Draw-order keys form a total preorder. */
  lemma KeyLeIsTotalPreorder(a: SortKey, b: SortKey, c: SortKey)
    ensures KeyLe(a, a)
    ensures KeyLe(a, b) || KeyLe(b, a)
    ensures KeyLe(a, b) && KeyLe(b, c) ==> KeyLe(a, c)
    ensures KeyLe(a, b) && KeyLe(b, a) ==> a == b
  {
  }

  /** Equal keys keep insertion order: a record inserted after an equal one
      is traversed after it. */
  lemma {:induction false} EqualKeysKeepInsertionOrder(s: seq<Item>, k: nat, item: Item)
    requires Sorted(s) && k < |s| && s[k].key == item.key
    ensures var r := Insert(s, item);
            r[k] == s[k] && r[InsertPos(s, item.key)] == item && k < InsertPos(s, item.key)
  {
    assert KeyLe(s[k].key, item.key);
  }

  /** Scenario: records created with priorities 1, 0, 2 and z orders 5, 5, 1
      are traversed by priority. */
  lemma {:induction false} ThreeRecordsScenario(a: Item, b: Item, c: Item)
    requires a.key == SortKey(1, 5) && b.key == SortKey(0, 5) && c.key == SortKey(2, 1)
    ensures Insert(Insert(Insert([], a), b), c) == [b, a, c]
  {
    assert Insert([], a) == [a];
    assert InsertPos([a], b.key) == 0;
    assert Insert([a], b) == [b, a];
    assert InsertPos([b, a], c.key) == 2;
  }
}
