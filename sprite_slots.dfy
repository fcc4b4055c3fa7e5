/** The mapping from on-screen records to hardware slots built by
    _rebuild_handles, and the pending commit range of _update_handles and
    commit. */
module SpriteSlots {
  import opened Wrappers
  import opened SpriteItems

  /** The attributes of the on-screen records, in traversal order: what the
      first slots of the hardware table show after a rebuild. */
  function Visible(s: seq<Item>): (v: seq<Attributes>)
    ensures |v| <= |s|
  {
    if |s| == 0 then []
    else Visible(s[..|s| - 1]) + (if s[|s| - 1].onScreen then [s[|s| - 1].attrs] else [])
  }

  lemma {:induction false} VisibleConcat(a: seq<Item>, b: seq<Item>)
    ensures Visible(a + b) == Visible(a) + Visible(b)
    decreases |b|
  {
    if |b| == 0 {
      assert a + b == a;
    } else {
      var n := |b| - 1;
      assert (a + b)[..|a + b| - 1] == a + b[..n];
      VisibleConcat(a, b[..n]);
    }
  }

  /** The on-screen attributes of a prefix are a prefix of the on-screen
      attributes. */
  lemma {:induction false} VisiblePrefix(s: seq<Item>, k: nat)
    requires k <= |s|
    ensures |Visible(s[..k])| <= |Visible(s)| && Visible(s[..k]) == Visible(s)[..|Visible(s[..k])|]
  {
    assert s == s[..k] + s[k..];
    VisibleConcat(s[..k], s[k..]);
  }

  /** One more record of a prefix adds its attributes when it is on screen. */
  lemma {:induction false} VisibleStep(s: seq<Item>, k: nat)
    requires k < |s|
    ensures Visible(s[..k + 1]) == Visible(s[..k]) + (if s[k].onScreen then [s[k].attrs] else [])
    ensures |Visible(s[..k + 1])| <= |Visible(s)|
  {
    assert s[..k + 1][..k] == s[..k];
    VisiblePrefix(s, k + 1);
  }

  lemma VisibleSingle(x: Item)
    ensures Visible([x]) == if x.onScreen then [x.attrs] else []
  {
    assert [x][..0] == [];
  }

  /** The slot a rebuild gives record i: the number of on-screen records
      before it, or -1 when it is off screen. */
  function SlotOf(s: seq<Item>, i: nat): int
    requires i < |s|
  {
    if s[i].onScreen then |Visible(s[..i])| else -1
  }

  /** Every record holds the slot a rebuild gives it. */
  predicate Indexed(s: seq<Item>) {
    forall i :: 0 <= i < |s| ==> s[i].handlesIndex == SlotOf(s, i)
  }

  /** No two records hold the same slot. */
  predicate DistinctSlots(s: seq<Item>) {
    forall i, j :: 0 <= i < |s| && 0 <= j < |s| && i != j && s[i].handlesIndex >= 0 ==>
                   s[i].handlesIndex != s[j].handlesIndex
  }

  /** The slot of an on-screen record shows its attributes. */
  lemma {:induction false} VisibleAt(s: seq<Item>, i: nat)
    requires i < |s| && s[i].onScreen
    ensures |Visible(s[..i])| < |Visible(s)| && Visible(s)[|Visible(s[..i])|] == s[i].attrs
  {
    assert s == s[..i] + [s[i]] + s[i + 1..];
    VisibleConcat(s[..i] + [s[i]], s[i + 1..]);
    VisibleConcat(s[..i], [s[i]]);
    VisibleSingle(s[i]);
  }

  /** An on-screen record is counted before every later record. */
  lemma {:induction false} PrefixCountGrows(s: seq<Item>, i: nat, j: nat)
    requires i < j <= |s| && s[i].onScreen
    ensures |Visible(s[..i])| < |Visible(s[..j])|
  {
    assert s[..j] == s[..i] + [s[i]] + s[i + 1..j];
    VisibleConcat(s[..i] + [s[i]], s[i + 1..j]);
    VisibleConcat(s[..i], [s[i]]);
    VisibleSingle(s[i]);
  }

  /** Every slot below the on-screen count belongs to some on-screen record. */
  lemma {:induction false} SlotsCovered(s: seq<Item>, v: int)
    requires 0 <= v < |Visible(s)|
    ensures exists i :: 0 <= i < |s| && s[i].onScreen && |Visible(s[..i])| == v
    decreases |s|
  {
    var n := |s| - 1;
    var t := s[..n];
    if v < |Visible(t)| {
      SlotsCovered(t, v);
      var i :| 0 <= i < |t| && t[i].onScreen && |Visible(t[..i])| == v;
      assert t[..i] == s[..i] && t[i] == s[i];
    } else {
      assert s[n].onScreen && |Visible(s[..n])| == v;
    }
  }

  /** Some on-screen record holds slot v. */
  predicate SlotTaken(s: seq<Item>, v: int) {
    exists i :: 0 <= i < |s| && s[i].onScreen && s[i].handlesIndex == v
  }

  /** The slots of an indexed sequence are exactly 0 .. n-1 for the n on-screen
      records, in traversal order, and -1 for every other record. */
  lemma {:induction false} IndexedSlotsAreDense(s: seq<Item>)
    requires Indexed(s)
    ensures forall i :: 0 <= i < |s| && s[i].onScreen ==> 0 <= s[i].handlesIndex < |Visible(s)|
    ensures forall i :: 0 <= i < |s| && !s[i].onScreen ==> s[i].handlesIndex == -1
    ensures forall i, j :: 0 <= i < j < |s| && s[i].onScreen && s[j].onScreen ==>
                           s[i].handlesIndex < s[j].handlesIndex
    ensures forall v :: 0 <= v < |Visible(s)| ==> SlotTaken(s, v)
    ensures DistinctSlots(s)
  {
    forall i | 0 <= i < |s| && s[i].onScreen
      ensures 0 <= s[i].handlesIndex < |Visible(s)|
    {
      VisibleAt(s, i);
    }
    forall i, j | 0 <= i < j < |s| && s[i].onScreen && s[j].onScreen
      ensures s[i].handlesIndex < s[j].handlesIndex
    {
      PrefixCountGrows(s, i, j);
    }
    forall v | 0 <= v < |Visible(s)|
      ensures SlotTaken(s, v)
    {
      SlotsCovered(s, v);
    }
  }

  /** Records that agree on what is on screen show the same attributes. */
  predicate SameScreen(a: seq<Item>, b: seq<Item>) {
    |a| == |b| &&
    forall i :: 0 <= i < |a| ==> a[i].onScreen == b[i].onScreen && (a[i].onScreen ==> a[i].attrs == b[i].attrs)
  }

  lemma {:induction false} SameScreenSameVisible(a: seq<Item>, b: seq<Item>)
    requires SameScreen(a, b)
    ensures Visible(a) == Visible(b)
    decreases |a|
  {
    if |a| > 0 {
      var n := |a| - 1;
      assert SameScreen(a[..n], b[..n]);
      SameScreenSameVisible(a[..n], b[..n]);
    }
  }

  /** Records that agree on what is on screen and on their slots are indexed
      together. */
  lemma {:induction false} SameScreenKeepsIndexed(a: seq<Item>, b: seq<Item>)
    requires SameScreen(a, b) && Indexed(a)
    requires forall i :: 0 <= i < |a| ==> a[i].handlesIndex == b[i].handlesIndex
    ensures Indexed(b) && Visible(a) == Visible(b)
  {
    forall i | 0 <= i < |b|
      ensures b[i].handlesIndex == SlotOf(b, i)
    {
      assert SameScreen(a[..i], b[..i]);
      SameScreenSameVisible(a[..i], b[..i]);
    }
    SameScreenSameVisible(a, b);
  }

  /** Changing the attributes of one on-screen record changes its entry only. */
  lemma {:induction false} VisibleUpdate(s: seq<Item>, k: nat, x: Item)
    requires k < |s| && s[k].onScreen && x.onScreen
    ensures |Visible(s[..k])| < |Visible(s)|
    ensures Visible(s[k := x]) == Visible(s)[|Visible(s[..k])| := x.attrs]
  {
    assert s == s[..k] + [s[k]] + s[k + 1..];
    assert s[k := x] == s[..k] + [x] + s[k + 1..];
    ReplaceOnScreen(s[..k], s[k], x, s[k + 1..]);
  }

  lemma {:induction false} ReplaceOnScreen(a: seq<Item>, y: Item, x: Item, c: seq<Item>)
    requires y.onScreen && x.onScreen
    ensures |Visible(a)| < |Visible(a + [y] + c)|
    ensures Visible(a + [x] + c) == Visible(a + [y] + c)[|Visible(a)| := x.attrs]
  {
    VisibleConcat(a + [y], c);
    VisibleConcat(a, [y]);
    VisibleConcat(a + [x], c);
    VisibleConcat(a, [x]);
    VisibleSingle(x);
    VisibleSingle(y);
    var va, vc := Visible(a), Visible(c);
    assert (va + [y.attrs] + vc)[|va| := x.attrs] == va + [x.attrs] + vc;
  }

  /** An off-screen record adds no entry wherever it stands. */
  lemma {:induction false} SkipOffScreen(a: seq<Item>, x: Item, c: seq<Item>)
    requires !x.onScreen
    ensures Visible(a + [x] + c) == Visible(a + c)
  {
    VisibleSingle(x);
    VisibleConcat(a + [x], c);
    VisibleConcat(a, [x]);
    VisibleConcat(a, c);
    assert a + [x] == a + [x] + [];
  }

  /** An edited on-screen record keeps every record's slot. */
  lemma {:induction false} UpdateKeepsIndexed(s: seq<Item>, k: nat, x: Item)
    requires k < |s| && Indexed(s)
    requires x.onScreen == s[k].onScreen && x.handlesIndex == s[k].handlesIndex
    ensures Indexed(s[k := x])
  {
    var t := s[k := x];
    forall i | 0 <= i < |t|
      ensures t[i].handlesIndex == SlotOf(t, i)
    {
      if i <= k {
        assert t[..i] == s[..i];
      } else {
        assert t[..i] == s[..i][k := x];
        if x.onScreen {
          VisibleUpdate(s[..i], k, x);
        } else {
          assert SameScreen(s[..i], t[..i]);
          SameScreenSameVisible(s[..i], t[..i]);
        }
      }
    }
  }

  /** An off-screen record placed anywhere changes no slot and no entry. */
  lemma {:induction false} InsertOffScreenKeepsIndexed(a: seq<Item>, x: Item, b: seq<Item>)
    requires Indexed(a + b) && !x.onScreen && x.handlesIndex == -1
    ensures Indexed(a + [x] + b) && Visible(a + [x] + b) == Visible(a + b)
  {
    var s, t := a + b, a + [x] + b;
    VisibleSingle(x);
    forall i | 0 <= i < |t|
      ensures t[i].handlesIndex == SlotOf(t, i)
    {
      if i < |a| {
        assert t[..i] == s[..i] && t[i] == s[i];
      } else if i > |a| {
        assert t[..i] == a + [x] + s[|a|..i - 1] && t[i] == s[i - 1];
        assert s[..i - 1] == a + s[|a|..i - 1];
        SkipOffScreen(a, x, s[|a|..i - 1]);
      }
    }
    SkipOffScreen(a, x, b);
  }

  /** Taking an off-screen record out changes no slot and no entry. */
  lemma {:induction false} RemoveOffScreenKeepsIndexed(a: seq<Item>, x: Item, b: seq<Item>)
    requires Indexed(a + [x] + b) && !x.onScreen
    ensures Indexed(a + b) && Visible(a + b) == Visible(a + [x] + b)
  {
    var s, t := a + b, a + [x] + b;
    VisibleSingle(x);
    forall i | 0 <= i < |s|
      ensures s[i].handlesIndex == SlotOf(s, i)
    {
      if i < |a| {
        assert t[..i] == s[..i] && t[i] == s[i];
      } else {
        assert t[..i + 1] == a + [x] + s[|a|..i] && t[i + 1] == s[i];
        assert s[..i] == a + s[|a|..i];
        SkipOffScreen(a, x, s[|a|..i]);
      }
    }
    SkipOffScreen(a, x, b);
  }

  /** The slot a rebuild gives every record (the first loop of _rebuild_handles). */
  function Reindexed(s: seq<Item>): (r: seq<Item>)
    ensures |r| == |s|
    ensures forall i :: 0 <= i < |s| ==> r[i] == s[i].(handlesIndex := SlotOf(s, i))
  {
    seq(|s|, i requires 0 <= i < |s| => s[i].(handlesIndex := SlotOf(s, i)))
  }

  /** After a rebuild every record holds its slot, and the shown attributes
      are those of the on-screen records. */
  lemma {:induction false} ReindexedIsIndexed(s: seq<Item>)
    ensures Indexed(Reindexed(s)) && Visible(Reindexed(s)) == Visible(s)
  {
    var r := Reindexed(s);
    forall i | 0 <= i < |r|
      ensures r[i].handlesIndex == SlotOf(r, i)
    {
      assert SameScreen(s[..i], r[..i]);
      SameScreenSameVisible(s[..i], r[..i]);
    }
    assert SameScreen(s, r);
    SameScreenSameVisible(s, r);
  }

  /** Scenario: releasing the on-screen record at k of an indexed sequence
      moves every later on-screen record down by one slot at the next rebuild. */
  lemma {:induction false} RemovingOnScreenCompactsSlots(a: seq<Item>, x: Item, b: seq<Item>, j: nat)
    requires x.onScreen && j < |b| && b[j].onScreen
    ensures SlotOf(a + b, |a| + j) == SlotOf(a + [x] + b, |a| + 1 + j) - 1
  {
    var s, t := a + b, a + [x] + b;
    assert s[..|a| + j] == a + b[..j];
    assert t[..|a| + 1 + j] == a + [x] + b[..j];
    assert s[|a| + j] == b[j] && t[|a| + 1 + j] == b[j];
    VisibleConcat(a, b[..j]);
    VisibleConcat(a + [x], b[..j]);
    VisibleConcat(a, [x]);
    VisibleSingle(x);
  }

  /** The pending commit range [first, last] of the hardware table;
      `first == HwSpritesCount` means nothing is pending. */
  datatype Pending = Pending(first: int, last: int)

  const NoPending: Pending := Pending(HwSpritesCount, 0)

  predicate PendingValid(p: Pending) {
    0 <= p.first <= HwSpritesCount && 0 <= p.last < HwSpritesCount &&
    (p.first < HwSpritesCount ==> p.first <= p.last) &&
    (p.first == HwSpritesCount ==> p.last == 0)
  }

  predicate Covers(p: Pending, v: int) {
    p.first <= v <= p.last
  }

  /** The range after _update_handles marks slot `index`: the smallest range
      holding the old one and that slot; a record without a slot (-1) leaves
      it unchanged. */
  function Mark(p: Pending, index: int): (r: Pending)
    ensures index < 0 ==> r == p
    ensures PendingValid(p) && index < HwSpritesCount ==> PendingValid(r)
    ensures index >= 0 ==> Covers(r, index) && forall v :: Covers(p, v) ==> Covers(r, v)
    ensures index >= 0 ==> (r.first == index || r.first == p.first) && (r.last == index || r.last == p.last)
  {
    if index >= 0 then Pending(Min(p.first, index), Max(p.last, index)) else p
  }

  /** Marking is order-independent and idempotent, so a sequence of edits
      leaves the same range whatever their order. */
  lemma MarkCommutes(p: Pending, i: int, j: int)
    ensures Mark(Mark(p, i), j) == Mark(Mark(p, j), i)
    ensures Mark(Mark(p, i), i) == Mark(p, i)
  {
  }
}
