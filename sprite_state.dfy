/** The whole state of the sprite manager (static_data plus the sorted record
    sequence and the hardware table it feeds) as a value, every operation as a
    transition function on it, and the invariants each transition keeps. */
module SpriteState {
  import opened Wrappers
  import opened FixedPoints
  import opened SpriteItems
  import opened SortedSprites
  import opened SpriteSlots

  /** One hw::sprites::commit: `count` entries copied from slot `first`. */
  datatype Transfer = Transfer(first: int, count: int)

  /** What sprite_affine_mats_manager::retrieve_commit_data reports: a range
      of affine matrices, in matrix units. */
  datatype CommitData = CommitData(offset: int, count: int)

  /** items: the sorted records; handles: the manager's copy of the hardware
      table; hw: the table the hardware shows; transfers: every commit issued. */
  datatype State = State(
    items: seq<Item>, handles: seq<Slot>, hw: seq<Slot>, transfers: seq<Transfer>,
    pending: Pending, lastVisible: int, check: bool, rebuild: bool,
    poolCount: nat, nextId: nat)

  predicate ItemValid(item: Item, lastVisible: int, zOrders: int) {
    item.usages >= 1 && -1 <= item.handlesIndex < lastVisible &&
    0 <= item.key.bgPriority <= MaxBgPriority && 0 <= item.key.zOrder < zOrders &&
    item.attrs.bgPriority == item.key.bgPriority && VisibilityConsistent(item)
  }

  /** What holds between any two operations. */
  predicate Consistent(s: State, maxItems: nat, zOrders: int) {
    |s.handles| == HwSpritesCount && |s.hw| == HwSpritesCount && PendingValid(s.pending) &&
    0 <= s.lastVisible <= HwSpritesCount && |s.items| <= s.poolCount <= maxItems &&
    Sorted(s.items) && UniqueIds(s.items) && DistinctSlots(s.items) &&
    forall i :: 0 <= i < |s.items| ==>
      s.items[i].id < s.nextId && ItemValid(s.items[i], s.lastVisible, zOrders) &&
      (s.items[i].checkOnScreen ==> s.check)
  }

  /** The table, the hardware and the records agree: slots past the last
      visible count are hidden; the hardware differs from the table only
      inside the pending range; and unless a rebuild is pending the records
      hold their rebuild slots and the table starts with their attributes. */
  predicate InSync(s: State) {
    (forall v :: 0 <= v < |s.handles| && s.lastVisible <= v ==> s.handles[v] == HiddenSlot) &&
    (forall v :: 0 <= v < |s.handles| && v < |s.hw| && !Covers(s.pending, v) ==> s.hw[v] == s.handles[v]) &&
    (!s.rebuild ==>
       Indexed(s.items) && s.lastVisible == |Visible(s.items)| &&
       forall v :: 0 <= v < s.lastVisible && v < |s.handles| ==> s.handles[v] == Entry(Visible(s.items)[v]))
  }

  /** Nothing is pending past the last visible count. */
  predicate Quiet(s: State) {
    s.pending.first < HwSpritesCount ==> s.pending.last < s.lastVisible
  }

  /** Writes the attributes to a slot that exists. */
  function Store(table: seq<Slot>, index: int, attrs: Attributes): seq<Slot> {
    if 0 <= index < |table| then table[index := Entry(attrs)] else table
  }

  /** The state after edit e of record k, with _update_handles when the edit
      touches the record. */
  function Edited(s: State, k: nat, e: Edit): (r: State)
    requires k < |s.items|
    ensures |r.items| == |s.items| && r.items[k] == e.item
    ensures forall i :: 0 <= i < |s.items| && i != k ==> r.items[i] == s.items[i]
    // exactly the record's own slot is written, and only when it has one
    ensures var index := s.items[k].handlesIndex;
            |r.handles| == |s.handles| &&
            (forall v :: 0 <= v < |s.handles| && v != index ==> r.handles[v] == s.handles[v]) &&
            (e.touched && 0 <= index < |s.handles| ==>
               r.handles[index] == Entry(e.item.attrs) && Covers(r.pending, index))
    ensures (forall v :: Covers(s.pending, v) ==> Covers(r.pending, v))
    ensures !e.touched || s.items[k].handlesIndex < 0 ==> r.handles == s.handles && r.pending == s.pending
    ensures r.check == (s.check || e.check) && r.rebuild == (s.rebuild || e.rebuild)
    ensures r.hw == s.hw && r.transfers == s.transfers && r.lastVisible == s.lastVisible
    ensures r.poolCount == s.poolCount && r.nextId == s.nextId
  {
    var index := s.items[k].handlesIndex;
    s.(items := s.items[k := e.item],
       handles := if e.touched then Store(s.handles, index, e.item.attrs) else s.handles,
       pending := if e.touched then Mark(s.pending, index) else s.pending,
       check := s.check || e.check,
       rebuild := s.rebuild || e.rebuild)
  }

  /** Every admissible edit keeps the invariants. */
  lemma {:induction false} EditKeepsInvariants(s: State, maxItems: nat, zOrders: int, k: nat, e: Edit)
    requires Consistent(s, maxItems, zOrders) && k < |s.items| && Admissible(s.items[k], e)
    ensures Consistent(Edited(s, k, e), maxItems, zOrders)
    ensures InSync(s) ==> InSync(Edited(s, k, e))
    ensures Quiet(s) ==> Quiet(Edited(s, k, e))
  {
    EditKeepsConsistent(s, maxItems, zOrders, k, e);
    assert ItemValid(s.items[k], s.lastVisible, zOrders);
    if InSync(s) {
      EditKeepsInSync(s, k, e);
    }
  }

  lemma {:induction false} EditKeepsConsistent(s: State, maxItems: nat, zOrders: int, k: nat, e: Edit)
    requires Consistent(s, maxItems, zOrders) && k < |s.items| && Admissible(s.items[k], e)
    ensures Consistent(Edited(s, k, e), maxItems, zOrders)
  {
    var r := Edited(s, k, e);
    var x := e.item;
    UpdateKeepsOrder(s.items, k, x);
    assert forall i :: 0 <= i < |r.items| ==> r.items[i].handlesIndex == s.items[i].handlesIndex;
    assert ItemValid(s.items[k], s.lastVisible, zOrders);
    assert ItemValid(x, r.lastVisible, zOrders);
    assert PendingValid(r.pending);
  }

  lemma {:induction false} EditKeepsInSync(s: State, k: nat, e: Edit)
    requires |s.handles| == HwSpritesCount && |s.hw| == HwSpritesCount
    requires k < |s.items| && Admissible(s.items[k], e) && InSync(s)
    requires s.items[k].handlesIndex < s.lastVisible
    ensures InSync(Edited(s, k, e))
  {
    var r := Edited(s, k, e);
    var x := e.item;
    if !r.rebuild {
      if x.onScreen {
        VisibleAt(s.items, k);
        VisibleUpdate(s.items, k, x);
        UpdateKeepsIndexed(s.items, k, x);
      } else {
        assert SameScreen(s.items, r.items);
        SameScreenKeepsIndexed(s.items, r.items);
      }
    }
  }

  /** The state after the edits es of records 0 .. |es|-1, applied in
      traversal order (the loops of update_camera and _check_affine_mats). */
  function EditedAll(s: State, es: seq<Edit>): (r: State)
    requires |es| <= |s.items|
    ensures |r.items| == |s.items| && |r.handles| == |s.handles|
    ensures forall i :: 0 <= i < |es| ==> r.items[i] == es[i].item
    ensures forall i :: |es| <= i < |s.items| ==> r.items[i] == s.items[i]
    ensures r.check == (s.check || exists i :: 0 <= i < |es| && es[i].check)
    ensures r.rebuild == (s.rebuild || exists i :: 0 <= i < |es| && es[i].rebuild)
    ensures r.hw == s.hw && r.transfers == s.transfers && r.lastVisible == s.lastVisible
    ensures r.poolCount == s.poolCount && r.nextId == s.nextId
    decreases |es|
  {
    if |es| == 0 then s
    else
      var n := |es| - 1;
      assert forall i :: 0 <= i < n ==> es[..n][i] == es[i];
      Edited(EditedAll(s, es[..n]), n, es[n])
  }

  /** Some edit touches a record whose old slot is v. */
  predicate Written(items: seq<Item>, es: seq<Edit>, v: int)
    requires |es| <= |items|
  {
    exists i :: 0 <= i < |es| && es[i].touched && items[i].handlesIndex == v
  }

  /** With distinct slots, the edits of a loop write each touched record's new
      attributes to its own slot, mark that slot, and leave every other slot. */
  lemma {:induction false} EditedAllStores(s: State, es: seq<Edit>)
    requires |es| <= |s.items| && DistinctSlots(s.items)
    requires forall i :: 0 <= i < |es| ==> es[i].item.handlesIndex == s.items[i].handlesIndex
    ensures var r := EditedAll(s, es);
            (forall i :: 0 <= i < |es| && es[i].touched && 0 <= s.items[i].handlesIndex < |s.handles| ==>
               r.handles[s.items[i].handlesIndex] == Entry(es[i].item.attrs) &&
               Covers(r.pending, s.items[i].handlesIndex)) &&
            (forall v :: 0 <= v < |s.handles| && !Written(s.items, es, v) ==> r.handles[v] == s.handles[v]) &&
            (forall v :: Covers(s.pending, v) ==> Covers(r.pending, v))
    decreases |es|
  {
    if |es| > 0 {
      var n := |es| - 1;
      var es' := es[..n];
      assert forall i :: 0 <= i < n ==> es'[i] == es[i];
      EditedAllStores(s, es');
      var t := EditedAll(s, es');
      assert t.items[n] == s.items[n];
      forall v | 0 <= v < |s.handles| && !Written(s.items, es, v)
        ensures EditedAll(s, es).handles[v] == s.handles[v]
      {
        assert !Written(s.items, es', v);
        assert !es[n].touched || s.items[n].handlesIndex != v;
      }
      forall i | 0 <= i < n && es[i].touched && 0 <= s.items[i].handlesIndex < |s.handles|
        ensures EditedAll(s, es).handles[s.items[i].handlesIndex] == Entry(es[i].item.attrs)
      {
        assert s.items[n].handlesIndex != s.items[i].handlesIndex;
      }
    }
  }

  /** One more edit of the loop is one more Edited step, on a record the
      earlier edits did not touch. */
  lemma {:induction false} EditedAllStep(s: State, es: seq<Edit>, k: nat)
    requires k < |es| <= |s.items|
    ensures EditedAll(s, es[..k + 1]) == Edited(EditedAll(s, es[..k]), k, es[k])
    ensures EditedAll(s, es[..k]).items[k] == s.items[k]
  {
    assert es[..k + 1][..k] == es[..k] && es[..k + 1][k] == es[k];
  }

  /** A loop of admissible edits keeps the invariants. */
  lemma {:induction false} EditedAllKeepsInvariants(s: State, maxItems: nat, zOrders: int, es: seq<Edit>)
    requires Consistent(s, maxItems, zOrders) && |es| <= |s.items|
    requires forall i :: 0 <= i < |es| ==> Admissible(s.items[i], es[i])
    ensures Consistent(EditedAll(s, es), maxItems, zOrders)
    ensures InSync(s) ==> InSync(EditedAll(s, es))
    ensures Quiet(s) ==> Quiet(EditedAll(s, es))
    decreases |es|
  {
    if |es| > 0 {
      var n := |es| - 1;
      var es' := es[..n];
      assert forall i :: 0 <= i < n ==> es'[i] == es[i];
      EditedAllKeepsInvariants(s, maxItems, zOrders, es');
      var t := EditedAll(s, es');
      assert t.items[n] == s.items[n];
      EditKeepsInvariants(t, maxItems, zOrders, n, es[n]);
    }
  }

  /** The edits of the update_camera loop: every record that follows the
      camera is re-placed at its own position. */
  function CameraEdits(items: seq<Item>, camera: FixedPoint): (es: seq<Edit>)
    ensures |es| == |items|
    ensures forall i :: 0 <= i < |items| ==> es[i] == CameraUpdated(items[i], camera) && Admissible(items[i], es[i])
  {
    seq(|items|, i requires 0 <= i < |items| => CameraUpdated(items[i], camera))
  }

  /** update_camera */
  function CameraMoved(s: State, camera: FixedPoint): (r: State)
    ensures |r.items| == |s.items| && r.rebuild == s.rebuild
    ensures forall i :: 0 <= i < |s.items| && s.items[i].ignoreCamera ==> r.items[i] == s.items[i]
    ensures forall i :: 0 <= i < |s.items| && !s.items[i].ignoreCamera ==>
              r.items[i] == Placed(s.items[i], s.items[i].position, camera).item
  {
    EditedAll(s, CameraEdits(s.items, camera))
  }

  /** The edits of the _check_affine_mats loop. */
  function AffineMatEdits(items: seq<Item>, mats: AffineMats, camera: FixedPoint): (es: seq<Edit>)
    ensures |es| == |items|
    ensures forall i :: 0 <= i < |items| ==>
              es[i] == AffineMatsChecked(items[i], mats, camera) && Admissible(items[i], es[i])
  {
    seq(|items|, i requires 0 <= i < |items| => AffineMatsChecked(items[i], mats, camera))
  }

  /** _check_affine_mats: nothing happens unless the matrix manager reports
      an update; it never requests a rebuild. */
  function MatsChecked(s: State, mats: AffineMats, camera: FixedPoint): (r: State)
    ensures !mats.updated ==> r == s
    ensures |r.items| == |s.items| && r.rebuild == s.rebuild
    ensures mats.updated ==>
              forall i :: 0 <= i < |s.items| ==> r.items[i] == AffineMatsChecked(s.items[i], mats, camera).item
  {
    if mats.updated then EditedAll(s, AffineMatEdits(s.items, mats, camera)) else s
  }

  lemma {:induction false} LoopsKeepInvariants(s: State, maxItems: nat, zOrders: int, mats: AffineMats,
                                               camera: FixedPoint)
    requires Consistent(s, maxItems, zOrders)
    ensures Consistent(CameraMoved(s, camera), maxItems, zOrders)
    ensures InSync(s) ==> InSync(CameraMoved(s, camera))
    ensures Quiet(s) ==> Quiet(CameraMoved(s, camera))
    ensures Consistent(MatsChecked(s, mats, camera), maxItems, zOrders)
    ensures InSync(s) ==> InSync(MatsChecked(s, mats, camera))
    ensures Quiet(s) ==> Quiet(MatsChecked(s, mats, camera))
  {
    EditedAllKeepsInvariants(s, maxItems, zOrders, CameraEdits(s.items, camera));
    EditedAllKeepsInvariants(s, maxItems, zOrders, AffineMatEdits(s.items, mats, camera));
  }

  /** The records after _check_items_on_screen evaluates the flagged ones. */
  function CheckedItems(items: seq<Item>, camera: FixedPoint, displayWidth: int, displayHeight: int): (r: seq<Item>)
    ensures |r| == |items|
    ensures forall i :: 0 <= i < |items| ==> r[i] == CheckItem(items[i], camera, displayWidth, displayHeight)
  {
    seq(|items|, i requires 0 <= i < |items| => CheckItem(items[i], camera, displayWidth, displayHeight))
  }

  /** Some flagged record changes its on-screen state. */
  predicate AnyChanges(items: seq<Item>, camera: FixedPoint, displayWidth: int, displayHeight: int) {
    exists i :: 0 <= i < |items| && ChangesOnScreen(items[i], camera, displayWidth, displayHeight)
  }

  /** _check_items_on_screen */
  function Checked(s: State, camera: FixedPoint, displayWidth: int, displayHeight: int): (r: State)
    ensures !s.check ==> r == s
  {
    if !s.check then s
    else
      s.(items := CheckedItems(s.items, camera, displayWidth, displayHeight),
         check := false,
         rebuild := s.rebuild || AnyChanges(s.items, camera, displayWidth, displayHeight))
  }

  /** The on-screen check evaluates exactly the flagged records, clears every
      flag, and requests a rebuild iff some evaluated record changed (or one
      was already requested). */
  lemma {:induction false} CheckEvaluatesFlagged(s: State, maxItems: nat, zOrders: int, camera: FixedPoint,
                                                 displayWidth: int, displayHeight: int)
    requires Consistent(s, maxItems, zOrders)
    ensures var r := Checked(s, camera, displayWidth, displayHeight);
            !r.check && |r.items| == |s.items| &&
            (forall i :: 0 <= i < |r.items| ==> !r.items[i].checkOnScreen) &&
            (forall i :: 0 <= i < |s.items| && s.items[i].checkOnScreen ==>
               r.items[i].onScreen == OnScreen(s.items[i], camera, displayWidth, displayHeight) &&
               r.items[i] == s.items[i].(checkOnScreen := false, onScreen := r.items[i].onScreen)) &&
            (forall i :: 0 <= i < |s.items| && !s.items[i].checkOnScreen ==> r.items[i] == s.items[i]) &&
            r.rebuild == (s.rebuild || AnyChanges(s.items, camera, displayWidth, displayHeight))
  {
    if !s.check {
      assert forall i :: 0 <= i < |s.items| ==> !s.items[i].checkOnScreen;
      assert !AnyChanges(s.items, camera, displayWidth, displayHeight);
    }
  }

  /** Records that keep their ids, keys and slots keep the order and the
      uniqueness of ids and slots. */
  lemma {:induction false} RelabelKeepsOrder(a: seq<Item>, b: seq<Item>)
    requires |a| == |b|
    requires forall i :: 0 <= i < |a| ==>
               b[i].key == a[i].key && b[i].id == a[i].id && b[i].handlesIndex == a[i].handlesIndex
    ensures Sorted(a) ==> Sorted(b)
    ensures UniqueIds(a) ==> UniqueIds(b)
    ensures DistinctSlots(a) ==> DistinctSlots(b)
  {
  }

  lemma {:induction false} CheckKeepsInvariants(s: State, maxItems: nat, zOrders: int, camera: FixedPoint,
                                                displayWidth: int, displayHeight: int)
    requires Consistent(s, maxItems, zOrders)
    ensures Consistent(Checked(s, camera, displayWidth, displayHeight), maxItems, zOrders)
    ensures InSync(s) ==> InSync(Checked(s, camera, displayWidth, displayHeight))
    ensures Quiet(s) ==> Quiet(Checked(s, camera, displayWidth, displayHeight))
  {
    if s.check {
      CheckKeepsConsistent(s, maxItems, zOrders, camera, displayWidth, displayHeight);
      CheckKeepsInSync(s, camera, displayWidth, displayHeight);
    }
  }

  /** Without a change of on-screen state no slot changes. */
  lemma {:induction false} CheckKeepsInSync(s: State, camera: FixedPoint, displayWidth: int, displayHeight: int)
    requires s.check
    ensures InSync(s) ==> InSync(Checked(s, camera, displayWidth, displayHeight))
  {
    var r := Checked(s, camera, displayWidth, displayHeight);
    if InSync(s) && !r.rebuild {
      forall i | 0 <= i < |s.items|
        ensures r.items[i] == s.items[i].(checkOnScreen := r.items[i].checkOnScreen)
      {
        assert !ChangesOnScreen(s.items[i], camera, displayWidth, displayHeight);
      }
      assert SameScreen(s.items, r.items);
      SameScreenKeepsIndexed(s.items, r.items);
    }
  }

  lemma {:induction false} CheckKeepsConsistent(s: State, maxItems: nat, zOrders: int, camera: FixedPoint,
                                                displayWidth: int, displayHeight: int)
    requires Consistent(s, maxItems, zOrders) && s.check
    ensures Consistent(Checked(s, camera, displayWidth, displayHeight), maxItems, zOrders)
  {
    var r := Checked(s, camera, displayWidth, displayHeight);
    RelabelKeepsOrder(s.items, r.items);
    forall i | 0 <= i < |r.items|
      ensures r.items[i].id < r.nextId && ItemValid(r.items[i], r.lastVisible, zOrders)
    {
      assert ItemValid(s.items[i], s.lastVisible, zOrders);
    }
  }

  /** _rebuild_handles: on-screen records take slots 0 .. m-1 in traversal
      order, the slots the last rebuild used beyond m are hidden, and the
      range [0, max(m, n) - 1] is pending. */
  function Rebuilt(s: State): (r: State)
    requires |s.handles| == HwSpritesCount
    requires s.rebuild ==> |Visible(s.items)| <= HwSpritesCount
    ensures !s.rebuild ==> r == s
    ensures s.rebuild ==>
              !r.rebuild && r.lastVisible == |Visible(s.items)| && |r.items| == |s.items| &&
              Indexed(r.items) && Visible(r.items) == Visible(s.items) &&
              (forall i :: 0 <= i < |s.items| ==> r.items[i] == s.items[i].(handlesIndex := r.items[i].handlesIndex))
    ensures s.rebuild ==>
              |r.handles| == |s.handles| &&
              (forall v :: 0 <= v < |Visible(s.items)| ==> r.handles[v] == Entry(Visible(s.items)[v])) &&
              (forall v :: |Visible(s.items)| <= v < s.lastVisible && v < |s.handles| ==> r.handles[v] == HiddenSlot) &&
              (forall v :: Max(|Visible(s.items)|, s.lastVisible) <= v < |s.handles| ==> r.handles[v] == s.handles[v])
    // the pending range: [0, n-1] when slots were hidden, [0, m-1] otherwise, untouched when both are 0
    ensures s.rebuild ==>
              (s.lastVisible > |Visible(s.items)| ==> r.pending == Pending(0, s.lastVisible - 1)) &&
              (s.lastVisible <= |Visible(s.items)| && |Visible(s.items)| > 0 ==>
                 r.pending == Pending(0, |Visible(s.items)| - 1)) &&
              (s.lastVisible <= 0 && |Visible(s.items)| == 0 ==> r.pending == s.pending)
    ensures r.hw == s.hw && r.transfers == s.transfers && r.check == s.check
    ensures r.poolCount == s.poolCount && r.nextId == s.nextId
  {
    if !s.rebuild then s
    else
      var shown := Visible(s.items);
      var m, n := |shown|, s.lastVisible;
      var top := Max(m, n);
      ReindexedIsIndexed(s.items);
      s.(items := Reindexed(s.items),
         handles := RebuiltTable(s.handles, shown, n),
         lastVisible := m,
         pending := if top > 0 then Pending(0, top - 1) else s.pending,
         rebuild := false)
  }

  /** The table after a rebuild: the shown attributes first, hidden
      entries up to the last visible count, the rest as it was. */
  function RebuiltTable(table: seq<Slot>, shown: seq<Attributes>, lastVisible: int): (t: seq<Slot>)
    requires |shown| <= |table|
    ensures |t| == |table|
    ensures forall v :: 0 <= v < |shown| ==> t[v] == Entry(shown[v])
    ensures forall v :: |shown| <= v < lastVisible && v < |table| ==> t[v] == HiddenSlot
    ensures forall v :: Max(|shown|, lastVisible) <= v < |table| ==> t[v] == table[v]
  {
    seq(|table|, v requires 0 <= v < |table| =>
          if v < |shown| then Entry(shown[v]) else if v < lastVisible then HiddenSlot else table[v])
  }

  lemma {:induction false} RebuildKeepsConsistent(s: State, maxItems: nat, zOrders: int)
    requires Consistent(s, maxItems, zOrders)
    requires s.rebuild ==> |Visible(s.items)| <= HwSpritesCount
    ensures Consistent(Rebuilt(s), maxItems, zOrders)
  {
    if s.rebuild {
      var r := Rebuilt(s);
      assert r.items == Reindexed(s.items);
      assert RecordsValid(s.items, s.lastVisible, zOrders, s.check, s.nextId);
      ReindexKeepsRecordsValid(s.items, s.lastVisible, zOrders, s.check, s.nextId);
      assert PendingValid(r.pending);
    }
  }

  /** The slots a rebuild assigns keep every record valid against the new
      visible count, and keep the order and the uniqueness of ids and slots. */
  lemma {:induction false} ReindexKeepsRecordsValid(items: seq<Item>, lastVisible: int, zOrders: int, check: bool,
                                                    nextId: nat)
    requires RecordsValid(items, lastVisible, zOrders, check, nextId)
    ensures RecordsValid(Reindexed(items), |Visible(items)|, zOrders, check, nextId)
    ensures Sorted(items) ==> Sorted(Reindexed(items))
    ensures UniqueIds(items) ==> UniqueIds(Reindexed(items))
    ensures DistinctSlots(Reindexed(items))
  {
    var r := Reindexed(items);
    ReindexedIsIndexed(items);
    IndexedSlotsAreDense(r);
    assert forall i :: 0 <= i < |r| ==> r[i].key == items[i].key && r[i].id == items[i].id;
    forall i | 0 <= i < |r|
      ensures r[i].id < nextId && ItemValid(r[i], |Visible(items)|, zOrders) && (r[i].checkOnScreen ==> check)
    {
      assert ItemValid(items[i], lastVisible, zOrders);
    }
  }

  /** A rebuild with nothing pending past the last visible count keeps the
      hardware in step with the table. */
  lemma {:induction false} RebuildKeepsInSync(s: State, maxItems: nat, zOrders: int)
    requires Consistent(s, maxItems, zOrders) && InSync(s) && Quiet(s)
    requires s.rebuild ==> |Visible(s.items)| <= HwSpritesCount
    ensures InSync(Rebuilt(s))
  {
  }

  /** The number of hardware sprite slots per affine matrix. */
  const AffineMultiplier: int := HwSpritesCount / HwAffineMatsCount

  predicate CommitDataValid(data: Option<CommitData>) {
    data.Some? ==>
      0 <= data.value.offset && 0 < data.value.count && data.value.offset + data.value.count <= HwAffineMatsCount
  }

  /** The first sprite slot of an affine matrix range. */
  function AffineFirst(d: CommitData): int {
    d.offset * AffineMultiplier
  }

  /** The last sprite slot of an affine matrix range. */
  function AffineLast(d: CommitData): int {
    AffineFirst(d) + d.count * AffineMultiplier - 1
  }

  /** The range commit transfers: the pending range merged with the affine
      matrices' range, scaled to sprite slots. */
  function CommitRange(p: Pending, data: Option<CommitData>): (r: Pending)
    requires CommitDataValid(data)
    ensures PendingValid(p) ==> PendingValid(r)
    ensures forall v :: Covers(p, v) ==> Covers(r, v)
    ensures data.None? ==> r == p
    ensures data.Some? ==>
              (forall v :: AffineFirst(data.value) <= v <= AffineLast(data.value) ==> Covers(r, v)) &&
              (r.first == p.first || r.first == AffineFirst(data.value)) &&
              (r.last == p.last || r.last == AffineLast(data.value))
  {
    assert AffineMultiplier == 4;
    match data
    case None => p
    case Some(d) => Pending(Min(p.first, AffineFirst(d)), Max(p.last, AffineLast(d)))
  }

  /** commit */
  function Committed(s: State, data: Option<CommitData>): (r: State)
    requires |s.handles| == HwSpritesCount && |s.hw| == HwSpritesCount && CommitDataValid(data)
    ensures var range := CommitRange(s.pending, data);
            |r.hw| == |s.hw| &&
            (range.first < HwSpritesCount ==>
               r.transfers == s.transfers + [Transfer(range.first, range.last - range.first + 1)] &&
               r.pending == NoPending &&
               (forall v :: 0 <= v < HwSpritesCount ==>
                  r.hw[v] == if Covers(range, v) then s.handles[v] else s.hw[v])) &&
            (range.first >= HwSpritesCount ==> r == s)
    ensures r.items == s.items && r.handles == s.handles && r.lastVisible == s.lastVisible
    ensures r.check == s.check && r.rebuild == s.rebuild && r.poolCount == s.poolCount && r.nextId == s.nextId
  {
    var range := CommitRange(s.pending, data);
    if range.first < HwSpritesCount then
      s.(hw := seq(|s.hw|, v requires 0 <= v < |s.hw| => if Covers(range, v) then s.handles[v] else s.hw[v]),
         transfers := s.transfers + [Transfer(range.first, range.last - range.first + 1)],
         pending := NoPending)
    else s
  }

  /** A commit keeps the invariants and never leaves anything pending. */
  lemma {:induction false} CommitKeepsConsistent(s: State, maxItems: nat, zOrders: int, data: Option<CommitData>)
    requires Consistent(s, maxItems, zOrders) && CommitDataValid(data)
    ensures Consistent(Committed(s, data), maxItems, zOrders)
    ensures Committed(s, data).pending == NoPending
  {
    var range := CommitRange(s.pending, data);
    if range.first >= HwSpritesCount {
      assert data.None? && s.pending == NoPending;
    }
  }

  /** After a commit the hardware shows the manager's table, nothing is
      pending, and the invariants hold. */
  lemma {:induction false} CommitFlushes(s: State, maxItems: nat, zOrders: int, data: Option<CommitData>)
    requires Consistent(s, maxItems, zOrders) && InSync(s) && CommitDataValid(data)
    ensures var r := Committed(s, data);
            r.hw == s.handles && r.pending == NoPending &&
            Consistent(r, maxItems, zOrders) && InSync(r) && Quiet(r)
  {
    var r := Committed(s, data);
    var range := CommitRange(s.pending, data);
    if range.first >= HwSpritesCount {
      assert data.None? && s.pending == NoPending;
    }
    assert forall v :: 0 <= v < HwSpritesCount ==> r.hw[v] == s.handles[v];
  }

  /** A second commit with no new marks and no affine data transfers nothing. */
  lemma {:induction false} CommitTwiceTransfersOnce(s: State, maxItems: nat, zOrders: int, data: Option<CommitData>)
    requires Consistent(s, maxItems, zOrders) && CommitDataValid(data)
    ensures var r := Committed(s, data);
            Committed(r, None) == r
  {
    var range := CommitRange(s.pending, data);
    if range.first >= HwSpritesCount {
      assert data.None? && s.pending == NoPending;
    }
  }

  /** What the hardware must show: the on-screen records' attributes in draw
      order, then hidden entries. */
  function DrawTable(items: seq<Item>): (t: seq<Slot>)
    requires |Visible(items)| <= HwSpritesCount
    ensures |t| == HwSpritesCount
  {
    seq(HwSpritesCount, v requires 0 <= v < HwSpritesCount =>
          if v < |Visible(items)| then Entry(Visible(items)[v]) else HiddenSlot)
  }

  /** When no rebuild is pending, a commit makes the hardware show exactly the
      on-screen records in draw order followed by hidden entries. */
  lemma {:induction false} CommitShowsDrawOrder(s: State, maxItems: nat, zOrders: int, data: Option<CommitData>)
    requires Consistent(s, maxItems, zOrders) && InSync(s) && !s.rebuild && CommitDataValid(data)
    ensures |Visible(s.items)| <= HwSpritesCount
    ensures Committed(s, data).hw == DrawTable(s.items)
  {
    CommitFlushes(s, maxItems, zOrders, data);
  }

  /** One frame: the rebuild then the commit leave the hardware showing the
      on-screen records in draw order, followed by hidden entries. */
  lemma {:induction false} FrameShowsDrawOrder(s: State, maxItems: nat, zOrders: int, data: Option<CommitData>)
    requires Consistent(s, maxItems, zOrders) && InSync(s) && Quiet(s) && CommitDataValid(data)
    requires |Visible(s.items)| <= HwSpritesCount
    ensures Committed(Rebuilt(s), data).hw == DrawTable(s.items)
  {
    var r := Rebuilt(s);
    RebuildKeepsConsistent(s, maxItems, zOrders);
    RebuildKeepsInSync(s, maxItems, zOrders);
    CommitShowsDrawOrder(r, maxItems, zOrders, data);
  }

  /** Every record satisfies the per-record part of Consistent. */
  predicate RecordsValid(items: seq<Item>, lastVisible: int, zOrders: int, check: bool, nextId: nat) {
    forall i :: 0 <= i < |items| ==>
      items[i].id < nextId && ItemValid(items[i], lastVisible, zOrders) && (items[i].checkOnScreen ==> check)
  }

  lemma {:induction false} RemoveAtKeepsDistinctSlots(s: seq<Item>, k: nat)
    requires k < |s| && DistinctSlots(s)
    ensures DistinctSlots(RemoveAt(s, k))
    ensures s[k].handlesIndex >= 0 ==> forall i :: 0 <= i < |RemoveAt(s, k)| ==>
                                         RemoveAt(s, k)[i].handlesIndex != s[k].handlesIndex
  {
    var r := RemoveAt(s, k);
    assert forall i :: 0 <= i < |r| ==> r[i] == s[if i < k then i else i + 1];
  }

  lemma {:induction false} InsertKeepsDistinctSlots(s: seq<Item>, x: Item)
    requires DistinctSlots(s)
    requires x.handlesIndex >= 0 ==> forall i :: 0 <= i < |s| ==> s[i].handlesIndex != x.handlesIndex
    ensures DistinctSlots(Insert(s, x))
  {
    var r := Insert(s, x);
    var p := InsertPos(s, x.key);
    forall i, j | 0 <= i < |r| && 0 <= j < |r| && i != j && r[i].handlesIndex >= 0
      ensures r[i].handlesIndex != r[j].handlesIndex
    {
      var si := if i < p then i else i - 1;
      var sj := if j < p then j else j - 1;
      if i != p && j != p {
        assert r[i] == s[si] && r[j] == s[sj] && si != sj;
      } else if i == p {
        assert r[j] == s[sj];
      } else {
        assert r[i] == s[si];
      }
    }
  }

  /** Records of the result of Insert/RemoveAt are records of the input or the
      inserted one, so per-record facts carry over. */
  lemma {:induction false} RecordsValidCarry(s: seq<Item>, r: seq<Item>, x: Item, lastVisible: int, zOrders: int,
                                             check: bool, nextId: nat)
    requires RecordsValid(s, lastVisible, zOrders, check, nextId)
    requires x.id < nextId && ItemValid(x, lastVisible, zOrders) && (x.checkOnScreen ==> check)
    requires multiset(r) <= multiset(s) + multiset{x}
    ensures RecordsValid(r, lastVisible, zOrders, check, nextId)
  {
    forall i | 0 <= i < |r|
      ensures r[i].id < nextId && ItemValid(r[i], lastVisible, zOrders) && (r[i].checkOnScreen ==> check)
    {
      assert r[i] in multiset(r);
      if r[i] != x {
        assert r[i] in multiset(s);
        var j :| 0 <= j < |s| && s[j] == r[i];
      }
    }
  }

  lemma {:induction false} RemoveOffScreenRecord(s: seq<Item>, k: nat)
    requires k < |s| && Indexed(s) && !s[k].onScreen
    ensures Indexed(RemoveAt(s, k)) && Visible(RemoveAt(s, k)) == Visible(s)
  {
    assert s == s[..k] + [s[k]] + s[k + 1..];
    assert RemoveAt(s, k) == s[..k] + s[k + 1..];
    RemoveOffScreenKeepsIndexed(s[..k], s[k], s[k + 1..]);
  }

  lemma {:induction false} InsertOffScreenRecord(s: seq<Item>, x: Item)
    requires Indexed(s) && !x.onScreen && x.handlesIndex == -1
    ensures Indexed(Insert(s, x)) && Visible(Insert(s, x)) == Visible(s)
  {
    var p := InsertPos(s, x.key);
    assert s == s[..p] + s[p..];
    assert Insert(s, x) == s[..p] + [x] + s[p..];
    InsertOffScreenKeepsIndexed(s[..p], x, s[p..]);
  }

  /** What a sprite_builder hands to create. */
  datatype Builder = Builder(
    position: FixedPoint, shape: Shape, size: Size, bgPriority: int, zOrder: int,
    horizontalFlip: bool, verticalFlip: bool, mosaic: bool, affineMat: Option<nat>,
    doubleSizeMode: DoubleSizeMode, visible: bool, ignoreCamera: bool,
    removeAffineMatWhenNotNeeded: bool, tiles: Option<TilesRef>, palette: Option<PaletteRef>)

  predicate BuilderValid(b: Builder, zOrders: int) {
    0 <= b.bgPriority <= MaxBgPriority && 0 <= b.zOrder < zOrders
  }

  /** The new record: one usage, no slot, off screen, waiting for an
      on-screen check iff visible; its hardware position is placed as
      set_position places it. */
  function NewItem(b: Builder, id: nat, tiles: TilesRef, palette: PaletteRef, mats: AffineMats,
                   camera: FixedPoint): (item: Item)
    ensures item.id == id && item.usages == 1 && item.handlesIndex == -1 && !item.onScreen
    ensures item.checkOnScreen == b.visible && item.visible == b.visible
    ensures item.key == SortKey(b.bgPriority, b.zOrder) && item.attrs.bgPriority == b.bgPriority
    ensures item.position == b.position && item.tiles == tiles && item.palette == palette
    ensures item.affineMat == b.affineMat && item.attrs.affineMat == b.affineMat
    ensures var p := EffectivePosition(item, camera); item.attrs.x == Integer(p.x) && item.attrs.y == Integer(p.y)
  {
    var doubleSize :=
      match b.affineMat
      case None => false
      case Some(m) =>
        (match b.doubleSizeMode
         case Auto => m in mats.doubleSize
         case Enabled => true
         case Disabled => false);
    var realPosition := if b.ignoreCamera then b.position else Sub(b.position, camera);
    var attrs := Attributes(Integer(realPosition.x), Integer(realPosition.y), tiles.id, palette.id, b.bgPriority,
                            b.horizontalFlip, b.verticalFlip, b.mosaic, b.affineMat, doubleSize, b.shape, b.size);
    Item(id, 1, b.position, attrs, SortKey(b.bgPriority, b.zOrder), tiles, palette, b.affineMat,
         b.doubleSizeMode, b.visible, false, b.visible, b.ignoreCamera, b.removeAffineMatWhenNotNeeded, -1)
  }

  /** Why create returns nothing: the pool is full, or the builder has no
      tiles or no palette. */
  predicate CreateFails(s: State, b: Builder, maxItems: nat) {
    s.poolCount >= maxItems || b.tiles.None? || b.palette.None?
  }

  /** The id create returns. */
  function CreatedId(s: State, b: Builder, maxItems: nat): (id: Option<nat>)
    ensures id.None? <==> CreateFails(s, b, maxItems)
  {
    if CreateFails(s, b, maxItems) then None else Some(s.nextId)
  }

  /** create */
  function Created(s: State, b: Builder, maxItems: nat, mats: AffineMats, camera: FixedPoint): (r: State)
    ensures CreateFails(s, b, maxItems) ==> r == s
    ensures !CreateFails(s, b, maxItems) ==>
              r.items == Insert(s.items, NewItem(b, s.nextId, b.tiles.value, b.palette.value, mats, camera)) &&
              r.poolCount == s.poolCount + 1 && r.nextId == s.nextId + 1 && r.check == (s.check || b.visible) &&
              r == s.(items := r.items, poolCount := r.poolCount, nextId := r.nextId, check := r.check)
  {
    if CreateFails(s, b, maxItems) then s
    else
      var item := NewItem(b, s.nextId, b.tiles.value, b.palette.value, mats, camera);
      s.(items := Insert(s.items, item), poolCount := s.poolCount + 1, nextId := s.nextId + 1,
         check := s.check || b.visible)
  }

  /** A successful create adds exactly one record under a fresh id; a
      failed one changes nothing. */
  lemma {:induction false} CreateAddsOneRecord(s: State, b: Builder, maxItems: nat, zOrders: int, mats: AffineMats,
                                               camera: FixedPoint)
    requires Consistent(s, maxItems, zOrders)
    ensures var r := Created(s, b, maxItems, mats, camera);
            match CreatedId(s, b, maxItems)
            case None => r == s
            case Some(id) =>
              !Contains(s.items, id) && Contains(r.items, id) && |r.items| == |s.items| + 1 &&
              multiset(r.items) == multiset(s.items) +
                                   multiset{NewItem(b, id, b.tiles.value, b.palette.value, mats, camera)}
  {
    if !CreateFails(s, b, maxItems) {
      var item := NewItem(b, s.nextId, b.tiles.value, b.palette.value, mats, camera);
      assert !Contains(s.items, s.nextId);
      InsertKeepsIdsUnique(s.items, item);
    }
  }

  lemma {:induction false} CreateKeepsInvariants(s: State, b: Builder, maxItems: nat, zOrders: int,
                                                 mats: AffineMats, camera: FixedPoint)
    requires Consistent(s, maxItems, zOrders) && BuilderValid(b, zOrders)
    ensures Consistent(Created(s, b, maxItems, mats, camera), maxItems, zOrders)
    ensures InSync(s) ==> InSync(Created(s, b, maxItems, mats, camera))
    ensures Quiet(s) ==> Quiet(Created(s, b, maxItems, mats, camera))
  {
    if !CreateFails(s, b, maxItems) {
      CreateKeepsConsistent(s, b, maxItems, zOrders, mats, camera);
      if InSync(s) {
        CreateKeepsInSync(s, b, maxItems, mats, camera);
      }
    }
  }

  lemma {:induction false} CreateKeepsConsistent(s: State, b: Builder, maxItems: nat, zOrders: int,
                                                 mats: AffineMats, camera: FixedPoint)
    requires Consistent(s, maxItems, zOrders) && BuilderValid(b, zOrders) && !CreateFails(s, b, maxItems)
    ensures Consistent(Created(s, b, maxItems, mats, camera), maxItems, zOrders)
  {
    var r := Created(s, b, maxItems, mats, camera);
    var item := NewItem(b, s.nextId, b.tiles.value, b.palette.value, mats, camera);
    assert !Contains(s.items, s.nextId);
    InsertKeepsIdsUnique(s.items, item);
    InsertKeepsDistinctSlots(s.items, item);
    assert RecordsValid(s.items, r.lastVisible, zOrders, r.check, r.nextId);
    RecordsValidCarry(s.items, r.items, item, r.lastVisible, zOrders, r.check, r.nextId);
  }

  /** A new record is off screen and has no slot, so it changes no slot. */
  lemma {:induction false} CreateKeepsInSync(s: State, b: Builder, maxItems: nat, mats: AffineMats,
                                             camera: FixedPoint)
    requires InSync(s) && !CreateFails(s, b, maxItems)
    ensures InSync(Created(s, b, maxItems, mats, camera))
  {
    if !s.rebuild {
      InsertOffScreenRecord(s.items, NewItem(b, s.nextId, b.tiles.value, b.palette.value, mats, camera));
    }
  }

  /** increase_usages */
  function Retained(s: State, k: nat): (r: State)
    requires k < |s.items|
    ensures r.items == s.items[k := s.items[k].(usages := s.items[k].usages + 1)]
    ensures r == s.(items := r.items)
  {
    s.(items := s.items[k := s.items[k].(usages := s.items[k].usages + 1)])
  }

  lemma {:induction false} RetainKeepsInvariants(s: State, maxItems: nat, zOrders: int, k: nat)
    requires Consistent(s, maxItems, zOrders) && k < |s.items|
    ensures Consistent(Retained(s, k), maxItems, zOrders)
    ensures InSync(s) ==> InSync(Retained(s, k))
    ensures Quiet(s) ==> Quiet(Retained(s, k))
  {
    var n := s.items[k].usages + 1;
    assert Retained(s, k) == s.(items := s.items[k := s.items[k].(usages := n)]);
    UsagesKeepConsistent(s, maxItems, zOrders, k, n);
    UsagesKeepInSync(s, k, n);
  }

  /** A new usage count of at least one keeps the invariants. */
  lemma {:induction false} UsagesKeepConsistent(s: State, maxItems: nat, zOrders: int, k: nat, usages: nat)
    requires Consistent(s, maxItems, zOrders) && k < |s.items| && usages >= 1
    ensures Consistent(s.(items := s.items[k := s.items[k].(usages := usages)]), maxItems, zOrders)
  {
    var r := s.(items := s.items[k := s.items[k].(usages := usages)]);
    RelabelKeepsOrder(s.items, r.items);
    forall i | 0 <= i < |r.items|
      ensures r.items[i].id < r.nextId && ItemValid(r.items[i], r.lastVisible, zOrders)
    {
      assert ItemValid(s.items[i], s.lastVisible, zOrders);
    }
  }

  lemma {:induction false} UsagesKeepInSync(s: State, k: nat, usages: nat)
    requires k < |s.items|
    ensures InSync(s) ==> InSync(s.(items := s.items[k := s.items[k].(usages := usages)]))
  {
    var r := s.(items := s.items[k := s.items[k].(usages := usages)]);
    if InSync(s) && !s.rebuild {
      assert SameScreen(s.items, r.items);
      SameScreenKeepsIndexed(s.items, r.items);
    }
  }

  /** decrease_usages: the last release erases the record, returns its pool
      slot and requests a rebuild iff it was on screen. */
  function Released(s: State, k: nat): (r: State)
    requires k < |s.items| <= s.poolCount && s.items[k].usages >= 1
    ensures s.items[k].usages > 1 ==> r == s.(items := s.items[k := s.items[k].(usages := s.items[k].usages - 1)])
    ensures s.items[k].usages == 1 ==>
              r == s.(items := RemoveAt(s.items, k), poolCount := s.poolCount - 1,
                      rebuild := s.rebuild || s.items[k].onScreen)
  {
    var item := s.items[k];
    if item.usages > 1 then s.(items := s.items[k := item.(usages := item.usages - 1)])
    else s.(items := RemoveAt(s.items, k), poolCount := s.poolCount - 1, rebuild := s.rebuild || item.onScreen)
  }

  /** decrease_usages as written: the last release erases the record from the
      sorted sequence but never returns its slot to the pool. */
  function ReleasedAsWritten(s: State, k: nat): (r: State)
    requires k < |s.items| && s.items[k].usages >= 1
    ensures s.items[k].usages > 1 ==> r == s.(items := s.items[k := s.items[k].(usages := s.items[k].usages - 1)])
    // the pool entry is never given back
    ensures r.poolCount == s.poolCount
    ensures s.items[k].usages == 1 ==>
              r == s.(items := RemoveAt(s.items, k), rebuild := s.rebuild || s.items[k].onScreen)
  {
    var item := s.items[k];
    if item.usages > 1 then s.(items := s.items[k := item.(usages := item.usages - 1)])
    else s.(items := RemoveAt(s.items, k), rebuild := s.rebuild || item.onScreen)
  }

  /** The last release removes the record's id; an earlier one only counts
      down. */
  lemma {:induction false} ReleaseRemovesLastUse(s: State, maxItems: nat, zOrders: int, k: nat)
    requires Consistent(s, maxItems, zOrders) && k < |s.items|
    ensures var r := Released(s, k);
            (s.items[k].usages == 1 <==> !Contains(r.items, s.items[k].id)) &&
            (s.items[k].usages == 1 ==> |r.items| == |s.items| - 1 && r.poolCount == s.poolCount - 1 &&
                                        r.rebuild == (s.rebuild || s.items[k].onScreen)) &&
            (s.items[k].usages > 1 ==> r.items[k].usages == s.items[k].usages - 1 && r.rebuild == s.rebuild)
  {
    assert ItemValid(s.items[k], s.lastVisible, zOrders);
    if s.items[k].usages == 1 {
      RemoveAtKeepsIdsUnique(s.items, k);
    } else {
      var r := Released(s, k);
      assert r.items[k].id == s.items[k].id;
    }
  }

  lemma {:induction false} ReleaseKeepsInvariants(s: State, maxItems: nat, zOrders: int, k: nat)
    requires Consistent(s, maxItems, zOrders) && k < |s.items|
    ensures Consistent(Released(s, k), maxItems, zOrders)
    ensures InSync(s) ==> InSync(Released(s, k))
    ensures Quiet(s) ==> Quiet(Released(s, k))
  {
    assert ItemValid(s.items[k], s.lastVisible, zOrders);
    if s.items[k].usages > 1 {
      CountDownKeepsInvariants(s, maxItems, zOrders, k);
    } else {
      EraseKeepsInvariants(s, maxItems, zOrders, k);
    }
  }

  lemma {:induction false} CountDownKeepsInvariants(s: State, maxItems: nat, zOrders: int, k: nat)
    requires Consistent(s, maxItems, zOrders) && k < |s.items| && s.items[k].usages > 1
    ensures Consistent(Released(s, k), maxItems, zOrders)
    ensures InSync(s) ==> InSync(Released(s, k))
  {
    assert Released(s, k) == s.(items := s.items[k := s.items[k].(usages := s.items[k].usages - 1)]);
    UsagesKeepConsistent(s, maxItems, zOrders, k, s.items[k].usages - 1);
    UsagesKeepInSync(s, k, s.items[k].usages - 1);
  }

  lemma {:induction false} EraseKeepsInvariants(s: State, maxItems: nat, zOrders: int, k: nat)
    requires Consistent(s, maxItems, zOrders) && k < |s.items| && s.items[k].usages == 1
    ensures Consistent(Released(s, k), maxItems, zOrders)
    ensures InSync(s) ==> InSync(Released(s, k))
  {
    var r := Released(s, k);
    assert r == s.(items := RemoveAt(s.items, k), poolCount := s.poolCount - 1,
                   rebuild := s.rebuild || s.items[k].onScreen);
    EraseKeepsConsistent(s, maxItems, zOrders, k);
    if InSync(s) && !r.rebuild {
      RemoveOffScreenRecord(s.items, k);
    }
  }

  lemma {:induction false} EraseKeepsConsistent(s: State, maxItems: nat, zOrders: int, k: nat)
    requires Consistent(s, maxItems, zOrders) && k < |s.items| && s.items[k].usages == 1
    ensures Consistent(Released(s, k), maxItems, zOrders)
  {
    var r := Released(s, k);
    assert r == s.(items := RemoveAt(s.items, k), poolCount := s.poolCount - 1,
                   rebuild := s.rebuild || s.items[k].onScreen);
    RemoveAtKeepsIdsUnique(s.items, k);
    RemoveAtKeepsDistinctSlots(s.items, k);
    assert RecordsValid(s.items, r.lastVisible, zOrders, r.check, r.nextId);
    assert ItemValid(s.items[k], s.lastVisible, zOrders);
    RecordsValidCarry(s.items, r.items, s.items[k], r.lastVisible, zOrders, r.check, r.nextId);
  }

  /** With the pool slot returned on the last release, the pool holds
      exactly the live records. */
  lemma {:induction false} PoolTracksRecords(s: State, b: Builder, maxItems: nat, mats: AffineMats,
                                             camera: FixedPoint, k: nat)
    requires s.poolCount == |s.items|
    ensures var c := Created(s, b, maxItems, mats, camera); c.poolCount == |c.items|
    ensures k < |s.items| && s.items[k].usages >= 1 ==> Released(s, k).poolCount == |Released(s, k).items|
  {
  }

  /** As written, every last release leaves one more pool slot without a
      record. */
  lemma {:induction false} ReleaseAsWrittenLeaksPoolSlot(s: State, k: nat)
    requires k < |s.items| <= s.poolCount && s.items[k].usages == 1
    ensures var r := ReleasedAsWritten(s, k);
            r.poolCount - |r.items| == s.poolCount - |s.items| + 1
  {
  }

  /** Scenario for a pool of one record: create, release the only use, create
      again. As written the second create fails although no record is live;
      with the pool slot returned it succeeds. */
  lemma {:induction false} PoolLeakScenario(s: State, b: Builder, mats: AffineMats, camera: FixedPoint)
    requires s.items == [] && s.poolCount == 0 && b.tiles.Some? && b.palette.Some?
    ensures var once := Created(s, b, 1, mats, camera);
            |once.items| == 1 && once.items[0].usages == 1 &&
            ReleasedAsWritten(once, 0).items == [] && CreatedId(ReleasedAsWritten(once, 0), b, 1) == None &&
            Released(once, 0).items == [] && CreatedId(Released(once, 0), b, 1).Some?
  {
    var once := Created(s, b, 1, mats, camera);
    var item := NewItem(b, s.nextId, b.tiles.value, b.palette.value, mats, camera);
    assert once.items == Insert([], item);
    assert InsertPos([], item.key) == 0;
    assert once.items == [item];
  }

  /** The record moved to a new draw-order key (erase, update_sort_key,
      insert); a rebuild is requested iff it is on screen. */
  function Reordered(s: State, k: nat, key: SortKey): (r: State)
    requires k < |s.items|
    ensures var moved := s.items[k].(key := key, attrs := s.items[k].attrs.(bgPriority := key.bgPriority));
            r == s.(items := Insert(RemoveAt(s.items, k), moved), rebuild := s.rebuild || s.items[k].onScreen)
  {
    var item := s.items[k];
    var moved := item.(key := key, attrs := item.attrs.(bgPriority := key.bgPriority));
    s.(items := Insert(RemoveAt(s.items, k), moved), rebuild := s.rebuild || item.onScreen)
  }

  /** set_bg_priority: an equal priority changes nothing. */
  function BgPrioritySet(s: State, k: nat, bgPriority: int): (r: State)
    requires k < |s.items|
    ensures bgPriority == s.items[k].key.bgPriority ==> r == s
    ensures bgPriority != s.items[k].key.bgPriority ==> r == Reordered(s, k, s.items[k].key.(bgPriority := bgPriority))
  {
    if bgPriority == s.items[k].key.bgPriority then s else Reordered(s, k, s.items[k].key.(bgPriority := bgPriority))
  }

  /** set_z_order: an equal z order changes nothing. */
  function ZOrderSet(s: State, k: nat, zOrder: int): (r: State)
    requires k < |s.items|
    ensures zOrder == s.items[k].key.zOrder ==> r == s
    ensures zOrder != s.items[k].key.zOrder ==> r == Reordered(s, k, s.items[k].key.(zOrder := zOrder))
  {
    if zOrder == s.items[k].key.zOrder then s else Reordered(s, k, s.items[k].key.(zOrder := zOrder))
  }

  /** A reorder keeps the set of records apart from the moved one's key, and
      the moved record lands after every record whose key is not greater. */
  lemma {:induction false} ReorderMovesOneRecord(s: State, maxItems: nat, zOrders: int, k: nat, key: SortKey)
    requires Consistent(s, maxItems, zOrders) && k < |s.items|
    ensures var r := Reordered(s, k, key);
            var moved := s.items[k].(key := key, attrs := s.items[k].attrs.(bgPriority := key.bgPriority));
            |r.items| == |s.items| && Sorted(r.items) &&
            multiset(r.items) == multiset(s.items) - multiset{s.items[k]} + multiset{moved} &&
            r.items[InsertPos(RemoveAt(s.items, k), key)] == moved &&
            (forall i :: 0 <= i < InsertPos(RemoveAt(s.items, k), key) ==> KeyLe(r.items[i].key, key)) &&
            (forall i :: InsertPos(RemoveAt(s.items, k), key) < i < |r.items| ==> !KeyLe(r.items[i].key, key))
  {
    var rest := RemoveAt(s.items, k);
    var p := InsertPos(rest, key);
    var r := Reordered(s, k, key);
    forall i | p < i < |r.items|
      ensures !KeyLe(r.items[i].key, key)
    {
      assert r.items[i] == rest[i - 1];
    }
  }

  lemma {:induction false} ReorderKeepsInvariants(s: State, maxItems: nat, zOrders: int, k: nat, key: SortKey)
    requires Consistent(s, maxItems, zOrders) && k < |s.items|
    requires 0 <= key.bgPriority <= MaxBgPriority && 0 <= key.zOrder < zOrders
    ensures Consistent(Reordered(s, k, key), maxItems, zOrders)
    ensures InSync(s) ==> InSync(Reordered(s, k, key))
    ensures Quiet(s) ==> Quiet(Reordered(s, k, key))
  {
    ReorderKeepsConsistent(s, maxItems, zOrders, k, key);
    if InSync(s) {
      ReorderKeepsInSync(s, k, key);
    }
  }

  /** Moving an off-screen record changes no slot; moving an on-screen one
      requests a rebuild. */
  lemma {:induction false} ReorderKeepsInSync(s: State, k: nat, key: SortKey)
    requires k < |s.items| && InSync(s)
    ensures InSync(Reordered(s, k, key))
  {
    var r := Reordered(s, k, key);
    if !r.rebuild {
      var item := s.items[k];
      var moved := item.(key := key, attrs := item.attrs.(bgPriority := key.bgPriority));
      assert item.handlesIndex == SlotOf(s.items, k);
      RemoveOffScreenRecord(s.items, k);
      InsertOffScreenRecord(RemoveAt(s.items, k), moved);
      assert Visible(r.items) == Visible(s.items);
    }
  }

  lemma {:induction false} ReorderKeepsConsistent(s: State, maxItems: nat, zOrders: int, k: nat, key: SortKey)
    requires Consistent(s, maxItems, zOrders) && k < |s.items|
    requires 0 <= key.bgPriority <= MaxBgPriority && 0 <= key.zOrder < zOrders
    ensures Consistent(Reordered(s, k, key), maxItems, zOrders)
  {
    var item := s.items[k];
    var moved := item.(key := key, attrs := item.attrs.(bgPriority := key.bgPriority));
    var rest := RemoveAt(s.items, k);
    var r := Reordered(s, k, key);
    assert ItemValid(item, s.lastVisible, zOrders);
    RemoveAtKeepsIdsUnique(s.items, k);
    RemoveAtKeepsDistinctSlots(s.items, k);
    InsertKeepsIdsUnique(rest, moved);
    InsertKeepsDistinctSlots(rest, moved);
    assert RecordsValid(s.items, r.lastVisible, zOrders, r.check, r.nextId);
    RecordsValidCarry(s.items, rest, moved, r.lastVisible, zOrders, r.check, r.nextId);
    RecordsValidCarry(rest, r.items, moved, r.lastVisible, zOrders, r.check, r.nextId);
  }
}
