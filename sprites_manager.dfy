/** btn::sprites_manager: the manager's static_data (the hardware table
    copy, the pending commit range, the last visible count and the two
    request flags) as the fields of one object, the live records in draw
    order and, for the hardware side, the table the hardware shows and the
    log of transfers. Every operation is proved against the transition of
    SpriteState it performs. */
module SpritesManager {
  import opened Wrappers
  import opened FixedPoints
  import opened SpriteItems
  import opened SortedSprites
  import opened SpriteSlots
  import opened SpriteState

  class Manager {
    /** BTN_CFG_SPRITES_MAX_ITEMS */
    const maxItems: nat
    /** sprites_manager_item::z_orders() */
    const zOrders: int
    /** data.handles */
    const handles: array<Slot>
    /** the sorted records, in layers() traversal order */
    var items: seq<Item>
    /** the table the hardware shows */
    var hwTable: seq<Slot>
    /** every hw::sprites::commit issued */
    var transfers: seq<Transfer>
    var firstIndexToCommit: int
    var lastIndexToCommit: int
    var lastVisibleItemsCount: int
    var checkItemsOnScreen: bool
    var rebuildHandles: bool
    /** the records the items pool holds */
    var poolCount: nat
    /** the id the next record gets */
    var nextId: nat

    function Snapshot(): State
      reads this, handles
    {
      State(items, handles[..], hwTable, transfers, Pending(firstIndexToCommit, lastIndexToCommit),
            lastVisibleItemsCount, checkItemsOnScreen, rebuildHandles, poolCount, nextId)
    }

    predicate Valid()
      reads this, handles
    {
      maxItems > 0 && zOrders > 0 && Consistent(Snapshot(), maxItems, zOrders)
    }

    predicate Synced()
      reads this, handles
    {
      InSync(Snapshot())
    }

    predicate Settled()
      reads this, handles
    {
      Quiet(Snapshot())
    }

    /** What every operation keeps. */
    twostate predicate KeepsSync()
      reads this, handles
    {
      (old(Synced()) ==> Synced()) && (old(Settled()) ==> Settled())
    }

    /** Every field but the records, the table and the check request. */
    twostate predicate OthersUnchanged()
      reads this
    {
      hwTable == old(hwTable) && transfers == old(transfers) && firstIndexToCommit == old(firstIndexToCommit) &&
      lastIndexToCommit == old(lastIndexToCommit) && lastVisibleItemsCount == old(lastVisibleItemsCount) &&
      rebuildHandles == old(rebuildHandles) && poolCount == old(poolCount) && nextId == old(nextId)
    }

    predicate Live(id: nat)
      reads this
    {
      Contains(items, id)
    }

    function Record(id: nat): Item
      reads this
      requires Live(id)
    {
      items[IndexOf(items, id)]
    }

    /** init: no records, every slot hidden, nothing pending. */
    constructor(maxItems: nat, zOrders: int)
      requires maxItems > 0 && zOrders > 0
      ensures Valid() && Synced() && Settled() && fresh(handles)
      ensures items == [] && transfers == [] && poolCount == 0
      ensures handles[..] == hwTable == seq(HwSpritesCount, _ => HiddenSlot)
      ensures !checkItemsOnScreen && !rebuildHandles && lastVisibleItemsCount == 0
    {
      this.maxItems := maxItems;
      this.zOrders := zOrders;
      handles := new Slot[HwSpritesCount](_ => HiddenSlot);
      items := [];
      hwTable := seq(HwSpritesCount, _ => HiddenSlot);
      transfers := [];
      firstIndexToCommit := HwSpritesCount;
      lastIndexToCommit := 0;
      lastVisibleItemsCount := 0;
      checkItemsOnScreen := false;
      rebuildHandles := false;
      poolCount := 0;
      nextId := 0;
    }

    /** Applies edit e to record k, with _update_handles when the edit
        touches the record. */
    method Apply(k: nat, e: Edit)
      requires Valid() && k < |items| && Admissible(items[k], e)
      modifies this, handles
      ensures Snapshot() == Edited(old(Snapshot()), k, e)
      ensures Valid() && KeepsSync()
    {
      EditKeepsInvariants(Snapshot(), maxItems, zOrders, k, e);
      assert ItemValid(items[k], lastVisibleItemsCount, zOrders);
      var index := items[k].handlesIndex;
      items := items[k := e.item];
      if e.touched && index >= 0 {
        handles[index] := Entry(e.item.attrs);
        firstIndexToCommit := Min(firstIndexToCommit, index);
        lastIndexToCommit := Max(lastIndexToCommit, index);
      }
      if e.check {
        checkItemsOnScreen := true;
      }
      if e.rebuild {
        rebuildHandles := true;
      }
    }

    /** Applies es[i] to record i, in traversal order. */
    method ApplyAll(es: seq<Edit>)
      requires Valid() && |es| <= |items|
      requires forall i :: 0 <= i < |es| ==> Admissible(items[i], es[i])
      modifies this, handles
      ensures Snapshot() == EditedAll(old(Snapshot()), es)
      ensures Valid() && KeepsSync()
    {
      ghost var s := Snapshot();
      var k := 0;
      while k < |es|
        invariant 0 <= k <= |es| && Valid()
        invariant Snapshot() == EditedAll(s, es[..k])
      {
        EditedAllStep(s, es, k);
        Apply(k, es[k]);
        k := k + 1;
      }
      assert es[..|es|] == es;
      EditedAllKeepsInvariants(s, maxItems, zOrders, es);
    }

    method SetTilesPtr(id: nat, tiles: TilesRef)
      requires Valid() && Live(id)
      requires tiles.id != Record(id).tiles.id ==> tiles.tilesCount == Record(id).tiles.tilesCount
      modifies this, handles
      ensures Snapshot() == Edited(old(Snapshot()), old(IndexOf(items, id)), old(TilesSet(Record(id), tiles)))
      ensures Valid() && KeepsSync()
    {
      var k := IndexOf(items, id);
      Apply(k, TilesSet(items[k], tiles));
    }

    method SetPalettePtr(id: nat, palette: PaletteRef)
      requires Valid() && Live(id)
      requires palette.id != Record(id).palette.id ==>
                 palette.eightBitsPerPixel == Record(id).palette.eightBitsPerPixel
      modifies this, handles
      ensures Snapshot() == Edited(old(Snapshot()), old(IndexOf(items, id)), old(PaletteSet(Record(id), palette)))
      ensures Valid() && KeepsSync()
    {
      var k := IndexOf(items, id);
      Apply(k, PaletteSet(items[k], palette));
    }

    method SetPosition(id: nat, position: FixedPoint, camera: FixedPoint)
      requires Valid() && Live(id)
      modifies this, handles
      ensures Snapshot() == Edited(old(Snapshot()), old(IndexOf(items, id)), old(Placed(Record(id), position, camera)))
      ensures Valid() && KeepsSync()
    {
      var k := IndexOf(items, id);
      Apply(k, Placed(items[k], position, camera));
    }

    method SetHorizontalFlip(id: nat, flip: bool)
      requires Valid() && Live(id)
      modifies this, handles
      ensures Snapshot() == Edited(old(Snapshot()), old(IndexOf(items, id)), old(HorizontalFlipSet(Record(id), flip)))
      ensures Valid() && KeepsSync()
    {
      var k := IndexOf(items, id);
      Apply(k, HorizontalFlipSet(items[k], flip));
    }

    method SetVerticalFlip(id: nat, flip: bool)
      requires Valid() && Live(id)
      modifies this, handles
      ensures Snapshot() == Edited(old(Snapshot()), old(IndexOf(items, id)), old(VerticalFlipSet(Record(id), flip)))
      ensures Valid() && KeepsSync()
    {
      var k := IndexOf(items, id);
      Apply(k, VerticalFlipSet(items[k], flip));
    }

    method SetMosaicEnabled(id: nat, mosaic: bool)
      requires Valid() && Live(id)
      modifies this, handles
      ensures Snapshot() == Edited(old(Snapshot()), old(IndexOf(items, id)), old(MosaicSet(Record(id), mosaic)))
      ensures Valid() && KeepsSync()
    {
      var k := IndexOf(items, id);
      Apply(k, MosaicSet(items[k], mosaic));
    }

    method SetDoubleSizeMode(id: nat, mode: DoubleSizeMode, mats: AffineMats, camera: FixedPoint)
      requires Valid() && Live(id)
      modifies this, handles
      ensures Snapshot() == Edited(old(Snapshot()), old(IndexOf(items, id)),
                                   old(DoubleSizeModeSet(Record(id), mode, mats, camera)))
      ensures Valid() && KeepsSync()
    {
      var k := IndexOf(items, id);
      Apply(k, DoubleSizeModeSet(items[k], mode, mats, camera));
    }

    method SetVisible(id: nat, visible: bool)
      requires Valid() && Live(id)
      modifies this, handles
      ensures Snapshot() == Edited(old(Snapshot()), old(IndexOf(items, id)), old(VisibleSet(Record(id), visible)))
      ensures Valid() && KeepsSync()
    {
      var k := IndexOf(items, id);
      Apply(k, VisibleSet(items[k], visible));
    }

    method SetIgnoreCamera(id: nat, ignoreCamera: bool, camera: FixedPoint)
      requires Valid() && Live(id)
      modifies this, handles
      ensures Snapshot() == Edited(old(Snapshot()), old(IndexOf(items, id)),
                                   old(IgnoreCameraSet(Record(id), ignoreCamera, camera)))
      ensures Valid() && KeepsSync()
    {
      var k := IndexOf(items, id);
      Apply(k, IgnoreCameraSet(items[k], ignoreCamera, camera));
    }

    method SetAffineMatPtr(id: nat, mat: Option<nat>, mats: AffineMats, camera: FixedPoint)
      requires Valid() && Live(id)
      modifies this, handles
      ensures Snapshot() == Edited(old(Snapshot()), old(IndexOf(items, id)),
                                   old(AffineMatSet(Record(id), mat, mats, camera)))
      ensures Valid() && KeepsSync()
    {
      var k := IndexOf(items, id);
      Apply(k, AffineMatSet(items[k], mat, mats, camera));
    }

    method SetRemoveAffineMatWhenNotNeeded(id: nat, remove: bool, mats: AffineMats, camera: FixedPoint)
      requires Valid() && Live(id)
      modifies this, handles
      ensures Snapshot() == Edited(old(Snapshot()), old(IndexOf(items, id)),
                                   old(RemoveAffineMatWhenNotNeededSet(Record(id), remove, mats, camera)))
      ensures Valid() && KeepsSync()
    {
      var k := IndexOf(items, id);
      Apply(k, RemoveAffineMatWhenNotNeededSet(items[k], remove, mats, camera));
    }

    /** Moves record k to a new draw-order key: erase, update_sort_key and
        insert, with a rebuild request when it is on screen. */
    method Reorder(k: nat, key: SortKey)
      requires Valid() && k < |items|
      requires 0 <= key.bgPriority <= MaxBgPriority && 0 <= key.zOrder < zOrders
      modifies this
      ensures Snapshot() == Reordered(old(Snapshot()), k, key)
      ensures Valid() && KeepsSync()
    {
      ReorderKeepsInvariants(Snapshot(), maxItems, zOrders, k, key);
      var item := items[k];
      items := Insert(RemoveAt(items, k), item.(key := key, attrs := item.attrs.(bgPriority := key.bgPriority)));
      if item.onScreen {
        rebuildHandles := true;
      }
    }

    method SetBgPriority(id: nat, bgPriority: int)
      requires Valid() && Live(id) && 0 <= bgPriority <= MaxBgPriority
      modifies this
      ensures Snapshot() == BgPrioritySet(old(Snapshot()), old(IndexOf(items, id)), bgPriority)
      ensures Valid() && KeepsSync()
    {
      var k := IndexOf(items, id);
      if bgPriority != items[k].key.bgPriority {
        Reorder(k, items[k].key.(bgPriority := bgPriority));
      }
    }

    method SetZOrder(id: nat, zOrder: int)
      requires Valid() && Live(id) && 0 <= zOrder < zOrders
      modifies this
      ensures Snapshot() == ZOrderSet(old(Snapshot()), old(IndexOf(items, id)), zOrder)
      ensures Valid() && KeepsSync()
    {
      var k := IndexOf(items, id);
      if zOrder != items[k].key.zOrder {
        assert ItemValid(items[k], lastVisibleItemsCount, zOrders);
        Reorder(k, items[k].key.(zOrder := zOrder));
      }
    }

    /** create: none when the pool is full or the builder lacks tiles or a
        palette; otherwise a new record under a fresh id. */
    method Create(b: Builder, mats: AffineMats, camera: FixedPoint) returns (id: Option<nat>)
      requires Valid() && BuilderValid(b, zOrders)
      modifies this
      ensures id == CreatedId(old(Snapshot()), b, maxItems)
      ensures Snapshot() == Created(old(Snapshot()), b, maxItems, mats, camera)
      ensures Valid() && KeepsSync()
      ensures id.Some? ==> !old(Live(id.value)) && Live(id.value)
    {
      ghost var s := Snapshot();
      CreateKeepsInvariants(s, b, maxItems, zOrders, mats, camera);
      CreateAddsOneRecord(s, b, maxItems, zOrders, mats, camera);
      if poolCount >= maxItems {
        return None;
      }
      if b.tiles.None? {
        return None;
      }
      if b.palette.None? {
        return None;
      }
      var item := NewItem(b, nextId, b.tiles.value, b.palette.value, mats, camera);
      items := Insert(items, item);
      poolCount := poolCount + 1;
      id := Some(nextId);
      nextId := nextId + 1;
      if b.visible {
        checkItemsOnScreen := true;
      }
      assert Snapshot() == Created(s, b, maxItems, mats, camera);
    }

    method IncreaseUsages(id: nat)
      requires Valid() && Live(id)
      modifies this
      ensures Snapshot() == Retained(old(Snapshot()), old(IndexOf(items, id)))
      ensures Valid() && KeepsSync() && Live(id)
    {
      var k := IndexOf(items, id);
      RetainKeepsInvariants(Snapshot(), maxItems, zOrders, k);
      items := items[k := items[k].(usages := items[k].usages + 1)];
      assert items[k].id == id;
    }

    /** decrease_usages, with the record's pool slot returned when its last
        use is released. */
    method DecreaseUsages(id: nat)
      requires Valid() && Live(id)
      modifies this
      ensures Snapshot() == Released(old(Snapshot()), old(IndexOf(items, id)))
      ensures Valid() && KeepsSync()
      ensures Live(id) <==> old(Record(id).usages) > 1
    {
      var k := IndexOf(items, id);
      ghost var s := Snapshot();
      ReleaseKeepsInvariants(s, maxItems, zOrders, k);
      ReleaseRemovesLastUse(s, maxItems, zOrders, k);
      var item := items[k];
      if item.usages > 1 {
        items := items[k := item.(usages := item.usages - 1)];
      } else {
        if item.onScreen {
          rebuildHandles := true;
        }
        items := RemoveAt(items, k);
        poolCount := poolCount - 1;
      }
      assert Snapshot() == Released(s, k);
    }

    method UpdateCamera(camera: FixedPoint)
      requires Valid()
      modifies this, handles
      ensures Snapshot() == CameraMoved(old(Snapshot()), camera)
      ensures Valid() && KeepsSync()
    {
      ApplyAll(CameraEdits(items, camera));
    }

    /** _check_affine_mats; `mats` is what the matrix manager reports. */
    method CheckAffineMats(mats: AffineMats, camera: FixedPoint)
      requires Valid()
      modifies this, handles
      ensures Snapshot() == MatsChecked(old(Snapshot()), mats, camera)
      ensures Valid() && KeepsSync()
    {
      if mats.updated {
        ApplyAll(AffineMatEdits(items, mats, camera));
      }
    }

    /** _check_items_on_screen */
    method CheckItemsOnScreen(camera: FixedPoint, displayWidth: int, displayHeight: int)
      requires Valid()
      modifies this
      ensures Snapshot() == Checked(old(Snapshot()), camera, displayWidth, displayHeight)
      ensures Valid() && KeepsSync()
    {
      ghost var s := Snapshot();
      CheckKeepsInvariants(s, maxItems, zOrders, camera, displayWidth, displayHeight);
      if checkItemsOnScreen {
        var rebuild := rebuildHandles;
        checkItemsOnScreen := false;
        var k := 0;
        while k < |items|
          invariant 0 <= k <= |items| == |old(items)|
          invariant OthersUnchanged() && !checkItemsOnScreen
          invariant forall i :: 0 <= i < k ==> items[i] == CheckItem(old(items)[i], camera, displayWidth, displayHeight)
          invariant forall i :: k <= i < |items| ==> items[i] == old(items)[i]
          invariant rebuild == (old(rebuildHandles) ||
                                exists i :: 0 <= i < k && ChangesOnScreen(old(items)[i], camera, displayWidth, displayHeight))
        {
          var checked, changed := EvaluateOnScreen(items[k], camera, displayWidth, displayHeight);
          items := items[k := checked];
          if changed {
            rebuild := true;
          }
          k := k + 1;
        }
        rebuildHandles := rebuild;
        assert items == CheckedItems(old(items), camera, displayWidth, displayHeight);
        assert rebuild == (old(rebuildHandles) || AnyChanges(old(items), camera, displayWidth, displayHeight));
        assert Snapshot() == s.(items := items, check := false, rebuild := rebuild);
      }
    }

    /** hw::sprites::hide of `count` slots from `first`. */
    method Hide(first: int, count: int)
      requires 0 <= first && 0 <= count && first + count <= handles.Length
      modifies handles
      ensures forall v :: 0 <= v < handles.Length ==>
                handles[v] == if first <= v < first + count then HiddenSlot else old(handles[v])
    {
      var v := first;
      while v < first + count
        invariant first <= v <= first + count
        invariant forall u :: 0 <= u < handles.Length ==>
                    handles[u] == if first <= u < v then HiddenSlot else old(handles[u])
      {
        handles[v] := HiddenSlot;
        v := v + 1;
      }
    }

    /** The loop of _rebuild_handles: the on-screen records are copied to
        slots 0, 1, ... in traversal order and take those slots; the others
        take none. Returns how many were copied. */
    method AssignSlots() returns (visibleItemsCount: int)
      requires |Visible(items)| <= handles.Length
      modifies this`items, handles
      ensures visibleItemsCount == |Visible(old(items))|
      ensures items == Reindexed(old(items))
      ensures forall v :: 0 <= v < handles.Length ==>
                handles[v] == if v < visibleItemsCount then Entry(Visible(old(items))[v]) else old(handles[v])
    {
      var before := items;
      ghost var shown := Visible(before);
      var slotted := before;
      ghost var table := handles[..];
      visibleItemsCount := 0;
      var k := 0;
      while k < |before|
        invariant 0 <= k <= |before| == |slotted|
        invariant visibleItemsCount == |Visible(before[..k])| <= |shown|
        invariant forall i :: 0 <= i < k ==> slotted[i] == before[i].(handlesIndex := SlotOf(before, i))
        invariant forall i :: k <= i < |before| ==> slotted[i] == before[i]
        invariant forall v :: 0 <= v < visibleItemsCount ==> handles[v] == Entry(shown[v])
        invariant forall v :: visibleItemsCount <= v < handles.Length ==> handles[v] == table[v]
      {
        VisibleStep(before, k);
        var item := before[k];
        if item.onScreen {
          VisibleAt(before, k);
          handles[visibleItemsCount] := Entry(item.attrs);
          slotted := slotted[k := item.(handlesIndex := visibleItemsCount)];
          visibleItemsCount := visibleItemsCount + 1;
        } else {
          slotted := slotted[k := item.(handlesIndex := -1)];
        }
        k := k + 1;
      }
      assert before[..k] == before;
      items := slotted;
    }

    /** _rebuild_handles; the source asserts that the on-screen records fit
        the hardware table. */
    method RebuildHandles()
      requires Valid() && (rebuildHandles ==> |Visible(items)| <= HwSpritesCount)
      modifies this, handles
      ensures Snapshot() == Rebuilt(old(Snapshot()))
      ensures Valid() && (old(Synced()) && old(Settled()) ==> Synced())
    {
      ghost var s := Snapshot();
      RebuildKeepsConsistent(s, maxItems, zOrders);
      if Synced() && Settled() {
        RebuildKeepsInSync(s, maxItems, zOrders);
      }
      if rebuildHandles {
        Rebuild();
      }
    }

    /** The body of _rebuild_handles once a rebuild is requested: the slots
        are reassigned, the slots no longer used are hidden and the range
        to commit is set. */
    method Rebuild()
      requires rebuildHandles && |Visible(items)| <= HwSpritesCount
      requires handles.Length == HwSpritesCount && 0 <= lastVisibleItemsCount <= HwSpritesCount
      modifies this`items, this`rebuildHandles, this`lastVisibleItemsCount, this`firstIndexToCommit,
               this`lastIndexToCommit, handles
      ensures Snapshot() == Rebuilt(old(Snapshot()))
    {
      ghost var s := Snapshot();
      ghost var shown := Visible(items);
      ghost var table := handles[..];
      var visibleItemsCount := AssignSlots();
      rebuildHandles := false;
      ghost var placed := handles[..];
      Retire(visibleItemsCount);
      assert handles[..] == RebuiltTable(table, shown, s.lastVisible) by {
        assert forall v :: 0 <= v < HwSpritesCount ==> placed[v] == if v < |shown| then Entry(shown[v]) else table[v];
      }
    }

    /** The tail of the rebuild: the slots shown last time and not now are
        hidden, the visible count is kept and the range to commit is set. */
    method Retire(visibleItemsCount: int)
      requires 0 <= visibleItemsCount <= HwSpritesCount && handles.Length == HwSpritesCount
      requires 0 <= lastVisibleItemsCount <= HwSpritesCount
      modifies this`lastVisibleItemsCount, this`firstIndexToCommit, this`lastIndexToCommit, handles
      ensures lastVisibleItemsCount == visibleItemsCount
      ensures forall v :: 0 <= v < handles.Length ==>
                handles[v] == if visibleItemsCount <= v < old(lastVisibleItemsCount) then HiddenSlot else old(handles[v])
      ensures var top := Max(visibleItemsCount, old(lastVisibleItemsCount));
              Pending(firstIndexToCommit, lastIndexToCommit) ==
                if top > 0 then Pending(0, top - 1) else old(Pending(firstIndexToCommit, lastIndexToCommit))
    {
      var lastVisible := lastVisibleItemsCount;
      var itemsToHide := lastVisible - visibleItemsCount;
      var count := visibleItemsCount;
      lastVisibleItemsCount := visibleItemsCount;
      if itemsToHide > 0 {
        Hide(visibleItemsCount, itemsToHide);
        count := lastVisible;
      }
      if count != 0 {
        firstIndexToCommit := 0;
        lastIndexToCommit := count - 1;
      }
    }

    /** update: the matrix check, the on-screen check, then the rebuild. */
    method Update(mats: AffineMats, camera: FixedPoint, displayWidth: int, displayHeight: int)
      requires Valid()
      requires var s := Checked(MatsChecked(Snapshot(), mats, camera), camera, displayWidth, displayHeight);
               s.rebuild ==> |Visible(s.items)| <= HwSpritesCount
      modifies this, handles
      ensures Snapshot() == Rebuilt(Checked(MatsChecked(old(Snapshot()), mats, camera), camera, displayWidth, displayHeight))
      ensures Valid() && (old(Synced()) && old(Settled()) ==> Synced())
    {
      CheckAffineMats(mats, camera);
      CheckItemsOnScreen(camera, displayWidth, displayHeight);
      RebuildHandles();
    }

    /** commit; `data` is what retrieve_commit_data reports. */
    method Commit(data: Option<CommitData>)
      requires Valid() && CommitDataValid(data)
      modifies this
      ensures Snapshot() == Committed(old(Snapshot()), data)
      ensures Valid() && Settled() && firstIndexToCommit == HwSpritesCount && lastIndexToCommit == 0
      ensures old(Synced()) ==> Synced() && hwTable == handles[..]
      ensures old(Synced()) && !rebuildHandles ==> |Visible(items)| <= HwSpritesCount && hwTable == DrawTable(items)
    {
      ghost var s := Snapshot();
      CommitKeepsConsistent(s, maxItems, zOrders, data);
      if Synced() {
        CommitFlushes(s, maxItems, zOrders, data);
        if !rebuildHandles {
          CommitShowsDrawOrder(s, maxItems, zOrders, data);
        }
      }
      Flush(data);
    }

    /** The transfer of commit: the pending range merged with the affine
        matrices' range is copied to the hardware and the range reset. */
    method Flush(data: Option<CommitData>)
      requires handles.Length == HwSpritesCount && |hwTable| == HwSpritesCount && CommitDataValid(data)
      requires PendingValid(Pending(firstIndexToCommit, lastIndexToCommit))
      modifies this
      ensures Snapshot() == Committed(old(Snapshot()), data)
    {
      ghost var range := CommitRange(Pending(firstIndexToCommit, lastIndexToCommit), data);
      var first := firstIndexToCommit;
      var last := lastIndexToCommit;
      if data.Some? {
        var multiplier := HwSpritesCount / HwAffineMatsCount;
        var firstMat := data.value.offset * multiplier;
        var lastMat := firstMat + data.value.count * multiplier - 1;
        first := Min(first, firstMat);
        last := Max(last, lastMat);
      }
      if first < HwSpritesCount {
        var count := last - first + 1;
        HwCommit(first, count);
        firstIndexToCommit := HwSpritesCount;
        lastIndexToCommit := 0;
        assert hwTable == Committed(old(Snapshot()), data).hw;
      }
    }

    /** hw::sprites::commit: `count` entries of the table from slot `first`
        reach the hardware, and the transfer is logged. */
    method HwCommit(first: int, count: int)
      requires 0 <= first && 0 <= count && first + count <= handles.Length == |hwTable|
      modifies this`hwTable, this`transfers
      ensures |hwTable| == |old(hwTable)|
      ensures forall v :: 0 <= v < |hwTable| ==>
                hwTable[v] == if first <= v < first + count then handles[v] else old(hwTable)[v]
      ensures transfers == old(transfers) + [Transfer(first, count)]
    {
      var v := first;
      while v < first + count
        invariant first <= v <= first + count && |hwTable| == |old(hwTable)| && transfers == old(transfers)
        invariant forall u :: 0 <= u < |hwTable| ==>
                    hwTable[u] == if first <= u < v then handles[u] else old(hwTable)[u]
      {
        hwTable := hwTable[v := handles[v]];
        v := v + 1;
      }
      transfers := transfers + [Transfer(first, count)];
    }
  }

  /** The body of the _check_items_on_screen loop for one record: a record
      waiting for the test is measured from its effective position, loses
      its request, and reports whether its on-screen state changed. */
  method EvaluateOnScreen(item: Item, camera: FixedPoint, displayWidth: int, displayHeight: int)
    returns (checked: Item, changed: bool)
    ensures checked == CheckItem(item, camera, displayWidth, displayHeight)
    ensures changed == ChangesOnScreen(item, camera, displayWidth, displayHeight)
  {
    checked := item;
    changed := false;
    if checked.checkOnScreen {
      var position := checked.position;
      if !checked.ignoreCamera {
        position := Sub(position, camera);
      }
      var dimensions := SpriteDimensions(checked.attrs);
      var x := Integer(position.x) - dimensions.width / 2;
      var onScreen := false;
      checked := checked.(checkOnScreen := false);
      if x + dimensions.width > 0 && x < displayWidth {
        var y := Integer(position.y) - dimensions.height / 2;
        if y + dimensions.height > 0 && y < displayHeight {
          onScreen := true;
        }
      }
      if onScreen != checked.onScreen {
        checked := checked.(onScreen := onScreen);
        changed := true;
      }
    }
  }
}
