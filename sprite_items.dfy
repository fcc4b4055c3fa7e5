/** The per-sprite record of the sprite manager (sprites_manager_item), the
    hardware attribute block it mirrors, the on-screen test, and every change
    the manager makes to one record, stated as a value-level `Edit`. */
module SpriteItems {
  import opened Wrappers
  import opened FixedPoints

  /** hw::sprites::count(): entries of the hardware attribute table. */
  const HwSpritesCount: int := 128
  /** hw::sprite_affine_mats::count(): affine matrices interleaved in that table. */
  const HwAffineMatsCount: int := 32
  /** hw::sprites::max_bg_priority() */
  const MaxBgPriority: int := 3

  datatype Shape = Square | Wide | Tall
  datatype Size = Small | Normal | Big | Huge
  datatype DoubleSizeMode = Auto | Enabled | Disabled

  /** A sprite's hardware attributes (hw::sprites::handle). */
  datatype Attributes = Attributes(
    x: int, y: int, tilesId: nat, paletteId: nat, bgPriority: int,
    horizontalFlip: bool, verticalFlip: bool, mosaic: bool,
    affineMat: Option<nat>, doubleSize: bool, shape: Shape, size: Size)

  /** An entry of the manager's copy of the hardware table. */
  datatype Slot = HiddenSlot | Entry(attrs: Attributes)

  datatype Dimensions = Dimensions(width: int, height: int)

  /** hw::sprites::dimensions: the footprint in pixels, doubled when the
      double-size bit is set. */
  function SpriteDimensions(a: Attributes): (d: Dimensions)
    ensures 8 <= d.width <= 128 && 8 <= d.height <= 128
  {
    var base: Dimensions :=
      match a.shape
      case Square =>
        (match a.size
         case Small => Dimensions(8, 8)
         case Normal => Dimensions(16, 16)
         case Big => Dimensions(32, 32)
         case Huge => Dimensions(64, 64))
      case Wide =>
        (match a.size
         case Small => Dimensions(16, 8)
         case Normal => Dimensions(32, 8)
         case Big => Dimensions(32, 16)
         case Huge => Dimensions(64, 32))
      case Tall =>
        (match a.size
         case Small => Dimensions(8, 16)
         case Normal => Dimensions(8, 32)
         case Big => Dimensions(16, 32)
         case Huge => Dimensions(32, 64));
    if a.doubleSize then Dimensions(2 * base.width, 2 * base.height) else base
  }

  datatype TilesRef = TilesRef(id: nat, tilesCount: nat)
  datatype PaletteRef = PaletteRef(id: nat, eightBitsPerPixel: bool)

  /** The draw-order key built by update_sort_key. */
  datatype SortKey = SortKey(bgPriority: int, zOrder: int)

  /** Draw order: bg priority first, then z order. */
  predicate KeyLe(a: SortKey, b: SortKey) {
    a.bgPriority < b.bgPriority || (a.bgPriority == b.bgPriority && a.zOrder <= b.zOrder)
  }

  /** One live sprite (sprites_manager_item). `handlesIndex` is its slot in
      the hardware table, or -1. */
  datatype Item = Item(
    id: nat, usages: nat, position: FixedPoint, attrs: Attributes, key: SortKey,
    tiles: TilesRef, palette: PaletteRef, affineMat: Option<nat>,
    doubleSizeMode: DoubleSizeMode, visible: bool, onScreen: bool, checkOnScreen: bool,
    ignoreCamera: bool, removeAffineMatWhenNotNeeded: bool, handlesIndex: int)

  /** What the sprite affine matrix manager currently reports. */
  datatype AffineMats = AffineMats(
    updated: bool, updatedIds: set<nat>, identity: set<nat>, doubleSize: set<nat>,
    horizontalFlip: set<nat>, verticalFlip: set<nat>)

  /** An axis-aligned pixel rectangle. */
  datatype Rect = Rect(left: int, top: int, width: int, height: int)

  predicate InRect(r: Rect, px: int, py: int) {
    r.left <= px < r.left + r.width && r.top <= py < r.top + r.height
  }

  /** The item position the on-screen test and the hardware position use:
      the camera position is subtracted unless the item ignores the camera. */
  function EffectivePosition(item: Item, camera: FixedPoint): FixedPoint {
    if item.ignoreCamera then item.position else Sub(item.position, camera)
  }

  /** The pixels the sprite covers, centred on its effective position. */
  function Footprint(item: Item, camera: FixedPoint): Rect {
    var p := EffectivePosition(item, camera);
    var d := SpriteDimensions(item.attrs);
    Rect(Integer(p.x) - d.width / 2, Integer(p.y) - d.height / 2, d.width, d.height)
  }

  /** The on-screen test of _check_items_on_screen, with half-open intervals. */
  predicate OnScreen(item: Item, camera: FixedPoint, displayWidth: int, displayHeight: int) {
    var f := Footprint(item, camera);
    f.left + f.width > 0 && f.left < displayWidth && f.top + f.height > 0 && f.top < displayHeight
  }

  /** The test is exact: an item is on screen iff its footprint shares a pixel
      with the display rectangle [0, width) x [0, height). */
  lemma OnScreenIffFootprintMeetsDisplay(item: Item, camera: FixedPoint, displayWidth: int,
                                         displayHeight: int)
    requires displayWidth > 0 && displayHeight > 0
    ensures OnScreen(item, camera, displayWidth, displayHeight) <==>
            exists px, py :: InRect(Footprint(item, camera), px, py) &&
                             InRect(Rect(0, 0, displayWidth, displayHeight), px, py)
  {
    var f := Footprint(item, camera);
    if OnScreen(item, camera, displayWidth, displayHeight) {
      var px := if f.left < 0 then 0 else f.left;
      var py := if f.top < 0 then 0 else f.top;
      assert InRect(f, px, py) && InRect(Rect(0, 0, displayWidth, displayHeight), px, py);
    }
  }

  /** Scenario: a footprint starting exactly at the right edge is off screen. */
  lemma {:induction false} RightEdgeIsOffScreen(item: Item, camera: FixedPoint, displayWidth: int,
                                                displayHeight: int)
    requires Footprint(item, camera).left == displayWidth
    ensures !OnScreen(item, camera, displayWidth, displayHeight)
  {
  }

  /** The state of the item after the on-screen test, if it was requested. */
  function CheckItem(item: Item, camera: FixedPoint, displayWidth: int, displayHeight: int): (r: Item)
    ensures item.checkOnScreen ==> r == item.(checkOnScreen := false,
                                               onScreen := OnScreen(item, camera, displayWidth, displayHeight))
    ensures !item.checkOnScreen ==> r == item
  {
    if item.checkOnScreen then
      item.(checkOnScreen := false, onScreen := OnScreen(item, camera, displayWidth, displayHeight))
    else item
  }

  /** Whether checking the item changes its on-screen state. */
  predicate ChangesOnScreen(item: Item, camera: FixedPoint, displayWidth: int, displayHeight: int) {
    item.checkOnScreen && OnScreen(item, camera, displayWidth, displayHeight) != item.onScreen
  }

  /** A change to one record. `touched`: _update_handles is run on the new
      record (its attributes are copied to its slot and the slot is marked for
      commit); `check`: the manager-wide on-screen check is requested;
      `rebuild`: the handles rebuild is requested. */
  datatype Edit = Edit(item: Item, touched: bool, check: bool, rebuild: bool)

  function NoEdit(item: Item): Edit {
    Edit(item, false, false, false)
  }

  /** An edit keeps the record's identity, draw-order key, usages and slot. */
  predicate KeepsIdentity(before: Item, after: Item) {
    after.id == before.id && after.key == before.key && after.usages == before.usages &&
    after.handlesIndex == before.handlesIndex && after.attrs.bgPriority == before.attrs.bgPriority
  }

  /** A hidden sprite is never on screen and never waits for an on-screen check. */
  predicate VisibilityConsistent(item: Item) {
    !item.visible ==> !item.onScreen && !item.checkOnScreen
  }

  /** An edit keeps the hardware table in step with the record: either a
      rebuild is requested, or the on-screen state is the same and new
      attributes of an on-screen record reach its slot. */
  predicate KeepsTable(before: Item, e: Edit) {
    e.rebuild ||
    (e.item.onScreen == before.onScreen &&
     (before.onScreen ==> e.touched || e.item.attrs == before.attrs))
  }

  /** An item's own check request is matched by the manager-wide one. */
  predicate KeepsCheckRequest(before: Item, e: Edit) {
    e.item.checkOnScreen ==> e.check || before.checkOnScreen
  }

  predicate Admissible(before: Item, e: Edit) {
    KeepsIdentity(before, e.item) && KeepsTable(before, e) && KeepsCheckRequest(before, e) &&
    (VisibilityConsistent(before) ==> VisibilityConsistent(e.item))
  }

  /** set_position: the hardware position is the integer part of the
      effective position; a visible item asks for an on-screen check. */
  function Placed(item: Item, position: FixedPoint, camera: FixedPoint): (e: Edit)
    ensures Admissible(item, e) && e.touched && !e.rebuild
    ensures e.item.position == position && e.check == item.visible
    ensures var p := EffectivePosition(e.item, camera);
            e.item.attrs == item.attrs.(x := Integer(p.x), y := Integer(p.y))
    ensures e.item.checkOnScreen == (item.checkOnScreen || item.visible)
    ensures e.item == item.(position := position, attrs := e.item.attrs, checkOnScreen := e.item.checkOnScreen)
  {
    var realPosition := if item.ignoreCamera then position else Sub(position, camera);
    var placed := item.(attrs := item.attrs.(x := Integer(realPosition.x), y := Integer(realPosition.y)),
                        position := position);
    Edit(placed.(checkOnScreen := item.checkOnScreen || item.visible), true, item.visible, false)
  }

  /** sprites_manager_item::double_size(): whether the attached matrix is drawn
      with the double-size bit, by the item's mode. */
  function WantsDoubleSize(item: Item, mats: AffineMats): (r: bool)
    requires item.affineMat.Some?
    // the mode forces the bit either way; only in auto mode does the matrix decide
    ensures item.doubleSizeMode == Enabled ==> r
    ensures item.doubleSizeMode == Disabled ==> !r
    ensures item.doubleSizeMode == Auto ==> (r <==> item.affineMat.value in mats.doubleSize)
  {
    match item.doubleSizeMode
    case Auto => item.affineMat.value in mats.doubleSize
    case Enabled => true
    case Disabled => false
  }

  /** _assign_affine_mat: the matrix is attached, the double-size bit follows
      the mode, and the position is re-placed when the bit is set. */
  function AffineMatAssigned(item: Item, id: nat, mats: AffineMats, camera: FixedPoint): (e: Edit)
    ensures Admissible(item, e) && e.touched && !e.rebuild
    ensures e.item.affineMat == Some(id) && e.item.attrs.affineMat == Some(id)
    ensures e.item.attrs.doubleSize == WantsDoubleSize(item.(affineMat := Some(id)), mats)
    ensures e.item.position == item.position
    // a visible item asks for an on-screen check exactly when it is re-placed
    ensures e.check == (e.item.attrs.doubleSize && item.visible)
    // with the bit set the item goes through set_position; otherwise only the
    // matrix fields change and its slot is updated
    ensures var attached := item.(affineMat := Some(id));
            var marked := attached.(attrs := attached.attrs.(affineMat := Some(id),
                                                             doubleSize := WantsDoubleSize(attached, mats)));
            e == if marked.attrs.doubleSize then Placed(marked, item.position, camera)
                 else Edit(marked, true, false, false)
  {
    var attached := item.(affineMat := Some(id));
    var doubleSize := WantsDoubleSize(attached, mats);
    var marked := attached.(attrs := attached.attrs.(affineMat := Some(id), doubleSize := doubleSize));
    if doubleSize then Placed(marked, marked.position, camera) else Edit(marked, true, false, false)
  }

  /** _remove_affine_mat: the flips of the matrix go back to the attributes,
      the matrix and the double-size bit are dropped, and the position is
      re-placed when the bit was set. */
  function AffineMatRemoved(item: Item, mats: AffineMats, camera: FixedPoint): (e: Edit)
    requires item.affineMat.Some?
    ensures Admissible(item, e) && e.touched && !e.rebuild
    ensures e.item.affineMat == None && e.item.attrs.affineMat == None && !e.item.attrs.doubleSize
    ensures e.item.attrs.horizontalFlip == (item.affineMat.value in mats.horizontalFlip)
    ensures e.item.attrs.verticalFlip == (item.affineMat.value in mats.verticalFlip)
    ensures e.item.position == item.position
    // a visible item asks for an on-screen check exactly when it is re-placed
    ensures e.check == (item.attrs.doubleSize && item.visible)
    // with the bit set before, the item goes through set_position; otherwise
    // only the matrix fields change and its slot is updated
    ensures var id := item.affineMat.value;
            var removed := item.(affineMat := None,
                                 attrs := item.attrs.(horizontalFlip := id in mats.horizontalFlip,
                                                      verticalFlip := id in mats.verticalFlip,
                                                      affineMat := None, doubleSize := false));
            e == if item.attrs.doubleSize then Placed(removed, item.position, camera)
                 else Edit(removed, true, false, false)
  {
    var id := item.affineMat.value;
    var wasDoubleSize := item.attrs.doubleSize;
    var removed := item.(affineMat := None,
                         attrs := item.attrs.(horizontalFlip := id in mats.horizontalFlip,
                                              verticalFlip := id in mats.verticalFlip,
                                              affineMat := None, doubleSize := false));
    if wasDoubleSize then Placed(removed, removed.position, camera) else Edit(removed, true, false, false)
  }

  /** set_affine_mat_ptr. */
  function AffineMatSet(item: Item, mat: Option<nat>, mats: AffineMats, camera: FixedPoint): (e: Edit)
    ensures Admissible(item, e) && !e.rebuild
    // setting the matrix the item already holds, or none when it holds none, changes nothing
    ensures mat == item.affineMat ==> e == NoEdit(item)
    // no matrix: an attached one is removed
    ensures mat.None? ==> e.item.affineMat.None?
    // the detach policy never lets a newly set identity matrix in
    ensures (mat.Some? && mat != item.affineMat && item.removeAffineMatWhenNotNeeded &&
             mat.value in mats.identity) ==> e.item.affineMat.None?
    // otherwise the given matrix is attached
    ensures mat.Some? && !(item.removeAffineMatWhenNotNeeded && mat.value in mats.identity) ==>
            e.item.affineMat == mat
    // each branch is one of the two helpers, or no change at all
    ensures mat.Some? && mat != item.affineMat && !(item.removeAffineMatWhenNotNeeded && mat.value in mats.identity) ==>
            e == AffineMatAssigned(item, mat.value, mats, camera)
    ensures mat.Some? && mat != item.affineMat && item.removeAffineMatWhenNotNeeded && mat.value in mats.identity ==>
            e == if item.affineMat.Some? then AffineMatRemoved(item, mats, camera) else NoEdit(item)
    ensures mat.None? ==> e == if item.affineMat.Some? then AffineMatRemoved(item, mats, camera) else NoEdit(item)
  {
    match mat
    case Some(id) =>
      if item.affineMat == Some(id) then NoEdit(item)
      else if item.removeAffineMatWhenNotNeeded && id in mats.identity then
        if item.affineMat.Some? then AffineMatRemoved(item, mats, camera) else NoEdit(item)
      else AffineMatAssigned(item, id, mats, camera)
    case None =>
      if item.affineMat.Some? then AffineMatRemoved(item, mats, camera) else NoEdit(item)
  }

  /** The body of the _check_affine_mats loop for one item. */
  function AffineMatsChecked(item: Item, mats: AffineMats, camera: FixedPoint): (e: Edit)
    ensures Admissible(item, e) && !e.rebuild
    // items whose matrix did not change are left alone
    ensures (item.affineMat.None? || item.affineMat.value !in mats.updatedIds) ==> e == NoEdit(item)
    // an updated matrix that became identity is detached under the policy
    ensures item.affineMat.Some? && item.affineMat.value in mats.updatedIds &&
            item.removeAffineMatWhenNotNeeded && item.affineMat.value in mats.identity ==>
            e.item.affineMat.None?
    // in auto mode the double-size bit follows the matrix manager
    ensures item.affineMat.Some? && item.affineMat.value in mats.updatedIds &&
            !(item.removeAffineMatWhenNotNeeded && item.affineMat.value in mats.identity) &&
            item.doubleSizeMode == Auto ==>
            e.item.affineMat == item.affineMat &&
            e.item.attrs.doubleSize == (item.affineMat.value in mats.doubleSize)
    // the branches of the loop body
    ensures item.affineMat.Some? && item.affineMat.value in mats.updatedIds ==>
            var id := item.affineMat.value;
            var newDoubleSize := id in mats.doubleSize;
            e == if item.removeAffineMatWhenNotNeeded && id in mats.identity then AffineMatRemoved(item, mats, camera)
                 else if item.doubleSizeMode != Auto || item.attrs.doubleSize == newDoubleSize then NoEdit(item)
                 else Placed(item.(attrs := item.attrs.(affineMat := Some(id), doubleSize := newDoubleSize)),
                             item.position, camera)
  {
    if item.affineMat.None? || item.affineMat.value !in mats.updatedIds then NoEdit(item)
    else
      var id := item.affineMat.value;
      if item.removeAffineMatWhenNotNeeded && id in mats.identity then AffineMatRemoved(item, mats, camera)
      else if item.doubleSizeMode == Auto then
        var newDoubleSize := id in mats.doubleSize;
        if item.attrs.doubleSize != newDoubleSize then
          var marked := item.(attrs := item.attrs.(affineMat := Some(id), doubleSize := newDoubleSize));
          Placed(marked, marked.position, camera)
        else NoEdit(item)
      else NoEdit(item)
  }

  /** The body of the update_camera loop for one item. */
  function CameraUpdated(item: Item, camera: FixedPoint): (e: Edit)
    ensures Admissible(item, e) && !e.rebuild
    ensures item.ignoreCamera ==> e == NoEdit(item)
    ensures !item.ignoreCamera ==> e == Placed(item, item.position, camera)
  {
    if item.ignoreCamera then NoEdit(item) else Placed(item, item.position, camera)
  }

  /** set_tiles_ptr: a different tile set replaces the tiles index. */
  function TilesSet(item: Item, tiles: TilesRef): (e: Edit)
    ensures Admissible(item, e) && !e.check && !e.rebuild
    ensures e.item.tiles.id == tiles.id && e.item.attrs.tilesId == (if tiles.id == item.tiles.id then item.attrs.tilesId else tiles.id)
    ensures e.touched == (tiles.id != item.tiles.id)
    // different tiles: only the tiles and the attributes' tiles index change
    ensures tiles.id != item.tiles.id ==>
            e == Edit(item.(tiles := tiles, attrs := item.attrs.(tilesId := tiles.id)), true, false, false)
    ensures tiles.id == item.tiles.id ==> e == NoEdit(item)
  {
    if tiles.id != item.tiles.id then
      Edit(item.(tiles := tiles, attrs := item.attrs.(tilesId := tiles.id)), true, false, false)
    else NoEdit(item)
  }

  /** set_palette_ptr: a different palette replaces the palette index. */
  function PaletteSet(item: Item, palette: PaletteRef): (e: Edit)
    ensures Admissible(item, e) && !e.check && !e.rebuild
    ensures e.item.palette.id == palette.id
    ensures e.touched == (palette.id != item.palette.id)
    // a different palette: only the palette and the attributes' palette index change
    ensures palette.id != item.palette.id ==>
            e == Edit(item.(palette := palette, attrs := item.attrs.(paletteId := palette.id)), true, false, false)
    ensures palette.id == item.palette.id ==> e == NoEdit(item)
  {
    if palette.id != item.palette.id then
      Edit(item.(palette := palette, attrs := item.attrs.(paletteId := palette.id)), true, false, false)
    else NoEdit(item)
  }

  /** set_horizontal_flip: with a matrix attached the flip belongs to the
      matrix (the matrix manager reports it), otherwise to the attributes. */
  function HorizontalFlipSet(item: Item, flip: bool): (e: Edit)
    ensures Admissible(item, e) && !e.check && !e.rebuild
    ensures item.affineMat.Some? ==> e == NoEdit(item)
    ensures item.affineMat.None? ==> e.touched && e.item == item.(attrs := item.attrs.(horizontalFlip := flip))
  {
    if item.affineMat.Some? then NoEdit(item)
    else Edit(item.(attrs := item.attrs.(horizontalFlip := flip)), true, false, false)
  }

  /** set_vertical_flip, as set_horizontal_flip. */
  function VerticalFlipSet(item: Item, flip: bool): (e: Edit)
    ensures Admissible(item, e) && !e.check && !e.rebuild
    ensures item.affineMat.Some? ==> e == NoEdit(item)
    ensures item.affineMat.None? ==> e.touched && e.item == item.(attrs := item.attrs.(verticalFlip := flip))
  {
    if item.affineMat.Some? then NoEdit(item)
    else Edit(item.(attrs := item.attrs.(verticalFlip := flip)), true, false, false)
  }

  /** set_mosaic_enabled. */
  function MosaicSet(item: Item, mosaic: bool): (e: Edit)
    ensures Admissible(item, e) && e.touched && !e.check && !e.rebuild
    ensures e.item == item.(attrs := item.attrs.(mosaic := mosaic))
  {
    Edit(item.(attrs := item.attrs.(mosaic := mosaic)), true, false, false)
  }

  /** set_double_size_mode: the mode is stored; with a matrix attached, a
      change of the double-size bit re-places the item. */
  function DoubleSizeModeSet(item: Item, mode: DoubleSizeMode, mats: AffineMats, camera: FixedPoint): (e: Edit)
    ensures Admissible(item, e) && !e.rebuild
    ensures e.item.doubleSizeMode == mode
    ensures item.affineMat.Some? ==>
            e.item.attrs.doubleSize == WantsDoubleSize(item.(doubleSizeMode := mode), mats)
    ensures item.affineMat.None? ==> e == NoEdit(item.(doubleSizeMode := mode))
    // with a matrix: a changed bit goes through set_position, an unchanged one changes nothing else
    ensures item.affineMat.Some? ==>
            var moded := item.(doubleSizeMode := mode);
            var newDoubleSize := WantsDoubleSize(moded, mats);
            e == if item.attrs.doubleSize != newDoubleSize
                 then Placed(moded.(attrs := moded.attrs.(affineMat := item.affineMat, doubleSize := newDoubleSize)),
                             item.position, camera)
                 else NoEdit(moded)
    ensures e.check == (item.affineMat.Some? && item.visible &&
                        item.attrs.doubleSize != WantsDoubleSize(item.(doubleSizeMode := mode), mats))
  {
    var moded := item.(doubleSizeMode := mode);
    if moded.affineMat.Some? then
      var newDoubleSize := WantsDoubleSize(moded, mats);
      if moded.attrs.doubleSize != newDoubleSize then
        var marked := moded.(attrs := moded.attrs.(affineMat := moded.affineMat, doubleSize := newDoubleSize));
        Placed(marked, marked.position, camera)
      else NoEdit(moded)
    else NoEdit(moded)
  }

  /** set_visible: showing asks for an on-screen check; hiding takes the item
      off screen and asks for a rebuild if it was on screen. */
  function VisibleSet(item: Item, visible: bool): (e: Edit)
    ensures Admissible(item, e) && !e.touched
    ensures e.item.visible == visible && e.check == visible
    ensures visible ==> e.item == item.(visible := true, checkOnScreen := true) && !e.rebuild
    ensures !visible ==> !e.item.onScreen && !e.item.checkOnScreen && e.rebuild == item.onScreen
    ensures !visible ==> e.item == item.(visible := false, onScreen := false, checkOnScreen := false)
  {
    if visible then Edit(item.(visible := true, checkOnScreen := true), false, true, false)
    else Edit(item.(visible := false, onScreen := false, checkOnScreen := false), false, false, item.onScreen)
  }

  /** set_ignore_camera: the flag is stored and the item re-placed. */
  function IgnoreCameraSet(item: Item, ignoreCamera: bool, camera: FixedPoint): (e: Edit)
    ensures Admissible(item, e) && e.touched && !e.rebuild
    ensures e.item.ignoreCamera == ignoreCamera
    ensures e == Placed(item.(ignoreCamera := ignoreCamera), item.position, camera)
  {
    var flagged := item.(ignoreCamera := ignoreCamera);
    Placed(flagged, flagged.position, camera)
  }

  /** set_remove_affine_mat_when_not_needed: enabling the policy detaches an
      identity matrix at once. */
  function RemoveAffineMatWhenNotNeededSet(item: Item, remove: bool, mats: AffineMats,
                                           camera: FixedPoint): (e: Edit)
    ensures Admissible(item, e) && !e.rebuild
    ensures e.item.removeAffineMatWhenNotNeeded == remove
    ensures remove && e.item.affineMat.Some? ==> e.item.affineMat.value !in mats.identity
    ensures !(remove && item.affineMat.Some? && item.affineMat.value in mats.identity) ==>
            e == NoEdit(item.(removeAffineMatWhenNotNeeded := remove))
    // enabling it with an identity matrix attached detaches that matrix
    ensures remove && item.affineMat.Some? && item.affineMat.value in mats.identity ==>
            e == AffineMatRemoved(item.(removeAffineMatWhenNotNeeded := true), mats, camera) &&
            e.item.affineMat.None?
  {
    var flagged := item.(removeAffineMatWhenNotNeeded := remove);
    if remove && flagged.affineMat.Some? && flagged.affineMat.value in mats.identity then
      AffineMatRemoved(flagged, mats, camera)
    else NoEdit(flagged)
  }

  /** The hardware position written by set_position is the one the on-screen
      test measures from. */
  lemma {:induction false} PlacedAgreesWithFootprint(item: Item, position: FixedPoint, camera: FixedPoint)
    ensures var moved := Placed(item, position, camera).item;
            var d := SpriteDimensions(moved.attrs);
            Footprint(moved, camera) == Rect(moved.attrs.x - d.width / 2, moved.attrs.y - d.height / 2,
                                             d.width, d.height)
  {
    var moved := Placed(item, position, camera).item;
    assert moved.attrs.doubleSize == item.attrs.doubleSize;
  }
}
