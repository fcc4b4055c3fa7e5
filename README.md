# Butano sprite manager, audio manager and fixed point, in Dafny

This project models three parts of the Butano GBA game engine:

- **The sprite manager** (`btn::sprites_manager`). It keeps one record per live sprite, in draw order: bg priority first, then z order, then creation order. It also keeps a copy of the 128-entry hardware attribute table, one pending range `[first, last]` of table entries waiting for the next commit, the visible count of the last rebuild, and two request flags.
  - Per-sprite setters change a record and, when the record owns a slot, copy its attributes to that slot and widen the pending range.
  - The on-screen check evaluates the flagged records against the display rectangle.
  - The handles rebuild gives the on-screen records the slots 0..n-1 in draw order and hides the slots that are no longer used.
  - `commit` transfers the pending range, merged with the affine matrices' range, to the hardware.
- **The audio manager** (`btn::audio_manager`): a bounded queue of audio commands in front of the music state (playing, paused, position, volume). `commit` runs the queued commands in order.
- **`btn::fixed_point`**: the 2-D point of `fixed` coordinates that sprite positions use.

The sprite manager is a class, `SpritesManager.Manager`.
- Its fields are the manager's static data:
  - `handles`, an array;
  - the pending range;
  - `lastVisibleItemsCount`;
  - the two request flags.
- Beside them it keeps:
  - the sorted record sequence;
  - the table as the hardware shows it (`hwTable`);
  - the log of hardware transfers;
  - how many records the items pool holds.
- Every method is proved against a transition function of `SpriteState`, through `Snapshot()`: the whole object state as a value.

Three invariants hold in the model, and lemmas prove which transitions keep them:
- `Consistent`:
  - the records are sorted;
  - their ids are unique;
  - their slots are distinct;
  - every record is valid;
  - the pending range is well formed.
- `InSync`:
  - the hardware shows `handles` outside the pending range;
  - slots past the last visible count are hidden;
  - when no rebuild is pending, every on-screen record holds its dense slot and that slot shows its attributes.
- `Quiet`: the pending range lies below the last visible count.

The main results:
- `FrameShowsDrawOrder`: a handles rebuild followed by a commit shows the on-screen sprites in draw order in slots 0..n-1 and hides the rest. `Manager.Update` ends with that rebuild and `Manager.Commit` is that commit, so the same holds for an update followed by a commit.
- `CommitShowsDrawOrder`: the same for a commit when no rebuild is pending.

The audio manager is a class with the queue as a `seq` field. Its `commit` method drains the queue with a loop, proved to produce `hwCalls == old(hwCalls) + [HwCommit] + ExecuteAll(old(commands))`.

`fixed_point` is a datatype with pure operators and methods for the compound assignments. A `fixed` is represented by its raw integer, with 12 fractional bits.

Inputs that come from outside the core are parameters:
- the camera position;
- the display size;
- what the affine matrix manager reports (`AffineMats`, `CommitData`);
- what `hw::audio` reports after the commands ran.

## Model

| member | source | states |
|---|---|---|
| FixedPoints.DivTrunc | butano/include/btn_fixed_point.h:236-238 | the quotient truncates toward zero: the remainder has the dividend's sign and is smaller than the divisor |
| FixedPoints.DivTruncUnique | butano/include/btn_fixed_point.h:162-167 | any quotient whose remainder has the dividend's sign and is below the divisor is the truncated quotient |
| FixedPoints.DivTruncShrinks | butano/include/btn_fixed_point.h:236-238 | a truncated quotient times the divisor is at most the dividend in magnitude, and dividing by 1 changes nothing |
| FixedPoints.IntegerOfWhole | butano/include/btn_fixed_point.h:51-55 | the integer part of a whole number converted to fixed gives that number back |
| FixedPoints.FromPoint | butano/include/btn_fixed_point.h:51-55 | a point built from an integer point has those integers as the integer parts of its coordinates, with no fraction; its raw values fit an int32 exactly when both integers lie in [-2^19, 2^19) |
| FixedPoints.NegIsInvolution | butano/include/btn_fixed_point.h:92-95 | unary minus negates both coordinates: applied twice it is the identity, and p + (-p) is the origin |
| FixedPoints.OriginIsIdentity | butano/include/btn_fixed_point.h:34 | the default point is (0, 0), and adding or subtracting it changes nothing |
| FixedPoints.SubUndoesAdd | butano/include/btn_fixed_point.h:196-206 | binary - undoes binary +, and a - b is a + (-b) |
| FixedPoints.DivUndoesMul | butano/include/btn_fixed_point.h:212-238 | dividing (a * b) by a non-zero b gives back a |
| FixedPoints.SetX | butano/include/btn_fixed_point.h:68-71 | set_x changes x only |
| FixedPoints.SetY | butano/include/btn_fixed_point.h:84-87 | set_y changes y only |
| FixedPoints.AddAssign | butano/include/btn_fixed_point.h:102-107 | += agrees with binary +, and subtracting the operand again restores the point |
| FixedPoints.SubAssign | butano/include/btn_fixed_point.h:114-119 | -= agrees with binary -, and adding the operand again restores the point |
| FixedPoints.MulAssign | butano/include/btn_fixed_point.h:126-131 | *= by an integer agrees with binary * and is undone by dividing by a non-zero factor |
| FixedPoints.DivAssign | butano/include/btn_fixed_point.h:162-167 | /= by a non-zero integer agrees with binary / and leaves each coordinate's remainder below the divisor; no coordinate grows in magnitude, so an int32 point stays int32 unless the divisor is -1 |
| AudioManager.HwMusicVolume | butano/src/btn_audio_manager.cpp:170-173 | a volume in [0, 1] becomes a value in [0, 1024], with 10 fractional bits |
| AudioManager.HwSoundVolume | butano/src/btn_audio_manager.cpp:175-178 | the hardware sound volume is at most 255; it is either 255 or the volume at 8 fractional bits, and non-negative for a non-negative volume |
| AudioManager.HwSoundSpeed | butano/src/btn_audio_manager.cpp:180-183 | the hardware speed is at most 65535; it is either 65535 or the speed at 10 fractional bits |
| AudioManager.HwSoundPanning | butano/src/btn_audio_manager.cpp:185-188 | the hardware panning is at most 255; it is either 255 or panning + 1 at 7 fractional bits, and non-negative from -1 up |
| AudioManager.ToPrecisionIsFloorShift | butano/src/btn_audio_manager.cpp:170-188 | the conversion to a lower precision is a floor shift by 2^(12 - bits): the result q satisfies q * 2^(12 - bits) <= raw < (q + 1) * 2^(12 - bits), and lies in [0, raw] for a non-negative raw |
| AudioManager.ClampsOnlyCutTheTop | butano/src/btn_audio_manager.cpp:299-310 | within the asserted ranges only the single top value is clamped, and every converted value fits its 16-bit or 8-bit command field |
| AudioManager.Pack | butano/src/btn_audio_manager.cpp:142-151 | the command constructor keeps type, id and loop; it narrows priority to int16, volume and speed to uint16 and panning to uint8, so every field fits its storage, and a value that already fits is stored unchanged |
| AudioManager.Execute | butano/src/btn_audio_manager.cpp:72-118 | each command type issues exactly the hw::audio call of that type, and no command issues a commit |
| AudioManager.ExecuteAll | butano/src/btn_audio_manager.cpp:328-331 | one hardware call per command, in push order |
| AudioManager.PackedCommandsRoundTrip | butano/src/btn_audio_manager.cpp:28-134 | a command packed from arguments in the asserted ranges executes exactly the hardware call it was built for: the int16, uint16 and uint8 narrowing loses nothing |
| AudioManager.Manager.constructor | butano/src/btn_audio_manager.cpp:154-161 | the initial state: empty queue, music neither playing nor paused, position 0 |
| AudioManager.Manager.PlayMusic | butano/src/btn_audio_manager.cpp:211-220 | requires a volume in [0, 1] and a non-full queue; appends one music-play command; afterwards music is playing, not paused, at that volume |
| AudioManager.Manager.StopMusic | butano/src/btn_audio_manager.cpp:222-230 | requires playing music and room in the queue; appends one stop command; afterwards music is neither playing nor paused |
| AudioManager.Manager.PauseMusic | butano/src/btn_audio_manager.cpp:237-245 | requires playing, unpaused music; appends one pause command and sets paused |
| AudioManager.Manager.ResumeMusic | butano/src/btn_audio_manager.cpp:247-254 | requires paused music; appends one resume command and clears paused |
| AudioManager.Manager.SetMusicPosition | butano/src/btn_audio_manager.cpp:263-271 | requires position >= 0 and playing music; appends one command; music_position() then returns that position |
| AudioManager.Manager.SetMusicVolume | butano/src/btn_audio_manager.cpp:280-288 | requires a volume in [0, 1] and playing music; appends one command; music_volume() then returns that volume |
| AudioManager.Manager.PlaySound | butano/src/btn_audio_manager.cpp:290-297 | requires a priority that fits int16; appends one sound-play command; the music state is unchanged |
| AudioManager.Manager.PlaySoundEx | butano/src/btn_audio_manager.cpp:299-310 | also requires volume in [0, 1], speed in [0, 64] and panning in [-1, 1]; appends the command with the clamped hardware values |
| AudioManager.Manager.StopAllSounds | butano/src/btn_audio_manager.cpp:312-317 | appends one stop-all command |
| AudioManager.Manager.Commit | butano/src/btn_audio_manager.cpp:324-339 | a hardware commit call, then every queued command in push order; the queue is left empty; the position is refreshed from hardware only when music is playing both in the manager and in hardware; the music flags and volume are unchanged |
| AudioManager.Manager.Stop | butano/src/btn_audio_manager.cpp:346-356 | the queue becomes a music stop (only if music was playing) followed by a stop-all; at most two commands, below the queue capacity; music is stopped |
| SpriteItems.SpriteDimensions | butano/src/btn_sprites_manager.cpp:151 | the footprint is 8 to 128 pixels each way, doubled by the double-size bit |
| SpriteItems.OnScreenIffFootprintMeetsDisplay | butano/src/btn_sprites_manager.cpp:151-164 | the test x + w > 0 && x < width (and likewise for y) passes exactly when the footprint shares a pixel with the display |
| SpriteItems.RightEdgeIsOffScreen | butano/src/btn_sprites_manager.cpp:155 | a footprint starting at x == display width is off screen |
| SpriteItems.CheckItem | butano/src/btn_sprites_manager.cpp:142-170 | only a record flagged for the check is evaluated; it loses its flag and takes the test's result; any other record is unchanged |
| SpriteItems.Placed | butano/src/btn_sprites_manager.cpp:349-368 | set_position stores the position, writes the integer part of the camera-relative position (or the absolute one when the camera is ignored) and updates the slot; a visible sprite asks for an on-screen check |
| SpriteItems.WantsDoubleSize | butano/src/btn_sprites_manager.cpp:57 | sprites_manager_item::double_size(): the enabled mode forces the bit on, the disabled mode forces it off, and in auto mode it is what the matrix manager reports for the matrix |
| SpriteItems.PlacedAgreesWithFootprint | butano/src/btn_sprites_manager.cpp:146-151 | the position set_position writes is the one the on-screen test measures from |
| SpriteItems.AffineMatAssigned | butano/src/btn_sprites_manager.cpp:53-68 | the matrix is attached and the double-size bit follows the mode. With the bit set the result is set_position (`Placed`) of the marked record at its own position, so the hardware position is recomputed and a visible sprite asks for a check. Otherwise only the matrix fields change and the slot is updated. The check is requested exactly when the bit is set and the sprite is visible |
| SpriteItems.AffineMatRemoved | butano/src/btn_sprites_manager.cpp:70-87 | the matrix's flips go back to the attributes, and the matrix and the double-size bit are dropped. If the bit was set the result is set_position (`Placed`) of that record at its own position. Otherwise only those fields change and the slot is updated. The check is requested exactly when the bit was set and the sprite is visible |
| SpriteItems.AffineMatSet | butano/src/btn_sprites_manager.cpp:567-602 | setting the held matrix changes nothing. An identity matrix under the detach policy is `AffineMatRemoved` of a held matrix, or no change when none is held. A matrix not caught by the policy is `AffineMatAssigned`. Setting none is `AffineMatRemoved` of a held matrix, or no change |
| SpriteItems.AffineMatsChecked | butano/src/btn_sprites_manager.cpp:97-118 | a record without an updated matrix is untouched. An updated identity matrix under the policy is `AffineMatRemoved`. Otherwise a mode other than auto, or an unchanged bit, is no change. A changed bit in auto mode is set_position (`Placed`) of the record with the new bit |
| SpriteItems.CameraUpdated | butano/src/btn_sprites_manager.cpp:625-630 | a record that ignores the camera is untouched; any other is re-placed at its own position |
| SpriteItems.TilesSet | butano/src/btn_sprites_manager.cpp:306-319 | different tiles replace only the tiles reference and the attributes' tiles index, and update the slot, with no check or rebuild request; the same tiles are no change at all |
| SpriteItems.PaletteSet | butano/src/btn_sprites_manager.cpp:327-341 | a different palette replaces only the palette reference and the attributes' palette index, and updates the slot, with no check or rebuild request; the same palette is no change at all |
| SpriteItems.HorizontalFlipSet | butano/src/btn_sprites_manager.cpp:433-446 | with a matrix attached the flip goes to the matrix and the record is untouched; otherwise the attributes flip and the slot is updated |
| SpriteItems.VerticalFlipSet | butano/src/btn_sprites_manager.cpp:460-473 | as the horizontal flip |
| SpriteItems.MosaicSet | butano/src/btn_sprites_manager.cpp:481-486 | the mosaic bit is set and the slot updated |
| SpriteItems.DoubleSizeModeSet | butano/src/btn_sprites_manager.cpp:500-517 | the mode is stored. Without a matrix nothing else changes. With one, a changed double-size bit is set_position (`Placed`) of the record with the new bit, and an unchanged bit is no further change. A check is requested exactly when the bit changes on a visible sprite with a matrix |
| SpriteItems.VisibleSet | butano/src/btn_sprites_manager.cpp:525-546 | showing sets visible and the check flag and requests the check. Hiding changes only visible, on-screen and the check flag, and requests a rebuild exactly when the sprite was on screen. The slot is never touched |
| SpriteItems.IgnoreCameraSet | butano/src/btn_sprites_manager.cpp:554-559 | the flag is stored and the sprite re-placed at its own position |
| SpriteItems.RemoveAffineMatWhenNotNeededSet | butano/src/btn_sprites_manager.cpp:610-619 | the policy is stored. Enabling it with an identity matrix attached is `AffineMatRemoved` of the flagged record, so the matrix is detached. In every other case only the flag changes |
| SortedSprites.InsertPos | butano/src/btn_sprites_manager.cpp:264 | the insertion point lies after every record whose key is not greater and, in a sorted sequence, before every greater one |
| SortedSprites.Insert | butano/src/btn_sprites_manager.cpp:264 | inserting shifts the later records by one, adds exactly the new record (as a multiset) and keeps the sequence sorted |
| SortedSprites.RemoveAt | butano/src/btn_sprites_manager.cpp:289 | erasing removes exactly that record, keeps the order of the others and keeps the sequence sorted |
| SortedSprites.IndexOf | butano/src/btn_sprites_manager.cpp:308 | the id of a live record leads to the record with that id |
| SortedSprites.IndexOfIsUnique | butano/src/btn_sprites_manager.cpp:308 | with unique ids that record is the only one |
| SortedSprites.UpdateKeepsOrder | butano/src/btn_sprites_manager.cpp:41-51 | changing a record in place without changing its key or id keeps the order and the ids unique |
| SortedSprites.InsertKeepsIdsUnique | butano/src/btn_sprites_manager.cpp:263-264 | inserting a record with a fresh id keeps the ids unique, and the new id is then live |
| SortedSprites.RemoveAtKeepsIdsUnique | butano/src/btn_sprites_manager.cpp:289 | erasing keeps the ids unique, removes the erased id and brings in no other |
| SortedSprites.KeyLeIsTotalPreorder | butano/src/btn_sprites_manager.cpp:386 | the draw-order key orders records totally, and equal keys are equal pairs |
| SortedSprites.EqualKeysKeepInsertionOrder | butano/src/btn_sprites_manager.cpp:264 | a record inserted with the key of an existing one is drawn after it |
| SortedSprites.ThreeRecordsScenario | butano/src/btn_sprites_manager.cpp:264 | records created with bg priorities 1, 0, 2 are drawn in the order 0, 1, 2 |
| SpriteSlots.VisibleConcat | butano/src/btn_sprites_manager.cpp:188-203 | the on-screen attributes of two runs of records are those of each run, joined |
| SpriteSlots.VisiblePrefix | butano/src/btn_sprites_manager.cpp:188-203 | the on-screen attributes of a prefix are a prefix of those of the whole sequence |
| SpriteSlots.VisibleAt | butano/src/btn_sprites_manager.cpp:195-197 | the slot a rebuild gives an on-screen record shows that record's attributes |
| SpriteSlots.PrefixCountGrows | butano/src/btn_sprites_manager.cpp:197 | a later on-screen record gets a higher slot |
| SpriteSlots.IndexedSlotsAreDense | butano/src/btn_sprites_manager.cpp:186-203 | after a rebuild the on-screen records hold slots 0..n-1, increasing in draw order, every such slot is taken, the other records hold -1, and no slot is held twice |
| SpriteSlots.SameScreenSameVisible | butano/src/btn_sprites_manager.cpp:188-203 | records with the same on-screen states and attributes take the same table |
| SpriteSlots.SameScreenKeepsIndexed | butano/src/btn_sprites_manager.cpp:188-203 | the dense slot assignment survives changes that keep the on-screen states and slots |
| SpriteSlots.VisibleUpdate | butano/src/btn_sprites_manager.cpp:41-51 | a new attribute block for an on-screen record replaces exactly its entry in the table a rebuild would build |
| SpriteSlots.UpdateKeepsIndexed | butano/src/btn_sprites_manager.cpp:41-51 | changing a record without changing its on-screen state or slot keeps the slot assignment dense |
| SpriteSlots.InsertOffScreenKeepsIndexed | butano/src/btn_sprites_manager.cpp:264 | an off-screen record without a slot can be inserted anywhere without changing the assignment or the table |
| SpriteSlots.RemoveOffScreenKeepsIndexed | butano/src/btn_sprites_manager.cpp:289 | erasing an off-screen record keeps the assignment and the table |
| SpriteSlots.Reindexed | butano/src/btn_sprites_manager.cpp:190-203 | record i takes the number of on-screen records before it when it is on screen, and -1 otherwise |
| SpriteSlots.ReindexedIsIndexed | butano/src/btn_sprites_manager.cpp:186-203 | the rebuilt slots are the dense assignment, and the on-screen attributes do not change |
| SpriteSlots.RemovingOnScreenCompactsSlots | butano/src/btn_sprites_manager.cpp:283-289 | after an on-screen record is erased, the next rebuild moves every later on-screen record down one slot |
| SpriteSlots.Mark | butano/src/btn_sprites_manager.cpp:45-50 | _update_handles of a record with a slot widens the range to cover that slot and everything it covered; a record without one leaves the range unchanged |
| SpriteSlots.MarkCommutes | butano/src/btn_sprites_manager.cpp:48-49 | marking slots is order-independent and idempotent |
| SpriteState.Edited | butano/src/btn_sprites_manager.cpp:41-51 | an edit writes exactly the record's own slot, and only when it has one, and the pending range then covers it; the request flags are raised as the edit asks |
| SpriteState.EditKeepsInvariants | butano/src/btn_sprites_manager.cpp:41-51 | an admissible edit keeps Consistent, InSync and Quiet |
| SpriteState.EditKeepsConsistent | butano/src/btn_sprites_manager.cpp:41-51 | an admissible edit keeps the records sorted, unique and valid |
| SpriteState.EditKeepsInSync | butano/src/btn_sprites_manager.cpp:41-51 | an admissible edit keeps the table and the hardware in step |
| SpriteState.EditedAll | butano/src/btn_sprites_manager.cpp:623-632 | a loop of edits replaces the first records and raises a flag exactly when the state had it or some edit asked for it |
| SpriteState.EditedAllStores | butano/src/btn_sprites_manager.cpp:41-51 | after a loop of edits each touched record's slot shows its new attributes and is pending; every slot no edit wrote is unchanged |
| SpriteState.EditedAllStep | butano/src/btn_sprites_manager.cpp:623-632 | each iteration of the loop is one more edit, on a record the earlier iterations left alone |
| SpriteState.EditedAllKeepsInvariants | butano/src/btn_sprites_manager.cpp:623-632 | a loop of admissible edits keeps the three invariants |
| SpriteState.CameraEdits | butano/src/btn_sprites_manager.cpp:621-633 | update_camera's edit of each record is CameraUpdated of it |
| SpriteState.CameraMoved | butano/src/btn_sprites_manager.cpp:621-633 | update_camera re-places exactly the records that follow the camera, leaves the others and never requests a rebuild |
| SpriteState.AffineMatEdits | butano/src/btn_sprites_manager.cpp:89-126 | _check_affine_mats' edit of each record is AffineMatsChecked of it |
| SpriteState.MatsChecked | butano/src/btn_sprites_manager.cpp:89-126 | without a matrix update nothing changes; otherwise every record goes through the per-record check |
| SpriteState.LoopsKeepInvariants | butano/src/btn_sprites_manager.cpp:89-126 | update_camera and _check_affine_mats keep the three invariants |
| SpriteState.CheckedItems | butano/src/btn_sprites_manager.cpp:138-171 | the on-screen check applied to every record |
| SpriteState.Checked | butano/src/btn_sprites_manager.cpp:128-177 | without the check request nothing changes |
| SpriteState.CheckEvaluatesFlagged | butano/src/btn_sprites_manager.cpp:128-177 | the global request is cleared; exactly the flagged records are evaluated and cleared; the rebuild request becomes true iff some evaluated record changed, and otherwise keeps its value |
| SpriteState.RelabelKeepsOrder | butano/src/btn_sprites_manager.cpp:163 | changing fields other than key, id and slot keeps the order, the ids and the slots distinct |
| SpriteState.CheckKeepsInvariants | butano/src/btn_sprites_manager.cpp:128-177 | the on-screen check keeps the three invariants |
| SpriteState.CheckKeepsInSync | butano/src/btn_sprites_manager.cpp:128-177 | the on-screen check keeps the table and the hardware in step |
| SpriteState.CheckKeepsConsistent | butano/src/btn_sprites_manager.cpp:128-177 | the on-screen check keeps the records valid |
| SpriteState.Rebuilt | butano/src/btn_sprites_manager.cpp:179-221 | with the request, the on-screen records take dense slots 0..m-1 showing their attributes; slots m..n-1 of the last count n are hidden; the range becomes [0, n-1] after hiding, else [0, m-1], else stays; the last count becomes m; without the request nothing changes |
| SpriteState.RebuiltTable | butano/src/btn_sprites_manager.cpp:195-213 | the rebuilt table: the shown attributes first, hidden entries up to the last visible count, the rest as it was |
| SpriteState.RebuildKeepsConsistent | butano/src/btn_sprites_manager.cpp:179-221 | a rebuild keeps the records valid under the new visible count |
| SpriteState.ReindexKeepsRecordsValid | butano/src/btn_sprites_manager.cpp:190-203 | reassigning slots keeps each record valid, the order, the ids unique and the slots distinct |
| SpriteState.RebuildKeepsInSync | butano/src/btn_sprites_manager.cpp:179-221 | from a quiet, in-step state a rebuild leaves the table and the hardware in step, now with the dense assignment |
| SpriteState.CommitRange | butano/src/btn_sprites_manager.cpp:644-654 | the pending range grows to also cover the affine matrices' entries, scaled by count()/affine_mats::count() |
| SpriteState.Committed | butano/src/btn_sprites_manager.cpp:642-663 | when the merged range is non-empty, last - first + 1 entries from first reach the hardware and the range is reset; otherwise nothing happens |
| SpriteState.CommitKeepsConsistent | butano/src/btn_sprites_manager.cpp:642-663 | commit keeps the records valid and always leaves nothing pending |
| SpriteState.CommitFlushes | butano/src/btn_sprites_manager.cpp:642-663 | from an in-step state commit makes the hardware show the manager's table |
| SpriteState.CommitTwiceTransfersOnce | butano/src/btn_sprites_manager.cpp:656-662 | a second commit with no new marks and no matrix data transfers nothing |
| SpriteState.DrawTable | butano/src/btn_sprites_manager.cpp:186-213 | the table a frame should show: on-screen sprites in draw order, then hidden entries |
| SpriteState.CommitShowsDrawOrder | butano/src/btn_sprites_manager.cpp:642-663 | without a pending rebuild, commit makes the hardware show the on-screen sprites in draw order |
| SpriteState.FrameShowsDrawOrder | butano/src/btn_sprites_manager.cpp:635-663 | a rebuild followed by a commit makes the hardware show the on-screen sprites in draw order |
| SpriteState.RemoveAtKeepsDistinctSlots | butano/src/btn_sprites_manager.cpp:289 | erasing keeps the slots distinct and frees the erased slot |
| SpriteState.InsertKeepsDistinctSlots | butano/src/btn_sprites_manager.cpp:264 | a new record without a taken slot keeps the slots distinct |
| SpriteState.RecordsValidCarry | butano/src/btn_sprites_manager.cpp:264 | the records of an insertion or erase are all valid when the old and new ones are |
| SpriteState.RemoveOffScreenRecord | butano/src/btn_sprites_manager.cpp:289 | erasing an off-screen record keeps the dense assignment and the table |
| SpriteState.InsertOffScreenRecord | butano/src/btn_sprites_manager.cpp:264 | a new record comes in off screen and keeps the dense assignment and the table |
| SpriteState.NewItem | butano/src/btn_sprites_manager.cpp:263 | the new record: one use, no slot, off screen, a check pending iff visible, the builder's key, position and matrix, and the camera-relative hardware position |
| SpriteState.CreatedId | butano/src/btn_sprites_manager.cpp:240-270 | create returns none exactly when the pool is full or tiles or palette are missing |
| SpriteState.Created | butano/src/btn_sprites_manager.cpp:240-270 | on failure nothing changes; otherwise the record is inserted in draw order, the pool grows by one and a check is requested iff the sprite is visible |
| SpriteState.CreateAddsOneRecord | butano/src/btn_sprites_manager.cpp:240-270 | a successful create adds exactly one record, under an id that was not live and now is |
| SpriteState.CreateKeepsInvariants | butano/src/btn_sprites_manager.cpp:240-270 | create keeps the three invariants |
| SpriteState.CreateKeepsConsistent | butano/src/btn_sprites_manager.cpp:240-270 | a successful create keeps the records sorted, unique and valid |
| SpriteState.CreateKeepsInSync | butano/src/btn_sprites_manager.cpp:240-270 | a successful create keeps the table and the hardware in step |
| SpriteState.Retained | butano/src/btn_sprites_manager.cpp:272-276 | increase_usages adds one use to that record only |
| SpriteState.RetainKeepsInvariants | butano/src/btn_sprites_manager.cpp:272-276 | increase_usages keeps the three invariants |
| SpriteState.UsagesKeepConsistent | butano/src/btn_sprites_manager.cpp:272-281 | changing a use count to another positive one keeps the records valid |
| SpriteState.UsagesKeepInSync | butano/src/btn_sprites_manager.cpp:272-281 | changing a use count keeps the table and the hardware in step |
| SpriteState.Released | butano/src/btn_sprites_manager.cpp:278-292 | corrected decrease_usages: one use less; at zero the record is erased, its pool entry freed, and a rebuild requested iff it was on screen |
| SpriteState.ReleasedAsWritten | butano/src/btn_sprites_manager.cpp:278-292 | decrease_usages as written: with more uses only that record's count goes down; at zero the record is erased and a rebuild requested iff it was on screen; in both cases the pool count is left as it was |
| SpriteState.ReleaseRemovesLastUse | butano/src/btn_sprites_manager.cpp:278-292 | the id stops being live exactly when its last use is released; the rebuild is requested iff the erased record was on screen |
| SpriteState.ReleaseKeepsInvariants | butano/src/btn_sprites_manager.cpp:278-292 | decrease_usages keeps the three invariants |
| SpriteState.CountDownKeepsInvariants | butano/src/btn_sprites_manager.cpp:281 | a release that leaves uses keeps Consistent and InSync |
| SpriteState.EraseKeepsInvariants | butano/src/btn_sprites_manager.cpp:283-290 | erasing the last use keeps Consistent and InSync |
| SpriteState.EraseKeepsConsistent | butano/src/btn_sprites_manager.cpp:283-290 | erasing the last use keeps the records sorted, unique and valid |
| SpriteState.PoolTracksRecords | butano/src/btn_sprites_manager.cpp:240-292 | with the corrected release the pool holds exactly the live records, across create and release |
| SpriteState.ReleaseAsWrittenLeaksPoolSlot | butano/src/btn_sprites_manager.cpp:278-292 | as written, each erase leaves one more pool entry than live records |
| SpriteState.PoolLeakScenario | butano/src/btn_sprites_manager.cpp:240-292 | with a one-entry pool, create, release, create: the second create fails as written and succeeds once corrected |
| SpriteState.Reordered | butano/src/btn_sprites_manager.cpp:382-393 | the record is erased, takes the new key, is reinserted, and a rebuild is requested iff it is on screen |
| SpriteState.BgPrioritySet | butano/src/btn_sprites_manager.cpp:376-394 | an equal bg priority changes nothing; a different one reorders the record under the new key |
| SpriteState.ZOrderSet | butano/src/btn_sprites_manager.cpp:402-419 | an equal z order changes nothing; a different one reorders the record under the new key |
| SpriteState.ReorderMovesOneRecord | butano/src/btn_sprites_manager.cpp:382-393 | reordering keeps the sequence sorted, replaces exactly that record (as a multiset), and places it after all records with keys not greater and before the greater ones |
| SpriteState.ReorderKeepsInvariants | butano/src/btn_sprites_manager.cpp:376-419 | reordering under an asserted key keeps the three invariants |
| SpriteState.ReorderKeepsInSync | butano/src/btn_sprites_manager.cpp:376-419 | reordering keeps the table and the hardware in step |
| SpriteState.ReorderKeepsConsistent | butano/src/btn_sprites_manager.cpp:376-419 | reordering keeps the records sorted, unique and valid |
| SpritesManager.Manager.constructor | butano/src/btn_sprites_manager.cpp:27-37 | the initial static data: no records, every slot hidden, nothing pending, both flags clear |
| SpritesManager.Manager.Apply | butano/src/btn_sprites_manager.cpp:41-51 | the object takes the Edited state: the record is replaced, its slot updated and pending when touched, and the flags raised |
| SpritesManager.Manager.ApplyAll | butano/src/btn_sprites_manager.cpp:623-632 | the loop over the records in traversal order takes the EditedAll state and keeps the invariants |
| SpritesManager.Manager.SetTilesPtr | butano/src/btn_sprites_manager.cpp:306-319 | requires the same tile count for different tiles; takes the TilesSet edit |
| SpritesManager.Manager.SetPalettePtr | butano/src/btn_sprites_manager.cpp:327-341 | requires the same colour depth for a different palette; takes the PaletteSet edit |
| SpritesManager.Manager.SetPosition | butano/src/btn_sprites_manager.cpp:349-368 | takes the Placed edit |
| SpritesManager.Manager.SetHorizontalFlip | butano/src/btn_sprites_manager.cpp:433-446 | takes the HorizontalFlipSet edit |
| SpritesManager.Manager.SetVerticalFlip | butano/src/btn_sprites_manager.cpp:460-473 | takes the VerticalFlipSet edit |
| SpritesManager.Manager.SetMosaicEnabled | butano/src/btn_sprites_manager.cpp:481-486 | takes the MosaicSet edit |
| SpritesManager.Manager.SetDoubleSizeMode | butano/src/btn_sprites_manager.cpp:500-517 | takes the DoubleSizeModeSet edit |
| SpritesManager.Manager.SetVisible | butano/src/btn_sprites_manager.cpp:525-546 | takes the VisibleSet edit |
| SpritesManager.Manager.SetIgnoreCamera | butano/src/btn_sprites_manager.cpp:554-559 | takes the IgnoreCameraSet edit |
| SpritesManager.Manager.SetAffineMatPtr | butano/src/btn_sprites_manager.cpp:567-602 | takes the AffineMatSet edit |
| SpritesManager.Manager.SetRemoveAffineMatWhenNotNeeded | butano/src/btn_sprites_manager.cpp:610-619 | takes the RemoveAffineMatWhenNotNeededSet edit |
| SpritesManager.Manager.Reorder | butano/src/btn_sprites_manager.cpp:382-393 | erase, update_sort_key and insert: takes the Reordered state |
| SpritesManager.Manager.SetBgPriority | butano/src/btn_sprites_manager.cpp:376-394 | requires 0 <= priority <= 3; takes the BgPrioritySet state |
| SpritesManager.Manager.SetZOrder | butano/src/btn_sprites_manager.cpp:402-419 | requires 0 <= z < z_orders(); takes the ZOrderSet state |
| SpritesManager.Manager.Create | butano/src/btn_sprites_manager.cpp:240-270 | returns CreatedId and takes the Created state; a returned id was not live before and is now |
| SpritesManager.Manager.IncreaseUsages | butano/src/btn_sprites_manager.cpp:272-276 | takes the Retained state; the id stays live |
| SpritesManager.Manager.DecreaseUsages | butano/src/btn_sprites_manager.cpp:278-292 | takes the corrected Released state; the id stays live iff it had more than one use |
| SpritesManager.Manager.UpdateCamera | butano/src/btn_sprites_manager.cpp:621-633 | takes the CameraMoved state |
| SpritesManager.Manager.CheckAffineMats | butano/src/btn_sprites_manager.cpp:89-126 | takes the MatsChecked state |
| SpritesManager.Manager.CheckItemsOnScreen | butano/src/btn_sprites_manager.cpp:128-177 | the loop over the records takes the Checked state, with the rebuild flag raised iff some evaluated record changed |
| SpritesManager.EvaluateOnScreen | butano/src/btn_sprites_manager.cpp:142-170 | the loop body: the record after the test is CheckItem of it, and the change flag is ChangesOnScreen |
| SpritesManager.Manager.Hide | butano/src/btn_sprites_manager.cpp:209 | hw::sprites::hide: exactly count slots from first are hidden |
| SpritesManager.Manager.AssignSlots | butano/src/btn_sprites_manager.cpp:186-203 | the loop copies the on-screen records' attributes to slots 0, 1, ... and returns their count; the records take the Reindexed slots; the rest of the table is unchanged |
| SpritesManager.Manager.Retire | butano/src/btn_sprites_manager.cpp:205-219 | slots from the new count up to the last count are hidden; the last count becomes the new count; the range becomes [0, max - 1] when the larger count is positive |
| SpritesManager.Manager.Rebuild | butano/src/btn_sprites_manager.cpp:181-219 | takes the Rebuilt state |
| SpritesManager.Manager.RebuildHandles | butano/src/btn_sprites_manager.cpp:179-221 | takes the Rebuilt state and keeps the invariants |
| SpritesManager.Manager.Update | butano/src/btn_sprites_manager.cpp:635-640 | the matrix check, the on-screen check and the rebuild, in that order |
| SpritesManager.Manager.Commit | butano/src/btn_sprites_manager.cpp:642-663 | takes the Committed state; nothing is pending afterwards; from an in-step state the hardware shows the table, and without a pending rebuild it shows the on-screen sprites in draw order |
| SpritesManager.Manager.Flush | butano/src/btn_sprites_manager.cpp:644-662 | merges the matrix range, transfers it when non-empty and resets the range |
| SpritesManager.Manager.HwCommit | butano/src/btn_sprites_manager.cpp:658 | hw::sprites::commit: count entries from first reach the hardware, and the transfer is logged |

## Left out

- The hw::sprites, hw::audio and hw::sprite_affine_mats register writes are replaced by values. Sprite attributes are a record (`Attributes`). The hardware table is a sequence, with a log of transfers. The audio hardware is a log of calls (`HwCall`).
- The hardware x/y encoding of set_position is not modelled: the 9-bit and 8-bit wrap-around and any top-left offset that hw::sprites::set_position applies. The attribute block holds the integer camera-relative position the source passes to it.
- The affine matrix data that sprite_affine_mats_manager writes into the handles table is not modelled. So is `sprite_affine_mats_manager::update()`, which _check_affine_mats calls at the end. The matrix manager is a parameter (`AffineMats`, `CommitData`).
- camera::position() and display::width()/height() are parameters of the operations that read them.
- The pool allocator is reduced to a count of held entries. The finding below is stated on that count.
- sorted_sprites is not part of this model. Its ordering contract is modelled instead: a sequence, sorted by (bg priority, z order), with a record of equal key inserted after the existing ones.
- WantsDoubleSize: sprites_manager_item::double_size() is not part of this model. It is modelled as: on in the enabled mode, off in the disabled mode, and the matrix manager's answer in auto mode.
- sprites_manager_item is not part of this model. `NewItem` models its constructor as taking everything from the builder, starting with one use, no slot and off screen, and setting a pending check iff the sprite is visible.
- sprite_tiles_ptr, sprite_palette_ptr and sprite_affine_mat_ptr are reduced to ids, a tile count and a colour-depth flag. Their reference counting is left out.
- The getters are left out, because they only read a field: dimensions, tiles_ptr, palette_ptr, position, bg_priority, z_order, the flips, mosaic_enabled, double_size, double_size_mode, visible, ignore_camera, affine_mat_ptr, remove_affine_mat_when_not_needed, music_playing and music_paused.
- The flip setters with a matrix attached forward to the matrix. That change belongs to the matrix manager and is not modelled.
- The sprite-manager init() and the audio-manager init, enable, disable and vblank-handler functions are hardware set-up. They are left out; the constructors model the initial static data. The sprite constructor starts with every hardware slot hidden, which stands for hw::sprites::init(); hw::sprites is not part of this model.
- max_bg_priority() and z_orders() are the constants `MaxBgPriority` (3) and the `zOrders` field.
- `int8_t(visible_items_count)` in _rebuild_handles is exact because the count is below 128. The model stores it as an int.
- The audio commands store a music or sound item by its integer id. BTN_ERROR on an unknown command type cannot happen with the nine kinds and is left out.
- btn_fixed.h is not part of this model, so `fixed` is modelled as follows:
  - a `fixed` is its raw value with 12 fractional bits;
  - `integer()` divides the raw value by 4096, truncating toward zero;
  - `fixed_t<N>(v).data()` shifts the raw value right by 12 - N bits (`ToPrecision`).
- FixedPoints.MulAssign: the raw values are unbounded integers, so `_x *= value` overflowing int32 (undefined behaviour in C++) is not modelled; "undone by dividing" holds only while the products fit an int32. `Representable` states that range.
- FixedPoints.DivUndoesMul: holds for unbounded raw values; for int32 raw values it needs a * b to fit an int32, and the model does not require that.
- FixedPoints.FromPoint: its contract holds for every integer, but the C++ raw value overflows once |x| or |y| reaches 2^19; the contract's `Representable` clause names that range.
- FixedPoints.AddAssign: int32 overflow of the raw sum is not modelled, and the same holds for SubAssign, Add, Sub and Neg.
- Multiplication and division of a fixed_point by a `fixed` or an `unsigned` are left out, because the fixed-by-fixed arithmetic is in btn_fixed.h. hash<fixed_point> is left out as well.
- SpritesManager.Manager.RebuildHandles: keeps InSync only from a state that is also Quiet (nothing pending at or beyond the last visible count). Two rebuilds without a commit in between can drop hidden slots from the pending range. The engine's frame loop runs update then commit, so this never happens there.
- SpritesManager.Manager.Update: keeps InSync under the same condition as RebuildHandles.
- SpritesManager.Manager.DecreaseUsages: models the corrected release, which returns the pool entry; the release as written is `SpriteState.ReleasedAsWritten`.

## Findings

| source | as written | input that shows it | evidently intended | confidence | as-written member | corrected member |
|---|---|---|---|---|---|---|
| butano/src/btn_sprites_manager.cpp:278-292 | when the last use is released the record is erased from sorted_sprites, but its pool entry is never destroyed | a pool of one entry: create, decrease_usages, create; the second create returns none although no sprite is live | the pool entry is destroyed together with the record, so the pool holds exactly the live records | medium, not executed | SpriteState.ReleasedAsWritten (SpriteState.ReleaseAsWrittenLeaksPoolSlot, SpriteState.PoolLeakScenario) | SpriteState.Released (SpriteState.PoolTracksRecords) |
