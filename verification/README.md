# simple-crosshair-overlay, modelled in Dafny

A Dafny model of the computational core of simple-crosshair-overlay. This is a small Rust
program that draws a crosshair over other windows and moves, resizes and recolours it
through global hotkeys. The model covers the parts of the program that are pure integer and
bitmask logic:

- **The hotkey engine, in both revisions.**
  - The library crate's engine has ten actions and a lookup table sized by the key type.
  - The first engine has eight actions and a fixed 96-entry table.
  - Both compile the user's key bindings into one bit per distinct key (at most 32), a chord
    mask per action and two category masks.
  - On each frame they OR the keys held down into a snapshot. From the two latest snapshots and
    two wrapping held-frame counters they derive edge-triggered toggles and ramped movement
    and scaling amounts.
  - The modules are `Bitmask` (bit hand-out and mask algebra), `KeyChords` (what both
    revisions share), `Hotkey` and `LegacyHotkey`.
- **The generic keyboard backend** (`Keycodes`, `DeviceQuery`).
  - The 111 key names and the conversions between the canonical and backend key types.
  - The dense index into `[0, 111)` that addresses the lookup table.
  - The polled keyboard state.
- **Integer helpers** (`Numeric`): ceiling division for `usize`/`u32`/`u64`, floor division for
  `i32`, and the frame-rate-to-tick conversion.
- **Colour and pixel arithmetic.**
  - `Color` covers:
    - the rounded channel multiply;
    - little-endian byte packing;
    - PNG-to-ARGB reordering and alpha premultiplication;
    - the six-section hue functions;
    - the colour picker's coordinate-to-colour function;
    - rectangle centring.
  - `ColorPicker` holds the picker fill.
  - `Icon` holds the tray icon generator.
  - `LegacyImage` holds the first build's truncating premultiply.
- **The persisted colour codec** (`HexColor`): eight upper-case hex digits when written, a
  base-16 `u32` literal when read.
- **Settings** (`Settings`): the defaults, the values derived when loading, `size`,
  `is_scalable`, `reset` and the run-time image swap.

Fixed-width integers are newtypes over `int` (`Ints`). Wrap-around is written out where the
program relies on it: the `u8` hue arithmetic and the `u32` held-frame counters. Masks are
`bv32`. A failing constructor or parser returns a `Result` (`Wrappers`) rather than
requiring its input away.

Platform-specific code (`#[cfg(target_os = "windows")]`) becomes a `Platform` parameter. Reading
the keyboard, the file system and the PNG decoder become parameters too: a list of keys
observed by a poll, or a function `Path -> Result<Image, IoError>`.

## Model

| member | source | states |
|---|---|---|
| `Numeric.DivCeilUsize` | src/util/numeric.rs:14-24 | for a nonzero divisor, the result is the least `q` with `q*d >= n` |
| `Numeric.DivCeilU32` | src-lib/private/util/numeric.rs:32-39 | for a nonzero divisor, the result is the least `q` with `q*d >= n` |
| `Numeric.DivCeilU64` | src-lib/private/util/numeric.rs:41-48 | for a nonzero divisor, the result is the least `q` with `q*d >= n` |
| `Numeric.CeilQuotientUnique` | src-lib/private/util/numeric.rs:23-30 | that least quotient is unique, so all three widths compute the same ceiling |
| `Numeric.DivCeilExact` | src/util/numeric.rs:16-22 | when `d` divides `n`, each width returns exactly `n / d`; the `+ 1` branch is taken only for a positive remainder |
| `Numeric.DivCeilExamples` | src-lib/private/util/numeric.rs:88-106 | `100` over `2` is `50` and `101` over `2` is `51`, for `usize` and `u64` |
| `Numeric.TruncFacts` | src-lib/private/util/numeric.rs:61-63 | Rust's `/` and `%` on `i32` satisfy `n == d*q + r`, with `\|r\| < \|d\|` and `\|q\| <= \|n\|` |
| `Numeric.DivFloorI32` | src-lib/private/util/numeric.rs:59-70 | for a nonzero divisor, except `i32::MIN / -1`, the result `q` satisfies the floor bounds (`q*d <= n < (q+1)*d` for `d > 0`, mirrored for `d < 0`) |
| `Numeric.FloorUnique` | src-lib/private/util/numeric.rs:64-68 | the floor quotient is unique |
| `Numeric.DivFloorMatchesEuclid` | src-lib/private/util/numeric.rs:59-70 | for a positive divisor the result is the mathematical floor of `n / d` |
| `Numeric.DivFloorExamples` | src-lib/private/util/numeric.rs:76-126 | truncating `101/2 = 50` and `-101/2 = -50`; floor `101/2 = 50`, `100/2 = 50`, `-101/2 = -51`, `-100/2 = -50` |
| `Numeric.FpsToTickInterval` | src-lib/private/util/numeric.rs:9-12 | for a nonzero frame rate, the interval is the ceiling of `1000 / fps` ms and lies in `[1, 1000]` |
| `Numeric.SixtyFps` | src/settings.rs:144-151 | the default 60 fps gives a 17 ms tick |
| `DeviceQuery.KeycodeRoundTrip` | src-lib/private/platform/generic.rs:171-287 | canonical key to backend key and back is the identity |
| `DeviceQuery.DeviceRoundTrip` | src-lib/private/platform/generic.rs:53-169 | backend key to canonical key and back is the identity |
| `DeviceQuery.Index` | src-lib/private/platform/generic.rs:289-410 | every backend key's index is below `num_variants() = 111`, and the key can be recovered from its index |
| `DeviceQuery.IndexInjective` | src-lib/private/platform/generic.rs:296-410 | two keys have the same index exactly when they are the same key |
| `DeviceQuery.DefaultKeyboardState` | src-lib/private/platform/generic.rs:34-41 | a fresh keyboard state reports no keys down |
| `DeviceQuery.Poll` | src-lib/private/platform/generic.rs:43-50 | after a poll, `get_state` returns exactly the keys that poll observed |
| `Hotkey.DeviceQueryKeycodeTypeValid` | src-lib/private/platform/generic.rs:289-410 | the backend's numbering is a valid key type: every index is below the table size and distinct keys get distinct slots, so `lookup_table[index]` is in bounds |
| `Hotkey.DeviceQueryFromKeycodeInjective` | src-lib/private/platform/generic.rs:171-287 | distinct canonical keys convert to distinct backend keys |
| `Hotkey.DefaultHotkeyManager` | src-lib/private/platform/generic.rs:415-425 | the default manager is built from the default bindings, so construction does not fail; it starts with zero snapshots, zero counters and an empty key list |
| `Bitmask.BitForFacts` | src-lib/private/hotkey/hotkey_manager.rs:175-182 | the bit given to the n-th new key is a single bit while `n < 32` and becomes 0 exactly from the 33rd key on |
| `Bitmask.BitForIncreasing` | src-lib/private/hotkey/hotkey_manager.rs:180-182 | bits handed out later are strictly higher |
| `Bitmask.UpdateKeyBufferValues` | src-lib/private/hotkey/hotkey_manager.rs:165-188 | registering one chord keeps the table size; what it registers is stated by `Bitmask.UpdateSpec` |
| `Bitmask.RegisterFrom` | src-lib/private/hotkey/hotkey_manager.rs:165-188 | registering a chord keeps the table size, and its only error is the "Only 32 distinct keys" message |
| `Bitmask.UpdateSpec` | src-lib/private/hotkey/hotkey_manager.rs:165-188 | registering a chord succeeds exactly when the first-seen order of keys so far stays within 32 keys; the table is then laid out in that order (the j-th new key holds bit `1 << j`, unused slots hold 0), and the chord's mask is the OR of its keys' final entries; a key already in the table reuses its bit |
| `Bitmask.CompileChords` | src-lib/private/hotkey/hotkey_manager.rs:92-133 | compiling a list of chords gives one mask per chord and keeps the table size, and its only error is the 32-key message |
| `Bitmask.CompileSpec` | src-lib/private/hotkey/hotkey_manager.rs:92-135 | compiling chords in order succeeds exactly when all their keys, in first-seen order, number at most 32; then the table is laid out in that order and each mask is the OR of its chord's entries |
| `Bitmask.LaidEntry` | src-lib/private/hotkey/hotkey_manager.rs:172-186 | in a laid-out table an entry is nonzero exactly for keys some binding uses, and every nonzero entry is a single bit |
| `Bitmask.LaidDistinct` | src-lib/private/hotkey/hotkey_manager.rs:172-186 | distinct keys never share a nonzero entry |
| `Bitmask.MaskOfConcat` | src-lib/private/hotkey/hotkey_manager.rs:196-201 | the OR over two key lists joined is the OR of the two ORs |
| `Bitmask.UnusedKeyInvisible` | src-lib/private/hotkey/hotkey_manager.rs:189-201 | adding a key whose entry is 0 leaves the snapshot unchanged |
| `Bitmask.ChordContained` | src-lib/private/hotkey/hotkey_manager.rs:203-251 | `buf & m == m` for a chord mask holds exactly when every key of the chord is down |
| `Bitmask.GroupOverlaps` | src-lib/private/hotkey/hotkey_manager.rs:253-264 | `buf & m != 0` for a category mask holds exactly when some key of the category is down |
| `KeyChords.SlotsInRange` | src-lib/private/hotkey/hotkey_manager.rs:172 | every key's slot, `K::from(keycode).index()`, lies inside the table |
| `KeyChords.KeyOrderKeys` | src-lib/private/hotkey/hotkey_manager.rs:165-188 | the first-seen key order lists each bound key once, exactly the bound keys, and no more of them than the bindings hold |
| `KeyChords.Compile` | src-lib/private/hotkey/hotkey_manager.rs:92-133 | compiling bindings over a key type gives one mask per binding and a table of `num_variants` entries, or the 32-key error |
| `KeyChords.CompileAccepts` | src-lib/private/hotkey/hotkey_manager.rs:92-133 | compilation succeeds exactly when the bindings use at most 32 distinct keys |
| `KeyChords.FewKeysCompile` | src-lib/private/hotkey/hotkey_manager.rs:171-186 | bindings holding at most 32 keys in all always compile |
| `KeyChords.CompileLaid` | src-lib/private/hotkey/hotkey_manager.rs:92-133 | a compiled table is laid out in first-seen key order, and each mask is the OR of its binding's entries |
| `KeyChords.JoinSlots` | src-lib/private/hotkey/hotkey_manager.rs:134-135 | the OR of two bindings' masks is the mask of the keys of both, which is how the category masks are formed |
| `KeyChords.SnapshotIffHeld` | src-lib/private/hotkey/hotkey_manager.rs:196-264 | for bound keys, chord containment in the snapshot means every key of the chord is down, and overlap means some key is down |
| `KeyChords.UnboundKeyInvisible` | src-lib/private/hotkey/hotkey_manager.rs:191-201 | a held key that no binding uses does not change the snapshot |
| `KeyChords.Inc` | src-lib/private/hotkey/hotkey_manager.rs:308-309 | the counter increment wraps at `2^32` |
| `KeyChords.Advance` | src-lib/private/hotkey/hotkey_manager.rs:307-317 | a counter advances by one (wrapping) while its category is held and resets to 0 otherwise |
| `KeyChords.CountFrames` | src-lib/private/hotkey/hotkey_manager.rs:302-320 | after n held frames the counter has grown by n modulo `2^32`; one frame not held resets it |
| `Hotkey.ReadKeyBindings` | src-lib/private/hotkey/hotkey_manager.rs:34-49 | a stored record reads exactly when all fields without defaults are present; a missing `cycle_monitor` or `toggle_color_picker` falls back to its default chord |
| `Hotkey.WriteKeyBindings` | src-lib/private/hotkey/hotkey_manager.rs:34-49 | a written record holds every field, the two defaulted ones included |
| `Hotkey.ReadWrite` | src-lib/private/hotkey/hotkey_manager.rs:34-49 | writing bindings and reading them back gives them unchanged |
| `Hotkey.OlderRecordReads` | src-lib/private/hotkey/hotkey_manager.rs:26-32 | a record without the two newer fields reads with `[LControl, M]` and `[LControl, K]` for them |
| `Hotkey.MissingFieldNamed` | src-lib/private/hotkey/hotkey_manager.rs:36-45 | a record missing a required field is rejected with an error naming it |
| `Hotkey.Bindings` | src-lib/private/hotkey/hotkey_manager.rs:96-133 | the ten bindings are registered in the order up, down, left, right, cycle_monitor, scale_increase, scale_decrease, toggle_hidden, toggle_adjust, toggle_color_picker |
| `Hotkey.NewKeyBuffer` | src-lib/private/hotkey/hotkey_manager.rs:92-153 | a built key buffer has a table of `num_variants` entries for its key type; the only error is the 32-key message |
| `Hotkey.KeyBufferAccepts` | src-lib/private/hotkey/hotkey_manager.rs:92-153 | construction fails exactly when the bindings, in registration order, need a 33rd distinct key |
| `Hotkey.FewKeysAccepted` | src-lib/private/hotkey/hotkey_manager.rs:92-153 | bindings holding at most 32 keys in all are always accepted |
| `Hotkey.BufferLaidOut` | src-lib/private/hotkey/hotkey_manager.rs:92-153 | the table is laid out in first-seen order; each action's mask is the OR of its keys' entries; the movement mask is the OR of the four movement chords and the scale mask the OR of the two scale chords |
| `Hotkey.ActiveIffHeld` | src-lib/private/hotkey/hotkey_manager.rs:196-251 | an action's chord test on the snapshot of the keys down holds exactly when every key of its binding is down |
| `Hotkey.CategoriesIffAnyHeld` | src-lib/private/hotkey/hotkey_manager.rs:253-264 | `any_movement` / `any_scale` hold exactly when some key of some movement / scale binding is down |
| `Hotkey.NewGeneric` | src-lib/private/hotkey/hotkey_manager.rs:284-295 | a new manager exists exactly when the key buffer builds; it starts with both snapshots and both counters at 0 and an empty key list |
| `Hotkey.PollKeys` | src-lib/private/hotkey/hotkey_manager.rs:297-299 | polling replaces the observed keys and changes nothing else |
| `Hotkey.DefaultKeyBindings` | src-lib/private/hotkey/hotkey_manager.rs:51-66 | every movement and scale action is bound to one key, every toggle to Left Control and one more key, and no two actions share a chord |
| `Hotkey.ProcessKeys` | src-lib/private/hotkey/hotkey_manager.rs:302-320 | processing keeps the key buffer and the polled keys; the previous snapshot becomes the old current one; the new snapshot is that of the polled keys; each counter is its old value plus one modulo `2^32` when its category mask overlaps the new snapshot, and 0 otherwise |
| `Hotkey.Tick` | src-lib/private/hotkey/hotkey_manager.rs:297-320 | one frame, poll then process: the keyboard state holds exactly the keys observed, the buffer is kept, the old snapshot moves back and the new one is that of the observed keys |
| `Hotkey.JustPressed` | src-lib/private/hotkey/hotkey_manager.rs:322-348 | a toggle can fire only when the two latest snapshots differ, and never for an action whose chord mask is empty |
| `Hotkey.MoveRamp` | src-lib/private/hotkey/hotkey_manager.rs:405-423 | the ramp is one of 0, 1, 4, 16, 32, 64, and is 0 exactly on frames 2-9 |
| `Hotkey.ScaleRamp` | src-lib/private/hotkey/hotkey_manager.rs:424-441 | the separately written scale curve equals the movement curve at every frame count |
| `Hotkey.Amount` | src-lib/private/hotkey/hotkey_manager.rs:350-403 | an amount is at most 64, and is 0 exactly when the action's chord is not held or its category's counter is in the pause of frames 2-9 |
| `Hotkey.TickCounters` | src-lib/private/hotkey/hotkey_manager.rs:302-320 | processing keeps the key buffer, moves the current snapshot to the previous one, and advances each counter exactly when a key of its category is down |
| `Hotkey.TickActive` | src-lib/private/hotkey/hotkey_manager.rs:302-306 | after processing, each action's chord test on the new snapshot holds exactly when its binding is held |
| `Hotkey.ToggleIffPressedNow` | src-lib/private/hotkey/hotkey_manager.rs:322-348 | a toggle fires on a frame exactly when its chord was not held on the frame before and is held now |
| `Hotkey.ToggleFiresOnce` | src-lib/private/hotkey/hotkey_manager.rs:322-348 | the same keys processed on two consecutive frames never fire a toggle on the second |
| `Hotkey.AmountAfterTick` | src-lib/private/hotkey/hotkey_manager.rs:350-403 | a movement or scale amount is 0 unless the action's chord is held, and otherwise the ramp of its category's advanced counter |
| `Hotkey.TapStepsOne` | src-lib/private/hotkey/hotkey_manager.rs:350-423 | the first frame of a held chord moves or scales by exactly 1 |
| `Hotkey.UnboundKeyIgnored` | src-lib/private/hotkey/hotkey_manager.rs:191-201 | an extra held key that no binding uses changes no snapshot, counter or query |
| `Hotkey.HoldCounts` | src-lib/private/hotkey/hotkey_manager.rs:302-320 | holding the same keys for n frames adds n (modulo `2^32`) to a counter whose category is held, and leaves 0 otherwise |
| `Hotkey.HoldCountsByMask` | src-lib/private/hotkey/hotkey_manager.rs:307-317 | the same n-frame counting, stated on the category mask test |
| `Hotkey.RampShape` | src-lib/private/hotkey/hotkey_manager.rs:405-423 | the ramp is 1 on frames 0-1, 0 on 2-9, 1 on 10-24, 4 on 25-34, 16 on 35-54, 32 on 55-74 and 64 from 75, and it never decreases after the pause |
| `Hotkey.ScaleRampIsMoveRamp` | src-lib/private/hotkey/hotkey_manager.rs:424-442 | `scale_ramp` equals `move_ramp` |
| `Hotkey.DefaultsAccepted` | src-lib/private/hotkey/hotkey_manager.rs:51-66 | the default bindings name 14 keys in all, within the 32-key limit, and are accepted by every valid key type |
| `Hotkey.DefaultCategoriesExact` | src-lib/private/hotkey/hotkey_manager.rs:253-264 | with the default one-key movement and scale bindings, "some category key down" is the same as "some category chord held" |
| `Hotkey.PartialChordCounts` | src-lib/private/hotkey/hotkey_manager.rs:252-258 | a key of a multi-key movement chord held alone advances the movement counter while every movement amount stays 0 |
| `Hotkey.ControlAloneIsPartial` | src-lib/private/hotkey/hotkey_manager.rs:252-258 | with up bound to `[LControl, Up]`, Left Control alone counts as movement while no movement chord is held |
| `LegacyHotkey.Bindings` | src/hotkey/hotkey_manager.rs:67-78 | the eight bindings are registered in the order up, down, left, right, scale_increase, scale_decrease, toggle_hidden, toggle_adjust |
| `LegacyHotkey.NewKeyBuffer` | src/hotkey/hotkey_manager.rs:67-97 | a built key buffer has a 96-entry table; the only error is the 32-key message |
| `LegacyHotkey.KeyBufferAccepts` | src/hotkey/hotkey_manager.rs:260-277 | construction fails exactly when the bindings, in registration order, need a 33rd distinct key |
| `LegacyHotkey.FewKeysAccepted` | src/hotkey/hotkey_manager.rs:67-78 | bindings holding at most 32 keys in all are always accepted |
| `LegacyHotkey.BufferLaidOut` | src/hotkey/hotkey_manager.rs:67-97 | single bits in first-seen order; each action's mask is the OR of its keys' entries; the category masks are the ORs of the movement and scale chords |
| `LegacyHotkey.ActiveIffHeld` | src/hotkey/hotkey_manager.rs:99-141 | an action's chord test on the snapshot holds exactly when its binding is held |
| `LegacyHotkey.CategoriesIffAnyHeld` | src/hotkey/hotkey_manager.rs:143-150 | the category tests hold exactly when some key of the category is down |
| `LegacyHotkey.New` | src/hotkey/hotkey_manager.rs:162-173 | a new manager exists exactly when the key buffer builds, and starts with zero snapshots and counters |
| `LegacyHotkey.DefaultKeyBindings` | src/hotkey/hotkey_manager.rs:37-50 | every movement and scale action is bound to one key, both toggles to Left Control and one more key, and no two actions share a chord |
| `LegacyHotkey.ProcessKeys` | src/hotkey/hotkey_manager.rs:175-193 | processing keeps the key buffer; `previous_state` becomes the old `state`; the new `state` is the snapshot of the given keys; each counter is its old value plus one modulo `2^32` when its category mask overlaps the new state, and 0 otherwise |
| `LegacyHotkey.JustPressed` | src/hotkey/hotkey_manager.rs:195-203 | a toggle can fire only when `state` differs from `previous_state`, and never for an action whose chord mask is empty |
| `LegacyHotkey.MoveRamp` | src/hotkey/hotkey_manager.rs:279-296 | the ramp is one of 1, 4, 16, 32, 64, so never 0 |
| `LegacyHotkey.ScaleRamp` | src/hotkey/hotkey_manager.rs:298-315 | the separately written scale curve equals the movement curve at every frame count |
| `LegacyHotkey.Amount` | src/hotkey/hotkey_manager.rs:205-251 | an amount is at most 64, and is 0 exactly when the action's chord is not held |
| `LegacyHotkey.ProcessCounters` | src/hotkey/hotkey_manager.rs:175-193 | processing a key list keeps the buffer, moves `state` to `previous_state`, and advances or resets each counter by its category |
| `LegacyHotkey.ProcessActive` | src/hotkey/hotkey_manager.rs:175-181 | the new `state` contains an action's chord exactly when its binding is held in the given list |
| `LegacyHotkey.ToggleIffPressedNow` | src/hotkey/hotkey_manager.rs:195-203 | a toggle fires exactly on the frame its chord goes from not held to held |
| `LegacyHotkey.ToggleFiresOnce` | src/hotkey/hotkey_manager.rs:195-203 | the same list processed twice never fires a toggle on the second frame |
| `LegacyHotkey.AmountAfterProcess` | src/hotkey/hotkey_manager.rs:205-251 | a ramped query is 0 unless the chord is held, and otherwise the ramp of its category's advanced counter |
| `LegacyHotkey.HeldChordMoves` | src/hotkey/hotkey_manager.rs:205-251 | a ramped query is at least 1 exactly when its chord is held, since this ramp is never 0 |
| `LegacyHotkey.UnboundKeyIgnored` | src/hotkey/hotkey_manager.rs:99-108 | a key that no binding uses leaves the processed manager unchanged |
| `LegacyHotkey.HoldCounts` | src/hotkey/hotkey_manager.rs:181-192 | n frames of the same keys add n (modulo `2^32`) to a held category's counter, and leave 0 otherwise |
| `LegacyHotkey.HoldCountsByMask` | src/hotkey/hotkey_manager.rs:183-192 | the same counting, stated on the category mask test |
| `LegacyHotkey.RampShape` | src/hotkey/hotkey_manager.rs:279-296 | the ramp is 1 for frames 0-9, 4 for 10-19, 16 for 20-39, 32 for 40-59 and 64 from 60; it is never 0 and is non-decreasing |
| `LegacyHotkey.ScaleRampIsMoveRamp` | src/hotkey/hotkey_manager.rs:298-315 | `scale_ramp` equals `move_ramp` |
| `LegacyHotkey.DefaultsAccepted` | src/hotkey/hotkey_manager.rs:37-50 | the default bindings name 10 keys in all, within the 32-key limit, and are always accepted |
| `LegacyHotkey.DefaultHotkeyManager` | src/hotkey/hotkey_manager.rs:254-258 | `Default` builds from the default bindings without reaching the error path, with zero snapshots and counters |
| `Color.PackUnpack` | crosshair-lib/src/util/image/mod.rs:340-356 | packing the little-endian bytes of a `u32` gives it back |
| `Color.BytesRoundTrip` | crosshair-lib/src/util/image/mod.rs:351-355 | unpacking a packed byte quadruple gives it back |
| `Color.MultiplyColorChannels` | crosshair-lib/src/util/image/mod.rs:265-270 | the channel product is never above either operand; 255 is its identity and 0 absorbs it |
| `Color.MultiplyRounds` | crosshair-lib/src/util/image/mod.rs:265-270 | the channel product is `a*b/255` rounded to nearest, within 127/255 |
| `Color.MultiplyExamples` | crosshair-lib/src/util/image/mod.rs:378-384 | `255 x 127 = 127`, `127 x 127 = 63`, `0 x 127 = 0` |
| `Color.MultiplyIdentities` | crosshair-lib/src/util/image/mod.rs:370-392 | multiplying by 255 is the identity, by 0 gives 0, and the product commutes |
| `Color.Premultiplied` | crosshair-lib/src/util/image/mod.rs:232-243 | each premultiplied channel is at most alpha and at most the channel |
| `Color.PremultiplyAlpha` | crosshair-lib/src/util/image/mod.rs:232-249 | alpha is kept; on Windows each colour channel becomes the rounded `c * a / 255`; elsewhere the pixel is unchanged |
| `Color.PremultiplyFacts` | crosshair-lib/src/util/image/mod.rs:232-249 | on Windows no channel exceeds alpha; alpha 255 leaves the pixel unchanged; alpha 0 clears the colour |
| `Color.RgbaToArgb` | crosshair-lib/src/util/image/mod.rs:195-229 | the PNG's red, green, blue and alpha bytes become the ARGB pixel's, with bytes 0 and 2 swapped and the colour premultiplied on Windows |
| `Color.RgbaToArgbSplits` | crosshair-lib/src/util/image/mod.rs:195-229 | the Windows conversion is the plain reorder followed by premultiplication, and the plain reorder undoes itself |
| `Color.OpaqueReorders` | crosshair-lib/src/util/image/mod.rs:221-229 | an opaque pixel is only reordered, on both platforms |
| `Color.PixelFormatExample` | crosshair-lib/src/util/image/mod.rs:358-367 | RGBA `(20, 40, 60, 255)` becomes the bytes `[60, 40, 20, 255]` |
| `Color.HueValueRgb` | crosshair-lib/src/util/image/mod.rs:117-139 | one channel is `value`, one is 0, and no channel exceeds `value` |
| `Color.HueValueToArgb` | crosshair-lib/src/util/image/mod.rs:117-139 | the pixel is opaque and its colour is the brightness-scaled hue, so one channel is `value` and one is 0 |
| `Color.HueRgb` | crosshair-lib/src/util/image/mod.rs:142-164 | the full-brightness hue is the brightness-scaled hue at value 255: one channel is 255 and one is 0 |
| `Color.HueAlphaToArgb` | crosshair-lib/src/util/image/mod.rs:142-164 | alpha is the given alpha and the colour is the full-brightness hue: one channel is 255, one is 0 |
| `Color.SectionSaturated` | crosshair-lib/src/util/image/mod.rs:131-138 | in each of the six hue sections one channel is full and one is 0 |
| `Color.HueValueFullIsHueAlphaFull` | crosshair-lib/src/util/image/mod.rs:117-164 | at full value and full alpha the two hue functions agree |
| `Color.HueSawtooth` | crosshair-lib/src/util/image/mod.rs:128-129 | `hue.wrapping_mul(6)` is `6*hue - 256*section`: a sawtooth restarting at each section boundary 43, 86, 128, 171, 214 |
| `Color.HueContinuous` | crosshair-lib/src/util/image/mod.rs:142-164 | adjacent hues differ by at most 6 in each channel |
| `Color.XYToArgb252AsWritten` | crosshair-lib/src/util/image/mod.rs:167-191 | alpha is `255 - y`; one channel is 255 and one is 0 |
| `Color.XYAsWrittenJumps` | crosshair-lib/src/util/image/mod.rs:167-191 | as written, the colour jumps from `(255, 246, 0)` at `x = 41` to `(3, 255, 0)` at `x = 42`; the picker's column 42 is `(255, 255, 0)`; left of column 42 both definitions agree |
| `Color.XYToArgb252` | crosshair-lib/src/util/image/mod.rs:167-191 | the corrected coordinate colour: alpha `255 - y`, one channel 255 and one 0 |
| `Color.XYContinuous` | crosshair-lib/src/util/image/mod.rs:167-191 | across the picker, adjacent columns of the corrected colour differ by at most 9 per channel |
| `Color.PickerRampExact` | crosshair-lib/src/util/image/mod.rs:63-67 | inside the 252-wide picker, the corrected ramp is `6 * (x - 42*section)`, at most 246, so it never wraps |
| `Color.HueAlphaColorFromCoordinates` | crosshair-lib/src/util/image/mod.rs:109-113 | on a 252 by 252 picker, the alpha is `255 - (y as u8)` and the colour that of column `x as u8` |
| `Color.RectangleCenter` | crosshair-lib/src/util/image/mod.rs:327-332 | the centre is `(x + floor(w/2), y + floor(h/2))`, stated as `2(cx - x) <= w < 2(cx - x) + 2` |
| `Color.RectangleCenterExamples` | crosshair-lib/src/util/image/mod.rs:408-446 | the seven centring tests, including negative corners, odd sizes and a 1080p screen |
| `ColorPicker.DrawColorPicker` | crosshair-lib/src/util/image/mod.rs:69-105 | given a buffer of `252*252` pixels, every pixel is written, opaque, with the colour its section, column and row give |
| `ColorPicker.DrawRow` | crosshair-lib/src/util/image/mod.rs:83-100 | one pass of the outer loop draws the picker's colour across the whole of row `row` and leaves every other row as it was |
| `ColorPicker.PickerRgbAt` | crosshair-lib/src/util/image/mod.rs:84-96 | column `c` of section `k` in row `y` has value `255 - y`, rising ramp `6c` and falling ramp `255 - 6c`, each scaled by the value |
| `ColorPicker.ColumnWritten` | crosshair-lib/src/util/image/mod.rs:89-96 | one inner iteration writes the six pixels of its column in its row and no other pixel |
| `ColorPicker.SectionPixel` | crosshair-lib/src/util/image/mod.rs:90-95 | the six byte arrays written are the section colours, opaque |
| `ColorPicker.PickerOpaque` | crosshair-lib/src/util/image/mod.rs:522-523 | every picker pixel has alpha 255 and is nonzero |
| `ColorPicker.PickerSectionIsQuotient` | crosshair-lib/src/util/image/mod.rs:172-186 | the section boundaries 42, 84, 126, 168, 210 pick section `x / 42` |
| `ColorPicker.ScaledSection` | crosshair-lib/src/util/image/mod.rs:84-96 | premultiplying a full section colour by a value gives the section colour drawn at that value |
| `ColorPicker.PickedPixelParts` | crosshair-lib/src/util/image/mod.rs:167-191 | the picked pixel's colour is its column's colour, and its premultiplied colour is that colour scaled by `255 - y` |
| `ColorPicker.PickedColorIsDrawnColor` | crosshair-lib/src/util/image/mod.rs:585-599 | with the corrected coordinate colour, the colour picked at `(x, y)`, premultiplied, is the colour drawn there |
| `ColorPicker.PickerYellowAt42` | crosshair-lib/src/util/image/mod.rs:90-91 | column 42 of the picker is yellow at every row |
| `ColorPicker.PickedColorAsWrittenDiffers` | crosshair-lib/src/util/image/mod.rs:167-191 | as written, the colour picked at column 42 in row `y` keeps the red of `3` scaled by `255 - y` (in the top row `(3, 255, 0)`) and so differs in every row from the yellow the picker shows there |
| `Icon.GenerateIconRgba` | crosshair-lib/src/util/image/mod.rs:34-61 | the icon has `4*size*size` bytes, and the four bytes of column `x`, row `y` sit at pixel `x*size + y` and hold that pixel |
| `Icon.AppendColumn` | crosshair-lib/src/util/image/mod.rs:44-57 | one pass of the inner loop keeps the bytes already written and puts the pixels of column `x`, row after row, right after them |
| `Icon.IconPixel` | crosshair-lib/src/util/image/mod.rs:44-57 | red and alpha are equal and either 0 or 255; green and blue are 0 where alpha is 0, and otherwise the gradients `x*128/size` and `y*128/size`, below 128 |
| `Icon.MaskSymmetric` | crosshair-lib/src/util/image/mod.rs:44-51 | the disc is symmetric under mirroring columns, mirroring rows and swapping them |
| `Icon.OffsetMirrored` | crosshair-lib/src/util/image/mod.rs:44-45 | with truncating division the centre offset of the mirrored column is the negated offset |
| `Icon.CentreOpaque` | crosshair-lib/src/util/image/mod.rs:44-51 | an icon at least 2 pixels wide is opaque at its centre |
| `LegacyImage.TruncatedMultiply` | src/util/image.rs:33-42 | the first build's channel product is never above either operand; alpha 255 keeps the channel and alpha 0 clears it |
| `LegacyImage.TruncatedMultiplyFloors` | src/util/image.rs:33-42 | the first build's channel product is the floor of `c*a/255`; it is never above the rounded product and at most one below it |
| `LegacyImage.TruncatedIdentities` | src/util/image.rs:33-42 | alpha 255 keeps a channel; alpha 0 clears it |
| `LegacyImage.PremultiplyAlpha` | src/util/image.rs:30-53 | alpha is kept; on Windows each colour channel is truncated to `c*a/255`; elsewhere the pixel is unchanged |
| `LegacyImage.PremultiplyFacts` | src/util/image.rs:31-46 | on Windows no channel exceeds alpha; alpha 255 leaves the pixel unchanged; alpha 0 clears the colour |
| `LegacyImage.PremultiplyNearLibrary` | src/util/image.rs:31-46 | each channel from the first build is at most one below the library's rounded premultiply |
| `LegacyImage.RgbaToArgb` | src/util/image.rs:22-27 | the conversion swaps bytes 0 and 2, keeps 1 and 3, then applies the truncating premultiply |
| `LegacyImage.OpaqueReorders` | src/util/image.rs:22-27 | an opaque pixel is only reordered |
| `HexColor.Serialize` | src-lib/private/util/custom_serializer.rs:9-14 | a colour is written as exactly 8 upper-case hex digits |
| `HexColor.ToHex` | src-lib/private/util/custom_serializer.rs:13 | `width` upper-case digits worth `n` modulo `16^width` |
| `HexColor.ToHexValue` | src-lib/private/util/custom_serializer.rs:13 | zero-padded hex digits are worth the number written |
| `HexColor.HexValueToHex` | src-lib/private/util/custom_serializer.rs:13 | upper-case digits are written back exactly from their value |
| `HexColor.ParseFromValue` | src-lib/private/util/custom_serializer.rs:21 | the parse loop succeeds exactly on hex digits worth less than `2^32`, and then returns their value |
| `HexColor.Deserialize` | src-lib/private/util/custom_serializer.rs:16-22 | a lone sign is an invalid digit; an invalid digit is reported only for a non-empty literal that is not well formed; a well-formed literal worth `2^32` or more overflows |
| `HexColor.DeserializeValue` | src-lib/private/util/custom_serializer.rs:16-22 | reading succeeds exactly on one optional `+` followed by one or more hex digits of either case worth at most `u32::MAX`, and returns their value; only the empty string is reported as empty |
| `HexColor.EmptyNeverFromDigits` | src-lib/private/util/custom_serializer.rs:21 | the digit loop never reports an empty input |
| `HexColor.SerializeRoundTrip` | src-lib/private/util/custom_serializer.rs:9-22 | reading a written colour gives the colour, for every `u32` |
| `HexColor.CanonicalRoundTrip` | src-lib/private/util/custom_serializer.rs:9-22 | every 8-digit upper-case literal reads, and writing the value gives the literal back |
| `HexColor.SerializeExample` | src/settings.rs:82 | the default colour `0xB2FF0000` is written `B2FF0000` |
| `HexColor.DeserializeAccepts` | src-lib/private/util/custom_serializer.rs:20-21 | lower case, a leading `+` and short literals are read |
| `HexColor.ZerosSkipped` | src-lib/private/util/custom_serializer.rs:21 | leading zeros leave the digit loop's accumulated value at 0 |
| `HexColor.DeserializeLeadingZeros` | src-lib/private/util/custom_serializer.rs:20-21 | leading zeros are read, even past eight digits: `0000000FF` is `0xFF` |
| `HexColor.DeserializeRejects` | src-lib/private/util/custom_serializer.rs:16-22 | `-1` is an invalid digit, `100000000` overflows, and the empty string is empty |
| `Settings.DefaultPersisted` | src/settings.rs:76-89 | the default persisted settings have a nonzero frame rate and no image path |
| `Settings.ImagePathToLoad` | src/settings.rs:49-51 | an image path is used exactly when it is present and non-empty |
| `Settings.Load` | src/settings.rs:46-73 | loading keeps the persisted record; the colour is premultiplied for the platform; an image is present exactly when a non-empty path loads; the tick is `ceil(1000 / fps)` ms |
| `Settings.DefaultSettings` | src/settings.rs:143-153 | the default settings hold the default persisted record and no image |
| `Settings.DefaultIsLoadedDefault` | src/settings.rs:143-153 | the defaults are what loading the default record gives; the colour is `0xB2B20000` on Windows and `0xB2FF0000` elsewhere; the tick is 17 ms |
| `Settings.DefaultColorPremultiplied` | src/settings.rs:82 | the truncating premultiply of `0xB2FF0000` is `0xB2B20000` on Windows |
| `Settings.ScalableUsesPersistedSize` | src/settings.rs:100-110 | the crosshair is scalable exactly when no image is loaded, and then its size is the persisted one |
| `Settings.Reset` | src/settings.rs:112-120 | reset puts the offset at 0, the size at 4 by 4 and clears both the image path and the image; colour, fps, key bindings, the derived colour and the tick are unchanged |
| `Settings.ResetFacts` | src/settings.rs:112-120 | after a reset the crosshair is scalable and 4 by 4, and a second reset changes nothing |
| `Settings.LoadPng` | src/settings.rs:122-128 | on failure the error is returned and nothing changes; on success the image's size becomes the crosshair's, it is no longer scalable, the path is the one that will be loaded next time (unless empty), the window fields are kept, and a reset afterwards is the same as a reset before |
| `Settings.LoadPngThenReset` | src/settings.rs:100-128 | a loaded image fixes the size and stops scaling, and a reset afterwards is the same as a reset before |
| `Settings.LoadedPathReloads` | src/settings.rs:46-60 | a path loaded at run time loads the same image when the settings are loaded again |

## Left out

- Reading the keyboard is left out. The device_query poll, the Windows native keyboard backend
  and `HotkeyManager::poll_keys` become a list of keys observed, passed to `PollKeys` / `Poll`
  or, in the first revision, to `ProcessKeys`.
- The window, event loop, tray, dialogs and Linux thread glue are user interface and operating
  system calls. This covers `src/window.rs`, `src/main.rs`, `src/tray.rs`, `src/linux.rs` and
  `src-lib/util/dialog.rs`. `speed_ramp` in `src/main.rs` is the same curve as the first
  revision's `move_ramp`.
- PNG decoding (`load_png` in both image files) and the configuration file's TOML reading and
  writing are I/O. The decoder is a function parameter. The warning shown when a saved image
  fails to load is dropped.
- Serde is modelled only as a record of optional fields with the two defaulted fields
  (`Hotkey.ReadKeyBindings`). The colour field's codec is `HexColor`.
- The floating-point code is left out: `src-lib/private/util/image/precise.rs` and the `f64`
  error bounds of the hue tests. Benchmarks and `build.rs` are left out too. The icon generator
  in `build.rs` is a copy of the one modelled.
- The first revision's `keycode_to_table_index` is not part of this model. Its slot numbering is
  a parameter: any injective numbering with slots below 96 (`LegacyKeycodeType`).
- The canonical `Keycode` enumeration is declared in a file not part of this model. Its 111
  variants are taken from the exhaustive conversions.
- The first revision's own `Keycode` type (`src/hotkey/mod.rs`) is not part of this model. The
  library's 111-variant key is used for it. Nothing depends on the difference, because the
  first revision's key conversion is a parameter of `LegacyKeycodeType`.
- The backend key type is modelled as a wrapper around the canonical key. Both conversions map
  every variant to the one of the same name, so the two round trips hold by construction.
- DeviceQuery.Index: only injectivity into `[0, 111)` is proved. That `Index` is onto
  `[0, 111)` is not stated.
- KeyChords.Inc: the held-frame counters wrap at `2^32`, as a release build does. A debug
  build would panic after `2^32` held frames instead.
- The partial-chord behaviour flagged by the source's TODO is modelled as written. A single key
  of a multi-key movement chord advances the counter (`Hotkey.PartialChordCounts`).
- Numeric.DivFloorI32 requires `!(n == i32::MIN && d == -1)`. Rust's `/` overflows there; the
  only caller divides by 2.
- Numeric.DivCeilUsize: `usize` is taken to be 64 bits wide.
- Numeric.FpsToTickInterval requires `fps != 0`. The source divides by the frame rate and panics
  on 0; a settings file with `fps = 0` is not handled by the program either. `Settings.Load`
  carries the same requirement.
- `src/settings.rs` imports `fps_to_tick_interval` from `src/util/numeric.rs`, which does not
  define it. The library crate's definition is used.
- Color.RectangleCenter requires the sums `x + w/2` and `y + h/2` to fit in `i32`. The source
  promises nothing on overflow.
- Icon.GenerateIconRgba takes `size` as a natural number and requires `4*size*size` to fit in
  `u32`. The source computes that byte count in `u32`.
- Color.HueAlphaColorFromCoordinates uses the corrected coordinate colour; see Findings. The
  as-written function is `Color.XYToArgb252AsWritten`. The debug assertions on width and
  height become requires.
- ColorPicker.DrawColorPicker returns a new buffer of the same length. The source mutates its
  argument in place.
- HexColor.Deserialize: the standard library's base-16 parser is modelled from its documented
  behaviour: an optional sign, then digits. It reports an invalid digit before an overflow at
  the same position.

## Findings

| source | as written | input that shows it | evidently intended | confidence | as-written member | corrected member |
|---|---|---|---|---|---|---|
| crosshair-lib/src/util/image/mod.rs:167-191 | `x_y_to_argb_252` takes the ramp as `x.wrapping_mul(6)` but uses sections 42 wide. The ramp therefore does not restart at each section boundary (252, not 256, is the section period), and the picked colour leaves the drawn one from column 42 on | `x = 42, y = 0`: as written the colour is `(3, 255, 0)`, while `draw_color_picker` draws `(255, 255, 0)` there; at `x = 41` it is `(255, 246, 0)`, a jump of 252 in red | the ramp restarts in each 42-wide section, `6 * (x - 42*section)`, so that the colour picked at a point is the colour drawn there | medium-high, not executed | `Color.XYToArgb252AsWritten`, shown by `ColorPicker.PickedColorAsWrittenDiffers` and `Color.XYAsWrittenJumps` | `Color.XYToArgb252`, with `ColorPicker.PickedColorIsDrawnColor` |
