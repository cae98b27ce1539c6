# deno_streamdeck app switcher in Dafny

This project models the app-switcher layer of `deno_streamdeck`. That layer is the `AppDeck` class, a Stream Deck driver subclass. It also models the device-profile table that supplies the layer's geometry.

`AppDeck` keeps four pieces of state:
- an insertion-ordered collection of apps, each with an icon, full-grid keypad images, a per-keypad tile cache, remembered blank keys and per-key keypad states;
- the name of the active app, where `""` means "the menu is shown";
- a map of named system icons;
- a full-screen RGBA buffer that mirrors what the keys show.

The operations render the menu, render an app key by key, write a key, change a key's keypad state, load and unload apps, register icons, and route key events.

## Layout
- `wrappers.dfy` (`Wrappers`): `Option` and `Result`.
- `deckinfo.dfy` (`DeckInfo`): the `DeckType` variants, the `DeckInfo` record, and the four profiles of the `deckInfo` table, with the table's facts proved.
- `arith.dfy` (`Arith`): multiplication, division and remainder written as recursive functions, with the lemmas the buffer arithmetic uses.
- `geometry.dfy` (`Geometry`): the buffer arithmetic, as value-level specifications. It covers:
  - the key grid (`KeyXY`, `RowStart`);
  - tile extraction (`Tile`) and black-tile detection (`TileIsBlank`);
  - compositing one key write into the screen (`Composite`);
  - painting a log of key writes (`Paint`).
- `apps.dfy` (`Apps`): apps and keypads as values, covering:
  - the app collection in `Map` insertion order (`IndexOf`, `SetApp`, `RemoveAt`);
  - the per-key render decision of `setAppKey` (`RenderKey`) against the tile the key should show (`ExpectedTile`);
  - the `showApp` loop as a function (`AppRender`);
  - the key writes of `showMenu` (`MenuWrites`).
- `appdeck.dfy` (`AppDeck`): the `AppDeck` class. It holds the screen as an `array<bv8>` and the apps, icons and active name as fields. Its methods follow the source's loops. Each method is proved against the functions of `Apps` and `Geometry`.

The device write `super.setKeyData`, whose body is in none of the repository's files, is recorded in a ghost log `writes`. The class invariant `Valid()` states that the screen buffer equals the all-zero screen painted by that log (`Paint`). A JavaScript exception is modelled as an `Err` result. The state changes the JavaScript has already made when it throws are kept.

## Model

| member | source | states |
|---|---|---|
| DeckInfo.TypeName | src/types.ts:1-6 | each variant's string value, "Stream Deck Mini", "Stream Deck Original", "Stream Deck MK.2" or "Stream Deck XL", starts with "Stream Deck " |
| DeckInfo.TypeNameInjective | src/types.ts:1-6 | different device types have different names |
| DeckInfo.Info | src/deckInfo.ts:3-64 | every profile is well formed (keyCount = columns x rows, positive key size); its frames have payload room; every report template has offset < length and fits its data; vendor 0x0fd9; square keys; BMP with state offset 1 for Mini/Original, JPEG with offset 4 for MK.2/XL |
| DeckInfo.ProductIdsDistinct | src/deckInfo.ts:6-51 | equal product ids imply the same variant |
| DeckInfo.KeyGrids | src/deckInfo.ts:7-53 | 6 = 3x2, 15 = 5x3, 15 = 5x3, 32 = 8x4 |
| Geometry.KeyXY | src/AppDeck.ts:162 | the column is below the column count and key = row * columns + column |
| Geometry.SourceSizes | src/AppDeck.ts:32-34 | the source's products for icon length, screen and image length, and row width equal the model's sizes |
| Geometry.AppKeyOffsets | src/AppDeck.ts:197-208 | setAppKey's `i * width + offset` is the start of pixel row i of key k in the full grid, and `i * keySize[0] * 4` is row i of the tile |
| Geometry.KeyDataOffsets | src/AppDeck.ts:162-168 | setKeyData's `sy + sx` is the start of pixel row y of the key in the screen, and `dy` is row y of the data |
| Geometry.ByteInScreen | src/AppDeck.ts:164-168 | a key's tile byte lies inside the screen iff the key is inside the grid |
| Geometry.OwnerOfByte | src/AppDeck.ts:164-168 | the screen byte setKeyData writes for (key, row, column) is owned by exactly that position |
| Geometry.ByteOfOwner | src/AppDeck.ts:164-168 | every screen byte is the byte of its owning (key, row, column) |
| Geometry.SliceOf | src/AppDeck.ts:203 | `slice` clamps to the buffer and copies its bytes |
| Geometry.Overwrite | src/AppDeck.ts:168 | `set` keeps the length; when the source fits, the window at the offset becomes the source; every byte outside the window is unchanged |
| Geometry.CopyRow | src/AppDeck.ts:202-208 | one pass of setAppKey's row loop: the clamped image row `slice` is written to the tile buffer at `i * keySize[0] * 4`, and the buffer keeps its length |
| Geometry.TileRows | src/AppDeck.ts:198-209 | the tile buffer after the first `rows` passes, starting from the zero-filled buffer; always key-sized |
| Geometry.Tile | src/AppDeck.ts:196-209 | the buffer after all `keySize[1]` passes: key k's key-sized tile of a full-grid image (its bytes are given by `TileAt`) |
| Geometry.BlankRows | src/AppDeck.ts:196-207 | the running `isBlank` after `rows` passes: no row so far had a non-alpha byte that is not 0 |
| Geometry.TileIsBlank | src/AppDeck.ts:196-210 | setAppKey's final `isBlank` for key k (its meaning is given by `TileBlankMeans`) |
| Geometry.TileAt | src/AppDeck.ts:196-209 | tile byte (i, c) is image byte `RowStart(k, i) + c`, or 0 past the image |
| Geometry.TileRowIsImageRow | src/AppDeck.ts:196-209 | row i of the tile of a key in the grid equals the image row `keypad.data[j .. j + keySize[0]*4]` |
| Geometry.TileBeyondGrid | src/AppDeck.ts:196-209 | a key past the grid extracts the all-zero tile |
| Geometry.TileBlankMeans | src/AppDeck.ts:204-207 | the isBlank scan holds iff every non-alpha byte of the extracted tile is 0, whatever the alpha bytes hold |
| Geometry.CopyRowBlank | src/AppDeck.ts:205-208 | copying a row keeps the tile black iff the row has no colour byte |
| Geometry.CompositeAt | src/AppDeck.ts:161-169 | after writing `d` to `key`, a screen byte of key k is d's byte at that tile position when k = key (and d reaches it), and otherwise unchanged |
| Geometry.CompositeRows | src/AppDeck.ts:164-168 | the screen after the first `rows` passes of setKeyData's row loop: same length, with those rows of the key taken from the data |
| Geometry.Composite | src/AppDeck.ts:161-169 | writing a key leaves every byte owned by other keys unchanged |
| Geometry.CompositeCopiesRows | src/AppDeck.ts:164-168 | byte c of data row y lands at `(ky*kh + y)*keyLayout[0]*kw*4 + kx*kw*4 + c` |
| Geometry.TileOfComposite | src/AppDeck.ts:161-169 | other keys' tiles are unchanged; the written key shows `d` where d has bytes; a full-size `d` becomes exactly the key's tile |
| Geometry.CompositeOwnTile | src/AppDeck.ts:161-169 | re-writing a key with its own current tile changes nothing |
| Geometry.TilesDetermineScreen | src/AppDeck.ts:32-34 | two screens with equal tiles on every key are equal |
| Geometry.WriteFailsWhen | src/AppDeck.ts:168 | a write into the grid never throws; a non-empty write past the grid throws a RangeError |
| Geometry.CompositeBeyondGrid | src/AppDeck.ts:164-168 | a write to a key past the grid leaves the screen unchanged |
| Geometry.CompositeRowStep | src/AppDeck.ts:164-168 | one row copy of the loop advances the composite by row y |
| Geometry.Paint | src/AppDeck.ts:160-169 | the screen after a log of key writes is applied in order, one `Composite` per write; same length as the start screen |
| Geometry.LastWrite | src/AppDeck.ts:160 | the data of the last logged write to key k, if any (characterised by `LastWriteSpec`) |
| Geometry.PaintAppend | src/AppDeck.ts:160-169 | painting a concatenated log paints its parts in order |
| Geometry.PaintShowsLastWrite | src/AppDeck.ts:160-169 | a key shows its last key-sized write, or its old tile when never written |
| Geometry.LastWriteSpec | src/AppDeck.ts:160 | the last write to k exists iff some write went to k, and no later write goes to k |
| Geometry.LastWriteOfIndexed | src/AppDeck.ts:121-144 | in a log whose j-th write is to key j, the last write to k is entry k |
| Apps.IndexOf | src/AppDeck.ts:60-61 | finds the first app with the name, or None exactly when no app has it |
| Apps.SetApp | src/AppDeck.ts:280-286 | `Map.set`: the collection grows by one iff the name is new, holds the new app, and keeps every app of another name at its position |
| Apps.RemoveAt | src/AppDeck.ts:301 | `Map.delete` removes the entry and keeps the order of the others |
| Apps.Names | src/AppDeck.ts:114 | `[...apps.keys()]` has one name per app, lists exactly the names that are loaded, and in insertion order: its i-th name finds app i |
| Apps.SetAppFinds | src/AppDeck.ts:280-286 | after set the names stay unique and the name finds the new app |
| Apps.SetAppOther | src/AppDeck.ts:280-286 | set leaves the lookup of every other name unchanged |
| Apps.SetAppNames | src/AppDeck.ts:280-286 | the key list gains the name only when it is new |
| Apps.RemoveAtFacts | src/AppDeck.ts:301 | after delete the names stay unique and the removed name is gone |
| Apps.RemoveAtOther | src/AppDeck.ts:301-302 | delete keeps every other name loaded |
| Apps.RemoveNewApp | src/AppDeck.ts:280-301 | loading a new name appends it last, and unloading it restores the collection |
| Apps.SetAppValid | src/AppDeck.ts:280-286 | storing a valid app keeps the collection valid |
| Apps.RemoveAtValid | src/AppDeck.ts:301 | removing an app keeps the collection valid |
| Apps.ReplaceApp | src/AppDeck.ts:211-213 | updating an app in place keeps the collection valid and every lookup unchanged |
| Apps.LoadKeypads | src/AppDeck.ts:264-279 | `images.map`: each image becomes a keypad with an empty cache, and the first image of the wrong size throws ImageSizeIncorrect (meaning given by `LoadKeypadsSpec`) |
| Apps.LoadKeypadsSpec | src/AppDeck.ts:264-279 | keypads load iff every image has the screen length, with ImageSizeIncorrect otherwise; each loaded keypad holds its image and an empty cache |
| Apps.KeyState | src/AppDeck.ts:190 | the keypad index of key k: `keyStates[k] ?? 0` |
| Apps.RenderKey | src/AppDeck.ts:176-216 | setAppKey's branches in order: close icon on the top-right key when registered, blank tile for a remembered blank key, MissingKeypad when the state has no keypad, the cached tile, else the extracted tile, remembered as blank when black and cached otherwise (what it shows is given by `RenderKeyCorrect`, what it remembers by `RenderKeyRemembers`) |
| Apps.ExpectedTile | src/AppDeck.ts:181-215 | the cache-independent reference for what key k shows: the close icon, the blank tile for a remembered or black tile, otherwise the selected keypad's tile; None when that keypad is missing |
| Apps.RenderKeyCorrect | src/AppDeck.ts:176-216 | setAppKey throws iff the key's keypad is missing; otherwise it writes exactly the expected tile (close icon, blank tile, or the extracted tile, blank when black) and leaves a valid app that only grew at that key and expects the same tiles |
| Apps.RenderKeyRemembers | src/AppDeck.ts:196-215 | a key that is not the close key, not blank and not cached is rendered; a black tile puts the key in `keyBlanks` and leaves the keypads unchanged, and any other tile is cached as the key's tile in the selected keypad with `keyBlanks` unchanged |
| Apps.RenderKeyIdempotent | src/AppDeck.ts:181-215 | rendering a key again from the app state its first rendering left writes the same tile and changes nothing |
| Apps.NewBlankKey | src/AppDeck.ts:210-211 | remembering a black key as blank keeps the app valid and every expected tile |
| Apps.NewCachedKey | src/AppDeck.ts:212-214 | caching a non-black tile keeps the app valid and every expected tile |
| Apps.BlankKeysStayBlank | src/AppDeck.ts:186-189 | a blank key is never reset by rendering and always renders the blank tile unless it is the close key |
| Apps.CachedKeyReused | src/AppDeck.ts:191-195 | a cached tile is written unchanged and the app is left as it was |
| Apps.ExpectedTileIgnoresCache | src/AppDeck.ts:190-195 | what a key shows does not depend on the cache |
| Apps.ExpectedTileLength | src/AppDeck.ts:181-215 | every tile setAppKey writes for a valid app is key-sized |
| Apps.StateSelectsKeypad | src/AppDeck.ts:233-235 | after `keyStates[key] = state` the key shows keypad `state`'s tile (blank if black) unless it is blank or the close key, and every other key shows the same as before |
| Apps.AppStep | src/AppDeck.ts:142-143 | one pass of showApp's loop for key k: nothing after an earlier throw; a throwing key records the failure; otherwise the app update and the key's write (meaning given by `AppStepCorrect`) |
| Apps.AppRender | src/AppDeck.ts:142-144 | showApp's loop over keys 0..n-1 as `n` passes of `AppStep` from the app as it was (meaning given by `AppRenderCorrect`) |
| Apps.AppStepCorrect | src/AppDeck.ts:142-143 | one pass of the showApp loop fails iff the key has no expected tile, and otherwise appends exactly that key's write |
| Apps.AppRenderFrame | src/AppDeck.ts:142-144 | after any number of passes the app is still valid, is the same app, and expects the same tiles |
| Apps.AppRenderKeepsId | src/AppDeck.ts:142-144 | rendering keeps the app valid and its name |
| Apps.AppRenderCorrect | src/AppDeck.ts:142-144 | rendering keys 0..n-1 fails iff some key has no expected tile; otherwise key j is written exactly once, in order, with its expected tile |
| Apps.AppStepRemembers | src/AppDeck.ts:142-143 | one pass of the showApp loop keeps the states, keypad images and validity, and leaves key k and every earlier key served from memory unless it failed |
| Apps.AppRenderRemembers | src/AppDeck.ts:142-144 | after a successful render of keys 0..n-1 each of them is the close key, a blank key, or cached in its selected keypad |
| Apps.AppRenderMarksKeys | src/AppDeck.ts:142-144 | after a successful render, a rendered key other than the close key whose selected tile is black is in `keyBlanks` (so the key handlers swallow it), and a rendered key not in `keyBlanks` has its tile cached |
| Apps.AppRenderStops | src/AppDeck.ts:142-144 | after an exception no later key is rendered |
| Apps.AppScreen | src/AppDeck.ts:136-147 | after a successful showApp every key of the screen shows its expected tile |
| Apps.MenuWrites | src/AppDeck.ts:121-130 | the menu writes every key of the grid in key order, writing key i with the i-th icon for each app and every later key with the blank tile; a write past the grid happens iff there are more apps than keys |
| Apps.MenuScreen | src/AppDeck.ts:121-130 | after the menu, key k shows the k-th app icon, or the blank tile when k is past the apps |
| Apps.ValidIconsSized | src/AppDeck.ts:261-263 | every loaded icon is key-sized |
| AppDeck.SetBytes | src/AppDeck.ts:168 | `Uint8Array.set` writes `src` at `off` when it fits, and otherwise throws and changes nothing |
| AppDeck.ExtractTile | src/AppDeck.ts:196-209 | the data buffer is the key's tile, and isBlank is the black-tile test |
| AppDeck.CopyTileRow | src/AppDeck.ts:202-208 | one pass copies row i of the key's sub-rectangle into the tile buffer |
| AppDeck.ExtractRow | src/AppDeck.ts:208 | copying row i always fits the tile buffer and extends the partial tile by row i |
| AppDeck.PaintKey | src/AppDeck.ts:161-169 | the screen becomes the key's composite, and the method throws iff the write falls past the screen |
| AppDeck.PaintRow | src/AppDeck.ts:165-168 | one row copy advances the composite, or throws and changes nothing |
| AppDeck.RenderAppKey | src/AppDeck.ts:176-216 | computes setAppKey's tile and app update exactly as `RenderKey` |
| AppDeck.ShowAppStep | src/AppDeck.ts:142-143 | one setAppKey call extends the render of keys 0..k-1 to keys 0..k |
| AppDeck.MenuIconStep | src/AppDeck.ts:124-126 | writing icon i extends the menu log, and it throws iff i is past the grid |
| AppDeck.MenuBlankStep | src/AppDeck.ts:127-129 | writing the blank tile to key i extends the menu log |
| AppDeck.AppDeck.constructor | src/AppDeck.ts:29-34 | the screen is zero-filled with keyCount*kw*kh*4 bytes, and there are no apps, no icons and no active app |
| AppDeck.AppDeck.ActiveApp | src/AppDeck.ts:59-63 | returns an app iff the active name is loaded, and then the app of that name |
| AppDeck.AppDeck.SetKeyData | src/AppDeck.ts:155-170 | logs the device write, composites the data into the screen, and throws RangeError iff the data reaches past the screen |
| AppDeck.AppDeck.ShowMenu | src/AppDeck.ts:121-130 | clears the active app and performs exactly the menu writes; it throws iff there are more apps than keys |
| AppDeck.AppDeck.SetAppKey | src/AppDeck.ts:176-216 | with the menu active nothing changes; otherwise the active app is updated and its key written as `RenderKey` says, and a missing keypad throws before any change |
| AppDeck.AppDeck.ShowApp | src/AppDeck.ts:136-147 | an unknown name yields false and changes nothing; otherwise the app becomes active, keys 0..keyCount-1 are rendered as `AppRender` says, and the rendered app keeps its name and position |
| AppDeck.AppDeck.RenderApp | src/AppDeck.ts:142-144 | the loop renders keys 0..keyCount-1 of the active app as `AppRender` says, stopping at the first throw |
| AppDeck.AppDeck.RenderNext | src/AppDeck.ts:143 | one pass renders key k and extends `AppRender` by one key |
| AppDeck.AppDeck.SetAppKeyState | src/AppDeck.ts:225-238 | false with no change for an unknown app or missing keypad; otherwise the state is set, and the key is re-rendered only when the app is active |
| AppDeck.AppDeck.LoadApp | src/AppDeck.ts:246-290 | a wrong icon or image size throws with no change; otherwise the app is stored with empty caches, blanks and states, and the menu is shown when no app is active |
| AppDeck.AppDeck.UnloadApp | src/AppDeck.ts:297-306 | false with no change for an unknown name; otherwise the app is removed, and the menu is shown when no loaded app is active |
| AppDeck.AppDeck.SetIcon | src/AppDeck.ts:318-324 | a wrong width, then a wrong height, throws with no change; otherwise the icon's pixels are stored under its name; the screen invariant is kept |
| AppDeck.AppDeck.OnKeyDown | src/AppDeck.ts:77-91 | the event is annotated iff an app is active, and passes iff an app is active and the key is neither the close key nor blank |
| AppDeck.AppDeck.OnKeyUp | src/AppDeck.ts:96-116 | routes like key-down; the close key of an active app shows the menu; with the menu shown, key k < number of apps opens the k-th app in order, which stays the active app at position k |

## Left out
- The JPEG codec and the filesystem: `screenshot`, the path branches of `loadApp`, and the file reading and decoding in `setIcon`. Icons and images are passed as decoded bytes, and `setIcon` takes the decoded `{width, height, data}` record. The decoder is assumed to return exactly width x height x 4 RGBA bytes (`SetIcon`'s second precondition).
- The base `StreamDeck` class, whose operations are in none of the repository's files:
  - `super.setKeyData` is assumed to accept every call and is recorded in the ghost log;
  - its `id` parameter is dropped;
  - `keyBlank` is taken to be the all-zero tile, as `setKeyData`'s default argument uses it as raw RGBA. src/StreamDeck.ts:34-41 builds it JPEG-encoded instead;
  - `getKeyXY(k)` is taken to be `(k % keyLayout[0], k / keyLayout[0])`.
- `onOpen` (src/AppDeck.ts:68-72): its device `reset` and `listenKeys` are base-class I/O, and its display effect is `ShowMenu`.
- Event dispatch: `stopImmediatePropagation` and the `app` annotation become the returned `Routing` value.
- The `performance.now` and `console.log` timing in `showApp`.
- Custom profiles are assumed well formed (`WellFormed`): a positive grid, positive key sizes and keyCount = columns x rows. The optional `firmware` field of the profile record is not modelled.
- src/devices.ts and src/StreamDeck.ts are not part of this model.
- Keys and states are natural numbers. Negative or fractional JavaScript numbers are not modelled, and array lengths and products are exact integers, not doubles.
- Aliasing: the `App` objects are values. An `App` object a caller keeps from the `activeApp` getter does not see later in-place updates.
- `keyBlanks[k]` is modelled as a set of keys, because the source only ever sets it to true. `keyStates` is a map whose missing keys read as keypad 0. `keyData` is a map, because a stored `Uint8Array` is always truthy.
- The empty name `""` stands for "no active app", as in the source. An app loaded under the name `""` is therefore the active app.
- The screen, row-offset and length products are written with `Arith.Mul` on the model side. `Geometry.SourceSizes`, `Geometry.AppKeyOffsets` and `Geometry.KeyDataOffsets` prove them equal to the source's `*` expressions.
- The per-keypad tile cache follows the code: changing a key's state selects another keypad's cache and does not clear any cache.
