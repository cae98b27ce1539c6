/**
 * Apps of the switcher (src/AppDeck.ts): each app has an icon, a list of
 * full-grid keypad images (one per key state), and per-key memory of blank
 * keys, chosen states and cached tiles. This module holds them as values and
 * states, as functions, what rendering a key, an app and the menu produces.
 */
module Apps {
  import opened DeckInfo
  import opened Geometry
  import opened Wrappers

  /** A keypad image and its per-key tile cache (`Keypad`). */
  datatype Keypad = Keypad(data: seq<bv8>, keyData: map<nat, seq<bv8>>)

  /**
   * An app (`App`). The sparse arrays `keyBlanks` (only ever set to true),
   * `keyStates` and `keyData` are a set and maps.
   */
  datatype App = App(uuid: string, icon: seq<bv8>, keypads: seq<Keypad>, keyBlanks: set<nat>, keyStates: map<nat, nat>)

  /** The exceptions the switcher raises or lets escape. */
  datatype DeckError =
    | RangeError        // `#screen.set` targets bytes past the screen buffer
    | MissingKeypad     // `app.keypads[state]` is undefined (an app with no images)
    | IconSizeIncorrect
    | ImageSizeIncorrect
    | IconWidthIncorrect
    | IconHeightIncorrect

  // ---------------------------------------------------------------------------
  // Validity
  // ---------------------------------------------------------------------------

  /** The tile cached for a key is the tile cut from its keypad image, and it is not blank. */
  predicate CacheCoherent(p: DeckInfo, kp: Keypad)
    requires WellFormed(p)
  {
    forall k :: k in kp.keyData ==> kp.keyData[k] == Tile(p, kp.data, k) && !TileIsBlank(p, kp.data, k)
  }

  /** What loadApp checks and setAppKey/setAppKeyState preserve. */
  predicate AppValid(p: DeckInfo, app: App)
    requires WellFormed(p)
  {
    && |app.icon| == TileLength(p)
    && KeypadsValid(p, app.keypads)
    && (forall k :: k in app.keyStates ==> app.keyStates[k] < |app.keypads|)
  }

  /** Every keypad image is screen-sized and its cache is coherent. */
  predicate KeypadsValid(p: DeckInfo, kps: seq<Keypad>)
    requires WellFormed(p)
    decreases |kps|
  {
    kps == [] || (|kps[0].data| == ScreenLength(p) && CacheCoherent(p, kps[0]) && KeypadsValid(p, kps[1..]))
  }

  lemma {:induction false} KeypadsValidIff(p: DeckInfo, kps: seq<Keypad>)
    requires WellFormed(p)
    ensures KeypadsValid(p, kps) <==> forall s :: 0 <= s < |kps| ==> |kps[s].data| == ScreenLength(p) && CacheCoherent(p, kps[s])
    decreases |kps|
  {
    if kps != [] {
      KeypadsValidIff(p, kps[1..]);
      assert forall s :: 0 < s < |kps| ==> kps[1..][s - 1] == kps[s];
    }
  }

  /** A `Map` has one entry per name. */
  predicate UniqueIds(apps: seq<App>)
  {
    forall i, j :: 0 <= i < j < |apps| ==> apps[i].uuid != apps[j].uuid
  }

  predicate AppsValid(p: DeckInfo, apps: seq<App>)
    requires WellFormed(p)
  {
    UniqueIds(apps) && forall i :: 0 <= i < |apps| ==> AppValid(p, apps[i])
  }

  /** Every app icon is key-sized, as the menu needs. */
  predicate IconsSized(p: DeckInfo, apps: seq<App>)
  {
    forall i :: 0 <= i < |apps| ==> |apps[i].icon| == TileLength(p)
  }

  /** Valid apps have key-sized icons. */
  lemma ValidIconsSized(p: DeckInfo, apps: seq<App>)
    requires WellFormed(p) && AppsValid(p, apps)
    ensures IconsSized(p, apps)
  {
    forall i | 0 <= i < |apps| ensures |apps[i].icon| == TileLength(p) {
      assert AppValid(p, apps[i]);
    }
  }

  /** System icons are decoded key-sized images. */
  predicate IconsValid(p: DeckInfo, icons: map<string, seq<bv8>>)
  {
    forall n :: n in icons ==> |icons[n]| == TileLength(p)
  }

  // ---------------------------------------------------------------------------
  // The app collection (an insertion-ordered `Map<string, App>`)
  // ---------------------------------------------------------------------------

  /** Position of the app named `uuid` (`#apps.has` / `#apps.get`). */
  function IndexOf(apps: seq<App>, uuid: string): (r: Option<nat>)
    ensures r.Some? ==> r.value < |apps| && apps[r.value].uuid == uuid
    ensures r.None? <==> forall i :: 0 <= i < |apps| ==> apps[i].uuid != uuid
    ensures r.Some? ==> forall i :: 0 <= i < r.value ==> apps[i].uuid != uuid
  {
    if apps == [] then None
    else if apps[0].uuid == uuid then Some(0)
    else match IndexOf(apps[1..], uuid)
      case None => None
      case Some(i) => Some(i + 1)
  }

  /** `Map.set`: a new name is appended, an existing name keeps its position. */
  function SetApp(apps: seq<App>, a: App): (r: seq<App>)
    ensures |r| == if IndexOf(apps, a.uuid).Some? then |apps| else |apps| + 1
    ensures a in r
    ensures forall j :: 0 <= j < |apps| && apps[j].uuid != a.uuid ==> r[j] == apps[j]
  {
    match IndexOf(apps, a.uuid)
    case Some(i) => assert apps[i := a][i] == a; apps[i := a]
    case None => apps + [a]
  }

  /** `Map.delete` of the entry at position `i`. */
  function RemoveAt(apps: seq<App>, i: nat): (r: seq<App>)
    requires i < |apps|
    ensures |r| == |apps| - 1
    ensures forall j :: 0 <= j < |r| ==> r[j] == if j < i then apps[j] else apps[j + 1]
  {
    apps[..i] + apps[i + 1..]
  }

  /** The names in insertion order (`[...#apps.keys()]`). */
  function Names(apps: seq<App>): (r: seq<string>)
    ensures |r| == |apps|
    ensures forall u :: u in r <==> IndexOf(apps, u).Some?
    ensures UniqueIds(apps) ==> forall i :: 0 <= i < |r| ==> IndexOf(apps, r[i]) == Some(i)
  {
    var r := seq(|apps|, i requires 0 <= i < |apps| => apps[i].uuid);
    assert forall i :: 0 <= i < |apps| ==> r[i] == apps[i].uuid;
    assert UniqueIds(apps) ==> forall i :: 0 <= i < |r| ==> IndexOf(apps, r[i]) == Some(i) by {
      if UniqueIds(apps) {
        forall i | 0 <= i < |r| ensures IndexOf(apps, r[i]) == Some(i) {
          IndexOfUnique(apps, i);
        }
      }
    }
    r
  }

  /** The first app named `u` is the one `IndexOf` finds. */
  lemma IndexOfFirst(apps: seq<App>, u: string, i: nat)
    requires i < |apps| && apps[i].uuid == u && forall j :: 0 <= j < i ==> apps[j].uuid != u
    ensures IndexOf(apps, u) == Some(i)
  {
  }

  /** In a collection with unique names, the app at position `i` is found at `i`. */
  lemma IndexOfUnique(apps: seq<App>, i: nat)
    requires UniqueIds(apps) && i < |apps|
    ensures IndexOf(apps, apps[i].uuid) == Some(i)
  {
    IndexOfFirst(apps, apps[i].uuid, i);
  }

  /** Setting an app keeps the names unique and makes the app findable. */
  lemma SetAppFinds(apps: seq<App>, a: App)
    requires UniqueIds(apps)
    ensures UniqueIds(SetApp(apps, a))
    ensures IndexOf(SetApp(apps, a), a.uuid).Some?
    ensures SetApp(apps, a)[IndexOf(SetApp(apps, a), a.uuid).value] == a
  {
    var r := SetApp(apps, a);
    match IndexOf(apps, a.uuid)
    case Some(i) =>
      assert UniqueIds(r) by {
        forall x, y | 0 <= x < y < |r| ensures r[x].uuid != r[y].uuid {
          assert r[x].uuid == apps[x].uuid && r[y].uuid == apps[y].uuid;
        }
      }
      IndexOfUnique(r, i);
    case None =>
      assert UniqueIds(r) by {
        forall x, y | 0 <= x < y < |r| ensures r[x].uuid != r[y].uuid {
          if y < |apps| {
            assert r[x] == apps[x] && r[y] == apps[y];
          } else {
            assert r[x] == apps[x];
          }
        }
      }
      IndexOfUnique(r, |apps|);
  }

  /** Setting an app leaves every other name where it was. */
  lemma SetAppOther(apps: seq<App>, a: App, u: string)
    requires UniqueIds(apps) && u != a.uuid
    ensures IndexOf(SetApp(apps, a), u) == IndexOf(apps, u)
  {
    var r := SetApp(apps, a);
    SetAppFinds(apps, a);
    match IndexOf(apps, u)
    case Some(j) =>
      assert r[j] == apps[j];
      IndexOfUnique(r, j);
    case None =>
      forall j | 0 <= j < |r| ensures r[j].uuid != u {
        if j < |apps| {
          assert r[j].uuid == a.uuid || r[j] == apps[j];
        }
      }
  }

  /** Setting an app appends its name when it is new, and keeps the order of names otherwise. */
  lemma SetAppNames(apps: seq<App>, a: App)
    ensures Names(SetApp(apps, a)) == if a.uuid in Names(apps) then Names(apps) else Names(apps) + [a.uuid]
  {
    assert a.uuid in Names(apps) <==> IndexOf(apps, a.uuid).Some? by {
      if a.uuid in Names(apps) {
        var j :| 0 <= j < |apps| && Names(apps)[j] == a.uuid;
        assert apps[j].uuid == a.uuid;
      }
    }
  }

  /** Deleting an app keeps the names unique and no longer finds its name. */
  lemma RemoveAtFacts(apps: seq<App>, i: nat)
    requires UniqueIds(apps) && i < |apps|
    ensures UniqueIds(RemoveAt(apps, i))
    ensures IndexOf(RemoveAt(apps, i), apps[i].uuid).None?
  {
    var r := RemoveAt(apps, i);
    forall x, y | 0 <= x < y < |r| ensures r[x].uuid != r[y].uuid {
      var x', y' := if x < i then x else x + 1, if y < i then y else y + 1;
      assert r[x] == apps[x'] && r[y] == apps[y'];
    }
    forall j | 0 <= j < |r| ensures r[j].uuid != apps[i].uuid {
      assert r[j] == apps[if j < i then j else j + 1];
    }
  }

  /** Deleting an app keeps every other name loaded. */
  lemma RemoveAtOther(apps: seq<App>, i: nat, u: string)
    requires i < |apps| && u != apps[i].uuid
    ensures IndexOf(RemoveAt(apps, i), u).Some? == IndexOf(apps, u).Some?
  {
    var r := RemoveAt(apps, i);
    if IndexOf(apps, u).Some? {
      var j := IndexOf(apps, u).value;
      assert r[if j < i then j else j - 1] == apps[j];
    }
    if IndexOf(r, u).Some? {
      var j := IndexOf(r, u).value;
      assert apps[if j < i then j else j + 1] == r[j];
    }
  }

  /** Replacing an app by a valid app of the same name keeps the collection valid and every name where it was. */
  lemma ReplaceApp(p: DeckInfo, apps: seq<App>, i: nat, a: App)
    requires WellFormed(p) && AppsValid(p, apps) && i < |apps| && a.uuid == apps[i].uuid && AppValid(p, a)
    ensures AppsValid(p, apps[i := a])
    ensures forall u :: IndexOf(apps[i := a], u) == IndexOf(apps, u)
  {
    IndexOfUnique(apps, i);
    assert SetApp(apps, a) == apps[i := a];
    SetAppFinds(apps, a);
    IndexOfUnique(apps[i := a], i);
    forall u ensures IndexOf(apps[i := a], u) == IndexOf(apps, u) {
      if u != a.uuid {
        SetAppOther(apps, a, u);
      }
    }
  }

  /** Setting a valid app keeps the collection valid. */
  lemma SetAppValid(p: DeckInfo, apps: seq<App>, a: App)
    requires WellFormed(p) && AppsValid(p, apps) && AppValid(p, a)
    ensures AppsValid(p, SetApp(apps, a))
  {
    SetAppFinds(apps, a);
    var r := SetApp(apps, a);
    forall j | 0 <= j < |r| ensures AppValid(p, r[j]) {
      assert r[j] == a || r[j] == apps[j];
    }
  }

  /** Deleting an app keeps the collection valid. */
  lemma RemoveAtValid(p: DeckInfo, apps: seq<App>, i: nat)
    requires WellFormed(p) && AppsValid(p, apps) && i < |apps|
    ensures AppsValid(p, RemoveAt(apps, i))
  {
    RemoveAtFacts(apps, i);
    var r := RemoveAt(apps, i);
    forall j | 0 <= j < |r| ensures AppValid(p, r[j]) {
      assert r[j] == apps[if j < i then j else j + 1];
    }
  }

  /** Unloading an app just loaded under a new name gives back the collection as it was. */
  lemma RemoveNewApp(apps: seq<App>, a: App)
    requires IndexOf(apps, a.uuid).None?
    ensures IndexOf(SetApp(apps, a), a.uuid) == Some(|apps|)
    ensures RemoveAt(SetApp(apps, a), |apps|) == apps
  {
    IndexOfFirst(apps + [a], a.uuid, |apps|);
    assert (apps + [a])[..|apps|] == apps;
  }

  /** The keypads of loadApp (`images.map(...)`): each image must have the screen's size; caches start empty. */
  function LoadKeypads(p: DeckInfo, images: seq<seq<bv8>>): (r: Result<seq<Keypad>, DeckError>)
    requires WellFormed(p)
    decreases |images|
  {
    if images == [] then Ok([])
    else if |images[0]| != ScreenLength(p) then Err(ImageSizeIncorrect)
    else match LoadKeypads(p, images[1..])
      case Err(e) => Err(e)
      case Ok(kps) => Ok([Keypad(images[0], map[])] + kps)
  }

  /**
   * `LoadKeypads` fails, with ImageSizeIncorrect, exactly when some image has
   * the wrong size, and otherwise wraps every image, in order, with an empty
   * cache: the keypads are valid.
   */
  lemma {:induction false} LoadKeypadsSpec(p: DeckInfo, images: seq<seq<bv8>>)
    requires WellFormed(p)
    ensures LoadKeypads(p, images).Ok? <==> forall j :: 0 <= j < |images| ==> |images[j]| == ScreenLength(p)
    ensures LoadKeypads(p, images).Err? ==> LoadKeypads(p, images).error == ImageSizeIncorrect
    ensures LoadKeypads(p, images).Ok? ==> var kps := LoadKeypads(p, images).value;
      && |kps| == |images| && (forall j :: 0 <= j < |kps| ==> kps[j] == Keypad(images[j], map[]))
      && KeypadsValid(p, kps)
    decreases |images|
  {
    if images != [] {
      LoadKeypadsSpec(p, images[1..]);
      assert forall j :: 0 < j < |images| ==> images[1..][j - 1] == images[j];
      if LoadKeypads(p, images).Ok? {
        var kps := LoadKeypads(p, images).value;
        assert kps[1..] == LoadKeypads(p, images[1..]).value;
      }
    }
  }

  // ---------------------------------------------------------------------------
  // Rendering one key of the active app (setAppKey)
  // ---------------------------------------------------------------------------

  /** The keypad index chosen for key `k` (`app.keyStates[k] ?? 0`). */
  function KeyState(app: App, k: nat): (s: nat)
  {
    if k in app.keyStates then app.keyStates[k] else 0
  }

  /** The app state after rendering a key, and the tile written to the key. */
  datatype Rendered = Rendered(app: App, tile: seq<bv8>)

  /**
   * setAppKey for key `k` of `app`: the top-right key shows the `close` icon
   * when one is registered; a key remembered as blank shows the blank tile;
   * otherwise the key's keypad is chosen by its state, and its cached tile is
   * used, or the tile is cut from the keypad image: a blank tile is remembered
   * in `keyBlanks`, any other is cached in `keyData`.
   */
  function RenderKey(p: DeckInfo, icons: map<string, seq<bv8>>, app: App, k: nat): (r: Result<Rendered, DeckError>)
    requires WellFormed(p)
  {
    if k == Cols(p) - 1 && "close" in icons then Ok(Rendered(app, icons["close"]))
    else if k in app.keyBlanks then Ok(Rendered(app, BlankTile(p)))
    else
      var s := KeyState(app, k);
      if s >= |app.keypads| then Err(MissingKeypad)
      else
        var kp := app.keypads[s];
        if k in kp.keyData then Ok(Rendered(app, kp.keyData[k]))
        else
          var t := Tile(p, kp.data, k);
          if TileIsBlank(p, kp.data, k) then Ok(Rendered(app.(keyBlanks := app.keyBlanks + {k}), BlankTile(p)))
          else Ok(Rendered(app.(keypads := app.keypads[s := kp.(keyData := kp.keyData[k := t])]), t))
  }

  /**
   * What key `k` of `app` shows, independently of the tile cache: the `close`
   * icon on the top-right key, the blank tile for remembered or black tiles,
   * otherwise the tile of the keypad the key's state selects. None when that
   * keypad does not exist.
   */
  function ExpectedTile(p: DeckInfo, icons: map<string, seq<bv8>>, app: App, k: nat): (t: Option<seq<bv8>>)
    requires WellFormed(p)
  {
    if k == Cols(p) - 1 && "close" in icons then Some(icons["close"])
    else if k in app.keyBlanks then Some(BlankTile(p))
    else if KeyState(app, k) >= |app.keypads| then None
    else
      var img := app.keypads[KeyState(app, k)].data;
      Some(if TileIsBlank(p, img, k) then BlankTile(p) else Tile(p, img, k))
  }

  /** `b` is `a` with at most key `k`'s blank flag or one keypad's cache entry for `k` added. */
  predicate GrowsAt(a: App, b: App, k: nat)
  {
    && b.uuid == a.uuid && b.icon == a.icon && b.keyStates == a.keyStates
    && a.keyBlanks <= b.keyBlanks <= a.keyBlanks + {k}
    && |b.keypads| == |a.keypads|
    && forall s :: 0 <= s < |a.keypads| ==>
         && b.keypads[s].data == a.keypads[s].data
         && a.keypads[s].keyData.Keys <= b.keypads[s].keyData.Keys <= a.keypads[s].keyData.Keys + {k}
         && forall j :: j in a.keypads[s].keyData ==> b.keypads[s].keyData[j] == a.keypads[s].keyData[j]
  }

  /**
   * Rendering a key of a valid app fails exactly when there is no expected tile,
   * otherwise writes the expected tile: the cache and the blank memory never
   * change what a key shows. The new app state is valid, grows only at `k`, and
   * expects the same tile on every key.
   */
  lemma RenderKeyCorrect(p: DeckInfo, icons: map<string, seq<bv8>>, app: App, k: nat)
    requires WellFormed(p) && AppValid(p, app)
    ensures RenderKey(p, icons, app, k).Ok? <==> ExpectedTile(p, icons, app, k).Some?
    ensures RenderKey(p, icons, app, k).Ok? ==>
      var r := RenderKey(p, icons, app, k).value;
      && r.tile == ExpectedTile(p, icons, app, k).value
      && AppValid(p, r.app) && GrowsAt(app, r.app, k)
      && forall j :: ExpectedTile(p, icons, r.app, j) == ExpectedTile(p, icons, app, j)
  {
    KeypadsValidIff(p, app.keypads);
    if !(k == Cols(p) - 1 && "close" in icons) && k !in app.keyBlanks && KeyState(app, k) < |app.keypads| {
      var s := KeyState(app, k);
      var kp := app.keypads[s];
      if k !in kp.keyData {
        var t := Tile(p, kp.data, k);
        if TileIsBlank(p, kp.data, k) {
          NewBlankKey(p, icons, app, k);
        } else {
          NewCachedKey(p, icons, app, k, s, t);
        }
      }
    }
  }

  /** Remembering a black key as blank keeps the app valid and every expected tile. */
  lemma NewBlankKey(p: DeckInfo, icons: map<string, seq<bv8>>, app: App, k: nat)
    requires WellFormed(p) && AppValid(p, app)
    requires !(k == Cols(p) - 1 && "close" in icons) && k !in app.keyBlanks && KeyState(app, k) < |app.keypads|
    requires TileIsBlank(p, app.keypads[KeyState(app, k)].data, k)
    ensures var b := app.(keyBlanks := app.keyBlanks + {k});
      && AppValid(p, b) && GrowsAt(app, b, k)
      && forall j :: ExpectedTile(p, icons, b, j) == ExpectedTile(p, icons, app, j)
  {
    var b := app.(keyBlanks := app.keyBlanks + {k});
    assert ExpectedTile(p, icons, app, k) == Some(BlankTile(p));
    forall j ensures ExpectedTile(p, icons, b, j) == ExpectedTile(p, icons, app, j) {
      if j != k {
        assert (j in b.keyBlanks) == (j in app.keyBlanks);
      }
    }
  }

  /** Caching a non-black tile keeps the app valid and every expected tile. */
  lemma NewCachedKey(p: DeckInfo, icons: map<string, seq<bv8>>, app: App, k: nat, s: nat, t: seq<bv8>)
    requires WellFormed(p) && AppValid(p, app) && s < |app.keypads|
    requires t == Tile(p, app.keypads[s].data, k) && !TileIsBlank(p, app.keypads[s].data, k)
    ensures var kp := app.keypads[s];
      var b := app.(keypads := app.keypads[s := kp.(keyData := kp.keyData[k := t])]);
      && AppValid(p, b) && GrowsAt(app, b, k)
      && forall j :: ExpectedTile(p, icons, b, j) == ExpectedTile(p, icons, app, j)
  {
    var kp := app.keypads[s];
    var kp' := kp.(keyData := kp.keyData[k := t]);
    var b := app.(keypads := app.keypads[s := kp']);
    KeypadsValidIff(p, app.keypads);
    assert CacheCoherent(p, kp');
    KeypadsValidIff(p, b.keypads);
    forall j ensures ExpectedTile(p, icons, b, j) == ExpectedTile(p, icons, app, j) {
      ExpectedTileIgnoresCache(p, icons, b, app, j);
    }
  }

  /** setAppKey never clears a blank key, and a blank key shows the blank tile unless it is the close key. */
  lemma BlankKeysStayBlank(p: DeckInfo, icons: map<string, seq<bv8>>, app: App, k: nat, j: nat)
    requires WellFormed(p) && j in app.keyBlanks
    ensures RenderKey(p, icons, app, k).Ok? ==> j in RenderKey(p, icons, app, k).value.app.keyBlanks
    ensures !(j == Cols(p) - 1 && "close" in icons) ==> RenderKey(p, icons, app, j) == Ok(Rendered(app, BlankTile(p)))
  {
  }

  /** A cached tile is written unchanged and leaves the app as it was. */
  lemma CachedKeyReused(p: DeckInfo, icons: map<string, seq<bv8>>, app: App, k: nat)
    requires WellFormed(p)
    requires !(k == Cols(p) - 1 && "close" in icons) && k !in app.keyBlanks
    requires KeyState(app, k) < |app.keypads| && k in app.keypads[KeyState(app, k)].keyData
    ensures RenderKey(p, icons, app, k) == Ok(Rendered(app, app.keypads[KeyState(app, k)].keyData[k]))
  {
  }

  /**
   * What setAppKey remembers when it cuts a tile: a black tile marks the key
   * blank and leaves the keypads alone; any other tile is cached for the key in
   * the selected keypad and leaves the blank memory alone.
   */
  lemma RenderKeyRemembers(p: DeckInfo, icons: map<string, seq<bv8>>, app: App, k: nat)
    requires WellFormed(p)
    requires !(k == Cols(p) - 1 && "close" in icons) && k !in app.keyBlanks
    requires KeyState(app, k) < |app.keypads| && k !in app.keypads[KeyState(app, k)].keyData
    ensures var s := KeyState(app, k);
      var img := app.keypads[s].data;
      var r := RenderKey(p, icons, app, k);
      && r.Ok?
      && (TileIsBlank(p, img, k) ==> k in r.value.app.keyBlanks && r.value.app.keypads == app.keypads)
      && (!TileIsBlank(p, img, k) ==>
            && r.value.app.keyBlanks == app.keyBlanks && |r.value.app.keypads| == |app.keypads|
            && k in r.value.app.keypads[s].keyData && r.value.app.keypads[s].keyData[k] == Tile(p, img, k))
  {
  }

  /** Rendering a key a second time reads what the first rendering remembered: it writes the same tile and changes nothing. */
  lemma RenderKeyIdempotent(p: DeckInfo, icons: map<string, seq<bv8>>, app: App, k: nat)
    requires WellFormed(p)
    ensures RenderKey(p, icons, app, k).Ok? ==>
      var r := RenderKey(p, icons, app, k).value;
      RenderKey(p, icons, r.app, k) == Ok(r)
  {
  }

  // ---------------------------------------------------------------------------
  // Rendering the active app (showApp) and the menu (showMenu)
  // ---------------------------------------------------------------------------

  /** The app state, the key writes and the first failure after keys `0..n-1` are rendered in order. */
  datatype Progress = Progress(app: App, writes: seq<KeyWrite>, failure: Option<DeckError>)

  /** showApp's key loop after `n` keys: rendering stops at the first failing key. */
  function AppRender(p: DeckInfo, icons: map<string, seq<bv8>>, app: App, n: nat): Progress
    requires WellFormed(p)
    decreases n
  {
    if n == 0 then Progress(app, [], None)
    else AppStep(p, icons, AppRender(p, icons, app, n - 1), n - 1)
  }

  /** One iteration of showApp's key loop, for key `k`. */
  function AppStep(p: DeckInfo, icons: map<string, seq<bv8>>, pr: Progress, k: nat): Progress
    requires WellFormed(p)
  {
    if pr.failure.Some? then pr
    else match RenderKey(p, icons, pr.app, k)
      case Err(e) => Progress(pr.app, pr.writes, Some(e))
      case Ok(r) => Progress(r.app, pr.writes + [KeyWrite(k, r.tile)], None)
  }

  /**
   * One loop iteration on a valid app state without failure: it fails exactly
   * when key `k` has no expected tile, and otherwise appends the write of that
   * tile and leaves a valid app that expects the same tiles.
   */
  lemma AppStepCorrect(p: DeckInfo, icons: map<string, seq<bv8>>, pr: Progress, k: nat)
    requires WellFormed(p) && AppValid(p, pr.app) && pr.failure.None?
    ensures var pr' := AppStep(p, icons, pr, k);
      && (pr'.failure.Some? <==> ExpectedTile(p, icons, pr.app, k).None?)
      && (pr'.failure.None? ==> pr'.writes == pr.writes + [KeyWrite(k, ExpectedTile(p, icons, pr.app, k).value)])
      && AppValid(p, pr'.app)
      && pr'.app.uuid == pr.app.uuid && pr'.app.icon == pr.app.icon && pr'.app.keyStates == pr.app.keyStates
      && |pr'.app.keypads| == |pr.app.keypads| && pr.app.keyBlanks <= pr'.app.keyBlanks
      && forall j :: ExpectedTile(p, icons, pr'.app, j) == ExpectedTile(p, icons, pr.app, j)
  {
    RenderKeyCorrect(p, icons, pr.app, k);
  }

  /** `a` is `app` after rendering: still valid, the same app with blank memory and cache grown, expecting the same tiles. */
  ghost predicate SameFrame(p: DeckInfo, icons: map<string, seq<bv8>>, app: App, a: App)
    requires WellFormed(p)
  {
    && AppValid(p, a)
    && a.uuid == app.uuid && a.icon == app.icon && a.keyStates == app.keyStates
    && |a.keypads| == |app.keypads| && app.keyBlanks <= a.keyBlanks
    && SameTiles(p, icons, a, app)
  }

  /** `a` and `b` expect the same tile on every key. */
  ghost predicate SameTiles(p: DeckInfo, icons: map<string, seq<bv8>>, a: App, b: App)
    requires WellFormed(p)
  {
    forall j :: ExpectedTile(p, icons, a, j) == ExpectedTile(p, icons, b, j)
  }

  /** One loop iteration keeps `SameFrame`; `next` is the state it produces. */
  lemma AppStepFrame(p: DeckInfo, icons: map<string, seq<bv8>>, app: App, pr: Progress, k: nat, next: Progress)
    requires WellFormed(p) && SameFrame(p, icons, app, pr.app) && next == AppStep(p, icons, pr, k)
    ensures SameFrame(p, icons, app, next.app)
  {
    if pr.failure.None? {
      AppStepCorrect(p, icons, pr, k);
    }
  }

  /**
   * After `n` keys of a valid app are rendered the app is still valid, is the
   * same app with blank memory and cache grown, and expects the same tiles.
   */
  lemma {:induction false} AppRenderFrame(p: DeckInfo, icons: map<string, seq<bv8>>, app: App, n: nat)
    requires WellFormed(p) && AppValid(p, app)
    ensures SameFrame(p, icons, app, AppRender(p, icons, app, n).app)
    decreases n
  {
    if n > 0 {
      AppRenderFrame(p, icons, app, n - 1);
      AppStepFrame(p, icons, app, AppRender(p, icons, app, n - 1), n - 1, AppRender(p, icons, app, n));
    }
  }

  /** Rendering never renames the app. */
  lemma AppRenderKeepsId(p: DeckInfo, icons: map<string, seq<bv8>>, app: App, n: nat)
    requires WellFormed(p) && AppValid(p, app)
    ensures AppValid(p, AppRender(p, icons, app, n).app)
    ensures AppRender(p, icons, app, n).app.uuid == app.uuid
  {
    AppRenderFrame(p, icons, app, n);
  }

  /** What rendering keys `0..n-1` of `app` should leave in `pr`. */
  ghost predicate RendersExpected(p: DeckInfo, icons: map<string, seq<bv8>>, app: App, pr: Progress, n: nat)
    requires WellFormed(p)
  {
    && (pr.failure.Some? <==> exists j :: 0 <= j < n && ExpectedTile(p, icons, app, j).None?)
    && (pr.failure.None? ==> |pr.writes| == n && forall j :: 0 <= j < n ==>
          pr.writes[j] == KeyWrite(j, ExpectedTile(p, icons, app, j).value))
  }

  /** The inductive step of `AppRenderCorrect`, on an app state that expects the tiles of `app`. */
  lemma AppRenderCorrectStep(p: DeckInfo, icons: map<string, seq<bv8>>, app: App, pr: Progress, n: nat)
    requires WellFormed(p) && AppValid(p, pr.app) && RendersExpected(p, icons, app, pr, n)
    requires forall j :: ExpectedTile(p, icons, pr.app, j) == ExpectedTile(p, icons, app, j)
    ensures RendersExpected(p, icons, app, AppStep(p, icons, pr, n), n + 1)
  {
    if pr.failure.None? {
      AppStepCorrect(p, icons, pr, n);
      assert ExpectedTile(p, icons, pr.app, n) == ExpectedTile(p, icons, app, n);
    }
  }

  /** By induction on `n`: rendering keys `0..n-1` of a valid app leaves what `RendersExpected` describes. */
  lemma {:induction false} AppRenderExpected(p: DeckInfo, icons: map<string, seq<bv8>>, app: App, n: nat)
    requires WellFormed(p) && AppValid(p, app)
    ensures RendersExpected(p, icons, app, AppRender(p, icons, app, n), n)
    decreases n
  {
    if n > 0 {
      AppRenderExpected(p, icons, app, n - 1);
      AppRenderFrame(p, icons, app, n - 1);
      AppRenderCorrectStep(p, icons, app, AppRender(p, icons, app, n - 1), n - 1);
    }
  }

  /**
   * Rendering keys `0..n-1` of a valid app fails exactly when one of them has
   * no expected tile; otherwise key `j` was written exactly once, in order,
   * with its expected tile.
   */
  lemma AppRenderCorrect(p: DeckInfo, icons: map<string, seq<bv8>>, app: App, n: nat)
    requires WellFormed(p) && AppValid(p, app)
    ensures var pr := AppRender(p, icons, app, n);
      && (pr.failure.Some? <==> exists j :: 0 <= j < n && ExpectedTile(p, icons, app, j).None?)
      && (pr.failure.None? ==> |pr.writes| == n && forall j :: 0 <= j < n ==>
            pr.writes[j] == KeyWrite(j, ExpectedTile(p, icons, app, j).value))
  {
    AppRenderExpected(p, icons, app, n);
  }

  /** Once a key has failed, the loop renders nothing more. */
  lemma {:induction false} AppRenderStops(p: DeckInfo, icons: map<string, seq<bv8>>, app: App, n: nat, m: nat)
    requires WellFormed(p) && n <= m && AppRender(p, icons, app, n).failure.Some?
    ensures AppRender(p, icons, app, m) == AppRender(p, icons, app, n)
    decreases m
  {
    if n < m {
      AppRenderStops(p, icons, app, n, m - 1);
    }
  }

  /** Key `j` of `a` is served from memory: it is the close key, a key remembered as blank, or a key cached in its selected keypad. */
  predicate Remembered(p: DeckInfo, icons: map<string, seq<bv8>>, a: App, j: nat)
    requires WellFormed(p)
  {
    || (j == Cols(p) - 1 && "close" in icons)
    || j in a.keyBlanks
    || (KeyState(a, j) < |a.keypads| && j in a.keypads[KeyState(a, j)].keyData)
  }

  /**
   * `a` is `app` after some keys were rendered, with keys `0..n-1` served from
   * memory unless rendering failed: valid, the same states and keypad images,
   * and blank memory that only grew.
   */
  ghost predicate RemembersUpTo(p: DeckInfo, icons: map<string, seq<bv8>>, app: App, pr: Progress, n: nat)
    requires WellFormed(p)
  {
    var a := pr.app;
    && AppValid(p, a)
    && a.keyStates == app.keyStates && app.keyBlanks <= a.keyBlanks && |a.keypads| == |app.keypads|
    && (forall s :: 0 <= s < |app.keypads| ==> a.keypads[s].data == app.keypads[s].data)
    && (pr.failure.None? ==> forall j :: 0 <= j < n ==> Remembered(p, icons, a, j))
  }

  /** One loop iteration keeps `RemembersUpTo` and adds key `k`; `next` is the state it produces. */
  lemma AppStepRemembers(p: DeckInfo, icons: map<string, seq<bv8>>, app: App, pr: Progress, k: nat, next: Progress)
    requires WellFormed(p) && RemembersUpTo(p, icons, app, pr, k) && next == AppStep(p, icons, pr, k)
    ensures RemembersUpTo(p, icons, app, next, k + 1)
  {
    if pr.failure.None? {
      RenderKeyCorrect(p, icons, pr.app, k);
      if RenderKey(p, icons, pr.app, k).Ok? {
        var a, b := pr.app, next.app;
        assert b == RenderKey(p, icons, a, k).value.app;
        assert GrowsAt(a, b, k);
        if !Remembered(p, icons, a, k) {
          RenderKeyRemembers(p, icons, a, k);
        }
        forall j | 0 <= j < k + 1 ensures Remembered(p, icons, b, j) {
          if !(j == Cols(p) - 1 && "close" in icons) && j !in b.keyBlanks {
            assert KeyState(b, j) == KeyState(a, j);
            if j < k || Remembered(p, icons, a, k) {
              assert Remembered(p, icons, a, j);
              assert j in a.keypads[KeyState(a, j)].keyData;
            }
          }
        }
      }
    }
  }

  /** By induction on `n`: after rendering keys `0..n-1` without failure, each of them is served from memory. */
  lemma {:induction false} AppRenderRemembers(p: DeckInfo, icons: map<string, seq<bv8>>, app: App, n: nat)
    requires WellFormed(p) && AppValid(p, app)
    ensures RemembersUpTo(p, icons, app, AppRender(p, icons, app, n), n)
    decreases n
  {
    if n > 0 {
      AppRenderRemembers(p, icons, app, n - 1);
      AppStepRemembers(p, icons, app, AppRender(p, icons, app, n - 1), n - 1, AppRender(p, icons, app, n));
    }
  }

  /**
   * After a successful render of keys `0..n-1`, a key `j < n` that is not the
   * close key and whose selected keypad tile is black is remembered as blank,
   * so the key handlers swallow it; a key not remembered as blank has its
   * tile cached in the selected keypad.
   */
  lemma AppRenderMarksKeys(p: DeckInfo, icons: map<string, seq<bv8>>, app: App, n: nat, j: nat)
    requires WellFormed(p) && AppValid(p, app) && j < n && !(j == Cols(p) - 1 && "close" in icons)
    requires AppRender(p, icons, app, n).failure.None?
    ensures var a := AppRender(p, icons, app, n).app;
      var s := KeyState(app, j);
      && (s < |app.keypads| && TileIsBlank(p, app.keypads[s].data, j) ==> j in a.keyBlanks)
      && (j !in a.keyBlanks ==> s < |app.keypads| && s < |a.keypads| && j in a.keypads[s].keyData && a.keypads[s].keyData[j] == Tile(p, app.keypads[s].data, j))
  {
    AppRenderRemembers(p, icons, app, n);
    var a := AppRender(p, icons, app, n).app;
    assert Remembered(p, icons, a, j);
    var s := KeyState(app, j);
    assert KeyState(a, j) == s;
    if j !in a.keyBlanks {
      KeypadsValidIff(p, a.keypads);
      assert CacheCoherent(p, a.keypads[s]);
    }
  }

  /**
   * showMenu's writes: app icons on keys `0..|apps|-1` in insertion order, then
   * blank tiles up to the key count. With more apps than keys, the icon write
   * to key `keyCount` is the last one: it throws.
   */
  function MenuWrites(p: DeckInfo, apps: seq<App>): (ws: seq<KeyWrite>)
    ensures forall j :: 0 <= j < p.keyCount ==> j < |ws| && ws[j].key == j
    ensures |ws| > p.keyCount <==> |apps| > p.keyCount
    ensures forall i :: 0 <= i < |apps| && i < |ws| ==> ws[i] == KeyWrite(i, apps[i].icon)
    ensures forall j :: |apps| <= j < |ws| ==> ws[j] == KeyWrite(j, BlankTile(p))
  {
    seq(if |apps| <= p.keyCount then p.keyCount else p.keyCount + 1,
      j requires 0 <= j => KeyWrite(j, if j < |apps| then apps[j].icon else BlankTile(p)))
  }

  /**
   * The menu screen: with valid apps, key `k` of the grid shows the icon of the
   * `k`-th app in insertion order, or the blank tile past the last app.
   */
  lemma MenuScreen(p: DeckInfo, s: seq<bv8>, apps: seq<App>, k: nat)
    requires WellFormed(p) && AppsValid(p, apps) && |s| == ScreenLength(p) && k < p.keyCount
    ensures Tile(p, Paint(p, s, MenuWrites(p, apps)), k) == if k < |apps| then apps[k].icon else BlankTile(p)
  {
    var ws := MenuWrites(p, apps);
    assert forall j :: 0 <= j < |ws| ==> ws[j].data == if j < |apps| then apps[j].icon else BlankTile(p);
    PaintShowsLastWrite(p, s, ws, k);
    LastWriteOfIndexed(ws, k);
  }

  /**
   * The screen of an app: with a valid app and no failed key, every key of the
   * grid shows its expected tile.
   */
  lemma AppScreen(p: DeckInfo, icons: map<string, seq<bv8>>, s: seq<bv8>, app: App, k: nat)
    requires WellFormed(p) && AppValid(p, app) && IconsValid(p, icons) && |s| == ScreenLength(p) && k < p.keyCount
    requires AppRender(p, icons, app, p.keyCount).failure.None?
    ensures ExpectedTile(p, icons, app, k).Some?
    ensures Tile(p, Paint(p, s, AppRender(p, icons, app, p.keyCount).writes), k) == ExpectedTile(p, icons, app, k).value
  {
    var ws := AppRender(p, icons, app, p.keyCount).writes;
    AppRenderCorrect(p, icons, app, p.keyCount);
    forall j | 0 <= j < |ws| ensures |ws[j].data| == TileLength(p) {
      ExpectedTileLength(p, icons, app, j);
    }
    PaintShowsLastWrite(p, s, ws, k);
    LastWriteOfIndexed(ws, k);
  }

  /** Expected tiles are key-sized. */
  lemma ExpectedTileLength(p: DeckInfo, icons: map<string, seq<bv8>>, app: App, k: nat)
    requires WellFormed(p) && AppValid(p, app) && IconsValid(p, icons)
    ensures ExpectedTile(p, icons, app, k).Some? ==> |ExpectedTile(p, icons, app, k).value| == TileLength(p)
  {
    KeypadsValidIff(p, app.keypads);
  }

  /** A key's expected tile is determined by the app's images, states and blank memory, not by its cache. */
  lemma ExpectedTileIgnoresCache(p: DeckInfo, icons: map<string, seq<bv8>>, a: App, b: App, k: nat)
    requires WellFormed(p)
    requires a.keyBlanks == b.keyBlanks && a.keyStates == b.keyStates && |a.keypads| == |b.keypads|
    requires forall s :: 0 <= s < |a.keypads| ==> a.keypads[s].data == b.keypads[s].data
    ensures ExpectedTile(p, icons, a, k) == ExpectedTile(p, icons, b, k)
  {
  }

  /**
   * setAppKeyState's effect on what the app shows: key `key` now shows the
   * tile of keypad `state` (the blank tile when that tile is black) unless it
   * is the close key or already blank, and every other key is unaffected.
   */
  lemma StateSelectsKeypad(p: DeckInfo, icons: map<string, seq<bv8>>, app: App, key: nat, state: nat)
    requires WellFormed(p) && state < |app.keypads|
    ensures var a := app.(keyStates := app.keyStates[key := state]);
      && (!(key == Cols(p) - 1 && "close" in icons) && key !in app.keyBlanks ==>
            var img := app.keypads[state].data;
            ExpectedTile(p, icons, a, key) == Some(if TileIsBlank(p, img, key) then BlankTile(p) else Tile(p, img, key)))
      && (key in app.keyBlanks && !(key == Cols(p) - 1 && "close" in icons) ==> ExpectedTile(p, icons, a, key) == Some(BlankTile(p)))
      && forall j :: j != key ==> ExpectedTile(p, icons, a, j) == ExpectedTile(p, icons, app, j)
  {
    var a := app.(keyStates := app.keyStates[key := state]);
    assert KeyState(a, key) == state;
    forall j | j != key ensures ExpectedTile(p, icons, a, j) == ExpectedTile(p, icons, app, j) {
      assert KeyState(a, j) == KeyState(app, j);
    }
  }
}
