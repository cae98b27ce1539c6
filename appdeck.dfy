/**
 * The app switcher itself (class `AppDeck` of src/AppDeck.ts): a full-screen
 * RGBA buffer mirrored from every key write, the loaded apps in insertion
 * order, the name of the active app and the system icons. Its methods follow
 * the source statement by statement; each is specified by the functions of
 * modules Apps and Geometry, whose properties are proved there.
 */
module AppDeck {
  import opened Arith
  import opened DeckInfo
  import opened Geometry
  import opened Apps
  import opened Wrappers

  /**
   * `Uint8Array.prototype.set(src, off)`: copies `src` into `a` from index
   * `off`; when it does not fit, nothing is copied and a RangeError is thrown
   * (`ok` is false).
   */
  method SetBytes(a: array<bv8>, src: seq<bv8>, off: nat) returns (ok: bool)
    modifies a
    ensures ok <==> off + |src| <= a.Length
    ensures ok ==> a[..] == Overwrite(old(a[..]), off, src)
    ensures !ok ==> a[..] == old(a[..])
  {
    if off + |src| > a.Length {
      return false;
    }
    for c := 0 to |src|
      invariant forall i :: 0 <= i < a.Length ==> a[i] == if off <= i < off + c then src[i - off] else old(a[i])
    {
      a[off + c] := src[c];
    }
    assert forall i :: 0 <= i < a.Length ==> a[i] == Overwrite(old(a[..]), off, src)[i];
    return true;
  }

  /**
   * setAppKey's tile extraction (src/AppDeck.ts:196-209): every pixel row of
   * key `k`'s sub-rectangle of the keypad image is sliced out and copied into a
   * fresh key-sized buffer, and the running `isBlank` flag stays true while no
   * row has a colour byte.
   */
  method ExtractTile(p: DeckInfo, img: seq<bv8>, k: nat) returns (tile: seq<bv8>, isBlank: bool)
    requires WellFormed(p)
    ensures tile == Tile(p, img, k)
    ensures isBlank == TileIsBlank(p, img, k)
  {
    isBlank := true;
    var data := new bv8[TileLength(p)](_ => 0);
    assert data[..] == BlankTile(p);
    var offset := TileOffset(p, k);
    for i := 0 to KeyHeight(p)
      invariant data[..] == TileRows(p, img, k, i)
      invariant isBlank == BlankRows(p, img, k, i)
    {
      var slice := CopyTileRow(p, img, k, data, i, offset);
      if isBlank {
        isBlank := !HasColour(slice);
      }
    }
    tile := data[..];
  }

  /**
   * One pass of the row loop of `ExtractTile`: `slice` is pixel row `i` of the
   * key's sub-rectangle, starting at `i * width + offset`, and it is copied to
   * `i * keySize[0] * 4` of the tile buffer. Products are written with `Mul`;
   * `AppKeyOffsets` shows they are the source's expressions.
   */
  method CopyTileRow(p: DeckInfo, img: seq<bv8>, k: nat, data: array<bv8>, i: nat, offset: nat) returns (slice: seq<bv8>)
    requires WellFormed(p) && i < KeyHeight(p) && offset == TileOffset(p, k)
    requires data[..] == TileRows(p, img, k, i)
    modifies data
    ensures slice == RowSlice(p, img, k, i)
    ensures data[..] == TileRows(p, img, k, i + 1)
  {
    var j := Mul(i, LineBytes(p)) + offset;
    slice := SliceOf(img, j, j + RowBytes(p));
    ExtractRow(p, img, k, i);
    var ok := SetBytes(data, slice, Mul(i, RowBytes(p)));
  }

  /** Row `i` of `ExtractTile` fits the tile buffer, and copying it is one step of `TileRows`. */
  lemma ExtractRow(p: DeckInfo, img: seq<bv8>, k: nat, i: nat)
    requires WellFormed(p) && i < KeyHeight(p)
    ensures Mul(i, RowBytes(p)) + |RowSlice(p, img, k, i)| <= TileLength(p)
    ensures Overwrite(TileRows(p, img, k, i), Mul(i, RowBytes(p)), RowSlice(p, img, k, i)) == TileRows(p, img, k, i + 1)
  {
    Dims(p);
    LocalJoin(p, i, RowBytes(p) - 1);
  }

  /**
   * setKeyData's copy into the screen buffer (src/AppDeck.ts:162-169): pixel
   * row `y` of `data` goes to row `y` of the key's rectangle, until a row does
   * not fit and `#screen.set` throws. Only keys past the grid throw, and they
   * leave the screen as it was, so the screen always ends up composited.
   */
  method PaintKey(p: DeckInfo, screen: array<bv8>, key: nat, data: seq<bv8>) returns (ok: bool)
    requires WellFormed(p) && screen.Length == ScreenLength(p)
    modifies screen
    ensures screen[..] == Composite(p, old(screen[..]), key, data)
    ensures !ok <==> WriteFails(p, key, data)
  {
    ghost var s0 := screen[..];
    for y := 0 to KeyHeight(p)
      invariant screen[..] == CompositeRows(p, s0, key, data, y)
      invariant forall y' :: 0 <= y' < y ==> !RowOverflows(p, key, data, y')
    {
      ok := PaintRow(p, screen, s0, key, data, y);
      if !ok {
        WriteFailsWhen(p, key, data);
        CompositeBeyondGrid(p, s0, key, data, KeyHeight(p));
        return;
      }
    }
    ok := true;
  }

  /**
   * One pass of setKeyData's row loop: the row's slice of `data` starts at
   * `y * width * 4` and lands at `sy + sx` of the screen, which is `RowStart`
   * (`KeyDataOffsets` shows this is the source's expression).
   */
  method PaintRow(p: DeckInfo, screen: array<bv8>, ghost s0: seq<bv8>, key: nat, data: seq<bv8>, y: nat) returns (ok: bool)
    requires WellFormed(p) && |s0| == ScreenLength(p) && y < KeyHeight(p)
    requires screen[..] == CompositeRows(p, s0, key, data, y)
    modifies screen
    ensures ok <==> !RowOverflows(p, key, data, y)
    ensures ok ==> screen[..] == CompositeRows(p, s0, key, data, y + 1)
    ensures !ok ==> screen[..] == old(screen[..])
  {
    var dy := Mul(y, RowBytes(p));
    ok := SetBytes(screen, SliceOf(data, dy, dy + RowBytes(p)), RowStart(p, key, y));
    if ok {
      CompositeRowStep(p, s0, key, data, y);
    }
  }

  /**
   * The branches of setAppKey (src/AppDeck.ts:176-216) up to the tile to
   * write: the close icon, the blank tile of a remembered key, a cached tile,
   * or a tile cut from the keypad image, remembered as blank or cached.
   */
  method RenderAppKey(p: DeckInfo, icons: map<string, seq<bv8>>, app: App, k: nat) returns (r: Result<Rendered, DeckError>)
    requires WellFormed(p)
    ensures r == RenderKey(p, icons, app, k)
  {
    if k == Cols(p) - 1 && "close" in icons {
      return Ok(Rendered(app, icons["close"]));
    }
    if k in app.keyBlanks {
      return Ok(Rendered(app, BlankTile(p)));
    }
    var s := KeyState(app, k);
    if s >= |app.keypads| {
      return Err(MissingKeypad);
    }
    var keypad := app.keypads[s];
    if k in keypad.keyData {
      return Ok(Rendered(app, keypad.keyData[k]));
    }
    var data, isBlank := ExtractTile(p, keypad.data, k);
    if isBlank {
      r := Ok(Rendered(app.(keyBlanks := app.keyBlanks + {k}), BlankTile(p)));
    } else {
      r := Ok(Rendered(app.(keypads := app.keypads[s := keypad.(keyData := keypad.keyData[k := data])]), data));
    }
  }

  /** A decoded image: its size in pixels and its RGBA bytes. */
  datatype Image = Image(width: nat, height: nat, data: seq<bv8>)

  /** How a key event is dispatched: whether later listeners are stopped, and the app name attached to it. */
  datatype Routing = Routing(stopped: bool, app: Option<string>)

  /**
   * The switcher. The base class's key writes are recorded in `writes`; the
   * screen buffer is always what those writes paint on a black screen.
   */
  class AppDeck {
    const info: DeckInfo
    const screen: array<bv8>
    var icons: map<string, seq<bv8>>
    var apps: seq<App>
    var activeApp: string
    ghost var writes: seq<KeyWrite>

    /** The screen buffer mirrors every key write. */
    ghost predicate Valid()
      reads this, screen
    {
      && WellFormed(info)
      && screen.Length == ScreenLength(info)
      && screen[..] == Paint(info, EmptyScreen(info), writes)
    }

    /** A deck with a black screen, no apps, no icons and the menu active. */
    constructor (p: DeckInfo)
      requires WellFormed(p)
      ensures Valid() && AppsValid(info, apps) && IconsValid(info, icons) && fresh(screen)
      ensures info == p && apps == [] && icons == map[] && activeApp == "" && writes == []
    {
      SourceSizes(p);
      info := p;
      screen := new bv8[p.keyCount * p.keySize.0 * p.keySize.1 * 4](_ => 0);
      icons := map[];
      apps := [];
      activeApp := "";
      writes := [];
      new;
      assert screen[..] == EmptyScreen(p);
    }

    /** The active app (`get activeApp`): the app named `activeApp`, None while the menu is shown. */
    function ActiveApp(): (r: Option<App>)
      reads this`apps, this`activeApp
      ensures r.Some? <==> exists i :: 0 <= i < |apps| && apps[i].uuid == activeApp
      ensures r.Some? ==> r.value in apps && r.value.uuid == activeApp
    {
      match IndexOf(apps, activeApp)
      case Some(i) => Some(apps[i])
      case None => None
    }

    /**
     * setKeyData: the base class writes the key, then each pixel row of `data`
     * is copied to the key's rows of the screen buffer; a row that does not fit
     * throws a RangeError. The screen is then the old screen with `data`
     * composited at `key`, which `Valid` keeps equal to painting every write.
     */
    method SetKeyData(key: nat, data: seq<bv8>) returns (r: Result<(), DeckError>)
      requires Valid()
      modifies this`writes, screen
      ensures Valid()
      ensures writes == old(writes) + [KeyWrite(key, data)]
      ensures screen[..] == Composite(info, old(screen[..]), key, data)
      ensures r == if WriteFails(info, key, data) then Err(RangeError) else Ok(())
    {
      writes := writes + [KeyWrite(key, data)];
      assert writes[..|writes| - 1] == old(writes);
      var ok := PaintKey(info, screen, key, data);
      r := if ok then Ok(()) else Err(RangeError);
    }

    /**
     * showMenu: the menu becomes active, the app icons are written to keys
     * 0, 1, ... in insertion order and the remaining keys are blanked. With
     * more apps than keys the first icon past the grid throws.
     */
    method ShowMenu() returns (r: Result<(), DeckError>)
      requires Valid() && IconsSized(info, apps)
      modifies this`activeApp, this`writes, screen
      ensures Valid()
      ensures activeApp == ""
      ensures writes == old(writes) + MenuWrites(info, apps)
      ensures r == if |apps| > info.keyCount then Err(RangeError) else Ok(())
    {
      activeApp := "";
      ghost var menu := MenuWrites(info, apps);
      var i := 0;
      while i < |apps|
        invariant Valid() && i <= |apps| && i <= info.keyCount
        invariant activeApp == ""
        invariant writes == old(writes) + menu[..i]
      {
        ghost var wB := writes;
        r := SetKeyData(i, apps[i].icon);
        MenuIconStep(info, apps, old(writes), i, wB, writes, r);
        if r.Err? {
          return;
        }
        i := i + 1;
      }
      while i < info.keyCount
        invariant Valid() && |apps| <= i <= info.keyCount
        invariant activeApp == ""
        invariant writes == old(writes) + menu[..i]
      {
        ghost var wB := writes;
        WriteFailsWhen(info, i, BlankTile(info));
        var blanked := SetKeyData(i, BlankTile(info));
        assert blanked.Ok?;
        MenuBlankStep(info, apps, old(writes), i, wB, writes);
        i := i + 1;
      }
      assert menu[..i] == menu;
      r := Ok(());
    }

    /**
     * setAppKey: key `k` of the active app is rendered as `RenderKey` says
     * (applying its blank memory or cache update to the app) and the tile is
     * written; with the menu active nothing happens. A missing keypad throws
     * before anything changes; the write throws for keys past the grid, after
     * the app was updated.
     */
    method SetAppKey(k: nat) returns (r: Result<(), DeckError>)
      requires Valid() && AppsValid(info, apps) && IconsValid(info, icons)
      modifies this`apps, this`writes, screen
      ensures Valid() && AppsValid(info, apps)
      ensures IndexOf(old(apps), activeApp).None? ==> r == Ok(()) && apps == old(apps) && writes == old(writes)
      ensures IndexOf(old(apps), activeApp).Some? ==>
        var i := IndexOf(old(apps), activeApp).value;
        match RenderKey(info, icons, old(apps)[i], k)
        case Err(e) => r == Err(e) && apps == old(apps) && writes == old(writes)
        case Ok(rd) =>
          && apps == old(apps)[i := rd.app] && writes == old(writes) + [KeyWrite(k, rd.tile)]
          && r == if k < info.keyCount then Ok(()) else Err(RangeError)
    {
      var found := IndexOf(apps, activeApp);
      if found.None? {
        return Ok(());
      }
      var i := found.value;
      RenderKeyCorrect(info, icons, apps[i], k);
      ExpectedTileLength(info, icons, apps[i], k);
      var rendered := RenderAppKey(info, icons, apps[i], k);
      if rendered.Err? {
        return Err(rendered.error);
      }
      ReplaceApp(info, apps, i, rendered.value.app);
      apps := apps[i := rendered.value.app];
      Dims(info);
      WriteFailsWhen(info, k, rendered.value.tile);
      r := SetKeyData(k, rendered.value.tile);
    }

    /**
     * showApp: an unknown name does nothing and yields false; otherwise the
     * app becomes active and keys 0 .. keyCount-1 are rendered in order
     * (`AppRender`), stopping at the first key that throws.
     */
    method ShowApp(uuid: string) returns (r: Result<bool, DeckError>)
      requires Valid() && AppsValid(info, apps) && IconsValid(info, icons)
      modifies this`activeApp, this`apps, this`writes, screen
      ensures Valid() && AppsValid(info, apps)
      ensures IndexOf(old(apps), uuid).None? ==>
        r == Ok(false) && activeApp == old(activeApp) && apps == old(apps) && writes == old(writes)
      ensures IndexOf(old(apps), uuid).Some? ==>
        var i := IndexOf(old(apps), uuid).value;
        var pr := AppRender(info, icons, old(apps)[i], info.keyCount);
        && activeApp == uuid && apps == old(apps)[i := pr.app] && writes == old(writes) + pr.writes
        && pr.app.uuid == uuid && IndexOf(apps, uuid) == Some(i)
        && r == if pr.failure.Some? then Err(pr.failure.value) else Ok(true)
    {
      var found := IndexOf(apps, uuid);
      if found.None? {
        return Ok(false);
      }
      ghost var app0 := apps[found.value];
      assert AppValid(info, app0);
      activeApp := uuid;
      r := RenderApp(found.value);
      AppRenderKeepsId(info, icons, app0, info.keyCount);
      IndexOfUnique(apps, found.value);
    }

    /**
     * The loop of showApp: keys 0 .. keyCount-1 of the active app at index
     * `i` are rendered in order with `SetAppKey`, stopping at the first key
     * that throws.
     */
    method RenderApp(ghost i: nat) returns (r: Result<bool, DeckError>)
      requires Valid() && AppsValid(info, apps) && IconsValid(info, icons)
      requires i < |apps| && apps[i].uuid == activeApp
      modifies this`apps, this`writes, screen
      ensures Valid() && AppsValid(info, apps)
      ensures
        var pr := AppRender(info, icons, old(apps)[i], info.keyCount);
        && apps == old(apps)[i := pr.app] && writes == old(writes) + pr.writes
        && r == if pr.failure.Some? then Err(pr.failure.value) else Ok(true)
    {
      ghost var app0 := apps[i];
      assert AppValid(info, app0);
      r := Ok(true);
      for k := 0 to info.keyCount
        invariant Valid() && AppsValid(info, apps) && activeApp == app0.uuid
        invariant AppRender(info, icons, app0, k).failure.None?
        invariant apps == old(apps)[i := AppRender(info, icons, app0, k).app]
        invariant writes == old(writes) + AppRender(info, icons, app0, k).writes
      {
        var res := RenderNext(i, app0, old(apps), old(writes), k);
        if res.Err? {
          AppRenderStops(info, icons, app0, k + 1, info.keyCount);
          r := Err(res.error);
          break;
        }
      }
    }

    /**
     * One pass of the showApp loop: key `k` is rendered with `SetAppKey`,
     * which extends the render of keys 0 .. k-1 (`AppRender`) by one key.
     */
    method RenderNext(ghost i: nat, ghost app0: App, ghost apps0: seq<App>, ghost w0: seq<KeyWrite>, k: nat)
        returns (res: Result<(), DeckError>)
      requires Valid() && AppsValid(info, apps) && IconsValid(info, icons)
      requires AppValid(info, app0) && i < |apps0| && activeApp == app0.uuid && k < info.keyCount
      requires AppRender(info, icons, app0, k).failure.None?
      requires apps == apps0[i := AppRender(info, icons, app0, k).app]
      requires writes == w0 + AppRender(info, icons, app0, k).writes
      modifies this`apps, this`writes, screen
      ensures Valid() && AppsValid(info, apps)
      ensures
        var pr := AppRender(info, icons, app0, k + 1);
        && apps == apps0[i := pr.app] && writes == w0 + pr.writes
        && (res.Err? <==> pr.failure.Some?) && (res.Err? ==> res.error == pr.failure.value)
    {
      AppRenderKeepsId(info, icons, app0, k);
      IndexOfUnique(apps, i);
      ghost var appsB, wB := apps, writes;
      res := SetAppKey(k);
      ShowAppStep(info, icons, app0, k, apps0, w0, i, appsB, wB, apps, writes, res);
    }

    /**
     * setAppKeyState: an unknown app or a state without keypad yields false;
     * otherwise key `key` of the app selects keypad `state`, and while the app
     * is active the key is redrawn with `SetAppKey`.
     */
    method SetAppKeyState(uuid: string, key: nat, state: nat) returns (r: Result<bool, DeckError>)
      requires Valid() && AppsValid(info, apps) && IconsValid(info, icons)
      modifies this`apps, this`writes, screen
      ensures Valid() && AppsValid(info, apps)
      ensures var found := IndexOf(old(apps), uuid);
        found.None? || state >= |old(apps)[found.value].keypads| ==>
          r == Ok(false) && apps == old(apps) && writes == old(writes)
      ensures var found := IndexOf(old(apps), uuid);
        found.Some? && state < |old(apps)[found.value].keypads| ==>
          var i := found.value;
          var a := old(apps)[i].(keyStates := old(apps)[i].keyStates[key := state]);
          if uuid != activeApp then r == Ok(true) && apps == old(apps)[i := a] && writes == old(writes)
          else match RenderKey(info, icons, a, key)
            case Err(e) => r == Err(e) && apps == old(apps)[i := a] && writes == old(writes)
            case Ok(rd) =>
              && apps == old(apps)[i := rd.app] && writes == old(writes) + [KeyWrite(key, rd.tile)]
              && r == if key < info.keyCount then Ok(true) else Err(RangeError)
    {
      var found := IndexOf(apps, uuid);
      if found.None? {
        return Ok(false);
      }
      var i := found.value;
      var app := apps[i];
      if state >= |app.keypads| {
        return Ok(false);
      }
      var a := app.(keyStates := app.keyStates[key := state]);
      ReplaceApp(info, apps, i, a);
      apps := apps[i := a];
      r := Ok(true);
      if uuid == activeApp {
        var res := SetAppKey(key);
        assert old(apps)[i := a][i := apps[i]] == old(apps)[i := apps[i]];
        if res.Err? {
          r := Err(res.error);
        }
      }
    }

    /**
     * loadApp with decoded images: the icon must be key-sized and every image
     * screen-sized (they are checked in this order); the app is then set under
     * its name, with no blank keys, states or cached tiles, and the menu is
     * redrawn unless an app is active.
     */
    method LoadApp(uuid: string, icon: seq<bv8>, images: seq<seq<bv8>>) returns (r: Result<(), DeckError>)
      requires Valid() && AppsValid(info, apps)
      modifies this`apps, this`activeApp, this`writes, screen
      ensures Valid() && AppsValid(info, apps)
      ensures |icon| != TileLength(info) ==>
        r == Err(IconSizeIncorrect) && apps == old(apps) && activeApp == old(activeApp) && writes == old(writes)
      ensures |icon| == TileLength(info) && LoadKeypads(info, images).Err? ==>
        r == Err(ImageSizeIncorrect) && apps == old(apps) && activeApp == old(activeApp) && writes == old(writes)
      ensures |icon| == TileLength(info) && LoadKeypads(info, images).Ok? ==>
        && apps == SetApp(old(apps), App(uuid, icon, LoadKeypads(info, images).value, {}, map[]))
        && (IndexOf(apps, old(activeApp)).Some? ==> r == Ok(()) && activeApp == old(activeApp) && writes == old(writes))
        && (IndexOf(apps, old(activeApp)).None? ==>
              && activeApp == "" && writes == old(writes) + MenuWrites(info, apps)
              && r == if |apps| > info.keyCount then Err(RangeError) else Ok(()))
    {
      if |icon| != TileLength(info) {
        return Err(IconSizeIncorrect);
      }
      LoadKeypadsSpec(info, images);
      var keypads := LoadKeypads(info, images);
      if keypads.Err? {
        return Err(keypads.error);
      }
      var app := App(uuid, icon, keypads.value, {}, map[]);
      SetAppValid(info, apps, app);
      apps := SetApp(apps, app);
      r := Ok(());
      if ActiveApp().None? {
        ValidIconsSized(info, apps);
        r := ShowMenu();
      }
    }

    /**
     * unloadApp: an unknown name yields false; otherwise the app is deleted and,
     * when it was the active app or no app is active, the menu is redrawn.
     */
    method UnloadApp(uuid: string) returns (r: Result<bool, DeckError>)
      requires Valid() && AppsValid(info, apps)
      modifies this`apps, this`activeApp, this`writes, screen
      ensures Valid() && AppsValid(info, apps)
      ensures IndexOf(old(apps), uuid).None? ==>
        r == Ok(false) && apps == old(apps) && activeApp == old(activeApp) && writes == old(writes)
      ensures IndexOf(old(apps), uuid).Some? ==>
        && apps == RemoveAt(old(apps), IndexOf(old(apps), uuid).value)
        && IndexOf(apps, uuid).None?
        && (IndexOf(apps, old(activeApp)).Some? ==> r == Ok(true) && activeApp == old(activeApp) && writes == old(writes))
        && (IndexOf(apps, old(activeApp)).None? ==>
              && activeApp == "" && writes == old(writes) + MenuWrites(info, apps)
              && r == if |apps| > info.keyCount then Err(RangeError) else Ok(true))
    {
      var found := IndexOf(apps, uuid);
      if found.None? {
        return Ok(false);
      }
      RemoveAtFacts(apps, found.value);
      RemoveAtValid(info, apps, found.value);
      apps := RemoveAt(apps, found.value);
      r := Ok(true);
      if ActiveApp().None? || activeApp == uuid {
        ValidIconsSized(info, apps);
        var shown := ShowMenu();
        if shown.Err? {
          r := Err(shown.error);
        }
      }
    }

    /**
     * setIcon with a decoded image: its width and height must be the key size
     * (checked in this order); the icon is then registered under `name`.
     */
    method SetIcon(name: string, icon: Image) returns (r: Result<(), DeckError>)
      requires Valid() && IconsValid(info, icons)
      requires |icon.data| == icon.width * icon.height * 4
      modifies this`icons
      ensures Valid() && IconsValid(info, icons)
      ensures icon.width != KeyWidth(info) ==> r == Err(IconWidthIncorrect) && icons == old(icons)
      ensures icon.width == KeyWidth(info) && icon.height != KeyHeight(info) ==>
        r == Err(IconHeightIncorrect) && icons == old(icons)
      ensures icon.width == KeyWidth(info) && icon.height == KeyHeight(info) ==>
        r == Ok(()) && icons == old(icons)[name := icon.data]
    {
      if icon.width != KeyWidth(info) {
        return Err(IconWidthIncorrect);
      }
      if icon.height != KeyHeight(info) {
        return Err(IconHeightIncorrect);
      }
      SourceSizes(info);
      icons := icons[name := icon.data];
      r := Ok(());
    }

    /**
     * The keydown handler: with an app active the event carries its name and
     * reaches the app's listeners unless it is the close key or a blank key;
     * on the menu every key event is swallowed.
     */
    function OnKeyDown(key: nat): (ev: Routing)
      requires UniqueIds(apps)
      reads this`apps, this`activeApp
      ensures ev.app.Some? <==> exists i :: 0 <= i < |apps| && apps[i].uuid == activeApp
      ensures ev.app.Some? ==> ev.app.value == activeApp
      ensures !ev.stopped <==>
        exists i :: 0 <= i < |apps| && apps[i].uuid == activeApp && key != Cols(info) - 1 && key !in apps[i].keyBlanks
    {
      match ActiveApp()
      case None => Routing(true, None)
      case Some(app) =>
        assert app == apps[IndexOf(apps, activeApp).value];
        if key == Cols(info) - 1 then Routing(true, Some(activeApp))
        else Routing(key in app.keyBlanks, Some(activeApp))
    }

    /**
     * The keyup handler: routed as keydown; the close key of an active app
     * returns to the menu, and on the menu the key of the `key`-th app opens it.
     */
    method OnKeyUp(key: nat) returns (ev: Routing, r: Result<(), DeckError>)
      requires Valid() && AppsValid(info, apps) && IconsValid(info, icons)
      modifies this`apps, this`activeApp, this`writes, screen
      ensures ev == old(OnKeyDown(key))
      ensures Valid() && AppsValid(info, apps)
      ensures old(ActiveApp()).Some? && key == Cols(info) - 1 ==>
        && activeApp == "" && apps == old(apps) && writes == old(writes) + MenuWrites(info, apps)
        && r == if |apps| > info.keyCount then Err(RangeError) else Ok(())
      ensures old(ActiveApp()).Some? && key != Cols(info) - 1 ==>
        r == Ok(()) && apps == old(apps) && activeApp == old(activeApp) && writes == old(writes)
      ensures old(ActiveApp()).None? && key >= |old(apps)| ==>
        r == Ok(()) && apps == old(apps) && activeApp == old(activeApp) && writes == old(writes)
      ensures old(ActiveApp()).None? && key < |old(apps)| ==>
        var pr := AppRender(info, icons, old(apps)[key], info.keyCount);
        && activeApp == old(apps)[key].uuid && apps == old(apps)[key := pr.app] && writes == old(writes) + pr.writes
        && pr.app.uuid == activeApp && IndexOf(apps, activeApp) == Some(key)
        && r == if pr.failure.Some? then Err(pr.failure.value) else Ok(())
    {
      ev := OnKeyDown(key);
      r := Ok(());
      if ActiveApp().Some? {
        if key == Cols(info) - 1 {
          ValidIconsSized(info, apps);
          r := ShowMenu();
        }
        return;
      }
      if key < |apps| {
        IndexOfUnique(apps, key);
        var shown := ShowApp(Names(apps)[key]);
        if shown.Err? {
          r := Err(shown.error);
        }
      }
    }
  }

  /** Appending the next write of a planned sequence extends the logged prefix. */
  lemma LogStep(ws: seq<KeyWrite>, plan: seq<KeyWrite>, i: nat)
    requires i < |plan|
    ensures ws + plan[..i] + [plan[i]] == ws + plan[..i + 1]
  {
    assert plan[..i + 1] == plan[..i] + [plan[i]];
  }

  /** Appending one write after a logged run is logging the run extended by it. */
  lemma LogAppend(ws: seq<KeyWrite>, run: seq<KeyWrite>, w: KeyWrite)
    ensures ws + run + [w] == ws + (run + [w])
  {
  }

  /**
   * One pass of showApp's key loop: what setAppKey does to the app as rendered
   * so far, and to the write log, is the next step of `AppRender`.
   */
  lemma ShowAppStep(p: DeckInfo, icons: map<string, seq<bv8>>, app0: App, k: nat,
                    apps0: seq<App>, w0: seq<KeyWrite>, i: nat,
                    appsB: seq<App>, wB: seq<KeyWrite>, apps1: seq<App>, w1: seq<KeyWrite>, res: Result<(), DeckError>)
    requires WellFormed(p) && i < |apps0| && k < p.keyCount
    requires AppRender(p, icons, app0, k).failure.None?
    requires appsB == apps0[i := AppRender(p, icons, app0, k).app] && wB == w0 + AppRender(p, icons, app0, k).writes
    requires match RenderKey(p, icons, appsB[i], k)
      case Err(e) => res == Err(e) && apps1 == appsB && w1 == wB
      case Ok(rd) =>
        && apps1 == appsB[i := rd.app] && w1 == wB + [KeyWrite(k, rd.tile)]
        && res == if k < p.keyCount then Ok(()) else Err(RangeError)
    ensures var pr := AppRender(p, icons, app0, k + 1);
      && apps1 == apps0[i := pr.app] && w1 == w0 + pr.writes
      && (res.Err? <==> pr.failure.Some?) && (res.Err? ==> res.error == pr.failure.value)
  {
    var pr := AppRender(p, icons, app0, k);
    assert appsB[i] == pr.app;
    if RenderKey(p, icons, pr.app, k).Ok? {
      var rd := RenderKey(p, icons, pr.app, k).value;
      assert apps0[i := pr.app][i := rd.app] == apps0[i := rd.app];
      LogAppend(w0, pr.writes, KeyWrite(k, rd.tile));
    }
  }

  /**
   * One pass of showMenu's icon loop: the icon write extends the logged menu,
   * and it throws exactly for the first app past the grid, which ends the menu.
   */
  lemma MenuIconStep(p: DeckInfo, apps: seq<App>, w0: seq<KeyWrite>, i: nat, wB: seq<KeyWrite>, w1: seq<KeyWrite>, res: Result<(), DeckError>)
    requires WellFormed(p) && IconsSized(p, apps) && i < |apps| && i <= p.keyCount
    requires wB == w0 + MenuWrites(p, apps)[..i] && w1 == wB + [KeyWrite(i, apps[i].icon)]
    requires res == if WriteFails(p, i, apps[i].icon) then Err(RangeError) else Ok(())
    ensures w1 == w0 + MenuWrites(p, apps)[..i + 1]
    ensures res.Err? <==> i == p.keyCount
    ensures res.Err? ==> res == Err(RangeError) && MenuWrites(p, apps)[..i + 1] == MenuWrites(p, apps) && |apps| > p.keyCount
  {
    var menu := MenuWrites(p, apps);
    Dims(p);
    WriteFailsWhen(p, i, apps[i].icon);
    LogStep(w0, menu, i);
  }

  /** One pass of showMenu's blanking loop: the blank write extends the logged menu. */
  lemma MenuBlankStep(p: DeckInfo, apps: seq<App>, w0: seq<KeyWrite>, i: nat, wB: seq<KeyWrite>, w1: seq<KeyWrite>)
    requires WellFormed(p) && |apps| <= i < p.keyCount
    requires wB == w0 + MenuWrites(p, apps)[..i] && w1 == wB + [KeyWrite(i, BlankTile(p))]
    ensures w1 == w0 + MenuWrites(p, apps)[..i + 1]
  {
    LogStep(w0, MenuWrites(p, apps), i);
  }
}
