/**
 * Byte geometry of the app switcher (src/AppDeck.ts): the full-screen RGBA
 * buffer and every full-grid keypad image are row-major, `Cols * KeyWidth`
 * pixels wide and `Rows * KeyHeight` pixels high, 4 bytes per pixel; a key's
 * tile is the `KeyWidth x KeyHeight` sub-rectangle at its grid position.
 */
module Geometry {
  import opened Arith
  import opened DeckInfo
  import opened Wrappers

  function Cols(p: DeckInfo): nat { p.keyLayout.0 }
  function Rows(p: DeckInfo): nat { p.keyLayout.1 }
  function KeyWidth(p: DeckInfo): nat { p.keySize.0 }
  function KeyHeight(p: DeckInfo): nat { p.keySize.1 }

  /** Bytes in one pixel row of a key tile. */
  function RowBytes(p: DeckInfo): nat { KeyWidth(p) * 4 }

  /** Bytes in one pixel row of the full grid (`width` in setAppKey: columns * key width * 4). */
  function LineBytes(p: DeckInfo): nat { Mul(Cols(p), RowBytes(p)) }

  /** Bytes of one key tile (`iconLength`: key width * key height * 4). */
  function TileLength(p: DeckInfo): nat { Mul(KeyHeight(p), RowBytes(p)) }

  /** Bytes of the screen buffer and of each keypad image (`dataLength`: key count * key width * key height * 4). */
  function ScreenLength(p: DeckInfo): nat { Mul(p.keyCount, TileLength(p)) }

  /** The derived sizes of a well-formed profile are positive. */
  lemma Dims(p: DeckInfo)
    requires WellFormed(p)
    ensures RowBytes(p) > 0 && LineBytes(p) > 0 && TileLength(p) > 0
  {
    MulPos(Cols(p), RowBytes(p));
    MulPos(KeyHeight(p), RowBytes(p));
  }

  /** Keys are numbered row-major over the grid. */
  lemma KeyGrid(p: DeckInfo)
    requires WellFormed(p)
    ensures p.keyCount == Mul(Rows(p), Cols(p))
  {
    MulSpec(Rows(p), Cols(p));
  }

  /** The screen is `Rows * KeyHeight` lines of `LineBytes` bytes. */
  lemma ScreenLines(p: DeckInfo)
    requires WellFormed(p)
    ensures ScreenLength(p) == Mul(Mul(Rows(p), KeyHeight(p)), LineBytes(p))
  {
    MulSpec(Cols(p), Rows(p));
    MulRegroup(Cols(p), Rows(p), KeyHeight(p), RowBytes(p));
  }

  /** The blank tile: all-zero RGBA of one key. */
  function BlankTile(p: DeckInfo): (t: seq<bv8>)
    ensures |t| == TileLength(p) && forall l :: 0 <= l < |t| ==> t[l] == 0
  {
    seq(TileLength(p), _ => 0)
  }

  /** The screen buffer as the constructor allocates it. */
  function EmptyScreen(p: DeckInfo): (s: seq<bv8>)
    ensures |s| == ScreenLength(p) && forall i :: 0 <= i < |s| ==> s[i] == 0
  {
    seq(ScreenLength(p), _ => 0)
  }

  /** Grid position (column, row) of a key, as the base class's `getKeyXY`. */
  function KeyXY(p: DeckInfo, k: nat): (xy: (nat, nat))
    requires WellFormed(p)
    ensures xy.0 < Cols(p) && k == Mul(xy.1, Cols(p)) + xy.0
  {
    DivMod(k, Cols(p));
    (Mod(k, Cols(p)), Div(k, Cols(p)))
  }

  /** First byte of key `k`'s tile in a full-grid buffer (`offset` in setAppKey). */
  function TileOffset(p: DeckInfo, k: nat): nat
    requires WellFormed(p)
  {
    var (x, y) := KeyXY(p, k);
    Mul(x, RowBytes(p)) + Mul(Mul(y, KeyHeight(p)), LineBytes(p))
  }

  /** First byte of pixel row `i` of key `k`'s tile in a full-grid buffer (`j` in setAppKey). */
  function RowStart(p: DeckInfo, k: nat, i: nat): nat
    requires WellFormed(p)
  {
    Mul(i, LineBytes(p)) + TileOffset(p, k)
  }

  /** Index inside a tile of byte `col` of pixel row `row`. */
  function Local(p: DeckInfo, row: nat, col: nat): nat
  {
    Mul(row, RowBytes(p)) + col
  }

  /** The key, tile row and byte in that row that a full-grid byte index belongs to. */
  datatype Position = Position(key: nat, row: nat, col: nat)

  function Owner(p: DeckInfo, idx: nat): (o: Position)
    requires WellFormed(p)
  {
    Dims(p);
    var line := Div(idx, LineBytes(p));
    var col := Mod(idx, LineBytes(p));
    Position(Mul(Div(line, KeyHeight(p)), Cols(p)) + Div(col, RowBytes(p)), Mod(line, KeyHeight(p)), Mod(col, RowBytes(p)))
  }

  // ---------------------------------------------------------------------------
  // The byte <-> (key, row, col) correspondence
  // ---------------------------------------------------------------------------

  /** Byte `c` of row `i` of key `k` is owned by exactly that key, row and byte. */
  lemma OwnerOfByte(p: DeckInfo, k: nat, i: nat, c: nat)
    requires WellFormed(p) && i < KeyHeight(p) && c < RowBytes(p)
    ensures Owner(p, RowStart(p, k, i) + c) == Position(k, i, c)
  {
    var (kx, ky) := KeyXY(p, k);
    Dims(p);
    GridIndex(Cols(p), KeyHeight(p), RowBytes(p), LineBytes(p), kx, ky, i, c);
  }

  /** Every byte index is byte `col` of row `row` of its owner key. */
  lemma ByteOfOwner(p: DeckInfo, idx: nat)
    requires WellFormed(p)
    ensures var o := Owner(p, idx);
      o.row < KeyHeight(p) && o.col < RowBytes(p) && RowStart(p, o.key, o.row) + o.col == idx
  {
    var C, KH, rw, W := Cols(p), KeyHeight(p), RowBytes(p), LineBytes(p);
    Dims(p);
    GridSplit(C, KH, rw, W, idx);
    var line, col := Div(idx, W), Mod(idx, W);
    var ky, kx := Div(line, KH), Div(col, rw);
    DivModUnique(Mul(ky, C) + kx, C, ky, kx);
  }

  /** Byte `c` of row `i` of key `k` as (tile line, byte within the grid line). */
  lemma RowStartSplit(p: DeckInfo, k: nat, i: nat, c: nat)
    requires WellFormed(p) && c < RowBytes(p)
    ensures var (kx, ky) := KeyXY(p, k);
      RowStart(p, k, i) + c == Mul(Mul(ky, KeyHeight(p)) + i, LineBytes(p)) + (Mul(kx, RowBytes(p)) + c)
      && Mul(kx, RowBytes(p)) + c < LineBytes(p)
  {
    var (kx, ky) := KeyXY(p, k);
    MulAdd(Mul(ky, KeyHeight(p)), i, LineBytes(p));
    RowMajorBound(Cols(p), RowBytes(p), kx, c);
  }

  /** Rows of key `k` lie inside a full-grid buffer exactly when `k` is a key of the grid. */
  lemma ByteInScreen(p: DeckInfo, k: nat, i: nat, c: nat)
    requires WellFormed(p) && i < KeyHeight(p) && c < RowBytes(p)
    ensures RowStart(p, k, i) + c < ScreenLength(p) <==> k < p.keyCount
  {
    var (kx, ky) := KeyXY(p, k);
    RowStartSplit(p, k, i, c);
    ScreenLines(p);
    KeyGrid(p);
    BlockBound(Rows(p), KeyHeight(p), LineBytes(p), ky, i, Mul(kx, RowBytes(p)) + c);
    RowMajorBound(Rows(p), Cols(p), ky, kx);
  }

  /** A tile index splits into its row and its byte within the row. */
  lemma LocalSplit(p: DeckInfo, l: nat)
    requires WellFormed(p) && l < TileLength(p)
    ensures Div(l, RowBytes(p)) < KeyHeight(p) && Mod(l, RowBytes(p)) < RowBytes(p)
    ensures Local(p, Div(l, RowBytes(p)), Mod(l, RowBytes(p))) == l
  {
    Dims(p);
    DivMod(l, RowBytes(p));
    DivBelow(l, RowBytes(p), KeyHeight(p));
  }

  /** Row and column are recovered from a tile index, which stays inside the tile. */
  lemma LocalJoin(p: DeckInfo, i: nat, c: nat)
    requires WellFormed(p) && i < KeyHeight(p) && c < RowBytes(p)
    ensures Local(p, i, c) < TileLength(p)
    ensures Div(Local(p, i, c), RowBytes(p)) == i && Mod(Local(p, i, c), RowBytes(p)) == c
  {
    DivModUnique(Local(p, i, c), RowBytes(p), i, c);
    RowMajorBound(KeyHeight(p), RowBytes(p), i, c);
  }

  /** Row `i` of a tile ends where row `i + 1` starts. */
  lemma NextRow(p: DeckInfo, i: nat)
    ensures Mul(i + 1, RowBytes(p)) == Mul(i, RowBytes(p)) + RowBytes(p)
  {
    MulAdd(i, 1, RowBytes(p));
  }

  /** Tile rows are whole pixels, so a byte's channel is its offset in the row modulo 4. */
  lemma ChannelInRow(p: DeckInfo, i: nat, v: nat)
    ensures (Mul(i, RowBytes(p)) + v) % 4 == v % 4
  {
    MulFour(i, KeyWidth(p));
    EuclidUnique(Mul(i, RowBytes(p)) + v, 4, Mul(i, KeyWidth(p)) + v / 4, v % 4);
  }

  // ---------------------------------------------------------------------------
  // Typed-array primitives
  // ---------------------------------------------------------------------------

  /** `Uint8Array.prototype.slice(start, end)` for non-negative bounds: clamped to the data. */
  function SliceOf(d: seq<bv8>, start: nat, end: nat): (r: seq<bv8>)
    requires start <= end
    ensures |r| == Min(end, |d|) - Min(start, |d|)
    ensures forall c :: 0 <= c < |r| ==> start + c < |d| && r[c] == d[start + c]
  {
    d[Min(start, |d|)..Min(end, |d|)]
  }

  /** `Uint8Array.prototype.set(src, off)` on the bytes that land inside `s`; where the source does
      not fit the typed array throws instead, and every use below first establishes that it fits. */
  function Overwrite(s: seq<bv8>, off: nat, src: seq<bv8>): (r: seq<bv8>)
    ensures |r| == |s|
    ensures off + |src| <= |s| ==> r[off..off + |src|] == src
    ensures forall i :: 0 <= i < |s| && !(off <= i < off + |src|) ==> r[i] == s[i]
  {
    seq(|s|, i requires 0 <= i < |s| => if off <= i < off + |src| then src[i - off] else s[i])
  }

  // ---------------------------------------------------------------------------
  // Tiles and compositing
  // ---------------------------------------------------------------------------

  /** Byte `l` of key `k`'s tile cut from a full-grid image; bytes past the image read as 0. */
  function TileByte(p: DeckInfo, img: seq<bv8>, k: nat, l: nat): bv8
    requires WellFormed(p)
  {
    Dims(p);
    var b := RowStart(p, k, Div(l, RowBytes(p))) + Mod(l, RowBytes(p));
    if b < |img| then img[b] else 0
  }

  /** Pixel row `i` of key `k` in a full-grid image (`slice` in setAppKey), clamped to the image. */
  function RowSlice(p: DeckInfo, img: seq<bv8>, k: nat, i: nat): (r: seq<bv8>)
    requires WellFormed(p)
    ensures |r| <= RowBytes(p)
  {
    SliceOf(img, RowStart(p, k, i), RowStart(p, k, i) + RowBytes(p))
  }

  /** One pass of setAppKey's row loop: row `i` of the image copied into tile buffer `t` (`data.set(slice, i * keySize[0] * 4)`). */
  function CopyRow(p: DeckInfo, img: seq<bv8>, k: nat, t: seq<bv8>, i: nat): (r: seq<bv8>)
    requires WellFormed(p)
    ensures |r| == |t|
  {
    Overwrite(t, Mul(i, RowBytes(p)), RowSlice(p, img, k, i))
  }

  /** The tile buffer of setAppKey after its first `rows` pixel rows have been copied. */
  function TileRows(p: DeckInfo, img: seq<bv8>, k: nat, rows: nat): (t: seq<bv8>)
    requires WellFormed(p)
    ensures |t| == TileLength(p)
    decreases rows
  {
    if rows == 0 then BlankTile(p) else CopyRow(p, img, k, TileRows(p, img, k, rows - 1), rows - 1)
  }

  /** Byte-wise description of the tile buffer after `rows` rows: bytes of copied rows are image bytes, the rest are 0. */
  function PartialTile(p: DeckInfo, img: seq<bv8>, k: nat, rows: nat): (t: seq<bv8>)
    requires WellFormed(p)
    ensures |t| == TileLength(p)
  {
    Dims(p);
    seq(TileLength(p), l requires 0 <= l < TileLength(p) =>
      if Div(l, RowBytes(p)) < rows then TileByte(p, img, k, l) else 0)
  }

  /** Key `k`'s tile of a full-grid image. */
  function Tile(p: DeckInfo, img: seq<bv8>, k: nat): (t: seq<bv8>)
    requires WellFormed(p)
    ensures |t| == TileLength(p)
  {
    TileRows(p, img, k, KeyHeight(p))
  }

  /** setAppKey's `isBlank` after `rows` rows: no row so far has a colour byte. */
  predicate BlankRows(p: DeckInfo, img: seq<bv8>, k: nat, rows: nat)
    requires WellFormed(p)
    decreases rows
  {
    rows == 0 || (BlankRows(p, img, k, rows - 1) && !HasColour(RowSlice(p, img, k, rows - 1)))
  }

  /** setAppKey's classification of key `k`'s tile as blank. */
  predicate TileIsBlank(p: DeckInfo, img: seq<bv8>, k: nat)
    requires WellFormed(p)
  {
    BlankRows(p, img, k, KeyHeight(p))
  }

  /** Byte `c` of row `i`'s slice, 0 past its end, is the image byte it copies (0 past the image). */
  lemma RowSliceAt(p: DeckInfo, img: seq<bv8>, k: nat, i: nat, c: nat)
    requires WellFormed(p) && c < RowBytes(p)
    ensures (if c < |RowSlice(p, img, k, i)| then RowSlice(p, img, k, i)[c] else 0)
         == (if RowStart(p, k, i) + c < |img| then img[RowStart(p, k, i) + c] else 0)
  {
  }

  /** Copying row `i` into the byte-wise tile of `i` rows gives byte `l` of the tile of `i + 1` rows. */
  lemma CopyRowAt(p: DeckInfo, img: seq<bv8>, k: nat, i: nat, l: nat)
    requires WellFormed(p) && i < KeyHeight(p) && l < TileLength(p)
    ensures CopyRow(p, img, k, PartialTile(p, img, k, i), i)[l] == PartialTile(p, img, k, i + 1)[l]
  {
    Dims(p);
    LocalSplit(p, l);
    if Div(l, RowBytes(p)) == i {
      CopyRowOwnRow(p, img, k, i, Mod(l, RowBytes(p)));
    } else {
      CopyRowOtherRow(p, img, k, i, l);
    }
  }

  /** Copying row `i` sets byte `c` of that row to its image byte (0 past the image). */
  lemma CopyRowOwnRow(p: DeckInfo, img: seq<bv8>, k: nat, i: nat, c: nat)
    requires WellFormed(p) && i < KeyHeight(p) && c < RowBytes(p)
    ensures Local(p, i, c) < TileLength(p)
    ensures CopyRow(p, img, k, PartialTile(p, img, k, i), i)[Local(p, i, c)] == PartialTile(p, img, k, i + 1)[Local(p, i, c)]
  {
    var l := Local(p, i, c);
    LocalJoin(p, i, c);
    RowSliceAt(p, img, k, i, c);
    assert PartialTile(p, img, k, i)[l] == 0;
    assert PartialTile(p, img, k, i + 1)[l] == TileByte(p, img, k, l);
  }

  /** A byte outside tile row `i` lies before or after the whole of that row. */
  lemma OutsideRow(p: DeckInfo, i: nat, l: nat)
    requires WellFormed(p) && Div(l, RowBytes(p)) != i
    ensures l < Mul(i, RowBytes(p)) || Mul(i, RowBytes(p)) + RowBytes(p) <= l
    ensures Div(l, RowBytes(p)) < i <==> Div(l, RowBytes(p)) < i + 1
  {
    var rw := RowBytes(p);
    Dims(p);
    DivMod(l, rw);
    var r, c := Div(l, rw), Mod(l, rw);
    RowMajorBound(i, rw, r, c);
    RowMajorBound(i + 1, rw, r, c);
    NextRow(p, i);
  }

  /** Copying row `i` leaves the bytes of every other row as they were. */
  lemma CopyRowOtherRow(p: DeckInfo, img: seq<bv8>, k: nat, i: nat, l: nat)
    requires WellFormed(p) && i < KeyHeight(p) && l < TileLength(p) && Div(l, RowBytes(p)) != i
    ensures CopyRow(p, img, k, PartialTile(p, img, k, i), i)[l] == PartialTile(p, img, k, i + 1)[l]
  {
    OutsideRow(p, i, l);
    assert CopyRow(p, img, k, PartialTile(p, img, k, i), i)[l] == PartialTile(p, img, k, i)[l];
  }

  /** One pass of the row loop turns the tile of `rows - 1` rows into the tile of `rows` rows. */
  lemma CopyRowStep(p: DeckInfo, img: seq<bv8>, k: nat, rows: nat)
    requires WellFormed(p) && 0 < rows <= KeyHeight(p)
    ensures CopyRow(p, img, k, PartialTile(p, img, k, rows - 1), rows - 1) == PartialTile(p, img, k, rows)
  {
    var w := CopyRow(p, img, k, PartialTile(p, img, k, rows - 1), rows - 1);
    forall l | 0 <= l < TileLength(p) ensures w[l] == PartialTile(p, img, k, rows)[l] {
      CopyRowAt(p, img, k, rows - 1, l);
    }
  }

  /** The row loop's buffer after `rows` rows is the byte-wise tile of `rows` rows. */
  lemma {:induction false} TileRowsBytes(p: DeckInfo, img: seq<bv8>, k: nat, rows: nat)
    requires WellFormed(p) && rows <= KeyHeight(p)
    ensures TileRows(p, img, k, rows) == PartialTile(p, img, k, rows)
  {
    if rows == 0 {
      assert PartialTile(p, img, k, 0) == BlankTile(p);
    } else {
      TileRowsBytes(p, img, k, rows - 1);
      CopyRowStep(p, img, k, rows);
    }
  }

  /** Byte `c` of row `i` of a tile is the image byte at that row's start plus `c` (0 past the image). */
  lemma TileAt(p: DeckInfo, img: seq<bv8>, k: nat, i: nat, c: nat)
    requires WellFormed(p) && i < KeyHeight(p) && c < RowBytes(p)
    ensures Local(p, i, c) < TileLength(p)
    ensures Tile(p, img, k)[Local(p, i, c)] == if RowStart(p, k, i) + c < |img| then img[RowStart(p, k, i) + c] else 0
  {
    LocalJoin(p, i, c);
    TileRowsBytes(p, img, k, KeyHeight(p));
    assert Tile(p, img, k)[Local(p, i, c)] == TileByte(p, img, k, Local(p, i, c));
  }

  /** Row `i` of the byte-wise tile is still zero before it is copied. */
  lemma RowUnwritten(p: DeckInfo, img: seq<bv8>, k: nat, i: nat)
    requires WellFormed(p) && i < KeyHeight(p)
    ensures Mul(i, RowBytes(p)) + RowBytes(p) <= TileLength(p)
    ensures forall j :: Mul(i, RowBytes(p)) <= j < Mul(i, RowBytes(p)) + RowBytes(p) ==> PartialTile(p, img, k, i)[j] == 0
  {
    var off := Mul(i, RowBytes(p));
    LocalJoin(p, i, RowBytes(p) - 1);
    forall j | off <= j < off + RowBytes(p) ensures PartialTile(p, img, k, i)[j] == 0 {
      LocalJoin(p, i, j - off);
      assert Local(p, i, j - off) == j;
      assert Div(j, RowBytes(p)) == i;
    }
  }

  /** Copying row `r` over a zero row keeps the tile black exactly when the row has no colour byte. */
  lemma CopyRowBlank(p: DeckInfo, img: seq<bv8>, k: nat, t: seq<bv8>, r: nat)
    requires WellFormed(p) && r < KeyHeight(p) && |t| == TileLength(p)
    requires forall j :: Mul(r, RowBytes(p)) <= j < Mul(r, RowBytes(p)) + RowBytes(p) ==> j < |t| && t[j] == 0
    ensures IsBlankTile(CopyRow(p, img, k, t, r)) <==> IsBlankTile(t) && !HasColour(RowSlice(p, img, k, r))
  {
    var rw := RowBytes(p);
    Dims(p);
    ChannelInRow(p, r, 0);
    LocalJoin(p, r, rw - 1);
    BlankAfterOverwrite(t, Mul(r, rw), RowSlice(p, img, k, r));
  }

  /** One more row keeps the running blank test in step with the tile copied so far. */
  lemma BlankRowsStep(p: DeckInfo, img: seq<bv8>, k: nat, rows: nat)
    requires WellFormed(p) && 0 < rows <= KeyHeight(p)
    requires BlankRows(p, img, k, rows - 1) <==> IsBlankTile(PartialTile(p, img, k, rows - 1))
    ensures BlankRows(p, img, k, rows) <==> IsBlankTile(PartialTile(p, img, k, rows))
  {
    RowUnwritten(p, img, k, rows - 1);
    CopyRowBlank(p, img, k, PartialTile(p, img, k, rows - 1), rows - 1);
    CopyRowStep(p, img, k, rows);
  }

  /** The running blank test agrees with the tile copied so far being black. */
  lemma {:induction false} BlankRowsIff(p: DeckInfo, img: seq<bv8>, k: nat, rows: nat)
    requires WellFormed(p) && rows <= KeyHeight(p)
    ensures BlankRows(p, img, k, rows) <==> IsBlankTile(PartialTile(p, img, k, rows))
  {
    if rows == 0 {
      assert PartialTile(p, img, k, 0) == BlankTile(p);
    } else {
      BlankRowsIff(p, img, k, rows - 1);
      BlankRowsStep(p, img, k, rows);
    }
  }

  /** A tile is classified blank exactly when every non-alpha byte of it is zero. */
  lemma TileBlankMeans(p: DeckInfo, img: seq<bv8>, k: nat)
    requires WellFormed(p)
    ensures TileIsBlank(p, img, k) <==> IsBlankTile(Tile(p, img, k))
  {
    BlankRowsIff(p, img, k, KeyHeight(p));
    TileRowsBytes(p, img, k, KeyHeight(p));
  }

  /** Every byte at a non-alpha index is zero: the tile is black, whatever the alpha bytes hold. */
  predicate IsBlankTile(t: seq<bv8>)
  {
    forall l :: 0 <= l < |t| && l % 4 != 3 ==> t[l] == 0
  }

  /** Some colour byte (not alpha) of a pixel row is non-zero (the `slice.some(...)` test). */
  predicate HasColour(row: seq<bv8>)
  {
    exists v :: 0 <= v < |row| && v % 4 != 3 && row[v] != 0
  }

  /** Screen byte `idx` after the first `rows` rows of tile `d` are written at key `key`. */
  function ComposedByte(p: DeckInfo, s: seq<bv8>, key: nat, d: seq<bv8>, rows: nat, idx: nat): bv8
    requires WellFormed(p) && idx < |s|
  {
    var o := Owner(p, idx);
    if o.key == key && o.row < rows && Local(p, o.row, o.col) < |d| then d[Local(p, o.row, o.col)] else s[idx]
  }

  /** The screen after the first `rows` pixel rows of `d` are written at key `key`. */
  function CompositeRows(p: DeckInfo, s: seq<bv8>, key: nat, d: seq<bv8>, rows: nat): (r: seq<bv8>)
    requires WellFormed(p)
    ensures |r| == |s|
  {
    seq(|s|, idx requires 0 <= idx < |s| => ComposedByte(p, s, key, d, rows, idx))
  }

  /**
   * The screen after tile `d` is written at key `key`: every byte the key owns
   * takes the tile byte at the same position (as far as `d` reaches), every
   * other byte keeps its value.
   */
  function Composite(p: DeckInfo, s: seq<bv8>, key: nat, d: seq<bv8>): (r: seq<bv8>)
    requires WellFormed(p)
    ensures |r| == |s|
    ensures forall idx :: 0 <= idx < |s| && Owner(p, idx).key != key ==> r[idx] == s[idx]
  {
    CompositeRows(p, s, key, d, KeyHeight(p))
  }

  /** One key write made through the base class's `setKeyData`. */
  datatype KeyWrite = KeyWrite(key: nat, data: seq<bv8>)

  /** The screen after a sequence of key writes, applied in order. */
  function Paint(p: DeckInfo, s: seq<bv8>, ws: seq<KeyWrite>): (r: seq<bv8>)
    requires WellFormed(p)
    ensures |r| == |s|
    decreases |ws|
  {
    if ws == [] then s
    else Composite(p, Paint(p, s, ws[..|ws| - 1]), ws[|ws| - 1].key, ws[|ws| - 1].data)
  }

  /** The data of the last write to key `k`, if any. */
  function LastWrite(ws: seq<KeyWrite>, k: nat): Option<seq<bv8>>
    decreases |ws|
  {
    if ws == [] then None
    else if ws[|ws| - 1].key == k then Some(ws[|ws| - 1].data)
    else LastWrite(ws[..|ws| - 1], k)
  }

  /**
   * `LastWrite` finds a write exactly when some write goes to key `k`, and
   * what it finds is such a write with no later write to `k`.
   */
  lemma {:induction false} LastWriteSpec(ws: seq<KeyWrite>, k: nat)
    ensures LastWrite(ws, k).Some? <==> exists j :: 0 <= j < |ws| && ws[j].key == k
    ensures LastWrite(ws, k).Some? ==> exists j :: (0 <= j < |ws| && ws[j] == KeyWrite(k, LastWrite(ws, k).value) &&
      forall j' :: j < j' < |ws| ==> ws[j'].key != k)
    decreases |ws|
  {
    if ws != [] {
      var n := |ws| - 1;
      if ws[n].key == k {
        assert ws[n] == KeyWrite(k, LastWrite(ws, k).value);
      } else {
        var prefix := ws[..n];
        LastWriteSpec(prefix, k);
        assert forall j :: 0 <= j < n ==> prefix[j] == ws[j];
        if LastWrite(prefix, k).Some? {
          var j :| 0 <= j < n && prefix[j] == KeyWrite(k, LastWrite(prefix, k).value) &&
            forall j' :: j < j' < n ==> prefix[j'].key != k;
          assert forall j' :: j < j' < |ws| ==> ws[j'].key != k;
        }
      }
    }
  }

  // ---------------------------------------------------------------------------
  // The row loops
  // ---------------------------------------------------------------------------

  /** Row `y` of the data written by setKeyData (`data.slice(dy, dy + width * 4)`), clamped to the data. */
  function DataRow(p: DeckInfo, d: seq<bv8>, y: nat): (r: seq<bv8>)
    ensures |r| <= RowBytes(p)
  {
    SliceOf(d, Mul(y, RowBytes(p)), Mul(y, RowBytes(p)) + RowBytes(p))
  }

  /** setKeyData's row `y` does not fit the screen buffer, so `#screen.set` throws a RangeError. */
  predicate RowOverflows(p: DeckInfo, key: nat, d: seq<bv8>, y: nat)
    requires WellFormed(p)
  {
    RowStart(p, key, y) + |DataRow(p, d, y)| > ScreenLength(p)
  }

  /** Some row of setKeyData's row loop throws. */
  predicate WriteFails(p: DeckInfo, key: nat, d: seq<bv8>)
    requires WellFormed(p)
  {
    exists y :: 0 <= y < KeyHeight(p) && RowOverflows(p, key, d, y)
  }

  /** Writing a key of the grid never throws; writing non-empty data past the grid always does. */
  lemma WriteFailsWhen(p: DeckInfo, key: nat, d: seq<bv8>)
    requires WellFormed(p)
    ensures key < p.keyCount ==> !WriteFails(p, key, d)
    ensures key >= p.keyCount && |d| > 0 ==> WriteFails(p, key, d)
  {
    Dims(p);
    if key < p.keyCount {
      forall y | 0 <= y < KeyHeight(p) ensures !RowOverflows(p, key, d, y) {
        ByteInScreen(p, key, y, RowBytes(p) - 1);
      }
    } else if |d| > 0 {
      ByteInScreen(p, key, 0, 0);
      assert |DataRow(p, d, 0)| > 0;
      assert RowOverflows(p, key, d, 0);
    }
  }

  /** setKeyData's row `y` copy (`#screen.set(data.slice(dy, dy + width * 4), sy + sx)`), when it fits, advances the composite by one row. */
  lemma CompositeRowStep(p: DeckInfo, s: seq<bv8>, key: nat, d: seq<bv8>, y: nat)
    requires WellFormed(p) && |s| == ScreenLength(p) && y < KeyHeight(p) && !RowOverflows(p, key, d, y)
    ensures Overwrite(CompositeRows(p, s, key, d, y), RowStart(p, key, y), DataRow(p, d, y)) == CompositeRows(p, s, key, d, y + 1)
  {
    var slice := DataRow(p, d, y);
    var off := RowStart(p, key, y);
    var before := CompositeRows(p, s, key, d, y);
    var after := CompositeRows(p, s, key, d, y + 1);
    var w := Overwrite(before, off, slice);
    forall idx | 0 <= idx < |s| ensures w[idx] == after[idx] {
      CompositeRowStepAt(p, s, key, d, y, idx);
      assert after[idx] == ComposedByte(p, s, key, d, y + 1, idx);
      assert before[idx] == ComposedByte(p, s, key, d, y, idx);
    }
    assert |w| == |after|;
    assert w == after;
  }

  /** Writing past the grid changes no byte of a screen-sized buffer. */
  lemma CompositeBeyondGrid(p: DeckInfo, s: seq<bv8>, key: nat, d: seq<bv8>, rows: nat)
    requires WellFormed(p) && |s| == ScreenLength(p) && key >= p.keyCount
    ensures CompositeRows(p, s, key, d, rows) == s
  {
    var r := CompositeRows(p, s, key, d, rows);
    forall idx | 0 <= idx < |s| ensures r[idx] == s[idx] {
      var o := Owner(p, idx);
      ByteOfOwner(p, idx);
      ByteInScreen(p, o.key, o.row, o.col);
      assert r[idx] == ComposedByte(p, s, key, d, rows, idx);
    }
  }

  lemma CompositeRowStepAt(p: DeckInfo, s: seq<bv8>, key: nat, d: seq<bv8>, y: nat, idx: nat)
    requires WellFormed(p) && y < KeyHeight(p) && idx < |s|
    ensures var slice := DataRow(p, d, y);
      var off := RowStart(p, key, y);
      ComposedByte(p, s, key, d, y + 1, idx) ==
        if off <= idx < off + |slice| then slice[idx - off] else ComposedByte(p, s, key, d, y, idx)
  {
    var slice := DataRow(p, d, y);
    var off := RowStart(p, key, y);
    Dims(p);
    var o := Owner(p, idx);
    ByteOfOwner(p, idx);
    if off <= idx < off + |slice| {
      OwnerOfByte(p, key, y, idx - off);
    }
  }

  /** Writing `src` at a pixel boundary over zeros leaves a black buffer exactly when `src` has no colour byte. */
  lemma BlankAfterOverwrite(b: seq<bv8>, off: nat, src: seq<bv8>)
    requires off % 4 == 0 && off + |src| <= |b|
    requires forall j :: off <= j < off + |src| ==> b[j] == 0
    ensures IsBlankTile(Overwrite(b, off, src)) <==> IsBlankTile(b) && !HasColour(src)
  {
    var a := Overwrite(b, off, src);
    if IsBlankTile(a) {
      forall v | 0 <= v < |src| && v % 4 != 3 ensures src[v] == 0 {
        assert a[off + v] == src[v];
      }
      forall l | 0 <= l < |b| && l % 4 != 3 ensures b[l] == 0 {
        if !(off <= l < off + |src|) {
          assert a[l] == b[l];
        }
      }
    }
    if IsBlankTile(b) && !HasColour(src) {
      forall l | 0 <= l < |a| && l % 4 != 3 ensures a[l] == 0 {
        if off <= l < off + |src| {
          assert a[l] == src[l - off];
        }
      }
    }
  }

  // ---------------------------------------------------------------------------
  // Properties of tiles, compositing and painting
  // ---------------------------------------------------------------------------

  /** Row `i` of key `k`'s tile is the `RowBytes` image bytes starting at that row's offset. */
  lemma TileRowIsImageRow(p: DeckInfo, img: seq<bv8>, k: nat, i: nat)
    requires WellFormed(p) && |img| == ScreenLength(p) && k < p.keyCount && i < KeyHeight(p)
    ensures Mul(i, RowBytes(p)) + RowBytes(p) <= TileLength(p) && RowStart(p, k, i) + RowBytes(p) <= |img|
    ensures Tile(p, img, k)[Mul(i, RowBytes(p))..Mul(i, RowBytes(p)) + RowBytes(p)] == img[RowStart(p, k, i)..RowStart(p, k, i) + RowBytes(p)]
  {
    var rw := RowBytes(p);
    Dims(p);
    LocalJoin(p, i, rw - 1);
    ByteInScreen(p, k, i, rw - 1);
    var t := Tile(p, img, k);
    var lhs := t[Mul(i, rw)..Mul(i, rw) + rw];
    var rhs := img[RowStart(p, k, i)..RowStart(p, k, i) + rw];
    forall c | 0 <= c < rw
      ensures lhs[c] == rhs[c]
    {
      TileAt(p, img, k, i, c);
      ByteInScreen(p, k, i, c);
      assert Local(p, i, c) == Mul(i, rw) + c;
    }
    assert lhs == rhs;
  }

  /** Keys beyond the grid cut an all-zero tile from an image of the grid's size. */
  lemma TileBeyondGrid(p: DeckInfo, img: seq<bv8>, k: nat)
    requires WellFormed(p) && |img| == ScreenLength(p) && k >= p.keyCount
    ensures Tile(p, img, k) == BlankTile(p)
  {
    var t := Tile(p, img, k);
    forall l | 0 <= l < TileLength(p) ensures t[l] == 0 {
      LocalSplit(p, l);
      TileAt(p, img, k, Div(l, RowBytes(p)), Mod(l, RowBytes(p)));
      ByteInScreen(p, k, Div(l, RowBytes(p)), Mod(l, RowBytes(p)));
    }
  }

  /** The screen byte at row `y`, byte `c` of key `key` after compositing `d` there. */
  lemma CompositeAt(p: DeckInfo, s: seq<bv8>, key: nat, d: seq<bv8>, k: nat, i: nat, c: nat)
    requires WellFormed(p) && |s| == ScreenLength(p) && k < p.keyCount && i < KeyHeight(p) && c < RowBytes(p)
    ensures RowStart(p, k, i) + c < |s|
    ensures Composite(p, s, key, d)[RowStart(p, k, i) + c] ==
      if k == key && Local(p, i, c) < |d| then d[Local(p, i, c)] else s[RowStart(p, k, i) + c]
  {
    ByteInScreen(p, k, i, c);
    OwnerOfByte(p, k, i, c);
    var idx := RowStart(p, k, i) + c;
    assert Composite(p, s, key, d)[idx] == ComposedByte(p, s, key, d, KeyHeight(p), idx);
  }

  /**
   * setKeyData's contract on the screen: row `y` of `d` is copied to the screen at
   * `(ky * KeyHeight + y) * LineBytes + kx * RowBytes`, as far as `d` reaches.
   */
  lemma CompositeCopiesRows(p: DeckInfo, s: seq<bv8>, key: nat, d: seq<bv8>, y: nat, c: nat)
    requires WellFormed(p) && |s| == ScreenLength(p) && key < p.keyCount && y < KeyHeight(p) && c < RowBytes(p)
    requires Mul(y, RowBytes(p)) + c < |d|
    ensures var (kx, ky) := KeyXY(p, key);
      var at := Mul(Mul(ky, KeyHeight(p)) + y, LineBytes(p)) + Mul(kx, RowBytes(p)) + c;
      at < |s| && Composite(p, s, key, d)[at] == d[Mul(y, RowBytes(p)) + c]
  {
    RowStartSplit(p, key, y, c);
    CompositeAt(p, s, key, d, key, y, c);
  }

  /** Reading back the key just written gives the written data over the old tile. */
  lemma TileOfComposite(p: DeckInfo, s: seq<bv8>, key: nat, d: seq<bv8>, k: nat)
    requires WellFormed(p) && |s| == ScreenLength(p) && k < p.keyCount
    ensures k != key ==> Tile(p, Composite(p, s, key, d), k) == Tile(p, s, k)
    ensures k == key ==> forall l :: 0 <= l < TileLength(p) ==>
      Tile(p, Composite(p, s, key, d), k)[l] == if l < |d| then d[l] else Tile(p, s, k)[l]
    ensures k == key && |d| == TileLength(p) ==> Tile(p, Composite(p, s, key, d), k) == d
  {
    var s' := Composite(p, s, key, d);
    forall l | 0 <= l < TileLength(p)
      ensures Tile(p, s', k)[l] == if k == key && l < |d| then d[l] else Tile(p, s, k)[l]
    {
      LocalSplit(p, l);
      var i, c := Div(l, RowBytes(p)), Mod(l, RowBytes(p));
      TileAt(p, s', k, i, c);
      TileAt(p, s, k, i, c);
      CompositeAt(p, s, key, d, k, i, c);
    }
  }

  /** Writing a key's own tile back leaves the screen unchanged. */
  lemma CompositeOwnTile(p: DeckInfo, s: seq<bv8>, k: nat)
    requires WellFormed(p) && |s| == ScreenLength(p)
    ensures Composite(p, s, k, Tile(p, s, k)) == s
  {
    var s' := Composite(p, s, k, Tile(p, s, k));
    forall idx | 0 <= idx < |s| ensures s'[idx] == s[idx] {
      var o := Owner(p, idx);
      ByteOfOwner(p, idx);
      if o.key == k {
        TileAt(p, s, k, o.row, o.col);
        assert s'[idx] == ComposedByte(p, s, k, Tile(p, s, k), KeyHeight(p), idx);
      }
    }
  }

  /** A screen is determined by the tiles of its keys. */
  lemma TilesDetermineScreen(p: DeckInfo, s1: seq<bv8>, s2: seq<bv8>)
    requires WellFormed(p) && |s1| == ScreenLength(p) && |s2| == ScreenLength(p)
    requires forall k :: 0 <= k < p.keyCount ==> Tile(p, s1, k) == Tile(p, s2, k)
    ensures s1 == s2
  {
    forall idx | 0 <= idx < |s1| ensures s1[idx] == s2[idx] {
      var o := Owner(p, idx);
      ByteOfOwner(p, idx);
      ByteInScreen(p, o.key, o.row, o.col);
      TileAt(p, s1, o.key, o.row, o.col);
      TileAt(p, s2, o.key, o.row, o.col);
    }
  }

  /** Painting a concatenation paints the parts in order. */
  lemma {:induction false} PaintAppend(p: DeckInfo, s: seq<bv8>, ws1: seq<KeyWrite>, ws2: seq<KeyWrite>)
    requires WellFormed(p)
    ensures Paint(p, s, ws1 + ws2) == Paint(p, Paint(p, s, ws1), ws2)
    decreases |ws2|
  {
    if ws2 == [] {
      assert ws1 + ws2 == ws1;
    } else {
      var ws := ws1 + ws2;
      assert ws[..|ws| - 1] == ws1 + ws2[..|ws2| - 1];
      PaintAppend(p, s, ws1, ws2[..|ws2| - 1]);
    }
  }

  /** Each key of a painted screen shows the last data written to it, or its old tile if none was. */
  lemma {:induction false} PaintShowsLastWrite(p: DeckInfo, s: seq<bv8>, ws: seq<KeyWrite>, k: nat)
    requires WellFormed(p) && |s| == ScreenLength(p) && k < p.keyCount
    requires forall j :: 0 <= j < |ws| ==> |ws[j].data| == TileLength(p)
    ensures Tile(p, Paint(p, s, ws), k) == match LastWrite(ws, k) case Some(d) => d case None => Tile(p, s, k)
    decreases |ws|
  {
    if ws != [] {
      var prefix := ws[..|ws| - 1];
      PaintShowsLastWrite(p, s, prefix, k);
      TileOfComposite(p, Paint(p, s, prefix), ws[|ws| - 1].key, ws[|ws| - 1].data, k);
    }
  }

  /** When write `j` goes to key `j`, the last write to key `k` is write `k`. */
  lemma {:induction false} LastWriteOfIndexed(ws: seq<KeyWrite>, k: nat)
    requires forall j :: 0 <= j < |ws| ==> ws[j].key == j
    requires k < |ws|
    ensures LastWrite(ws, k) == Some(ws[k].data)
    decreases |ws|
  {
    if k < |ws| - 1 {
      var prefix := ws[..|ws| - 1];
      LastWriteOfIndexed(prefix, k);
    }
  }

  // ---------------------------------------------------------------------------
  // The size and offset expressions as the source writes them
  // ---------------------------------------------------------------------------

  /** The buffer sizes: `keySize[0] * keySize[1] * 4` is a tile, `keyCount * keySize[0] * keySize[1] * 4` a screen. */
  lemma SourceSizes(p: DeckInfo)
    requires WellFormed(p)
    ensures p.keySize.0 * p.keySize.1 * 4 == TileLength(p)
    ensures p.keyCount * p.keySize.0 * p.keySize.1 * 4 == ScreenLength(p)
    ensures p.keyLayout.0 * p.keySize.0 * 4 == LineBytes(p)
  {
    var n, c, w, h := p.keyCount, p.keyLayout.0, p.keySize.0, p.keySize.1;
    assert TileLength(p) == h * (w * 4) by { MulSpec(h, w * 4); }
    assert w * h * 4 == h * (w * 4) by { Regroup3(w, h, 4); }
    assert ScreenLength(p) == n * (h * (w * 4)) by { MulSpec(n, TileLength(p)); }
    assert n * w * h * 4 == n * (h * (w * 4)) by { Regroup4(n, w, h, 4); }
    assert LineBytes(p) == c * (w * 4) by { MulSpec(c, w * 4); }
    assert c * w * 4 == c * (w * 4);
  }

  /** A product with a last factor of four, `a b 4 == Mul(a, b 4)`. */
  lemma TimesRowBytes(a: nat, b: nat)
    ensures a * b * 4 == Mul(a, b * 4)
  {
    MulSpec(a, b * 4);
    assert a * b * 4 == a * (b * 4);
  }

  /**
   * setAppKey's offsets: with `width = keyLayout[0] * keySize[0] * 4` and
   * `offset = x * keySize[0] * 4 + y * keySize[1] * width`, row `i` starts at
   * `i * width + offset` in the keypad image and at `i * keySize[0] * 4` in the tile.
   */
  lemma AppKeyOffsets(p: DeckInfo, k: nat, i: nat)
    requires WellFormed(p)
    ensures var (x, y) := KeyXY(p, k);
      var width := p.keyLayout.0 * p.keySize.0 * 4;
      i * width + (x * p.keySize.0 * 4 + y * p.keySize.1 * width) == RowStart(p, k, i)
    ensures i * p.keySize.0 * 4 == Mul(i, RowBytes(p))
  {
    var (x, y) := KeyXY(p, k);
    var w, h, W := p.keySize.0, p.keySize.1, LineBytes(p);
    SourceSizes(p);
    assert i * W == Mul(i, W) by { MulSpec(i, W); }
    TimesRowBytes(x, w);
    TimesRowBytes(i, w);
    assert y * h * W == Mul(Mul(y, h), W) by {
      MulSpec(y, h);
      MulSpec(Mul(y, h), W);
    }
  }

  /**
   * setKeyData's offsets: row `y` of the data starts at `dy = y * width * 4`
   * and lands at `sy + sx` with `sy = (ky * height + y) * keyLayout[0] * width * 4`
   * and `sx = kx * width * 4` (`width`, `height` the key size).
   */
  lemma KeyDataOffsets(p: DeckInfo, key: nat, y: nat)
    requires WellFormed(p)
    ensures var (kx, ky) := KeyXY(p, key);
      var (width, height) := p.keySize;
      (ky * height + y) * p.keyLayout.0 * width * 4 + kx * width * 4 == RowStart(p, key, y)
    ensures y * p.keySize.0 * 4 == Mul(y, RowBytes(p))
  {
    var (kx, ky) := KeyXY(p, key);
    var c, w, h, W := p.keyLayout.0, p.keySize.0, p.keySize.1, LineBytes(p);
    SourceSizes(p);
    var a := Mul(ky, h);
    MulSpec(ky, h);
    Assoc4(a + y, c, w, 4);
    MulSpec(a + y, W);
    MulAdd(a, y, W);
    TimesRowBytes(kx, w);
    TimesRowBytes(y, w);
  }
}
