/**
 * The device-profile record (`DeckInfo` and `DeckType` of src/types.ts) and the
 * table of the four known Stream Deck variants (src/deckInfo.ts).
 */
module DeckInfo {

  /** The known device variants. */
  datatype DeckType = Mini | Original | Mk2 | Xl

  /** The string value of each `DeckType` enum member. */
  function TypeName(t: DeckType): (s: string)
    ensures |s| > 12 && s[..12] == "Stream Deck "
  {
    match t
    case Mini => "Stream Deck Mini"
    case Original => "Stream Deck Original"
    case Mk2 => "Stream Deck MK.2"
    case Xl => "Stream Deck XL"
  }

  /** The four device types have four different names. */
  lemma TypeNameInjective(a: DeckType, b: DeckType)
    ensures TypeName(a) == TypeName(b) ==> a == b
  {
  }

  datatype ImageFormat = Jpeg | Bmp

  /** A report template `[length, offset, ...data]` (`DeckInfoReport`). */
  datatype Report = Report(length: nat, offset: nat, data: seq<nat>)

  /**
   * The immutable parameters of one hardware variant. Pairs stand for the
   * two-element tuples of the record: `keyLayout` is (columns, rows),
   * `keySize` is (width, height) in pixels, `keyFlip` is (horizontal, vertical)
   * and `reportSize` is (frame size, header length).
   */
  datatype DeckInfo = DeckInfo(
    vendorId: nat,
    productId: nat,
    keyCount: nat,
    keyLayout: (nat, nat),
    keySize: (nat, nat),
    keyFlip: (bool, bool),
    keyRotation: int,
    keyStateOffset: nat,
    keyImageFormat: ImageFormat,
    reportSize: (nat, nat),
    firmwareReport: Report,
    resetReport: Report,
    brightnessReport: Report)

  const MiniInfo: DeckInfo := DeckInfo(
    0x0fd9, 0x0063, 6, (3, 2), (80, 80), (false, true), 90, 1, Bmp, (1024, 16),
    Report(17, 5, [0x04]),
    Report(17, 0, [0x0b, 0x63]),
    Report(17, 0, [0x05, 0x55, 0xaa, 0xd1, 0x01]))

  const OriginalInfo: DeckInfo := DeckInfo(
    0x0fd9, 0x0060, 15, (5, 3), (72, 72), (true, true), 0, 1, Bmp, (8191, 16),
    Report(17, 5, [0x04]),
    Report(17, 0, [0x0b, 0x63]),
    Report(17, 0, [0x05, 0x55, 0xaa, 0xd1, 0x01]))

  const Mk2Info: DeckInfo := DeckInfo(
    0x0fd9, 0x0080, 15, (5, 3), (72, 72), (true, true), 0, 4, Jpeg, (1024, 8),
    Report(32, 6, [0x05]),
    Report(32, 0, [0x03, 0x02]),
    Report(32, 0, [0x03, 0x08]))

  const XlInfo: DeckInfo := DeckInfo(
    0x0fd9, 0x006c, 32, (8, 4), (96, 96), (true, true), 0, 4, Jpeg, (1024, 8),
    Report(32, 6, [0x05]),
    Report(32, 0, [0x03, 0x02]),
    Report(32, 0, [0x03, 0x08]))

  /**
   * The geometry every buffer computation of the app switcher depends on:
   * a non-empty grid whose key count is columns times rows, and keys of
   * positive size.
   */
  predicate WellFormed(p: DeckInfo)
  {
    && p.keyLayout.0 > 0 && p.keyLayout.1 > 0
    && p.keySize.0 > 0 && p.keySize.1 > 0
    && p.keyCount == p.keyLayout.0 * p.keyLayout.1
  }

  /** The template's payload offset lies inside the report and its literal bytes fit. */
  predicate ReportFits(r: Report)
  {
    r.offset < r.length && |r.data| <= r.length
  }

  /** HID frames carry a positive payload after their header. */
  predicate FramesHavePayload(p: DeckInfo)
  {
    p.reportSize.0 > p.reportSize.1
  }

  /** The `deckInfo` table, indexed by variant. */
  function Info(t: DeckType): (p: DeckInfo)
    ensures WellFormed(p) && FramesHavePayload(p)
    ensures ReportFits(p.firmwareReport) && ReportFits(p.resetReport) && ReportFits(p.brightnessReport)
    ensures p.vendorId == 0x0fd9
    ensures p.keySize.0 == p.keySize.1
    ensures p.keyImageFormat == (if t == Mini || t == Original then Bmp else Jpeg)
    ensures p.keyStateOffset == (if t == Mini || t == Original then 1 else 4)
  {
    match t
    case Mini => MiniInfo
    case Original => OriginalInfo
    case Mk2 => Mk2Info
    case Xl => XlInfo
  }

  /** The variants are told apart by product id alone. */
  lemma ProductIdsDistinct(t1: DeckType, t2: DeckType)
    ensures Info(t1).productId == Info(t2).productId ==> t1 == t2
  {
  }

  /** The key grid of each variant: 6 = 3x2, 15 = 5x3, 15 = 5x3, 32 = 8x4. */
  lemma KeyGrids()
    ensures Info(Mini).keyLayout == (3, 2) && Info(Mini).keyCount == 6
    ensures Info(Original).keyLayout == (5, 3) && Info(Original).keyCount == 15
    ensures Info(Mk2).keyLayout == (5, 3) && Info(Mk2).keyCount == 15
    ensures Info(Xl).keyLayout == (8, 4) && Info(Xl).keyCount == 32
  {
  }
}
