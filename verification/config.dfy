/** `Parser::addMatrixInfo`: the conversion settings of the active preset
    projected into the fixed set of informational tags a template can print. */
module MatrixInfo {
  import opened Wrappers
  import opened Text
  import opened Format
  import opened Substitution

  datatype BytesOrder = LittleEndianOrder | BigEndianOrder

  /** The main scanning direction of the pixel matrix. */
  datatype ScanDirection = TopToBottom | BottomToTop | LeftToRight | RightToLeft

  datatype ConversionType = Monochrome | Grayscale | Color

  /** The size of one data block of the output: 8, 16, 24 or 32 bits. The
      setting is stored as the index of the size, 0 to 3. */
  datatype DataBlockSize = Data8 | Data16 | Data24 | Data32
  {
    function Index(): nat
    {
      match this
      case Data8 => 0
      case Data16 => 1
      case Data24 => 2
      case Data32 => 3
    }

    /** The width in bits each size stands for. */
    function Bits(): nat
    {
      match this
      case Data8 => 8
      case Data16 => 16
      case Data24 => 24
      case Data32 => 32
    }
  }

  /** The settings of the active preset that the informational tags show. */
  datatype Config = Config(
    presetName: string,
    bytesOrder: BytesOrder,
    blockSize: DataBlockSize,
    scanMain: ScanDirection,
    scanSub: bool,
    bandScanning: bool,
    bandWidth: int,
    inverse: bool,
    bom: bool,
    encoding: string,
    splitToRows: bool,
    compressionRle: bool,
    convType: ConversionType,
    convTypeName: string,
    monoTypeName: string,
    edge: int,
    maskUsed: bv32)

  /** The texts a configuration contributes verbatim hold no marker
      characters. */
  predicate ConfigFree(cfg: Config)
  {
    && NoMarkerChars(cfg.presetName)
    && NoMarkerChars(cfg.encoding)
    && NoMarkerChars(cfg.convTypeName)
    && NoMarkerChars(cfg.monoTypeName)
  }

  /** Every tag the operation writes. */
  const InfoKeys: set<string> := {
    "bytesOrder", "dataBlockSize", "scanMain", "scanSub", "bands", "bandWidth",
    "inverse", "bom", "encoding", "splitToRows", "rle", "preset", "convType",
    "monoType", "edge", "bpp"
  }

  const NotUsed: string := "not used"

  /* ---------------- labels ---------------- */

  function YesNo(b: bool): string
  {
    if b then "yes" else "no"
  }

  function ScanLabel(d: ScanDirection): string
  {
    match d
    case TopToBottom => "top to bottom"
    case BottomToTop => "bottom to top"
    case LeftToRight => "left to right"
    case RightToLeft => "right to left"
  }

  /** Reads a direction label back. */
  function ParseScanLabel(s: string): (d: Option<ScanDirection>)
    ensures d.Some? ==> ScanLabel(d.value) == s
  {
    if s == "top to bottom" then Some(TopToBottom)
    else if s == "bottom to top" then Some(BottomToTop)
    else if s == "left to right" then Some(LeftToRight)
    else if s == "right to left" then Some(RightToLeft)
    else None
  }

  /** The direction labels are distinct: each one reads back as its direction. */
  lemma ScanLabelRoundTrip(d: ScanDirection)
    ensures ParseScanLabel(ScanLabel(d)) == Some(d)
  {
    match d
    case TopToBottom =>
    case BottomToTop =>
      assert ScanLabel(d)[0] != "top to bottom"[0];
    case LeftToRight =>
      assert ScanLabel(d)[0] != "top to bottom"[0];
      assert ScanLabel(d)[0] != "bottom to top"[0];
    case RightToLeft =>
      assert ScanLabel(d)[0] != "top to bottom"[0];
      assert ScanLabel(d)[0] != "bottom to top"[0];
      assert ScanLabel(d)[0] != "left to right"[0];
  }

  /* ---------------- population count ---------------- */

  predicate IsBitSet(x: bv32, i: bv32)
    requires i < 32
  {
    (x >> i) & 1 == 1
  }

  /** The number of set bits among bits `0 .. n-1` of `x`. */
  function BitsBelow(x: bv32, n: bv32): nat
    requires n <= 32
    decreases n
  {
    if n == 0 then 0 else BitsBelow(x, n - 1) + (if IsBitSet(x, n - 1) then 1 else 0)
  }

  /** The number of set bits of `x`, counted position by position. */
  function PopCount(x: bv32): nat
  {
    BitsBelow(x, 32)
  }

  lemma {:induction false} BitsBelowBound(x: bv32, n: bv32)
    requires n <= 32
    ensures BitsBelow(x, n) <= n as nat
    decreases n
  {
    if n > 0 {
      BitsBelowBound(x, n - 1);
    }
  }

  lemma {:induction false} BitsBelowZero(n: bv32)
    requires n <= 32
    ensures BitsBelow(0, n) == 0
    decreases n
  {
    if n > 0 {
      BitsBelowZero(n - 1);
    }
  }

  lemma ShiftedBit(x: bv32, i: bv32)
    requires i < 31
    ensures IsBitSet(x >> 1, i) == IsBitSet(x, i + 1)
  {
  }

  lemma TopBitOfShifted(x: bv32)
    ensures !IsBitSet(x >> 1, 31)
  {
  }

  /** Bits `1 .. n` of `x` are bits `0 .. n-1` of `x >> 1`. */
  lemma {:induction false} BitsBelowShift(x: bv32, n: bv32)
    requires n < 32
    ensures BitsBelow(x, n + 1) == (if IsBitSet(x, 0) then 1 else 0) + BitsBelow(x >> 1, n)
    decreases n
  {
    if n > 0 {
      BitsBelowShift(x, n - 1);
      ShiftedBit(x, n - 1);
      assert n - 1 + 1 == n;
    }
  }

  /** One step of the source's counting loop: the low bit plus the count of
      the rest. */
  lemma PopCountShift(x: bv32)
    ensures PopCount(x) == (if x & 1 != 0 then 1 else 0) + PopCount(x >> 1)
  {
    BitsBelowShift(x, 31);
    TopBitOfShifted(x);
    assert IsBitSet(x, 0) <==> x & 1 != 0;
  }

  lemma ShiftDecreases(x: bv32)
    requires x > 0
    ensures x >> 1 < x
  {
  }

  /** The loop of the source: test the low bit, shift right, until the mask is
      zero. */
  method BitsPerPixel(mask: bv32) returns (bpp: nat)
    ensures bpp == PopCount(mask)
    ensures bpp <= 32
  {
    var m := mask;
    bpp := 0;
    while m > 0
      invariant bpp + PopCount(m) == PopCount(mask)
      decreases m
    {
      PopCountShift(m);
      if m & 1 != 0 {
        bpp := bpp + 1;
      }
      ShiftDecreases(m);
      m := m >> 1;
    }
    BitsBelowZero(32);
    BitsBelowBound(mask, 32);
  }

  /* ---------------- the tags ---------------- */

  /** The value written to informational tag `key` for a configuration
      whose channel mask has `bpp` bits set. */
  function InfoValue(cfg: Config, bpp: nat, key: string): string
    requires key in InfoKeys
  {
    if key == "bytesOrder" then
      (if cfg.bytesOrder == LittleEndianOrder then "little-endian" else "big-endian")
    else if key == "dataBlockSize" then Decimal((cfg.blockSize.Index() + 1) * 8)
    else if key == "scanMain" then ScanLabel(cfg.scanMain)
    else if key == "scanSub" then (if cfg.scanSub then "forward" else "backward")
    else if key == "bands" then YesNo(cfg.bandScanning)
    else if key == "bandWidth" then Decimal(cfg.bandWidth)
    else if key == "inverse" then YesNo(cfg.inverse)
    else if key == "bom" then YesNo(cfg.bom)
    else if key == "encoding" then cfg.encoding
    else if key == "splitToRows" then YesNo(cfg.splitToRows)
    else if key == "rle" then YesNo(cfg.compressionRle)
    else if key == "preset" then cfg.presetName
    else if key == "convType" then cfg.convTypeName
    else if key == "monoType" then (if cfg.convType == Monochrome then cfg.monoTypeName else NotUsed)
    else if key == "edge" then (if cfg.convType == Monochrome then Decimal(cfg.edge) else NotUsed)
    else Decimal(bpp)
  }

  /** The sixteen informational tags. */
  function Info(cfg: Config, bpp: nat): (m: Tags)
    ensures m.Keys == InfoKeys
  {
    map key | key in InfoKeys :: InfoValue(cfg, bpp, key)
  }

  /** The switches: each label tells the setting back. */
  lemma InfoSwitches(cfg: Config, bpp: nat)
    ensures var m := Info(cfg, bpp);
      && (m["bytesOrder"] == "little-endian" <==> cfg.bytesOrder == LittleEndianOrder)
      && (m["bytesOrder"] == "big-endian" <==> cfg.bytesOrder == BigEndianOrder)
      && ParseScanLabel(m["scanMain"]) == Some(cfg.scanMain)
      && m["scanSub"] in {"forward", "backward"} && (m["scanSub"] == "forward" <==> cfg.scanSub)
      && m["bands"] in {"yes", "no"} && (m["bands"] == "yes" <==> cfg.bandScanning)
      && m["inverse"] in {"yes", "no"} && (m["inverse"] == "yes" <==> cfg.inverse)
      && m["bom"] in {"yes", "no"} && (m["bom"] == "yes" <==> cfg.bom)
      && m["splitToRows"] in {"yes", "no"} && (m["splitToRows"] == "yes" <==> cfg.splitToRows)
      && m["rle"] in {"yes", "no"} && (m["rle"] == "yes" <==> cfg.compressionRle)
  {
    ScanLabelRoundTrip(cfg.scanMain);
  }

  /** The numbers: each reads back as the setting, in the unit the tag names. */
  lemma InfoNumbers(cfg: Config, bpp: nat)
    ensures var m := Info(cfg, bpp);
      && IsDecimalText(m["dataBlockSize"]) && DecimalValue(m["dataBlockSize"]) == cfg.blockSize.Bits()
      && IsDecimalText(m["bandWidth"]) && DecimalValue(m["bandWidth"]) == cfg.bandWidth
      && IsDecimalText(m["bpp"]) && DecimalValue(m["bpp"]) == bpp
  {
    DecimalRoundTrip((cfg.blockSize.Index() + 1) * 8);
    DecimalRoundTrip(cfg.bandWidth);
    DecimalRoundTrip(bpp);
  }

  /** The texts copied from the configuration, and the two tags that only a
      monochrome conversion fills in. */
  lemma InfoTexts(cfg: Config, bpp: nat)
    ensures var m := Info(cfg, bpp);
      && m["encoding"] == cfg.encoding
      && m["preset"] == cfg.presetName
      && m["convType"] == cfg.convTypeName
      && (cfg.convType == Monochrome ==>
            && m["monoType"] == cfg.monoTypeName
            && IsDecimalText(m["edge"]) && DecimalValue(m["edge"]) == cfg.edge)
      && (cfg.convType != Monochrome ==> m["monoType"] == NotUsed)
      && (m["edge"] == NotUsed <==> cfg.convType != Monochrome)
  {
    DecimalRoundTrip(cfg.edge);
    assert Decimal(cfg.edge)[0] != NotUsed[0];
  }

  lemma LabelsFree(cfg: Config)
    ensures NoMarkerChars(if cfg.bytesOrder == LittleEndianOrder then "little-endian" else "big-endian")
    ensures NoMarkerChars(ScanLabel(cfg.scanMain))
    ensures NoMarkerChars(if cfg.scanSub then "forward" else "backward")
    ensures NoMarkerChars(YesNo(true)) && NoMarkerChars(YesNo(false))
    ensures NoMarkerChars(NotUsed)
  {
    assert NoMarkerChars("little-endian") && NoMarkerChars("big-endian");
    assert NoMarkerChars("forward") && NoMarkerChars("backward");
    assert NoMarkerChars("yes") && NoMarkerChars("no");
    match cfg.scanMain
    case TopToBottom => assert NoMarkerChars("top to bottom");
    case BottomToTop => assert NoMarkerChars("bottom to top");
    case LeftToRight => assert NoMarkerChars("left to right");
    case RightToLeft => assert NoMarkerChars("right to left");
  }

  lemma InfoValueFree(cfg: Config, bpp: nat, key: string)
    requires ConfigFree(cfg) && key in InfoKeys
    ensures NoMarkerChars(InfoValue(cfg, bpp, key))
  {
    DecimalFree((cfg.blockSize.Index() + 1) * 8);
    DecimalFree(cfg.bandWidth);
    DecimalFree(cfg.edge);
    DecimalFree(bpp);
    LabelsFree(cfg);
  }

  /** The tags hold no marker character unless the configuration's own texts
      do. */
  lemma InfoFree(cfg: Config, bpp: nat)
    requires ConfigFree(cfg)
    ensures ValuesFree(Info(cfg, bpp))
  {
    forall key | key in Info(cfg, bpp)
      ensures NoMarkerChars(Info(cfg, bpp)[key])
    {
      InfoValueFree(cfg, bpp, key);
    }
  }

  /** `addMatrixInfo`: writes the sixteen informational tags, with the channel
      mask's population count as bits per pixel, and leaves every other entry
      of the map as it was. The source inserts the tags one by one; the keys
      are distinct, so that is the union below. */
  method AddMatrixInfo(cfg: Config, tags: Tags) returns (r: Tags)
    ensures r == tags + Info(cfg, PopCount(cfg.maskUsed))
    ensures r.Keys == tags.Keys + InfoKeys
    ensures forall k :: k in tags && k !in InfoKeys ==> r[k] == tags[k]
    ensures ValuesFree(tags) && ConfigFree(cfg) ==> ValuesFree(r)
  {
    var bpp := BitsPerPixel(cfg.maskUsed);
    r := tags + Info(cfg, bpp);
    if ValuesFree(tags) && ConfigFree(cfg) {
      InfoFree(cfg, bpp);
    }
  }
}
