/** The parsed form of a GIF file: one datatype per record the parser builds, and the packed-field accessors. */
module Gif {
  import opened Bytes
  import opened Errors

  /** A fixed three-byte field (`[u8; 3]`). */
  type Triple = s: seq<u8> | |s| == 3 witness [0, 0, 0]

  /** Three signature bytes ("GIF") and three version bytes ("89a"), as read; nothing checks them. */
  datatype GifHeader = GifHeader(signature: Triple, version: Triple)

  datatype LogicalScreenDescriptor = LogicalScreenDescriptor(
    width: u16,
    height: u16,
    packedField: u8,
    backgroundColorIndex: u8,
    pixelAspectRatio: u8)

  /** One RGB entry of a color table. */
  datatype Color = Color(red: u8, green: u8, blue: u8)

  datatype ColorTable = ColorTable(colors: seq<Color>)

  datatype GraphicsControlExtension = GraphicsControlExtension(
    packedField: u8,
    delayTime: u16,
    transparentColorIndex: u8)

  /** The payload of each sub-block, as raw bytes. */
  datatype CommentExtension = CommentExtension(comments: seq<seq<u8>>)

  /** An 8-byte identifier, a 3-byte authentication code and the concatenated sub-block data, as raw bytes. */
  datatype ApplicationExtension = ApplicationExtension(
    identifier: seq<u8>,
    authenticationCode: seq<u8>,
    data: seq<u8>)

  datatype PlainTextExtension = PlainTextExtension(
    blockSize: u8,
    textGridLeftPosition: u16,
    textGridTopPosition: u16,
    textGridWidth: u16,
    textGridHeight: u16,
    characterCellWidth: u8,
    characterCellHeight: u8,
    textForegroundColorIndex: u8,
    textBackgroundColorIndex: u8,
    plainTextData: seq<u8>)

  /** An image: geometry, packed field, optional local table, LZW minimum code size and the decoded indices. */
  datatype ImageDescriptor = ImageDescriptor(
    left: u16,
    top: u16,
    width: u16,
    height: u16,
    packedField: u8,
    localColorTable: Option<ColorTable>,
    lzwMinimumCodeSize: u8,
    imageData: seq<u8>)

  /** The whole document; only the last graphics control extension read is kept. */
  datatype GifFile = GifFile(
    header: GifHeader,
    logicalScreenDescriptor: LogicalScreenDescriptor,
    globalColorTable: Option<ColorTable>,
    graphicsControlExtension: Option<GraphicsControlExtension>,
    commentExtensions: seq<CommentExtension>,
    applicationExtensions: seq<ApplicationExtension>,
    plainTextExtensions: seq<PlainTextExtension>,
    imageDescriptors: seq<ImageDescriptor>)

  /** Bit 7 of a packed field (`packed & 0b10000000 != 0`): the color-table flag. */
  function ColorTableFlag(packed: u8): bool
  {
    (packed as bv8) & 0x80 != 0
  }

  /** Bits 0-2 of a packed field (`packed & 0b111`, the value's remainder mod 8): the color-table size exponent. */
  function ColorTableSizeExponent(packed: u8): (e: nat)
    ensures e < 8
  {
    packed as nat % 8
  }

  /** Entries of an image's local color table: present exactly when the flag is set. */
  function LocalColorTableSize(packed: u8): nat
  {
    if ColorTableFlag(packed) then Pow2(ColorTableSizeExponent(packed) + 1) else 0
  }

  /** Entries of the global color table: the parser reads one whenever the exponent is non-zero, whatever the flag says. */
  function GlobalColorTableSize(packed: u8): nat
  {
    if ColorTableSizeExponent(packed) > 0 then Pow2(ColorTableSizeExponent(packed) + 1) else 0
  }

  /** The packed-field flag in arithmetic terms: the top bit is set exactly from 128 on. */
  lemma PackedFieldBits(packed: u8)
    ensures ColorTableFlag(packed) <==> packed >= 128
    ensures ColorTableSizeExponent(packed) == packed as int % 8
  {
  }

  /** A local color table is there exactly when bit 7 is set, with 2^(exponent + 1) entries, from 2 to 256. */
  lemma LocalTableSizes(packed: u8)
    ensures LocalColorTableSize(packed) > 0 <==> packed >= 128
    ensures LocalColorTableSize(packed) > 0 ==>
              LocalColorTableSize(packed) == Pow2(packed as int % 8 + 1) && 2 <= LocalColorTableSize(packed) <= 256
  {
    PackedFieldBits(packed);
    SizeRange(packed as int % 8);
  }

  /**
   * A global color table is there exactly when the exponent is non-zero, with 2^(exponent + 1)
   * entries, from 4 to 256; bit 7, the flag, plays no part.
   */
  lemma GlobalTableSizes(packed: u8)
    ensures GlobalColorTableSize(packed) > 0 <==> packed as int % 8 > 0
    ensures GlobalColorTableSize(packed) > 0 ==>
              GlobalColorTableSize(packed) == Pow2(packed as int % 8 + 1) && 4 <= GlobalColorTableSize(packed) <= 256
    ensures GlobalColorTableSize(packed) == GlobalColorTableSize(((packed as int + 128) % 256) as u8)
  {
    SizeRange(packed as int % 8);
    FlipKeepsExponent(packed);
  }

  lemma SizeRange(e: nat)
    requires e < 8
    ensures 2 <= Pow2(e + 1) <= 256
    ensures e > 0 ==> 4 <= Pow2(e + 1)
  {
    Pow2Monotone(e + 1, 8);
    Pow2Monotone(1, e + 1);
    assert Pow2(1) == 2 && Pow2(2) == 4 && Pow2(8) == 256;
    if e > 0 {
      Pow2Monotone(2, e + 1);
    }
  }

  lemma FlipKeepsExponent(packed: u8)
    ensures ColorTableSizeExponent(((packed as int + 128) % 256) as u8) == ColorTableSizeExponent(packed)
  {
    var n := packed as int;
    if n < 128 {
      assert (n + 128) % 256 == n + 128;
    } else {
      assert (n + 128) % 256 == n - 128;
    }
  }
}
