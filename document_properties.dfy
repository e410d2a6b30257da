/** What the block-indicator loop and `parse_gif` promise, stated over BlocksFrom and GifOf. */
module DocumentProperties {
  import opened Bytes
  import opened Errors
  import opened Reader
  import opened Gif
  import opened Lzw
  import opened LzwProperties
  import opened Parser
  import opened Document

  /** An extension whose label is not one of the four known ones is skipped up to its zero terminator. */
  lemma UnknownExtensionSkipped(input: seq<u8>, pos: nat, acc: Blocks)
    requires pos + 1 < |input| && input[pos] == 0x21 && input[pos + 1] !in {0xF9, 0xFE, 0xFF, 0x01}
    ensures SubBlocks(input, pos + 2).Err? ==> BlocksFrom(input, pos, acc) == Err(SubBlocks(input, pos + 2).error)
    ensures SubBlocks(input, pos + 2).Ok? ==>
              BlocksFrom(input, pos, acc) == BlocksFrom(input, SubBlocks(input, pos + 2).value.next, acc)
  {
  }

  /** An EOF right after the extension introducer is an error, not the graceful end of the loop. */
  lemma TruncatedExtensionFails(input: seq<u8>, acc: Blocks)
    requires |input| > 0 && input[|input| - 1] == 0x21
    ensures BlocksFrom(input, |input| - 1, acc) == Err(UnexpectedEof)
  {
  }

  /**
   * An image is read from the indicator byte itself, and the loop resumes one byte past the
   * end of the image data; a failing image read fails the whole parse.
   */
  lemma ImageResumesOnePastData(input: seq<u8>, pos: nat, acc: Blocks)
    requires pos < |input| && input[pos] == 0x2C
    ensures ImageDescriptorAt(input, pos).Err? ==> BlocksFrom(input, pos, acc) == Err(ImageDescriptorAt(input, pos).error)
    ensures ImageDescriptorAt(input, pos).Ok? ==>
              var image := ImageDescriptorAt(input, pos).value;
              BlocksFrom(input, pos, acc) == BlocksFrom(input, image.next + 1, acc.(images := acc.images + [image.value]))
  {
  }

  /**
   * A graphics control extension replaces whatever one was kept before: two accumulators
   * that differ only there give the same result from such a block on.
   */
  lemma LastGraphicsControlWins(input: seq<u8>, pos: nat, acc: Blocks, earlier: Option<GraphicsControlExtension>)
    requires pos + 1 < |input| && input[pos] == 0x21 && input[pos + 1] == 0xF9
    ensures BlocksFrom(input, pos, acc) == BlocksFrom(input, pos, acc.(graphicsControl := earlier))
  {
  }

  /** The loop's plain-text flag is set exactly when the list of plain text extensions is non-empty. */
  ghost predicate FlagTracksList(b: Blocks)
  {
    b.plainTextFound <==> |b.plainTexts| > 0
  }

  /** Every list the loop builds only grows, and an image or extension only adds at the end. */
  ghost predicate Grows(before: Blocks, after: Blocks)
  {
    && before.comments <= after.comments
    && before.applications <= after.applications
    && before.plainTexts <= after.plainTexts
    && before.images <= after.images
    && (before.plainTextFound ==> after.plainTextFound)
  }

  lemma ExtensionKeepsFlag(input: seq<u8>, pos: nat, acc: Blocks)
    requires FlagTracksList(acc) && ExtensionAt(input, pos, acc).Ok?
    ensures FlagTracksList(ExtensionAt(input, pos, acc).value.value)
    ensures Grows(acc, ExtensionAt(input, pos, acc).value.value)
  {
  }

  lemma ImageKeepsFlag(input: seq<u8>, pos: nat, acc: Blocks)
    requires FlagTracksList(acc) && ImageBlockAt(input, pos, acc).Ok?
    ensures FlagTracksList(ImageBlockAt(input, pos, acc).value.value)
    ensures Grows(acc, ImageBlockAt(input, pos, acc).value.value)
  {
  }

  lemma GrowsTrans(a: Blocks, b: Blocks, c: Blocks)
    requires Grows(a, b) && Grows(b, c)
    ensures Grows(a, c)
  {
  }

  /** The flag the loop keeps beside the list says no more than the list itself. */
  lemma {:induction false} PlainTextFlagTracksList(input: seq<u8>, pos: nat, acc: Blocks)
    requires FlagTracksList(acc)
    ensures BlocksFrom(input, pos, acc).Ok? ==> FlagTracksList(BlocksFrom(input, pos, acc).value)
    ensures BlocksFrom(input, pos, acc).Ok? ==> Grows(acc, BlocksFrom(input, pos, acc).value)
    decreases |input| - pos
  {
    if pos < |input| && input[pos] == ExtensionIntroducer {
      ExtensionStep(input, pos, acc);
      var e := ExtensionAt(input, pos + 1, acc);
      if e.Ok? {
        ExtensionKeepsFlag(input, pos + 1, acc);
        PlainTextFlagTracksList(input, e.value.next, e.value.value);
        if BlocksFrom(input, pos, acc).Ok? {
          GrowsTrans(acc, e.value.value, BlocksFrom(input, pos, acc).value);
        }
      }
    } else if pos < |input| && input[pos] == ImageSeparator {
      ImageStep(input, pos, acc);
      var b := ImageBlockAt(input, pos, acc);
      if b.Ok? {
        ImageKeepsFlag(input, pos, acc);
        PlainTextFlagTracksList(input, b.value.next, b.value.value);
        if BlocksFrom(input, pos, acc).Ok? {
          GrowsTrans(acc, b.value.value, BlocksFrom(input, pos, acc).value);
        }
      }
    } else {
      IndicatorDispatch(input, pos, acc);
    }
  }

  /** A parse that completes holds no plain text extension: seeing one always ends in the exit variant. */
  lemma CompletedHasNoPlainText(input: seq<u8>)
    requires GifOf(input).Ok? && GifOf(input).value.Completed?
    ensures GifOf(input).value.gif.plainTextExtensions == []
  {
    var header := ReadGifHeader(input, 0).value;
    var screen := ReadLogicalScreenDescriptor(input, header.next).value;
    var table := OptionalColorTableAt(input, screen.next, GlobalColorTableSize(screen.value.packedField)).value;
    PlainTextFlagTracksList(input, table.next, NoBlocks);
  }

  /** Parsing stops with the exit variant exactly when some plain text extension was read. */
  lemma PlainTextExitReportsText(input: seq<u8>)
    requires GifOf(input).Ok? && GifOf(input).value.PlainTextExit?
    ensures |GifOf(input).value.printed| > 0
  {
    var header := ReadGifHeader(input, 0).value;
    var screen := ReadLogicalScreenDescriptor(input, header.next).value;
    var table := OptionalColorTableAt(input, screen.next, GlobalColorTableSize(screen.value.packedField)).value;
    PlainTextFlagTracksList(input, table.next, NoBlocks);
  }

  /** The header bytes are kept as read: a signature other than "GIF" is accepted. */
  lemma SignatureNotChecked()
    ensures GifOf([0x58, 0x59, 0x5A, 0x31, 0x32, 0x33, 1, 0, 1, 0, 0, 0, 0, 0x3B]) ==
            Ok(Completed(GifFile(GifHeader([0x58, 0x59, 0x5A], [0x31, 0x32, 0x33]),
                                 LogicalScreenDescriptor(1, 1, 0, 0, 0),
                                 None, None, [], [], [], [])))
  {
    var input: seq<u8> := [0x58, 0x59, 0x5A, 0x31, 0x32, 0x33, 1, 0, 1, 0, 0, 0, 0, 0x3B];
    assert input[0..3] == [0x58, 0x59, 0x5A] && input[3..6] == [0x31, 0x32, 0x33];
    PackedFieldBits(0);
  }

  /**
   * A descriptor whose packed byte is 0x80 sets the global-table flag but has exponent 0,
   * so no global table is read: its first color byte (0 here) is taken as a block
   * indicator and parsing fails.
   */
  lemma FlagWithoutExponentReadsNoTable()
    ensures GifOf([0x47, 0x49, 0x46, 0x38, 0x39, 0x61, 1, 0, 1, 0, 0x80, 0, 0,
                   0, 0, 0, 255, 255, 255, 0x3B]) == Err(InvalidGifFormat)
  {
    PackedFieldBits(0x80);
    var input: seq<u8> := [0x47, 0x49, 0x46, 0x38, 0x39, 0x61, 1, 0, 1, 0, 0x80, 0, 0,
                           0, 0, 0, 255, 255, 255, 0x3B];
    assert GlobalColorTableSize(0x80) == 0;
    assert BlocksFrom(input, 13, NoBlocks) == Err(InvalidGifFormat);
  }

  /**
   * A 1x1 image with a four-entry global table (packed 0x81), whose one sub-block holds
   * clear, index 0, end: the image decodes to the one index 0, the skip after the image
   * passes over the sub-block terminator, and the trailer ends the parse.
   */
  lemma OnePixelGifParses(input: seq<u8>)
    requires input == [0x47, 0x49, 0x46, 0x38, 0x39, 0x61, 1, 0, 1, 0, 0x81, 0, 0,
                       0, 0, 0, 255, 255, 255, 0, 0, 0, 0, 0, 0,
                       0x2C, 0, 0, 0, 0, 1, 0, 1, 0, 0, 2, 2, 0x44, 0x01, 0, 0x3B]
    ensures GifOf(input).Ok? && GifOf(input).value.Completed?
    ensures |GifOf(input).value.gif.globalColorTable.value.colors| == 4
    ensures GifOf(input).value.gif.imageDescriptors == [ImageDescriptor(0, 0, 1, 1, 0, None, 2, [0])]
  {
    OnePixelPrefix(input);
    var image := ImageDescriptor(0, 0, 1, 1, 0, None, 2, [0]);
    OnePixelBlocks(input, NoBlocks.(images := [image]));
  }

  /** The header, the screen descriptor with packed byte 0x81 and its four-entry global table. */
  lemma OnePixelPrefix(input: seq<u8>)
    requires input == [0x47, 0x49, 0x46, 0x38, 0x39, 0x61, 1, 0, 1, 0, 0x81, 0, 0,
                       0, 0, 0, 255, 255, 255, 0, 0, 0, 0, 0, 0,
                       0x2C, 0, 0, 0, 0, 1, 0, 1, 0, 0, 2, 2, 0x44, 0x01, 0, 0x3B]
    ensures ReadGifHeader(input, 0).Ok? && ReadGifHeader(input, 0).value.next == 6
    ensures ReadLogicalScreenDescriptor(input, 6).Ok? && ReadLogicalScreenDescriptor(input, 6).value.next == 13
    ensures ReadLogicalScreenDescriptor(input, 6).value.value.packedField == 0x81
    ensures GlobalColorTableSize(0x81) == 4
    ensures OptionalColorTableAt(input, 13, 4).Ok? && OptionalColorTableAt(input, 13, 4).value.next == 25
    ensures |OptionalColorTableAt(input, 13, 4).value.value.value.colors| == 4
  {
    assert Pow2(2) == 4;
    var header := ReadGifHeader(input, 0);
    assert header.Ok? && header.value.next == 6;
    var screen := ReadLogicalScreenDescriptor(input, 6);
    assert screen.Ok? && screen.value.next == 13 && screen.value.value.packedField == 0x81;
    var table := OptionalColorTableAt(input, 13, 4);
    assert table.Ok? && table.value.next == 25 && |table.value.value.value.colors| == 4;
  }

  /** The loop from the image separator at 25: one image, the skipped terminator, the trailer. */
  lemma OnePixelBlocks(input: seq<u8>, acc: Blocks)
    requires |input| == 41 && input[25..] == [0x2C, 0, 0, 0, 0, 1, 0, 1, 0, 0, 2, 2, 0x44, 0x01, 0, 0x3B]
    requires acc == NoBlocks.(images := [ImageDescriptor(0, 0, 1, 1, 0, None, 2, [0])])
    ensures BlocksFrom(input, 25, NoBlocks) == Ok(acc)
  {
    assert input[25..39] == input[25..][..14];
    ImageAtOnePixel(input, 25);
    assert NoBlocks.(images := NoBlocks.images + [acc.images[0]]) == acc;
    ImageResumesOnePastData(input, 25, NoBlocks);
    assert input[40] == input[25..][15];
    IndicatorDispatch(input, 40, acc);
  }

  /**
   * The layout of an image without a local color table: separator, four little-endian u16
   * fields, the packed byte, the minimum code size and the LZW data right after it.
   */
  lemma ImageWithoutLocalTable(input: seq<u8>, pos: nat)
    requires pos + 11 <= |input| && input[pos] == 0x2C && !ColorTableFlag(input[pos + 9])
    ensures DecodeLzw(input, pos + 11, input[pos + 10]).Err? ==>
              ImageDescriptorAt(input, pos) == Err(DecodeLzw(input, pos + 11, input[pos + 10]).error)
    ensures DecodeLzw(input, pos + 11, input[pos + 10]).Ok? ==>
              var data := DecodeLzw(input, pos + 11, input[pos + 10]).value;
              ImageDescriptorAt(input, pos) ==
                Ok(Parsed(ImageDescriptor(U16FromLe(input[pos + 1], input[pos + 2]), U16FromLe(input[pos + 3], input[pos + 4]),
                                          U16FromLe(input[pos + 5], input[pos + 6]), U16FromLe(input[pos + 7], input[pos + 8]),
                                          input[pos + 9], None, input[pos + 10], data.value),
                          data.next))
  {
    assert LocalColorTableSize(input[pos + 9]) == 0;
  }

  /** The image block of OnePixelGifParses, read on its own wherever it sits. */
  lemma ImageAtOnePixel(input: seq<u8>, pos: nat)
    requires pos + 14 <= |input| && input[pos..pos + 14] == [0x2C, 0, 0, 0, 0, 1, 0, 1, 0, 0, 2, 2, 0x44, 0x01]
    ensures ImageDescriptorAt(input, pos) == Ok(Parsed(ImageDescriptor(0, 0, 1, 1, 0, None, 2, [0]), pos + 14))
  {
    var w := input[pos..pos + 14];
    assert input[pos] == w[0] == 0x2C;
    assert input[pos + 1] == w[1] == 0 && input[pos + 2] == w[2] == 0;
    assert input[pos + 3] == w[3] == 0 && input[pos + 4] == w[4] == 0;
    assert input[pos + 5] == w[5] == 1 && input[pos + 6] == w[6] == 0;
    assert input[pos + 7] == w[7] == 1 && input[pos + 8] == w[8] == 0;
    assert input[pos + 9] == w[9] == 0 && input[pos + 10] == w[10] == 2;
    PackedFieldBits(0);
    assert input[pos + 11..pos + 14] == [2, 0x44, 0x01];
    OnePixelDecodes(input, pos + 11);
    ImageWithoutLocalTable(input, pos);
  }
}
