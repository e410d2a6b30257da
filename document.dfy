/**
 * `parse_gif`: the header, the logical screen descriptor, the global color table and then
 * the block-indicator loop (0x21 extension, 0x2C image, 0x3B trailer). The loop is the
 * function BlocksFrom over an accumulator, and the method ParseGif runs it with a cursor
 * that moves as the Rust reader does, including the seek back before an image and the
 * seek forward after it.
 */
module Document {
  import opened Bytes
  import opened Errors
  import opened Reader
  import opened Gif
  import opened Parser

  /** The loop's mutable locals: the blocks gathered so far and the plain-text flag. */
  datatype Blocks = Blocks(
    graphicsControl: Option<GraphicsControlExtension>,
    comments: seq<CommentExtension>,
    applications: seq<ApplicationExtension>,
    plainTexts: seq<PlainTextExtension>,
    images: seq<ImageDescriptor>,
    plainTextFound: bool)

  const NoBlocks := Blocks(None, [], [], [], [], false)

  /** What `parse_gif` ends in: the document, or the process exit taken after a plain text extension. */
  datatype ParseOutcome =
    | Completed(gif: GifFile)
    // The text of every plain text extension, printed in order before the exit.
    | PlainTextExit(printed: seq<seq<u8>>)

  const ExtensionIntroducer: u8 := 0x21
  const ImageSeparator: u8 := 0x2C
  const Trailer: u8 := 0x3B
  const GraphicsControlLabel: u8 := 0xF9
  const CommentLabel: u8 := 0xFE
  const ApplicationLabel: u8 := 0xFF
  const PlainTextLabel: u8 := 0x01

  /** An extension after its introducer: dispatch on the label byte at pos. */
  function ExtensionAt(input: seq<u8>, pos: nat, acc: Blocks): (r: Result<Parsed<Blocks>>)
    ensures r.Ok? ==> r.value.next > pos + 1
  {
    var kind :- ReadByte(input, pos);
    if kind.value == GraphicsControlLabel then
      var g :- ReadGraphicsControlExtension(input, kind.next);
      Ok(Parsed(acc.(graphicsControl := Some(g.value)), g.next))
    else if kind.value == CommentLabel then
      var c :- CommentExtensionAt(input, kind.next);
      Ok(Parsed(acc.(comments := acc.comments + [c.value]), c.next))
    else if kind.value == ApplicationLabel then
      var a :- ApplicationExtensionAt(input, kind.next);
      Ok(Parsed(acc.(applications := acc.applications + [a.value]), a.next))
    else if kind.value == PlainTextLabel then
      var p :- PlainTextExtensionAt(input, kind.next);
      Ok(Parsed(acc.(plainTexts := acc.plainTexts + [p.value], plainTextFound := true), p.next))
    else
      var skipped :- SubBlocks(input, kind.next);
      Ok(Parsed(acc, skipped.next))
  }

  /**
   * The block-indicator loop from pos. EOF at an indicator ends it like the trailer does.
   * An image is read from the indicator itself (the seek back by one) and the loop goes on
   * one byte after the image data (the seek forward by one), possibly past the end.
   */
  function BlocksFrom(input: seq<u8>, pos: nat, acc: Blocks): Result<Blocks>
    decreases |input| - pos
  {
    if pos >= |input| then Ok(acc)
    else if input[pos] == ExtensionIntroducer then
      var e :- ExtensionAt(input, pos + 1, acc);
      BlocksFrom(input, e.next, e.value)
    else if input[pos] == ImageSeparator then
      var image :- ImageDescriptorAt(input, pos);
      BlocksFrom(input, image.next + 1, acc.(images := acc.images + [image.value]))
    else if input[pos] == Trailer then Ok(acc)
    else Err(InvalidGifFormat)
  }

  /** The text of each plain text extension in order. */
  function PlainTextsPrinted(texts: seq<PlainTextExtension>): (r: seq<seq<u8>>)
    ensures |r| == |texts| && forall k :: 0 <= k < |texts| ==> r[k] == texts[k].plainTextData
  {
    seq(|texts|, (k: int) requires 0 <= k < |texts| => texts[k].plainTextData)
  }

  /** The result of `parse_gif` on the whole input. */
  function GifOf(input: seq<u8>): Result<ParseOutcome>
  {
    var header :- ReadGifHeader(input, 0);
    var screen :- ReadLogicalScreenDescriptor(input, header.next);
    var table :- OptionalColorTableAt(input, screen.next, GlobalColorTableSize(screen.value.packedField));
    var blocks :- BlocksFrom(input, table.next, NoBlocks);
    if blocks.plainTextFound then Ok(PlainTextExit(PlainTextsPrinted(blocks.plainTexts)))
    else
      Ok(Completed(GifFile(header.value, screen.value, table.value, blocks.graphicsControl, blocks.comments,
                           blocks.applications, blocks.plainTexts, blocks.images)))
  }

  /** One extension, read by the source's reader methods. */
  method ReadExtension(input: seq<u8>, pos: nat, acc: Blocks) returns (r: Result<Parsed<Blocks>>)
    ensures r == ExtensionAt(input, pos, acc)
  {
    var kind := ReadByte(input, pos);
    if kind.Err? {
      return Err(kind.error);
    }
    var cursor := kind.value.next;
    match kind.value.value
    case 0xF9 =>
      var g := ReadGraphicsControlExtension(input, cursor);
      if g.Err? {
        return Err(g.error);
      }
      r := Ok(Parsed(acc.(graphicsControl := Some(g.value.value)), g.value.next));
    case 0xFE =>
      var c := ReadCommentExtension(input, cursor);
      if c.Err? {
        return Err(c.error);
      }
      r := Ok(Parsed(acc.(comments := acc.comments + [c.value.value]), c.value.next));
    case 0xFF =>
      var a := ReadApplicationExtension(input, cursor);
      if a.Err? {
        return Err(a.error);
      }
      r := Ok(Parsed(acc.(applications := acc.applications + [a.value.value]), a.value.next));
    case 0x01 =>
      var p := ReadPlainTextExtension(input, cursor);
      if p.Err? {
        return Err(p.error);
      }
      r := Ok(Parsed(acc.(plainTexts := acc.plainTexts + [p.value.value], plainTextFound := true), p.value.next));
    case _ =>
      var skipped := ReadSubBlocks(input, cursor);
      if skipped.Err? {
        return Err(skipped.error);
      }
      r := Ok(Parsed(acc, skipped.value.next));
  }

  /**
   * The loop's dispatch on the indicator byte: EOF and the trailer end it with the blocks
   * gathered so far, any byte other than 0x21, 0x2C and 0x3B is an InvalidGifFormat error.
   */
  lemma IndicatorDispatch(input: seq<u8>, pos: nat, acc: Blocks)
    ensures pos >= |input| ==> BlocksFrom(input, pos, acc) == Ok(acc)
    ensures pos < |input| && input[pos] == Trailer ==> BlocksFrom(input, pos, acc) == Ok(acc)
    ensures pos < |input| && input[pos] !in {ExtensionIntroducer, ImageSeparator, Trailer} ==>
              BlocksFrom(input, pos, acc) == Err(InvalidGifFormat)
  {
  }

  /** One turn of the loop at an extension introducer. */
  lemma ExtensionStep(input: seq<u8>, pos: nat, acc: Blocks)
    requires pos < |input| && input[pos] == ExtensionIntroducer
    ensures ExtensionAt(input, pos + 1, acc).Err? ==>
              BlocksFrom(input, pos, acc) == Err(ExtensionAt(input, pos + 1, acc).error)
    ensures ExtensionAt(input, pos + 1, acc).Ok? ==>
              BlocksFrom(input, pos, acc) ==
              BlocksFrom(input, ExtensionAt(input, pos + 1, acc).value.next, ExtensionAt(input, pos + 1, acc).value.value)
  {
  }

  /** An image block at its separator: the descriptor and its data, with the cursor one byte past them. */
  function ImageBlockAt(input: seq<u8>, pos: nat, acc: Blocks): (r: Result<Parsed<Blocks>>)
    ensures r.Ok? ==> r.value.next > pos
  {
    var image :- ImageDescriptorAt(input, pos);
    Ok(Parsed(acc.(images := acc.images + [image.value]), image.next + 1))
  }

  /** One turn of the loop at an image separator. */
  lemma ImageStep(input: seq<u8>, pos: nat, acc: Blocks)
    requires pos < |input| && input[pos] == ImageSeparator
    ensures ImageBlockAt(input, pos, acc).Err? ==>
              BlocksFrom(input, pos, acc) == Err(ImageBlockAt(input, pos, acc).error)
    ensures ImageBlockAt(input, pos, acc).Ok? ==>
              BlocksFrom(input, pos, acc) ==
              BlocksFrom(input, ImageBlockAt(input, pos, acc).value.next, ImageBlockAt(input, pos, acc).value.value)
  {
  }

  /** An image block, read by the source's image reader; the seek forward by one after the data. */
  method ReadImageBlock(input: seq<u8>, pos: nat, acc: Blocks) returns (r: Result<Parsed<Blocks>>)
    ensures r == ImageBlockAt(input, pos, acc)
  {
    var image := ReadImageDescriptor(input, pos);
    if image.Err? {
      return Err(image.error);
    }
    r := Ok(Parsed(acc.(images := acc.images + [image.value.value]), image.value.next + 1));
  }

  /** The block-indicator loop of `parse_gif`, with the reader position as a cursor into the input. */
  method ReadBlocks(input: seq<u8>, start: nat) returns (r: Result<Blocks>)
    ensures r == BlocksFrom(input, start, NoBlocks)
  {
    var cursor := start;
    var acc := NoBlocks;
    while true
      invariant BlocksFrom(input, cursor, acc) == BlocksFrom(input, start, NoBlocks)
      decreases |input| - cursor
    {
      ghost var here := cursor;
      var indicator := ReadByte(input, cursor);
      IndicatorDispatch(input, here, acc);
      if indicator.Err? {
        break;
      }
      cursor := indicator.value.next;
      if indicator.value.value == ExtensionIntroducer {
        var e := ReadExtension(input, cursor, acc);
        ExtensionStep(input, here, acc);
        if e.Err? {
          return Err(e.error);
        }
        acc := e.value.value;
        cursor := e.value.next;
      } else if indicator.value.value == ImageSeparator {
        cursor := cursor - 1;
        var b := ReadImageBlock(input, cursor, acc);
        ImageStep(input, here, acc);
        if b.Err? {
          return Err(b.error);
        }
        acc := b.value.value;
        cursor := b.value.next;
      } else if indicator.value.value == Trailer {
        break;
      } else {
        return Err(InvalidGifFormat);
      }
    }
    r := Ok(acc);
  }

  /** `parse_gif`: the header, the screen descriptor and the global table, then the block loop. */
  method ParseGif(input: seq<u8>) returns (r: Result<ParseOutcome>)
    ensures r == GifOf(input)
  {
    var header := ReadGifHeader(input, 0);
    if header.Err? {
      return Err(header.error);
    }
    var screen := ReadLogicalScreenDescriptor(input, header.value.next);
    if screen.Err? {
      return Err(screen.error);
    }
    var table := ReadOptionalColorTable(input, screen.value.next,
                                        GlobalColorTableSize(screen.value.value.packedField));
    if table.Err? {
      return Err(table.error);
    }
    var blocks := ReadBlocks(input, table.value.next);
    if blocks.Err? {
      return Err(blocks.error);
    }
    var acc := blocks.value;
    if acc.plainTextFound {
      return Ok(PlainTextExit(PlainTextsPrinted(acc.plainTexts)));
    }
    r := Ok(Completed(GifFile(header.value.value, screen.value.value, table.value.value, acc.graphicsControl,
                              acc.comments, acc.applications, acc.plainTexts, acc.images)));
  }
}
