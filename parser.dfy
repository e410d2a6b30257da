/**
 * The container parser: the fixed-layout readers, the sub-block based extension readers,
 * the image descriptor reader and the block-indicator loop of `parse_gif`. Each reader is
 * a function of the input and a cursor position; those that loop in the source also have
 * a method that runs the loop and is proved equal to the function.
 */
module Parser {
  import opened Bytes
  import opened Errors
  import opened Reader
  import opened Gif
  import opened Lzw

  // ---------------------------------------------------------------------------
  // Fixed-layout readers
  // ---------------------------------------------------------------------------

  /** Three signature bytes and three version bytes; any six bytes are accepted. */
  function ReadGifHeader(input: seq<u8>, pos: nat): (r: Result<Parsed<GifHeader>>)
    ensures r.Ok? <==> pos + 6 <= |input|
    ensures r.Ok? ==> r.value.value == GifHeader(input[pos..pos + 3], input[pos + 3..pos + 6])
    ensures r.Ok? ==> r.value.next == pos + 6
    ensures r.Err? ==> r.error == UnexpectedEof
  {
    var signature :- ReadExact(input, pos, 3);
    var version :- ReadExact(input, signature.next, 3);
    Ok(Parsed(GifHeader(signature.value, version.value), version.next))
  }

  /** Width and height as little-endian u16, then the packed, background and aspect bytes. */
  function ReadLogicalScreenDescriptor(input: seq<u8>, pos: nat): (r: Result<Parsed<LogicalScreenDescriptor>>)
    ensures r.Ok? <==> pos + 7 <= |input|
    ensures r.Ok? ==> r.value.next == pos + 7
    ensures r.Ok? ==> r.value.value == LogicalScreenDescriptor(
                        U16FromLe(input[pos], input[pos + 1]), U16FromLe(input[pos + 2], input[pos + 3]),
                        input[pos + 4], input[pos + 5], input[pos + 6])
    ensures r.Err? ==> r.error == UnexpectedEof
  {
    var width :- ReadU16Le(input, pos);
    var height :- ReadU16Le(input, width.next);
    var packed :- ReadByte(input, height.next);
    var background :- ReadByte(input, packed.next);
    var aspect :- ReadByte(input, background.next);
    Ok(Parsed(LogicalScreenDescriptor(width.value, height.value, packed.value, background.value, aspect.value),
              aspect.next))
  }

  /**
   * A graphics control extension after its label: a block size that must be 4, the packed
   * byte, the delay, the transparent index and a terminator byte that is read but not checked.
   */
  function ReadGraphicsControlExtension(input: seq<u8>, pos: nat): (r: Result<Parsed<GraphicsControlExtension>>)
    ensures r.Ok? <==> pos + 6 <= |input| && input[pos] == 4
    ensures pos < |input| && input[pos] != 4 ==> r == Err(InvalidGraphicsControlBlockSize)
    ensures (pos >= |input| || (input[pos] == 4 && pos + 6 > |input|)) ==> r == Err(UnexpectedEof)
    ensures r.Ok? ==> r.value.next == pos + 6
    ensures r.Ok? ==> r.value.value ==
                        GraphicsControlExtension(input[pos + 1], U16FromLe(input[pos + 2], input[pos + 3]), input[pos + 4])
  {
    var size :- ReadByte(input, pos);
    if size.value != 4 then Err(InvalidGraphicsControlBlockSize)
    else
      var packed :- ReadByte(input, size.next);
      var delay :- ReadU16Le(input, packed.next);
      var transparent :- ReadByte(input, delay.next);
      var terminator :- ReadByte(input, transparent.next);
      Ok(Parsed(GraphicsControlExtension(packed.value, delay.value, transparent.value), terminator.next))
  }

  // ---------------------------------------------------------------------------
  // Color tables
  // ---------------------------------------------------------------------------

  /** The color at index k of a table starting at pos: three bytes, red first. */
  function ColorAt(input: seq<u8>, pos: nat, k: nat): Color
    requires pos + 3 * k + 3 <= |input|
  {
    Color(input[pos + 3 * k], input[pos + 3 * k + 1], input[pos + 3 * k + 2])
  }

  /** A table of `size` colors: all 3 * size bytes must be present (an empty table reads nothing). */
  function ColorTableAt(input: seq<u8>, pos: nat, size: nat): (r: Result<Parsed<ColorTable>>)
    ensures r.Ok? <==> size == 0 || pos + 3 * size <= |input|
    ensures r.Ok? ==> |r.value.value.colors| == size && r.value.next == pos + 3 * size
    ensures r.Ok? ==> forall k :: 0 <= k < size ==> r.value.value.colors[k] == ColorAt(input, pos, k)
    ensures r.Err? ==> r.error == UnexpectedEof
  {
    if size == 0 || pos + 3 * size <= |input| then
      Ok(Parsed(ColorTable(seq(size, (k: int) requires 0 <= k < size => ColorAt(input, pos, k))), pos + 3 * size))
    else Err(UnexpectedEof)
  }

  /** `read_color_table`: `size` rounds of a three-byte `read_exact`, each pushed onto the table. */
  method ReadColorTable(input: seq<u8>, pos: nat, size: nat) returns (r: Result<Parsed<ColorTable>>)
    ensures r == ColorTableAt(input, pos, size)
  {
    var colors: seq<Color> := [];
    var cursor := pos;
    for i := 0 to size
      invariant cursor == pos + 3 * i
      invariant i > 0 ==> cursor <= |input|
      invariant |colors| == i
      invariant forall k :: 0 <= k < i ==> colors[k] == ColorAt(input, pos, k)
    {
      var buffer := ReadExact(input, cursor, 3);
      if buffer.Err? {
        assert pos + 3 * size >= cursor + 3 > |input|;
        return Err(buffer.error);
      }
      colors := colors + [Color(buffer.value.value[0], buffer.value.value[1], buffer.value.value[2])];
      cursor := buffer.value.next;
    }
    assert colors == ColorTableAt(input, pos, size).value.value.colors;
    r := Ok(Parsed(ColorTable(colors), cursor));
  }

  /** A table of the given size when the size is non-zero, and nothing (no bytes read) otherwise. */
  function OptionalColorTableAt(input: seq<u8>, pos: nat, size: nat): (r: Result<Parsed<Option<ColorTable>>>)
    ensures size == 0 ==> r == Ok(Parsed(None, pos))
    ensures size > 0 ==> (r.Ok? <==> pos + 3 * size <= |input|)
    ensures size > 0 && r.Ok? ==>
              r.value.value == Some(ColorTableAt(input, pos, size).value.value) && r.value.next == pos + 3 * size
  {
    if size > 0 then
      var table :- ColorTableAt(input, pos, size);
      Ok(Parsed(Some(table.value), table.next))
    else Ok(Parsed(None, pos))
  }

  method ReadOptionalColorTable(input: seq<u8>, pos: nat, size: nat) returns (r: Result<Parsed<Option<ColorTable>>>)
    ensures r == OptionalColorTableAt(input, pos, size)
  {
    if size > 0 {
      var table := ReadColorTable(input, pos, size);
      if table.Err? {
        return Err(table.error);
      }
      r := Ok(Parsed(Some(table.value.value), table.value.next));
    } else {
      r := Ok(Parsed(None, pos));
    }
  }

  // ---------------------------------------------------------------------------
  // Sub-block based extensions
  // ---------------------------------------------------------------------------

  /** The payloads of a sub-block run concatenated, as `data.extend(block_data)` builds them. */
  function SubBlockData(input: seq<u8>, pos: nat): (r: Result<Parsed<seq<u8>>>)
    ensures r.Ok? <==> SubBlocks(input, pos).Ok?
    ensures r.Ok? ==> r.value.value == Concat(SubBlocks(input, pos).value.value)
    ensures r.Ok? ==> r.value.next == SubBlocks(input, pos).value.next
    ensures r.Err? ==> r.error == SubBlocks(input, pos).error
  {
    var blocks :- SubBlocks(input, pos);
    Ok(Parsed(Concat(blocks.value), blocks.next))
  }

  /** Puts `done` in front of the bytes of a sub-block data result. */
  function PrependData(done: seq<u8>, r: Result<Parsed<seq<u8>>>): Result<Parsed<seq<u8>>>
  {
    match r
    case Ok(p) => Ok(Parsed(done + p.value, p.next))
    case Err(e) => Err(e)
  }

  lemma PrependDataNothing(r: Result<Parsed<seq<u8>>>)
    ensures PrependData([], r) == r
  {
    match r
    case Ok(p) => assert [] + p.value == p.value;
    case Err(_) =>
  }

  /** The extending sub-block loop of the application and plain-text readers. */
  method ReadSubBlockData(input: seq<u8>, pos: nat) returns (r: Result<Parsed<seq<u8>>>)
    ensures r == SubBlockData(input, pos)
  {
    var data: seq<u8> := [];
    var cursor := pos;
    PrependDataNothing(SubBlockData(input, pos));
    while true
      invariant cursor >= pos
      invariant PrependData(data, SubBlockData(input, cursor)) == SubBlockData(input, pos)
      decreases |input| - cursor
    {
      var size := ReadByte(input, cursor);
      if size.Err? {
        return Err(size.error);
      }
      if size.value.value == 0 {
        cursor := size.value.next;
        break;
      }
      var block := ReadExact(input, size.value.next, size.value.value as nat);
      if block.Err? {
        return Err(block.error);
      }
      SubBlockDataStep(input, cursor, data);
      data := data + block.value.value;
      cursor := block.value.next;
    }
    assert data + [] == data;
    r := Ok(Parsed(data, cursor));
  }

  /** One non-empty sub-block moves its payload from the remaining result to the accumulated bytes. */
  lemma SubBlockDataStep(input: seq<u8>, pos: nat, done: seq<u8>)
    requires pos < |input| && input[pos] != 0 && pos + 1 + input[pos] as nat <= |input|
    ensures PrependData(done, SubBlockData(input, pos)) ==
            PrependData(done + input[pos + 1..pos + 1 + input[pos] as nat],
                        SubBlockData(input, pos + 1 + input[pos] as nat))
  {
    var n := input[pos] as nat;
    var rest := SubBlocks(input, pos + 1 + n);
    if rest.Ok? {
      var payload := input[pos + 1..pos + 1 + n];
      assert SubBlocks(input, pos).value.value == [payload] + rest.value.value;
      assert ([payload] + rest.value.value)[1..] == rest.value.value;
      assert Concat([payload] + rest.value.value) == payload + Concat(rest.value.value);
      assert done + (payload + Concat(rest.value.value)) == (done + payload) + Concat(rest.value.value);
    }
  }

  /** A comment extension after its label: the payload of each sub-block. */
  function CommentExtensionAt(input: seq<u8>, pos: nat): (r: Result<Parsed<CommentExtension>>)
    ensures r.Ok? <==> SubBlocks(input, pos).Ok?
    ensures r.Ok? ==> r.value.value.comments == SubBlocks(input, pos).value.value
    ensures r.Ok? ==> r.value.next == SubBlocks(input, pos).value.next
  {
    var blocks :- SubBlocks(input, pos);
    Ok(Parsed(CommentExtension(blocks.value), blocks.next))
  }

  /** `read_comment_extension`: the sub-block loop pushing each payload. */
  method ReadCommentExtension(input: seq<u8>, pos: nat) returns (r: Result<Parsed<CommentExtension>>)
    ensures r == CommentExtensionAt(input, pos)
  {
    var blocks := ReadSubBlocks(input, pos);
    if blocks.Err? {
      return Err(blocks.error);
    }
    r := Ok(Parsed(CommentExtension(blocks.value.value), blocks.value.next));
  }

  /**
   * An application extension after its label: a block size that must be 11, an 8-byte
   * identifier, a 3-byte authentication code and the concatenated sub-block data.
   */
  function ApplicationExtensionAt(input: seq<u8>, pos: nat): (r: Result<Parsed<ApplicationExtension>>)
    ensures pos < |input| && input[pos] != 11 ==> r == Err(InvalidApplicationBlockSize)
    ensures (pos >= |input| || (input[pos] == 11 && pos + 12 > |input|)) ==> r == Err(UnexpectedEof)
    ensures r.Ok? <==> pos + 12 <= |input| && input[pos] == 11 && SubBlocks(input, pos + 12).Ok?
    ensures r.Ok? ==> r.value.value == ApplicationExtension(input[pos + 1..pos + 9], input[pos + 9..pos + 12],
                                                            Concat(SubBlocks(input, pos + 12).value.value))
    ensures r.Ok? ==> r.value.next == SubBlocks(input, pos + 12).value.next
  {
    var size :- ReadByte(input, pos);
    if size.value != 11 then Err(InvalidApplicationBlockSize)
    else
      var identifier :- ReadExact(input, size.next, 8);
      var authentication :- ReadExact(input, identifier.next, 3);
      var data :- SubBlockData(input, authentication.next);
      Ok(Parsed(ApplicationExtension(identifier.value, authentication.value, data.value), data.next))
  }

  /** `read_application_extension`. */
  method ReadApplicationExtension(input: seq<u8>, pos: nat) returns (r: Result<Parsed<ApplicationExtension>>)
    ensures r == ApplicationExtensionAt(input, pos)
  {
    var size := ReadByte(input, pos);
    if size.Err? {
      return Err(size.error);
    }
    if size.value.value != 11 {
      return Err(InvalidApplicationBlockSize);
    }
    var identifier := ReadExact(input, size.value.next, 8);
    if identifier.Err? {
      return Err(identifier.error);
    }
    var authentication := ReadExact(input, identifier.value.next, 3);
    if authentication.Err? {
      return Err(authentication.error);
    }
    var data := ReadSubBlockData(input, authentication.value.next);
    if data.Err? {
      return Err(data.error);
    }
    r := Ok(Parsed(ApplicationExtension(identifier.value.value, authentication.value.value, data.value.value),
                   data.value.next));
  }

  /**
   * A plain text extension after its label: a block size byte that is kept but not checked,
   * four little-endian u16 grid fields, four single-byte fields (13 bytes in all) and the
   * concatenated sub-block data.
   */
  function PlainTextExtensionAt(input: seq<u8>, pos: nat): (r: Result<Parsed<PlainTextExtension>>)
    ensures pos + 13 > |input| ==> r == Err(UnexpectedEof)
    ensures r.Ok? <==> pos + 13 <= |input| && SubBlocks(input, pos + 13).Ok?
    ensures r.Ok? ==> r.value.value == PlainTextExtension(
                        input[pos],
                        U16FromLe(input[pos + 1], input[pos + 2]), U16FromLe(input[pos + 3], input[pos + 4]),
                        U16FromLe(input[pos + 5], input[pos + 6]), U16FromLe(input[pos + 7], input[pos + 8]),
                        input[pos + 9], input[pos + 10], input[pos + 11], input[pos + 12],
                        Concat(SubBlocks(input, pos + 13).value.value))
    ensures r.Ok? ==> r.value.next == SubBlocks(input, pos + 13).value.next
  {
    var size :- ReadByte(input, pos);
    var left :- ReadU16Le(input, size.next);
    var top :- ReadU16Le(input, left.next);
    var width :- ReadU16Le(input, top.next);
    var height :- ReadU16Le(input, width.next);
    var cellWidth :- ReadByte(input, height.next);
    var cellHeight :- ReadByte(input, cellWidth.next);
    var foreground :- ReadByte(input, cellHeight.next);
    var background :- ReadByte(input, foreground.next);
    var data :- SubBlockData(input, background.next);
    Ok(Parsed(PlainTextExtension(size.value, left.value, top.value, width.value, height.value,
                                 cellWidth.value, cellHeight.value, foreground.value, background.value,
                                 data.value),
              data.next))
  }

  /** `read_plain_text_extension`. */
  method ReadPlainTextExtension(input: seq<u8>, pos: nat) returns (r: Result<Parsed<PlainTextExtension>>)
    ensures r == PlainTextExtensionAt(input, pos)
  {
    if pos + 13 > |input| {
      return Err(UnexpectedEof);
    }
    var data := ReadSubBlockData(input, pos + 13);
    if data.Err? {
      return Err(data.error);
    }
    r := Ok(Parsed(PlainTextExtension(input[pos],
                                      U16FromLe(input[pos + 1], input[pos + 2]), U16FromLe(input[pos + 3], input[pos + 4]),
                                      U16FromLe(input[pos + 5], input[pos + 6]), U16FromLe(input[pos + 7], input[pos + 8]),
                                      input[pos + 9], input[pos + 10], input[pos + 11], input[pos + 12],
                                      data.value.value),
                   data.value.next));
  }

  // ---------------------------------------------------------------------------
  // Image descriptor
  // ---------------------------------------------------------------------------

  /**
   * An image descriptor from its separator: the separator must be 0x2C; then the geometry,
   * the packed byte, a local color table when bit 7 of the packed byte is set, the LZW
   * minimum code size and the decoded image data.
   */
  function ImageDescriptorAt(input: seq<u8>, pos: nat): (r: Result<Parsed<ImageDescriptor>>)
    ensures pos >= |input| ==> r == Err(UnexpectedEof)
    ensures pos < |input| && input[pos] != 0x2C ==> r == Err(InvalidImageSeparator)
    ensures r.Ok? ==> input[pos] == 0x2C && pos + 11 <= |input|
    ensures r.Ok? ==> r.value.next > pos + 10
    ensures r.Ok? ==> var image := r.value.value;
                      image.left == U16FromLe(input[pos + 1], input[pos + 2]) &&
                      image.top == U16FromLe(input[pos + 3], input[pos + 4]) &&
                      image.width == U16FromLe(input[pos + 5], input[pos + 6]) &&
                      image.height == U16FromLe(input[pos + 7], input[pos + 8]) &&
                      image.packedField == input[pos + 9] &&
                      (image.localColorTable.Some? <==> ColorTableFlag(input[pos + 9]))
  {
    var separator :- ReadByte(input, pos);
    if separator.value != 0x2C then Err(InvalidImageSeparator)
    else
      var left :- ReadU16Le(input, separator.next);
      var top :- ReadU16Le(input, left.next);
      var width :- ReadU16Le(input, top.next);
      var height :- ReadU16Le(input, width.next);
      var packed :- ReadByte(input, height.next);
      var table :- OptionalColorTableAt(input, packed.next, LocalColorTableSize(packed.value));
      var minimumCodeSize :- ReadByte(input, table.next);
      var data :- DecodeLzw(input, minimumCodeSize.next, minimumCodeSize.value);
      Ok(Parsed(ImageDescriptor(left.value, top.value, width.value, height.value, packed.value,
                                table.value, minimumCodeSize.value, data.value),
                data.next))
  }

  /** `read_image_descriptor`: the fixed fields, then `read_color_table` and `read_lzw_data`. */
  method ReadImageDescriptor(input: seq<u8>, pos: nat) returns (r: Result<Parsed<ImageDescriptor>>)
    ensures r == ImageDescriptorAt(input, pos)
  {
    var separator := ReadByte(input, pos);
    if separator.Err? {
      return Err(separator.error);
    }
    if separator.value.value != 0x2C {
      return Err(InvalidImageSeparator);
    }
    if pos + 10 > |input| {
      return Err(UnexpectedEof);
    }
    var left := U16FromLe(input[pos + 1], input[pos + 2]);
    var top := U16FromLe(input[pos + 3], input[pos + 4]);
    var width := U16FromLe(input[pos + 5], input[pos + 6]);
    var height := U16FromLe(input[pos + 7], input[pos + 8]);
    var packed := input[pos + 9];
    var table := ReadOptionalColorTable(input, pos + 10, LocalColorTableSize(packed));
    if table.Err? {
      return Err(table.error);
    }
    var minimumCodeSize := ReadByte(input, table.value.next);
    if minimumCodeSize.Err? {
      return Err(minimumCodeSize.error);
    }
    var data := ReadLzwData(input, minimumCodeSize.value.next, minimumCodeSize.value.value);
    if data.Err? {
      return Err(data.error);
    }
    r := Ok(Parsed(ImageDescriptor(left, top, width, height, packed, table.value.value,
                                   minimumCodeSize.value.value, data.value.value),
                   data.value.next));
  }
}
