/**
 * `reassemble_gif`: the document written back as bytes, in the fixed order header, logical
 * screen descriptor, global color table, graphics control extension, comments, application
 * extensions, plain text extensions, images and trailer. The writer is a byte sequence that
 * is only ever appended to. Serialize is the specification; ReassembleGif and its helper
 * methods run the source's loops and are proved to write exactly Serialize.
 */
module Serializer {
  import opened Bytes
  import opened Errors
  import opened Gif

  /** The LZW compressor (`lzw_compress`), which this model takes as a parameter. */
  type Compressor = (seq<u8>, u8) -> seq<u8>

  /** The largest payload of one data sub-block. */
  const MaxChunk: nat := 255

  function HeaderBytes(h: GifHeader): seq<u8>
  {
    h.signature + h.version
  }

  function ScreenBytes(d: LogicalScreenDescriptor): seq<u8>
  {
    U16ToLe(d.width) + U16ToLe(d.height) + [d.packedField, d.backgroundColorIndex, d.pixelAspectRatio]
  }

  function ColorBytes(c: Color): seq<u8>
  {
    [c.red, c.green, c.blue]
  }

  function TableBytes(t: Option<ColorTable>): seq<u8>
  {
    match t
    case None => []
    case Some(table) => FlatMap(table.colors, ColorBytes)
  }

  /** Introducer, label, block size 4, the three fields and a zero terminator. */
  function GraphicsControlBytes(g: Option<GraphicsControlExtension>): seq<u8>
  {
    match g
    case None => []
    case Some(e) => [0x21, 0xF9, 0x04, e.packedField] + U16ToLe(e.delayTime) + [e.transparentColorIndex, 0]
  }

  /**
   * `data.chunks(255)`, each chunk written as its length byte and its bytes: chunks of 255
   * bytes and a last, shorter one; nothing for empty data.
   */
  function Chunks(data: seq<u8>): seq<u8>
    decreases |data|
  {
    if |data| == 0 then []
    else
      var n := if |data| < MaxChunk then |data| else MaxChunk;
      [n as u8] + data[..n] + Chunks(data[n..])
  }

  /**
   * A comment extension: all its fragments joined into one sub-block whose length byte is
   * the joined length truncated to eight bits, then a zero terminator.
   */
  function CommentBytes(c: CommentExtension): seq<u8>
  {
    var joined := Concat(c.comments);
    [0x21, 0xFE, (|joined| % 256) as u8] + joined + [0]
  }

  function ApplicationBytes(a: ApplicationExtension): seq<u8>
  {
    [0x21, 0xFF, 0x0B] + a.identifier + a.authenticationCode + Chunks(a.data) + [0]
  }

  /** The plain text header, taken from the first plain text extension only. */
  function PlainTextHeaderBytes(p: PlainTextExtension): seq<u8>
  {
    [0x21, 0x01, p.blockSize]
      + U16ToLe(p.textGridLeftPosition) + U16ToLe(p.textGridTopPosition)
      + U16ToLe(p.textGridWidth) + U16ToLe(p.textGridHeight)
      + [p.characterCellWidth, p.characterCellHeight, p.textForegroundColorIndex, p.textBackgroundColorIndex]
  }

  /** One plain text extension's text as one sub-block, its length truncated to eight bits. */
  function PlainTextSubBlock(p: PlainTextExtension): seq<u8>
  {
    [(|p.plainTextData| % 256) as u8] + p.plainTextData
  }

  /** All plain text extensions under one header, one sub-block each and one terminator after the last. */
  function PlainTextBytes(texts: seq<PlainTextExtension>): seq<u8>
  {
    if texts == [] then [] else PlainTextHeaderBytes(texts[0]) + FlatMap(texts, PlainTextSubBlock) + [0]
  }

  /** The separator, the geometry and the packed byte of an image. */
  function ImageFieldBytes(image: ImageDescriptor): seq<u8>
  {
    [0x2C] + U16ToLe(image.left) + U16ToLe(image.top) + U16ToLe(image.width) + U16ToLe(image.height)
      + [image.packedField]
  }

  /** An image: its fixed fields, local table, code size, compressed data in sub-blocks and terminator. */
  function ImageBytes(image: ImageDescriptor, compress: Compressor): seq<u8>
  {
    ImageFieldBytes(image) + TableBytes(image.localColorTable) + [image.lzwMinimumCodeSize]
      + Chunks(compress(image.imageData, image.lzwMinimumCodeSize)) + [0]
  }

  /** The bytes `reassemble_gif` writes for a document. */
  function Serialize(gif: GifFile, compress: Compressor): seq<u8>
  {
    HeaderBytes(gif.header)
      + ScreenBytes(gif.logicalScreenDescriptor)
      + TableBytes(gif.globalColorTable)
      + GraphicsControlBytes(gif.graphicsControlExtension)
      + FlatMap(gif.commentExtensions, CommentBytes)
      + FlatMap(gif.applicationExtensions, ApplicationBytes)
      + PlainTextBytes(gif.plainTextExtensions)
      + FlatMap(gif.imageDescriptors, (image: ImageDescriptor) => ImageBytes(image, compress))
      + [0x3B]
  }

  /** FlatMap from position i on is the bytes of element i followed by FlatMap from i + 1 on. */
  lemma FlatMapUnroll<T>(xs: seq<T>, i: nat, f: T -> seq<u8>)
    requires i < |xs|
    ensures FlatMap(xs[i..], f) == f(xs[i]) + FlatMap(xs[i + 1..], f)
  {
    assert xs[i..][1..] == xs[i + 1..];
  }

  lemma AppendAssoc(a: seq<u8>, b: seq<u8>, c: seq<u8>)
    ensures (a + b) + c == a + (b + c)
  {
  }

  lemma FlatMapEnd<T>(xs: seq<T>, f: T -> seq<u8>)
    ensures FlatMap(xs[|xs|..], f) == []
  {
    assert xs[|xs|..] == [];
  }

  // ---------------------------------------------------------------------------
  // The writer loops
  // ---------------------------------------------------------------------------

  /** `for color in &table.colors { writer.write_all(color) }`. */
  method WriteColors(out: seq<u8>, colors: seq<Color>) returns (written: seq<u8>)
    ensures written == out + FlatMap(colors, ColorBytes)
  {
    written := out;
    for i := 0 to |colors|
      invariant written + FlatMap(colors[i..], ColorBytes) == out + FlatMap(colors, ColorBytes)
    {
      FlatMapUnroll(colors, i, ColorBytes);
      written := written + [colors[i].red, colors[i].green, colors[i].blue];
    }
    FlatMapEnd(colors, ColorBytes);
  }

  /** `for chunk in data.chunks(255) { write the length byte; write the chunk }`. */
  method WriteChunks(out: seq<u8>, data: seq<u8>) returns (written: seq<u8>)
    ensures written == out + Chunks(data)
  {
    written := out;
    var i := 0;
    while i < |data|
      invariant i <= |data|
      invariant written + Chunks(data[i..]) == out + Chunks(data)
      decreases |data| - i
    {
      var end := if |data| - i < MaxChunk then |data| else i + MaxChunk;
      assert data[i..][..end - i] == data[i..end];
      assert data[i..][end - i..] == data[end..];
      written := written + [(end - i) as u8] + data[i..end];
      i := end;
    }
    assert data[i..] == [];
  }

  /** The comment loop: introducer, the joined fragments as one sub-block, terminator. */
  method WriteComments(out: seq<u8>, comments: seq<CommentExtension>) returns (written: seq<u8>)
    ensures written == out + FlatMap(comments, CommentBytes)
  {
    written := out;
    for i := 0 to |comments|
      invariant written + FlatMap(comments[i..], CommentBytes) == out + FlatMap(comments, CommentBytes)
    {
      FlatMapUnroll(comments, i, CommentBytes);
      var joined := Concat(comments[i].comments);
      written := written + [0x21, 0xFE] + [(|joined| % 256) as u8] + joined + [0];
    }
    FlatMapEnd(comments, CommentBytes);
  }

  /** The application extension loop, with the data cut into sub-blocks of at most 255 bytes. */
  method WriteApplications(out: seq<u8>, applications: seq<ApplicationExtension>) returns (written: seq<u8>)
    ensures written == out + FlatMap(applications, ApplicationBytes)
  {
    written := out;
    for i := 0 to |applications|
      invariant written + FlatMap(applications[i..], ApplicationBytes) == out + FlatMap(applications, ApplicationBytes)
    {
      FlatMapUnroll(applications, i, ApplicationBytes);
      var a := applications[i];
      ghost var before := written;
      written := written + [0x21, 0xFF, 0x0B] + a.identifier + a.authenticationCode;
      written := WriteChunks(written, a.data);
      written := written + [0];
      ApplicationRound(before, a, written);
    }
    FlatMapEnd(applications, ApplicationBytes);
  }

  lemma ApplicationRound(before: seq<u8>, a: ApplicationExtension, after: seq<u8>)
    requires after == before + [0x21, 0xFF, 0x0B] + a.identifier + a.authenticationCode + Chunks(a.data) + [0]
    ensures after == before + ApplicationBytes(a)
  {
  }

  /** What the plain text loop has still to write once `index` extensions are done. */
  ghost function PlainTextRemaining(texts: seq<PlainTextExtension>, index: nat): seq<u8>
    requires index <= |texts|
  {
    if index == 0 then PlainTextBytes(texts)
    else FlatMap(texts[index..], PlainTextSubBlock) + (if index < |texts| then [0] else [])
  }

  /** The bytes of round i of the plain text loop: the header in the first round only, a sub-block, and the terminator in the last. */
  ghost function PlainTextRound(texts: seq<PlainTextExtension>, i: nat): seq<u8>
    requires i < |texts|
  {
    (if i == 0 then PlainTextHeaderBytes(texts[0]) else []) + PlainTextSubBlock(texts[i])
      + (if i + 1 == |texts| then [0] else [])
  }

  lemma PlainTextStep(texts: seq<PlainTextExtension>, i: nat)
    requires i < |texts|
    ensures PlainTextRemaining(texts, i) == PlainTextRound(texts, i) + PlainTextRemaining(texts, i + 1)
  {
    var head := if i == 0 then PlainTextHeaderBytes(texts[0]) else [];
    var sub := PlainTextSubBlock(texts[i]);
    var rest := FlatMap(texts[i + 1..], PlainTextSubBlock);
    var last := i + 1 == |texts|;
    RemainingAt(texts, i, head, sub, rest);
    RemainingAfter(texts, i, rest);
    RoundShape(head, sub, rest, last);
  }

  /** What remains before round i: the header in round 0, then every sub-block from i on and the terminator. */
  lemma RemainingAt(texts: seq<PlainTextExtension>, i: nat, head: seq<u8>, sub: seq<u8>, rest: seq<u8>)
    requires i < |texts|
    requires head == if i == 0 then PlainTextHeaderBytes(texts[0]) else []
    requires sub == PlainTextSubBlock(texts[i]) && rest == FlatMap(texts[i + 1..], PlainTextSubBlock)
    ensures PlainTextRemaining(texts, i) == head + (sub + rest) + [0]
  {
    if i == 0 {
      assert FlatMap(texts, PlainTextSubBlock) == sub + rest;
    } else {
      FlatMapUnroll(texts, i, PlainTextSubBlock);
      assert head + (sub + rest) == sub + rest;
    }
  }

  /** What remains after round i: the later sub-blocks, and the terminator unless round i was the last. */
  lemma RemainingAfter(texts: seq<PlainTextExtension>, i: nat, rest: seq<u8>)
    requires i < |texts| && rest == FlatMap(texts[i + 1..], PlainTextSubBlock)
    ensures i + 1 == |texts| ==> rest == [] && PlainTextRemaining(texts, i + 1) == []
    ensures i + 1 < |texts| ==> PlainTextRemaining(texts, i + 1) == rest + [0]
  {
    if i + 1 == |texts| {
      FlatMapEnd(texts, PlainTextSubBlock);
    }
  }

  lemma RoundShape(head: seq<u8>, sub: seq<u8>, rest: seq<u8>, last: bool)
    requires last ==> rest == []
    ensures head + (sub + rest) + [0] ==
            (head + sub + (if last then [0] else [])) + (if last then [] else rest + [0])
  {
    if last {
      assert sub + rest == sub;
    } else {
      assert head + sub + [] == head + sub;
      AppendAssoc(head, sub, rest);
      AppendAssoc(head + sub, rest, [0]);
    }
  }

  /** The body of the plain text loop for extension i. */
  method WritePlainTextRound(out: seq<u8>, texts: seq<PlainTextExtension>, i: nat, first: bool, last: bool)
    returns (written: seq<u8>)
    requires i < |texts| && (first <==> i == 0) && (last <==> i + 1 == |texts|)
    ensures written == out + PlainTextRound(texts, i)
  {
    var p := texts[i];
    var head: seq<u8> := [];
    if first {
      head := PlainTextHeaderBytes(p);
    }
    var sub := [(|p.plainTextData| % 256) as u8] + p.plainTextData;
    var tail: seq<u8> := if last then [0] else [];
    written := out + head;
    written := written + sub;
    written := written + tail;
    AppendAssoc(out, head, sub);
    AppendAssoc(out, head + sub, tail);
  }

  /**
   * The plain text loop with its `first` flag and `index` counter: the header before the
   * first extension only, a sub-block per extension, and the terminator once `index`
   * reaches the number of extensions.
   */
  method WritePlainTexts(out: seq<u8>, texts: seq<PlainTextExtension>) returns (written: seq<u8>)
    ensures written == out + PlainTextBytes(texts)
  {
    written := out;
    var first := true;
    var index := 0;
    for i := 0 to |texts|
      invariant index == i && (first <==> i == 0)
      invariant written + PlainTextRemaining(texts, i) == out + PlainTextBytes(texts)
    {
      index := index + 1;
      ghost var before := written;
      written := WritePlainTextRound(written, texts, i, first, |texts| == index);
      first := false;
      assert written + PlainTextRemaining(texts, i + 1) == out + PlainTextBytes(texts) by {
        PlainTextStep(texts, i);
        AppendAssoc(before, PlainTextRound(texts, i), PlainTextRemaining(texts, i + 1));
      }
    }
    assert PlainTextRemaining(texts, |texts|) == [] by {
      if |texts| > 0 {
        FlatMapEnd(texts, PlainTextSubBlock);
      }
    }
  }

  /** One image: its fixed fields, local table, code size and compressed data in sub-blocks. */
  method WriteImage(out: seq<u8>, image: ImageDescriptor, compress: Compressor) returns (written: seq<u8>)
    ensures written == out + ImageBytes(image, compress)
  {
    var fields := [0x2C] + U16ToLe(image.left) + U16ToLe(image.top)
                  + U16ToLe(image.width) + U16ToLe(image.height) + [image.packedField];
    written := out + fields;
    if image.localColorTable.Some? {
      written := WriteColors(written, image.localColorTable.value.colors);
    }
    ghost var fieldsAndTable := ImageFieldBytes(image) + TableBytes(image.localColorTable);
    assert written == out + fieldsAndTable;
    written := written + [image.lzwMinimumCodeSize];
    var compressed := compress(image.imageData, image.lzwMinimumCodeSize);
    written := WriteChunks(written, compressed);
    written := written + [0];
    AppendAssoc(out, fieldsAndTable, [image.lzwMinimumCodeSize]);
    AppendAssoc(out, fieldsAndTable + [image.lzwMinimumCodeSize], Chunks(compressed));
    AppendAssoc(out, fieldsAndTable + [image.lzwMinimumCodeSize] + Chunks(compressed), [0]);
  }

  /** The image loop. */
  method WriteImages(out: seq<u8>, images: seq<ImageDescriptor>, compress: Compressor) returns (written: seq<u8>)
    ensures written == out + FlatMap(images, (image: ImageDescriptor) => ImageBytes(image, compress))
  {
    var f := (image: ImageDescriptor) => ImageBytes(image, compress);
    written := out;
    for i := 0 to |images|
      invariant written + FlatMap(images[i..], f) == out + FlatMap(images, f)
    {
      FlatMapUnroll(images, i, f);
      AppendAssoc(written, f(images[i]), FlatMap(images[i + 1..], f));
      written := WriteImage(written, images[i], compress);
    }
    FlatMapEnd(images, f);
  }

  /** `reassemble_gif`, writing into a byte sequence instead of a file. */
  method ReassembleGif(gif: GifFile, compress: Compressor) returns (written: seq<u8>)
    ensures written == Serialize(gif, compress)
  {
    written := gif.header.signature + gif.header.version;
    var d := gif.logicalScreenDescriptor;
    var screen := U16ToLe(d.width) + U16ToLe(d.height) + [d.packedField, d.backgroundColorIndex, d.pixelAspectRatio];
    written := written + screen;
    if gif.globalColorTable.Some? {
      written := WriteColors(written, gif.globalColorTable.value.colors);
    }
    if gif.graphicsControlExtension.Some? {
      var g := gif.graphicsControlExtension.value;
      var block := [0x21, 0xF9, 0x04, g.packedField] + U16ToLe(g.delayTime) + [g.transparentColorIndex, 0];
      written := written + block;
    }
    ghost var fixedPart := written;
    assert fixedPart == HeaderBytes(gif.header) + ScreenBytes(d) + TableBytes(gif.globalColorTable)
                        + GraphicsControlBytes(gif.graphicsControlExtension);
    written := WriteComments(written, gif.commentExtensions);
    written := WriteApplications(written, gif.applicationExtensions);
    written := WritePlainTexts(written, gif.plainTextExtensions);
    written := WriteImages(written, gif.imageDescriptors, compress);
    written := written + [0x3B];
  }
}
