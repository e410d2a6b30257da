/**
 * Reading back what the serializer writes: each block Serialize emits, placed anywhere in
 * an input, is read by the parser's readers into the value it was written from (or, for
 * comments and plain text, into the value the serializer's re-chunking makes of it).
 */
module RoundTrip {
  import opened Bytes
  import opened Errors
  import opened Reader
  import opened Gif
  import opened Parser
  import opened Document
  import opened Serializer
  import opened Lzw

  // ---------------------------------------------------------------------------
  // Positions inside a concatenation
  // ---------------------------------------------------------------------------

  lemma ByteAt(pre: seq<u8>, x: seq<u8>, post: seq<u8>, k: nat)
    requires k < |x|
    ensures (pre + x + post)[|pre| + k] == x[k]
  {
  }

  lemma SliceAt(pre: seq<u8>, x: seq<u8>, post: seq<u8>, a: nat, b: nat)
    requires a <= b <= |x|
    ensures (pre + x + post)[|pre| + a..|pre| + b] == x[a..b]
  {
  }

  /** Moving the first n bytes of x from the middle part into the prefix. */
  lemma Shift(pre: seq<u8>, x: seq<u8>, post: seq<u8>, n: nat)
    requires n <= |x|
    ensures pre + x + post == (pre + x[..n]) + x[n..] + post
  {
    assert x == x[..n] + x[n..];
  }

  // ---------------------------------------------------------------------------
  // Sub-block runs
  // ---------------------------------------------------------------------------

  /**
   * A chunked run followed by a zero byte reads back, through the sub-block loop, as
   * payloads of 1 to 255 bytes that concatenate to the original data; the cursor ends
   * just after the zero byte.
   */
  lemma {:induction false} ChunksReadBack(pre: seq<u8>, data: seq<u8>, post: seq<u8>)
    ensures var input := pre + (Chunks(data) + [0]) + post;
            SubBlocks(input, |pre|).Ok? &&
            Concat(SubBlocks(input, |pre|).value.value) == data &&
            SubBlocks(input, |pre|).value.next == |pre| + |Chunks(data)| + 1
    decreases |data|
  {
    var input := pre + (Chunks(data) + [0]) + post;
    if |data| == 0 {
      ByteAt(pre, Chunks(data) + [0], post, 0);
    } else {
      var n := if |data| < MaxChunk then |data| else MaxChunk;
      var block := [n as u8] + data[..n];
      var x := Chunks(data) + [0];
      assert x == block + (Chunks(data[n..]) + [0]);
      ByteAt(pre, x, post, 0);
      SliceAt(pre, x, post, 1, 1 + n);
      assert x[1..1 + n] == data[..n];
      Shift(pre, x, post, 1 + n);
      assert x[..1 + n] == block;
      assert x[1 + n..] == Chunks(data[n..]) + [0];
      var pre' := pre + block;
      assert input == pre' + (Chunks(data[n..]) + [0]) + post;
      ChunksReadBack(pre', data[n..], post);
      var rest := SubBlocks(input, |pre'|).value.value;
      assert SubBlocks(input, |pre|).value.value == [data[..n]] + rest;
      assert ([data[..n]] + rest)[1..] == rest;
      assert data[..n] + data[n..] == data;
    }
  }

  /** The same run read by the extending loop of the application and plain-text readers. */
  lemma ChunksReadBackData(pre: seq<u8>, data: seq<u8>, post: seq<u8>)
    ensures SubBlockData(pre + (Chunks(data) + [0]) + post, |pre|) ==
            Ok(Parsed(data, |pre| + |Chunks(data)| + 1))
  {
    ChunksReadBack(pre, data, post);
  }

  // ---------------------------------------------------------------------------
  // Fixed-layout parts
  // ---------------------------------------------------------------------------

  lemma HeaderRoundTrip(h: GifHeader, post: seq<u8>)
    ensures ReadGifHeader(HeaderBytes(h) + post, 0) == Ok(Parsed(h, 6))
  {
    var input := HeaderBytes(h) + post;
    assert input[0..3] == h.signature;
    assert input[3..6] == h.version;
  }

  lemma ScreenRoundTrip(pre: seq<u8>, d: LogicalScreenDescriptor, post: seq<u8>)
    ensures ReadLogicalScreenDescriptor(pre + ScreenBytes(d) + post, |pre|) == Ok(Parsed(d, |pre| + 7))
  {
    var x := ScreenBytes(d);
    var input := pre + x + post;
    ByteAt(pre, x, post, 0);
    ByteAt(pre, x, post, 1);
    ByteAt(pre, x, post, 2);
    ByteAt(pre, x, post, 3);
    ByteAt(pre, x, post, 4);
    ByteAt(pre, x, post, 5);
    ByteAt(pre, x, post, 6);
    U16LeRoundTrip(d.width);
    U16LeRoundTrip(d.height);
  }

  /** A written color table is three bytes per color. */
  lemma {:induction false} ColorBytesLength(colors: seq<Color>)
    ensures |FlatMap(colors, ColorBytes)| == 3 * |colors|
  {
    if colors != [] {
      ColorBytesLength(colors[1..]);
    }
  }

  /** Color k of a written table sits at byte 3k. */
  lemma {:induction false} ColorBytesAt(colors: seq<Color>, k: nat)
    requires k < |colors|
    ensures |FlatMap(colors, ColorBytes)| == 3 * |colors|
    ensures FlatMap(colors, ColorBytes)[3 * k..3 * k + 3] == ColorBytes(colors[k])
  {
    ColorBytesLength(colors);
    var rest := FlatMap(colors[1..], ColorBytes);
    var all := FlatMap(colors, ColorBytes);
    assert all == ColorBytes(colors[0]) + rest;
    if k > 0 {
      ColorBytesAt(colors[1..], k - 1);
      assert all[3 * k..3 * k + 3] == rest[3 * (k - 1)..3 * (k - 1) + 3];
      assert colors[1..][k - 1] == colors[k];
    }
  }

  lemma ColorReadBack(pre: seq<u8>, colors: seq<Color>, post: seq<u8>, k: nat)
    requires k < |colors|
    ensures |pre + FlatMap(colors, ColorBytes) + post| >= |pre| + 3 * k + 3
    ensures ColorAt(pre + FlatMap(colors, ColorBytes) + post, |pre|, k) == colors[k]
  {
    var x := FlatMap(colors, ColorBytes);
    ColorBytesAt(colors, k);
    assert x[3 * k] == colors[k].red && x[3 * k + 1] == colors[k].green && x[3 * k + 2] == colors[k].blue;
    ByteAt(pre, x, post, 3 * k);
    ByteAt(pre, x, post, 3 * k + 1);
    ByteAt(pre, x, post, 3 * k + 2);
  }

  /** A written color table reads back as the same table. */
  lemma ColorTableRoundTrip(pre: seq<u8>, colors: seq<Color>, post: seq<u8>)
    ensures ColorTableAt(pre + FlatMap(colors, ColorBytes) + post, |pre|, |colors|) ==
            Ok(Parsed(ColorTable(colors), |pre| + 3 * |colors|))
  {
    var input := pre + FlatMap(colors, ColorBytes) + post;
    ColorBytesLength(colors);
    var r := ColorTableAt(input, |pre|, |colors|);
    assert r.Ok?;
    forall k | 0 <= k < |colors|
      ensures r.value.value.colors[k] == colors[k]
    {
      ColorReadBack(pre, colors, post, k);
    }
    assert r.value.value.colors == colors;
  }

  // ---------------------------------------------------------------------------
  // Extensions, read back through the extension dispatch
  // ---------------------------------------------------------------------------

  lemma GraphicsControlRoundTrip(pre: seq<u8>, g: GraphicsControlExtension, post: seq<u8>, acc: Blocks)
    ensures var input := pre + GraphicsControlBytes(Some(g)) + post;
            input[|pre|] == 0x21 &&
            ExtensionAt(input, |pre| + 1, acc) == Ok(Parsed(acc.(graphicsControl := Some(g)), |pre| + 8))
  {
    var x := GraphicsControlBytes(Some(g));
    assert |x| == 8;
    ByteAt(pre, x, post, 0);
    ByteAt(pre, x, post, 1);
    ByteAt(pre, x, post, 2);
    ByteAt(pre, x, post, 3);
    ByteAt(pre, x, post, 4);
    ByteAt(pre, x, post, 5);
    ByteAt(pre, x, post, 6);
    ByteAt(pre, x, post, 7);
    U16LeRoundTrip(g.delayTime);
  }

  /**
   * A comment whose joined text is 1 to 255 bytes reads back as a comment with that text as
   * its one fragment: the fragment boundaries of the original are not kept.
   */
  lemma CommentRoundTrip(pre: seq<u8>, c: CommentExtension, post: seq<u8>, acc: Blocks)
    requires 1 <= |Concat(c.comments)| <= 255
    ensures var input := pre + CommentBytes(c) + post;
            input[|pre|] == 0x21 &&
            ExtensionAt(input, |pre| + 1, acc) ==
              Ok(Parsed(acc.(comments := acc.comments + [CommentExtension([Concat(c.comments)])]),
                        |pre| + |CommentBytes(c)|))
  {
    var joined := Concat(c.comments);
    var x := CommentBytes(c);
    var input := pre + x + post;
    ByteAt(pre, x, post, 0);
    ByteAt(pre, x, post, 1);
    var n := |joined|;
    assert x == [0x21, 0xFE, n as u8] + joined + [0];
    ByteAt(pre, x, post, 2);
    ByteAt(pre, x, post, 3 + n);
    SliceAt(pre, x, post, 3, 3 + n);
    assert x[3..3 + n] == joined;
    SubBlocksByteNotZero(input, |pre| + 2);
  }

  /** A run whose first length byte is n and whose terminator follows the first payload has one payload. */
  lemma SubBlocksByteNotZero(input: seq<u8>, pos: nat)
    requires pos < |input| && input[pos] != 0 && pos + 1 + input[pos] as nat < |input|
    requires input[pos + 1 + input[pos] as nat] == 0
    ensures SubBlocks(input, pos) == Ok(Parsed([input[pos + 1..pos + 1 + input[pos] as nat]], pos + 2 + input[pos] as nat))
  {
    var n := input[pos] as nat;
    assert SubBlocks(input, pos + 1 + n) == Ok(Parsed([], pos + 2 + n));
    assert [input[pos + 1..pos + 1 + n]] + [] == [input[pos + 1..pos + 1 + n]];
  }

  /** The zero-length comment: its bytes are a length byte 0 and a terminator 0, and the second zero is read as a block indicator. */
  lemma EmptyCommentBreaksParse(pre: seq<u8>, post: seq<u8>, acc: Blocks)
    ensures BlocksFrom(pre + CommentBytes(CommentExtension([])) + post, |pre|, acc) == Err(InvalidGifFormat)
  {
    var x := CommentBytes(CommentExtension([]));
    assert x == [0x21, 0xFE, 0, 0];
    var input := pre + x + post;
    ByteAt(pre, x, post, 0);
    ByteAt(pre, x, post, 1);
    ByteAt(pre, x, post, 2);
    ByteAt(pre, x, post, 3);
    assert ExtensionAt(input, |pre| + 1, acc) ==
           Ok(Parsed(acc.(comments := acc.comments + [CommentExtension([])]), |pre| + 3));
  }

  /** A comment of 256 bytes is written with the length byte 0: the text is cut from the run. */
  lemma LongCommentLengthWraps(c: CommentExtension)
    requires |Concat(c.comments)| == 256
    ensures CommentBytes(c)[2] == 0
  {
  }

  /** An application extension with an 8-byte identifier and a 3-byte code reads back unchanged. */
  lemma ApplicationRoundTrip(pre: seq<u8>, a: ApplicationExtension, post: seq<u8>, acc: Blocks)
    requires |a.identifier| == 8 && |a.authenticationCode| == 3
    ensures var input := pre + ApplicationBytes(a) + post;
            input[|pre|] == 0x21 &&
            ExtensionAt(input, |pre| + 1, acc) ==
              Ok(Parsed(acc.(applications := acc.applications + [a]), |pre| + |ApplicationBytes(a)|))
  {
    var x := ApplicationBytes(a);
    var input := pre + x + post;
    var fixed := [0x21, 0xFF, 0x0B] + a.identifier + a.authenticationCode;
    assert x == fixed + (Chunks(a.data) + [0]);
    assert input == (pre + fixed) + (Chunks(a.data) + [0]) + post;
    ByteAt(pre, x, post, 0);
    ByteAt(pre, x, post, 1);
    ByteAt(pre, x, post, 2);
    SliceAt(pre, x, post, 3, 11);
    SliceAt(pre, x, post, 11, 14);
    assert x[3..11] == a.identifier;
    assert x[11..14] == a.authenticationCode;
    ChunksReadBackData(pre + fixed, a.data, post);
  }

  /**
   * A run of plain-text sub-blocks, one per extension, each of 1 to 255 bytes, followed by
   * a zero byte reads back as the extensions' texts in order.
   */
  lemma {:induction false} TextBlocksReadBack(input: seq<u8>, q: nat, texts: seq<PlainTextExtension>, end: nat)
    requires forall k :: 0 <= k < |texts| ==> 1 <= |texts[k].plainTextData| <= 255
    requires Placed(input, q, FlatMap(texts, PlainTextSubBlock) + [0])
    requires end == q + |FlatMap(texts, PlainTextSubBlock)| + 1
    ensures SubBlocks(input, q) == Ok(Parsed(PlainTextsPrinted(texts), end))
    decreases |texts|
  {
    if texts == [] {
      TerminatorAt(input, q, texts, end);
    } else {
      var data := texts[0].plainTextData;
      var m := q + 1 + |data|;
      TextsPlacedSplit(input, q, texts, m, end);
      TextsRest(texts);
      SubBlockAt(input, q, data, m);
      TextBlocksReadBack(input, m, texts[1..], end);
      PrintedCons(texts);
    }
  }

  /** No texts: the terminator alone, read as no payloads. */
  lemma TerminatorAt(input: seq<u8>, q: nat, texts: seq<PlainTextExtension>, end: nat)
    requires texts == []
    requires Placed(input, q, FlatMap(texts, PlainTextSubBlock) + [0])
    requires end == q + |FlatMap(texts, PlainTextSubBlock)| + 1
    ensures SubBlocks(input, q) == Ok(Parsed(PlainTextsPrinted(texts), end))
  {
    assert input[q] == (FlatMap(texts, PlainTextSubBlock) + [0])[0] == 0;
    assert PlainTextsPrinted(texts) == [];
  }

  /** The first text's sub-block and the run after it. */
  lemma TextsPlacedSplit(input: seq<u8>, q: nat, texts: seq<PlainTextExtension>, m: nat, end: nat)
    requires texts != [] && 1 <= |texts[0].plainTextData| <= 255
    requires Placed(input, q, FlatMap(texts, PlainTextSubBlock) + [0])
    requires m == q + 1 + |texts[0].plainTextData|
    requires end == q + |FlatMap(texts, PlainTextSubBlock)| + 1
    ensures Placed(input, q, [|texts[0].plainTextData| as u8] + texts[0].plainTextData)
    ensures Placed(input, m, FlatMap(texts[1..], PlainTextSubBlock) + [0])
    ensures end == m + |FlatMap(texts[1..], PlainTextSubBlock)| + 1
  {
    var first := PlainTextSubBlock(texts[0]);
    var rest := FlatMap(texts[1..], PlainTextSubBlock);
    assert first == [|texts[0].plainTextData| as u8] + texts[0].plainTextData;
    FlatMapSplit(texts, PlainTextSubBlock);
    AppendAssoc(first, rest, [0]);
    SplitPlaced(input, q, first, rest + [0]);
  }

  lemma TextsRest(texts: seq<PlainTextExtension>)
    requires texts != []
    requires forall k :: 0 <= k < |texts| ==> 1 <= |texts[k].plainTextData| <= 255
    ensures 1 <= |texts[0].plainTextData| <= 255
    ensures forall k :: 0 <= k < |texts[1..]| ==> 1 <= |texts[1..][k].plainTextData| <= 255
  {
    forall k | 0 <= k < |texts[1..]|
      ensures 1 <= |texts[1..][k].plainTextData| <= 255
    {
      assert texts[1..][k] == texts[k + 1];
    }
  }

  /** The first text followed by the rest's texts are all the texts. */
  lemma PrintedCons(texts: seq<PlainTextExtension>)
    requires texts != []
    ensures PlainTextsPrinted(texts) == [texts[0].plainTextData] + PlainTextsPrinted(texts[1..])
  {
  }

  /** One sub-block of 1 to 255 bytes at q: its payload is kept and the loop goes on at m, after it. */
  lemma SubBlockAt(input: seq<u8>, q: nat, data: seq<u8>, m: nat)
    requires 1 <= |data| <= 255
    requires Placed(input, q, [|data| as u8] + data)
    requires m == q + 1 + |data|
    ensures SubBlocks(input, q) == PrependBlocks([data], SubBlocks(input, m))
  {
    var x := [|data| as u8] + data;
    assert input[q] == x[0];
    assert input[q + 1..m] == x[1..];
  }

  /** The fifteen header bytes of a plain text extension, wherever they sit, read back as its fields. */
  lemma PlainTextHeaderReadBack(input: seq<u8>, q: nat, p: PlainTextExtension)
    requires q + 15 <= |input| && input[q..q + 15] == PlainTextHeaderBytes(p)
    ensures input[q] == 0x21 && input[q + 1] == 0x01
    ensures SubBlocks(input, q + 15).Ok? ==>
              PlainTextExtensionAt(input, q + 2) ==
                Ok(Parsed(p.(plainTextData := Concat(SubBlocks(input, q + 15).value.value)),
                          SubBlocks(input, q + 15).value.next))
  {
    var w := input[q..q + 15];
    var left := U16ToLe(p.textGridLeftPosition);
    var top := U16ToLe(p.textGridTopPosition);
    var width := U16ToLe(p.textGridWidth);
    var height := U16ToLe(p.textGridHeight);
    assert w == [0x21, 0x01, p.blockSize] + left + top + width + height
                + [p.characterCellWidth, p.characterCellHeight, p.textForegroundColorIndex, p.textBackgroundColorIndex];
    assert input[q] == w[0] && input[q + 1] == w[1] && input[q + 2] == w[2] == p.blockSize;
    assert input[q + 3] == w[3] == left[0] && input[q + 4] == w[4] == left[1];
    assert input[q + 5] == w[5] == top[0] && input[q + 6] == w[6] == top[1];
    assert input[q + 7] == w[7] == width[0] && input[q + 8] == w[8] == width[1];
    assert input[q + 9] == w[9] == height[0] && input[q + 10] == w[10] == height[1];
    assert input[q + 11] == w[11] == p.characterCellWidth && input[q + 12] == w[12] == p.characterCellHeight;
    assert input[q + 13] == w[13] == p.textForegroundColorIndex && input[q + 14] == w[14] == p.textBackgroundColorIndex;
    U16LeRoundTrip(p.textGridLeftPosition);
    U16LeRoundTrip(p.textGridTopPosition);
    U16LeRoundTrip(p.textGridWidth);
    U16LeRoundTrip(p.textGridHeight);
  }

  /**
   * The plain text extensions written under one header, wherever they sit in the input, read
   * back as ONE extension: the first extension's header fields with every extension's text
   * joined, and the plain-text flag set.
   */
  lemma PlainTextRoundTrip(input: seq<u8>, q: nat, texts: seq<PlainTextExtension>, acc: Blocks, end: nat, acc': Blocks)
    requires texts != []
    requires forall k :: 0 <= k < |texts| ==> 1 <= |texts[k].plainTextData| <= 255
    requires Placed(input, q, PlainTextBytes(texts))
    requires end == q + |PlainTextBytes(texts)|
    requires acc' == acc.(plainTexts := acc.plainTexts + [texts[0].(plainTextData := Concat(PlainTextsPrinted(texts)))],
                          plainTextFound := true)
    ensures input[q] == 0x21
    ensures ExtensionAt(input, q + 1, acc) == Ok(Parsed(acc', end))
  {
    var start := q + 15;
    PlainTextPlacedSplit(input, q, texts, start, end);
    TextBlocksReadBack(input, start, texts, end);
    PlainTextHeaderReadBack(input, q, texts[0]);
    PlainTextDispatch(input, q + 1, acc);
  }

  /** Where the header and the sub-block run of PlainTextBytes sit. */
  lemma PlainTextPlacedSplit(input: seq<u8>, q: nat, texts: seq<PlainTextExtension>, start: nat, end: nat)
    requires texts != []
    requires Placed(input, q, PlainTextBytes(texts))
    requires start == q + 15
    requires end == q + |PlainTextBytes(texts)|
    ensures q + 15 <= |input| && input[q..q + 15] == PlainTextHeaderBytes(texts[0])
    ensures Placed(input, start, FlatMap(texts, PlainTextSubBlock) + [0])
    ensures end == start + |FlatMap(texts, PlainTextSubBlock)| + 1
  {
    var header := PlainTextHeaderBytes(texts[0]);
    var fm := FlatMap(texts, PlainTextSubBlock);
    assert |header| == 15;
    assert PlainTextBytes(texts) == (header + fm) + [0];
    AppendAssoc(header, fm, [0]);
    SplitPlaced(input, q, header, fm + [0]);
  }

  /** The extension dispatch on the plain text label. */
  lemma PlainTextDispatch(input: seq<u8>, pos: nat, acc: Blocks)
    requires pos < |input| && input[pos] == PlainTextLabel && PlainTextExtensionAt(input, pos + 1).Ok?
    ensures var p := PlainTextExtensionAt(input, pos + 1).value;
            ExtensionAt(input, pos, acc) ==
              Ok(Parsed(acc.(plainTexts := acc.plainTexts + [p.value], plainTextFound := true), p.next))
  {
  }

  // ---------------------------------------------------------------------------
  // Images
  // ---------------------------------------------------------------------------

  /** The ten fixed bytes of an image, wherever they sit, read back as its fields. */
  lemma ImageFieldsReadBack(input: seq<u8>, q: nat, image: ImageDescriptor)
    requires Placed(input, q, ImageFieldBytes(image))
    ensures q + 10 <= |input| && input[q] == 0x2C
    ensures U16FromLe(input[q + 1], input[q + 2]) == image.left
    ensures U16FromLe(input[q + 3], input[q + 4]) == image.top
    ensures U16FromLe(input[q + 5], input[q + 6]) == image.width
    ensures U16FromLe(input[q + 7], input[q + 8]) == image.height
    ensures input[q + 9] == image.packedField
  {
    assert |ImageFieldBytes(image)| == 10;
    var w := input[q..q + 10];
    var left := U16ToLe(image.left);
    var top := U16ToLe(image.top);
    var width := U16ToLe(image.width);
    var height := U16ToLe(image.height);
    assert w == [0x2C] + left + top + width + height + [image.packedField];
    assert input[q] == w[0];
    assert input[q + 1] == w[1] == left[0] && input[q + 2] == w[2] == left[1];
    assert input[q + 3] == w[3] == top[0] && input[q + 4] == w[4] == top[1];
    assert input[q + 5] == w[5] == width[0] && input[q + 6] == w[6] == width[1];
    assert input[q + 7] == w[7] == height[0] && input[q + 8] == w[8] == height[1];
    assert input[q + 9] == w[9];
    U16LeRoundTrip(image.left);
    U16LeRoundTrip(image.top);
    U16LeRoundTrip(image.width);
    U16LeRoundTrip(image.height);
  }

  /**
   * The image descriptor at pos is read back as image: the separator is there and the parser
   * gives the image with the pixels the decoder makes of the data from dataAt, or the decoder's error.
   */
  ghost predicate ImageReadsBack(input: seq<u8>, pos: nat, image: ImageDescriptor, dataAt: nat)
  {
    var decoded := DecodeLzw(input, dataAt, image.lzwMinimumCodeSize);
    pos < |input| && input[pos] == 0x2C &&
    (decoded.Err? ==> ImageDescriptorAt(input, pos) == Err(decoded.error)) &&
    (decoded.Ok? ==> ImageDescriptorAt(input, pos) ==
                       Ok(Parsed(image.(imageData := decoded.value.value), decoded.value.next)))
  }

  lemma ImageReadBack(input: seq<u8>, pos: nat, image: ImageDescriptor, dataAt: nat)
    requires pos + 10 <= |input| && input[pos] == 0x2C && 0 < dataAt <= |input|
    requires U16FromLe(input[pos + 1], input[pos + 2]) == image.left
    requires U16FromLe(input[pos + 3], input[pos + 4]) == image.top
    requires U16FromLe(input[pos + 5], input[pos + 6]) == image.width
    requires U16FromLe(input[pos + 7], input[pos + 8]) == image.height
    requires input[pos + 9] == image.packedField
    requires OptionalColorTableAt(input, pos + 10, LocalColorTableSize(image.packedField)) ==
             Ok(Parsed(image.localColorTable, dataAt - 1))
    requires input[dataAt - 1] == image.lzwMinimumCodeSize
    ensures ImageReadsBack(input, pos, image, dataAt)
  {
    ImageFieldReads(input, pos, image, dataAt);
    ImageDataRead(input, pos, image, dataAt, DecodeLzw(input, dataAt, image.lzwMinimumCodeSize));
  }

  /** With all fixed fields read as image's, the descriptor is what the decoder makes of the data. */
  lemma ImageDataRead(input: seq<u8>, pos: nat, image: ImageDescriptor, dataAt: nat, decoded: Result<Parsed<seq<u8>>>)
    requires dataAt > 0
    requires ReadByte(input, pos) == Ok(Parsed(0x2C, pos + 1))
    requires ReadU16Le(input, pos + 1) == Ok(Parsed(image.left, pos + 3))
    requires ReadU16Le(input, pos + 3) == Ok(Parsed(image.top, pos + 5))
    requires ReadU16Le(input, pos + 5) == Ok(Parsed(image.width, pos + 7))
    requires ReadU16Le(input, pos + 7) == Ok(Parsed(image.height, pos + 9))
    requires ReadByte(input, pos + 9) == Ok(Parsed(image.packedField, pos + 10))
    requires OptionalColorTableAt(input, pos + 10, LocalColorTableSize(image.packedField)) ==
             Ok(Parsed(image.localColorTable, dataAt - 1))
    requires ReadByte(input, dataAt - 1) == Ok(Parsed(image.lzwMinimumCodeSize, dataAt))
    requires decoded == DecodeLzw(input, dataAt, image.lzwMinimumCodeSize)
    ensures decoded.Err? ==> ImageDescriptorAt(input, pos) == Err(decoded.error)
    ensures decoded.Ok? ==> ImageDescriptorAt(input, pos) ==
                              Ok(Parsed(image.(imageData := decoded.value.value), decoded.value.next))
  {
    if decoded.Ok? {
      ImageDataDecoded(input, pos, image, dataAt, decoded);
    } else {
      ImageDataFails(input, pos, image, dataAt, decoded);
    }
  }

  lemma ImageDataDecoded(input: seq<u8>, pos: nat, image: ImageDescriptor, dataAt: nat, decoded: Result<Parsed<seq<u8>>>)
    requires dataAt > 0
    requires ReadByte(input, pos) == Ok(Parsed(0x2C, pos + 1))
    requires ReadU16Le(input, pos + 1) == Ok(Parsed(image.left, pos + 3))
    requires ReadU16Le(input, pos + 3) == Ok(Parsed(image.top, pos + 5))
    requires ReadU16Le(input, pos + 5) == Ok(Parsed(image.width, pos + 7))
    requires ReadU16Le(input, pos + 7) == Ok(Parsed(image.height, pos + 9))
    requires ReadByte(input, pos + 9) == Ok(Parsed(image.packedField, pos + 10))
    requires OptionalColorTableAt(input, pos + 10, LocalColorTableSize(image.packedField)) ==
             Ok(Parsed(image.localColorTable, dataAt - 1))
    requires ReadByte(input, dataAt - 1) == Ok(Parsed(image.lzwMinimumCodeSize, dataAt))
    requires decoded == DecodeLzw(input, dataAt, image.lzwMinimumCodeSize)
    requires decoded.Ok?
    ensures ImageDescriptorAt(input, pos) ==
            Ok(Parsed(ImageDescriptor(image.left, image.top, image.width, image.height, image.packedField,
                                      image.localColorTable, image.lzwMinimumCodeSize, decoded.value.value),
                      decoded.value.next))
  {
    var sep := ReadByte(input, pos).value;
    assert sep.value == 0x2C;
    var tail := DecodeLzw(input, dataAt, image.lzwMinimumCodeSize);
    assert tail == Ok(decoded.value);
  }

  lemma ImageDataFails(input: seq<u8>, pos: nat, image: ImageDescriptor, dataAt: nat, decoded: Result<Parsed<seq<u8>>>)
    requires dataAt > 0
    requires ReadByte(input, pos) == Ok(Parsed(0x2C, pos + 1))
    requires ReadU16Le(input, pos + 1) == Ok(Parsed(image.left, pos + 3))
    requires ReadU16Le(input, pos + 3) == Ok(Parsed(image.top, pos + 5))
    requires ReadU16Le(input, pos + 5) == Ok(Parsed(image.width, pos + 7))
    requires ReadU16Le(input, pos + 7) == Ok(Parsed(image.height, pos + 9))
    requires ReadByte(input, pos + 9) == Ok(Parsed(image.packedField, pos + 10))
    requires OptionalColorTableAt(input, pos + 10, LocalColorTableSize(image.packedField)) ==
             Ok(Parsed(image.localColorTable, dataAt - 1))
    requires ReadByte(input, dataAt - 1) == Ok(Parsed(image.lzwMinimumCodeSize, dataAt))
    requires decoded == DecodeLzw(input, dataAt, image.lzwMinimumCodeSize)
    requires decoded.Err?
    ensures ImageDescriptorAt(input, pos) == Err(decoded.error)
  {
  }

  /** The byte and 16-bit reads of the image reader, one by one. */
  lemma ImageFieldReads(input: seq<u8>, pos: nat, image: ImageDescriptor, dataAt: nat)
    requires pos + 10 <= |input| && input[pos] == 0x2C && 0 < dataAt <= |input|
    requires U16FromLe(input[pos + 1], input[pos + 2]) == image.left
    requires U16FromLe(input[pos + 3], input[pos + 4]) == image.top
    requires U16FromLe(input[pos + 5], input[pos + 6]) == image.width
    requires U16FromLe(input[pos + 7], input[pos + 8]) == image.height
    requires input[pos + 9] == image.packedField
    requires OptionalColorTableAt(input, pos + 10, LocalColorTableSize(image.packedField)) ==
             Ok(Parsed(image.localColorTable, dataAt - 1))
    requires input[dataAt - 1] == image.lzwMinimumCodeSize
    ensures ReadByte(input, pos) == Ok(Parsed(0x2C, pos + 1))
    ensures ReadU16Le(input, pos + 1) == Ok(Parsed(image.left, pos + 3))
    ensures ReadU16Le(input, pos + 3) == Ok(Parsed(image.top, pos + 5))
    ensures ReadU16Le(input, pos + 5) == Ok(Parsed(image.width, pos + 7))
    ensures ReadU16Le(input, pos + 7) == Ok(Parsed(image.height, pos + 9))
    ensures ReadByte(input, pos + 9) == Ok(Parsed(image.packedField, pos + 10))
    ensures ReadByte(input, dataAt - 1) == Ok(Parsed(image.lzwMinimumCodeSize, dataAt))
  {
  }

  /**
   * An image whose local table agrees with its packed byte, written as its fields, its local
   * table and its code-size byte anywhere in the input, reads back with every field it was
   * written with; its pixels are what the decoder makes of the bytes after the code-size
   * byte, whatever they are (ImageBytesLayout shows that ImageBytes starts this way).
   */
  lemma ImageRoundTrip(input: seq<u8>, q: nat, image: ImageDescriptor, dataAt: nat)
    requires image.localColorTable.Some? <==> ColorTableFlag(image.packedField)
    requires image.localColorTable.Some? ==>
               |image.localColorTable.value.colors| == LocalColorTableSize(image.packedField)
    requires Placed(input, q, ImageFieldBytes(image) + TableBytes(image.localColorTable) + [image.lzwMinimumCodeSize])
    requires dataAt == q + 11 + |TableBytes(image.localColorTable)|
    ensures ImageReadsBack(input, q, image, dataAt)
  {
    var tableAt := q + 10;
    ImagePlacedSplit(input, q, image, tableAt, dataAt);
    ImageFieldsReadBack(input, q, image);
    LocalTableSizes(image.packedField);
    PackedFieldBits(image.packedField);
    TableAt(input, tableAt, image.localColorTable, LocalColorTableSize(image.packedField), dataAt - 1);
    ImageReadBack(input, q, image, dataAt);
  }

  /** Where the fields, the local table and the code-size byte of an image sit. */
  lemma ImagePlacedSplit(input: seq<u8>, q: nat, image: ImageDescriptor, tableAt: nat, dataAt: nat)
    requires Placed(input, q, ImageFieldBytes(image) + TableBytes(image.localColorTable) + [image.lzwMinimumCodeSize])
    requires tableAt == q + 10
    requires dataAt == q + 11 + |TableBytes(image.localColorTable)|
    ensures Placed(input, q, ImageFieldBytes(image))
    ensures Placed(input, tableAt, TableBytes(image.localColorTable))
    ensures dataAt - 1 == tableAt + |TableBytes(image.localColorTable)|
    ensures 0 < dataAt <= |input| && input[dataAt - 1] == image.lzwMinimumCodeSize
  {
    var f := ImageFieldBytes(image);
    var t := TableBytes(image.localColorTable);
    assert |f| == 10;
    SplitPlaced(input, q, f + t, [image.lzwMinimumCodeSize]);
    SplitPlaced(input, q, f, t);
    assert input[dataAt - 1] == input[q + |f + t|..q + |f + t| + 1][0];
  }

  /** ImageBytes is the fields, the local table and the code-size byte, then the compressed data. */
  lemma ImageBytesLayout(image: ImageDescriptor, compress: Compressor)
    ensures ImageBytes(image, compress) ==
            ImageFieldBytes(image) + TableBytes(image.localColorTable) + [image.lzwMinimumCodeSize]
            + (Chunks(compress(image.imageData, image.lzwMinimumCodeSize)) + [0])
  {
    AppendAssoc(ImageFieldBytes(image) + TableBytes(image.localColorTable) + [image.lzwMinimumCodeSize],
                Chunks(compress(image.imageData, image.lzwMinimumCodeSize)), [0]);
  }

  /** A color table placed where the reader expects `size` colors reads back as that table. */
  lemma TableAt(input: seq<u8>, p: nat, t: Option<ColorTable>, size: nat, next: nat)
    requires t.Some? <==> size > 0
    requires t.Some? ==> |t.value.colors| == size
    requires Placed(input, p, TableBytes(t))
    requires next == p + |TableBytes(t)|
    ensures OptionalColorTableAt(input, p, size) == Ok(Parsed(t, next))
  {
    Reframe(input, p, TableBytes(t));
    TableReadBack(input[..p], t, size, input[p + |TableBytes(t)|..]);
  }

  /** A color table written where the reader expects `size` colors reads back as that table. */
  lemma TableReadBack(pre: seq<u8>, t: Option<ColorTable>, size: nat, post: seq<u8>)
    requires t.Some? <==> size > 0
    requires t.Some? ==> |t.value.colors| == size
    ensures OptionalColorTableAt(pre + TableBytes(t) + post, |pre|, size) == Ok(Parsed(t, |pre| + |TableBytes(t)|))
  {
    if t.Some? {
      ColorTableRoundTrip(pre, t.value.colors, post);
      ColorBytesLength(t.value.colors);
      assert t == Some(ColorTable(t.value.colors));
    }
  }

  // ---------------------------------------------------------------------------
  // Whole documents
  // ---------------------------------------------------------------------------

  /** Each comment as the parser reads it back: its fragments joined into one. */
  function JoinedComments(cs: seq<CommentExtension>): seq<CommentExtension>
  {
    if cs == [] then [] else [CommentExtension([Concat(cs[0].comments)])] + JoinedComments(cs[1..])
  }

  /** JoinedComments keeps the number and the order of the comments, each with its fragments joined. */
  lemma {:induction false} JoinedCommentsAt(cs: seq<CommentExtension>, k: nat)
    requires k < |cs|
    ensures |JoinedComments(cs)| == |cs|
    ensures JoinedComments(cs)[k] == CommentExtension([Concat(cs[k].comments)])
    decreases |cs|
  {
    if k > 0 {
      JoinedCommentsAt(cs[1..], k - 1);
    } else if |cs| > 1 {
      JoinedCommentsAt(cs[1..], 0);
    }
  }

  /** The block loop over an extension read as acc' up to next goes on at next with acc'. */
  lemma ExtensionThen(input: seq<u8>, pos: nat, acc: Blocks, next: nat, acc': Blocks)
    requires pos < |input| && input[pos] == 0x21 && ExtensionAt(input, pos + 1, acc) == Ok(Parsed(acc', next))
    ensures BlocksFrom(input, pos, acc) == BlocksFrom(input, next, acc')
  {
  }

  /** The block loop from equal positions with equal accumulators. */
  lemma SameLoop(input: seq<u8>, pos: nat, acc: Blocks, pos': nat, acc': Blocks)
    requires pos == pos' && acc == acc'
    ensures BlocksFrom(input, pos, acc) == BlocksFrom(input, pos', acc')
  {
  }

  // ---------------------------------------------------------------------------
  // The block loop over the blocks the serializer writes
  // ---------------------------------------------------------------------------

  /** The bytes x sit in input at position q. */
  ghost predicate Placed(input: seq<u8>, q: nat, x: seq<u8>)
  {
    q + |x| <= |input| && input[q..q + |x|] == x
  }

  lemma PlacedAt(input: seq<u8>, pre: seq<u8>, x: seq<u8>, q: nat)
    requires input == pre + x && q == |pre|
    ensures Placed(input, q, x)
  {
    assert (pre + x)[|pre|..|pre| + |x|] == x;
  }

  /** Bytes placed in input are input with its own prefix and suffix around them. */
  lemma Reframe(input: seq<u8>, q: nat, x: seq<u8>)
    requires Placed(input, q, x)
    ensures input == input[..q] + x + input[q + |x|..]
  {
    assert input == input[..q] + input[q..q + |x|] + input[q + |x|..];
  }

  /** Two byte strings placed one after the other. */
  lemma SplitPlaced(input: seq<u8>, q: nat, x: seq<u8>, y: seq<u8>)
    requires Placed(input, q, x + y)
    ensures Placed(input, q, x) && Placed(input, q + |x|, y)
  {
    assert input[q..q + |x|] == (x + y)[..|x|];
    assert input[q + |x|..q + |x| + |y|] == (x + y)[|x|..];
  }

  /** The block loop from p with a ends as the block loop from p2 with a2 does. */
  ghost predicate Leads(input: seq<u8>, p: nat, a: Blocks, p2: nat, a2: Blocks)
  {
    BlocksFrom(input, p, a) == BlocksFrom(input, p2, a2)
  }

  lemma LeadsTrans(input: seq<u8>, p0: nat, a0: Blocks, p1: nat, a1: Blocks, p2: nat, a2: Blocks)
    requires Leads(input, p0, a0, p1, a1) && Leads(input, p1, a1, p2, a2)
    ensures Leads(input, p0, a0, p2, a2)
  {
  }

  lemma FlatMapSplit<T>(xs: seq<T>, f: T -> seq<u8>)
    requires xs != []
    ensures FlatMap(xs, f) == f(xs[0]) + FlatMap(xs[1..], f)
  {
  }

  lemma FlatMapCons<T>(xs: seq<T>, f: T -> seq<u8>)
    requires xs != []
    ensures |FlatMap(xs, f)| == |f(xs[0])| + |FlatMap(xs[1..], f)|
  {
  }

  /** The written graphics control extension, if any, is gathered by the block loop. */
  lemma GraphicsControlStep(input: seq<u8>, q: nat, gce: Option<GraphicsControlExtension>, acc: Blocks, m: nat, acc': Blocks)
    requires Placed(input, q, GraphicsControlBytes(gce))
    requires m == q + |GraphicsControlBytes(gce)|
    requires acc' == acc.(graphicsControl := if gce.Some? then gce else acc.graphicsControl)
    ensures Leads(input, q, acc, m, acc')
  {
    if gce.Some? {
      Reframe(input, q, GraphicsControlBytes(gce));
      GraphicsControlRoundTrip(input[..q], gce.value, input[q + |GraphicsControlBytes(gce)|..], acc);
      ExtensionThen(input, q, acc, m, acc');
    } else {
      SameLoop(input, q, acc, m, acc');
    }
  }

  /** One written comment, read by the extension dispatch. */
  lemma CommentAt(input: seq<u8>, q: nat, c: CommentExtension, acc: Blocks)
    requires 1 <= |Concat(c.comments)| <= 255
    requires Placed(input, q, CommentBytes(c))
    ensures input[q] == 0x21
    ensures ExtensionAt(input, q + 1, acc) ==
            Ok(Parsed(acc.(comments := acc.comments + [CommentExtension([Concat(c.comments)])]), q + |CommentBytes(c)|))
  {
    Reframe(input, q, CommentBytes(c));
    CommentRoundTrip(input[..q], c, input[q + |CommentBytes(c)|..], acc);
  }

  /** The block loop over one written comment goes on right after it, the comment gathered. */
  lemma CommentStep(input: seq<u8>, q: nat, c: CommentExtension, acc: Blocks, m: nat, acc': Blocks)
    requires 1 <= |Concat(c.comments)| <= 255
    requires Placed(input, q, CommentBytes(c))
    requires m == q + |CommentBytes(c)|
    requires acc' == acc.(comments := acc.comments + [CommentExtension([Concat(c.comments)])])
    ensures Leads(input, q, acc, m, acc')
  {
    CommentAt(input, q, c, acc);
    ExtensionThen(input, q, acc, m, acc');
  }

  /** Written comments, met by the block loop, are gathered in order with their fragments joined. */
  lemma {:induction false} CommentsReadBack(input: seq<u8>, q: nat, cs: seq<CommentExtension>, acc: Blocks,
                                            end: nat, accEnd: Blocks)
    requires forall k :: 0 <= k < |cs| ==> 1 <= |Concat(cs[k].comments)| <= 255
    requires Placed(input, q, FlatMap(cs, CommentBytes))
    requires end == q + |FlatMap(cs, CommentBytes)|
    requires accEnd == acc.(comments := acc.comments + JoinedComments(cs))
    ensures Leads(input, q, acc, end, accEnd)
    decreases |cs|, 1
  {
    if cs == [] {
      assert acc.comments + JoinedComments(cs) == acc.comments;
      SameLoop(input, q, acc, end, accEnd);
    } else {
      CommentsCons(input, q, cs, acc, end, accEnd);
    }
  }

  /** The recursive case of CommentsReadBack: the first comment's step, then the rest. */
  lemma {:induction false} CommentsCons(input: seq<u8>, q: nat, cs: seq<CommentExtension>, acc: Blocks,
                                        end: nat, accEnd: Blocks)
    requires cs != []
    requires forall k :: 0 <= k < |cs| ==> 1 <= |Concat(cs[k].comments)| <= 255
    requires Placed(input, q, FlatMap(cs, CommentBytes))
    requires end == q + |FlatMap(cs, CommentBytes)|
    requires accEnd == acc.(comments := acc.comments + JoinedComments(cs))
    ensures Leads(input, q, acc, end, accEnd)
    decreases |cs|, 0
  {
    CommentsPlacedSplit(input, q, cs);
    CommentsRest(cs);
    var acc' := acc.(comments := acc.comments + [CommentExtension([Concat(cs[0].comments)])]);
    var m := q + |CommentBytes(cs[0])|;
    CommentStep(input, q, cs[0], acc, m, acc');
    CommentsEnds(q, m, cs, acc, acc', end, accEnd);
    CommentsReadBack(input, m, cs[1..], acc', end, accEnd);
    LeadsTrans(input, q, acc, m, acc', end, accEnd);
  }

  /** After the first comment, the rest ends where all of them do, with the same gathered list. */
  lemma CommentsEnds(q: nat, m: nat, cs: seq<CommentExtension>, acc: Blocks, acc': Blocks, end: nat, accEnd: Blocks)
    requires cs != []
    requires m == q + |CommentBytes(cs[0])|
    requires acc' == acc.(comments := acc.comments + [CommentExtension([Concat(cs[0].comments)])])
    requires end == q + |FlatMap(cs, CommentBytes)|
    requires accEnd == acc.(comments := acc.comments + JoinedComments(cs))
    ensures end == m + |FlatMap(cs[1..], CommentBytes)|
    ensures accEnd == acc'.(comments := acc'.comments + JoinedComments(cs[1..]))
  {
    FlatMapCons(cs, CommentBytes);
    JoinedCons(acc.comments, cs);
  }

  lemma JoinedCons(front: seq<CommentExtension>, cs: seq<CommentExtension>)
    requires cs != []
    ensures front + [CommentExtension([Concat(cs[0].comments)])] + JoinedComments(cs[1..]) == front + JoinedComments(cs)
  {
    assert JoinedComments(cs) == [CommentExtension([Concat(cs[0].comments)])] + JoinedComments(cs[1..]);
  }

  lemma CommentsPlacedSplit(input: seq<u8>, q: nat, cs: seq<CommentExtension>)
    requires cs != []
    requires Placed(input, q, FlatMap(cs, CommentBytes))
    ensures Placed(input, q, CommentBytes(cs[0]))
    ensures Placed(input, q + |CommentBytes(cs[0])|, FlatMap(cs[1..], CommentBytes))
  {
    FlatMapSplit(cs, CommentBytes);
    SplitPlaced(input, q, CommentBytes(cs[0]), FlatMap(cs[1..], CommentBytes));
  }

  lemma CommentsRest(cs: seq<CommentExtension>)
    requires cs != []
    requires forall k :: 0 <= k < |cs| ==> 1 <= |Concat(cs[k].comments)| <= 255
    ensures 1 <= |Concat(cs[0].comments)| <= 255
    ensures forall k :: 0 <= k < |cs[1..]| ==> 1 <= |Concat(cs[1..][k].comments)| <= 255
  {
    forall k | 0 <= k < |cs[1..]|
      ensures 1 <= |Concat(cs[1..][k].comments)| <= 255
    {
      assert cs[1..][k] == cs[k + 1];
    }
  }

  /** One written application extension, read by the extension dispatch. */
  lemma ApplicationAt(input: seq<u8>, q: nat, a: ApplicationExtension, acc: Blocks)
    requires |a.identifier| == 8 && |a.authenticationCode| == 3
    requires Placed(input, q, ApplicationBytes(a))
    ensures input[q] == 0x21
    ensures ExtensionAt(input, q + 1, acc) ==
            Ok(Parsed(acc.(applications := acc.applications + [a]), q + |ApplicationBytes(a)|))
  {
    Reframe(input, q, ApplicationBytes(a));
    ApplicationRoundTrip(input[..q], a, input[q + |ApplicationBytes(a)|..], acc);
  }

  /** The block loop over one written application extension goes on right after it, the extension gathered. */
  lemma ApplicationStep(input: seq<u8>, q: nat, a: ApplicationExtension, acc: Blocks, m: nat, acc': Blocks)
    requires |a.identifier| == 8 && |a.authenticationCode| == 3
    requires Placed(input, q, ApplicationBytes(a))
    requires m == q + |ApplicationBytes(a)|
    requires acc' == acc.(applications := acc.applications + [a])
    ensures Leads(input, q, acc, m, acc')
  {
    ApplicationAt(input, q, a, acc);
    ExtensionThen(input, q, acc, m, acc');
  }

  /** Written application extensions, met by the block loop, are gathered unchanged and in order. */
  lemma {:induction false} ApplicationsReadBack(input: seq<u8>, q: nat, apps: seq<ApplicationExtension>, acc: Blocks,
                                                end: nat, accEnd: Blocks)
    requires forall k :: 0 <= k < |apps| ==> |apps[k].identifier| == 8 && |apps[k].authenticationCode| == 3
    requires Placed(input, q, FlatMap(apps, ApplicationBytes))
    requires end == q + |FlatMap(apps, ApplicationBytes)|
    requires accEnd == acc.(applications := acc.applications + apps)
    ensures Leads(input, q, acc, end, accEnd)
    decreases |apps|, 1
  {
    if apps == [] {
      assert acc.applications + apps == acc.applications;
      SameLoop(input, q, acc, end, accEnd);
    } else {
      ApplicationsCons(input, q, apps, acc, end, accEnd);
    }
  }

  /** The recursive case of ApplicationsReadBack. */
  lemma {:induction false} ApplicationsCons(input: seq<u8>, q: nat, apps: seq<ApplicationExtension>, acc: Blocks,
                                            end: nat, accEnd: Blocks)
    requires apps != []
    requires forall k :: 0 <= k < |apps| ==> |apps[k].identifier| == 8 && |apps[k].authenticationCode| == 3
    requires Placed(input, q, FlatMap(apps, ApplicationBytes))
    requires end == q + |FlatMap(apps, ApplicationBytes)|
    requires accEnd == acc.(applications := acc.applications + apps)
    ensures Leads(input, q, acc, end, accEnd)
    decreases |apps|, 0
  {
    ApplicationsPlacedSplit(input, q, apps);
    ApplicationsRest(apps);
    var acc' := acc.(applications := acc.applications + [apps[0]]);
    var m := q + |ApplicationBytes(apps[0])|;
    ApplicationStep(input, q, apps[0], acc, m, acc');
    ApplicationsEnds(q, m, apps, acc, acc', end, accEnd);
    ApplicationsReadBack(input, m, apps[1..], acc', end, accEnd);
    LeadsTrans(input, q, acc, m, acc', end, accEnd);
  }

  lemma ApplicationsEnds(q: nat, m: nat, apps: seq<ApplicationExtension>, acc: Blocks, acc': Blocks,
                         end: nat, accEnd: Blocks)
    requires apps != []
    requires m == q + |ApplicationBytes(apps[0])|
    requires acc' == acc.(applications := acc.applications + [apps[0]])
    requires end == q + |FlatMap(apps, ApplicationBytes)|
    requires accEnd == acc.(applications := acc.applications + apps)
    ensures end == m + |FlatMap(apps[1..], ApplicationBytes)|
    ensures accEnd == acc'.(applications := acc'.applications + apps[1..])
  {
    FlatMapCons(apps, ApplicationBytes);
    AppendFirst(acc.applications, apps);
  }

  lemma AppendFirst<T>(front: seq<T>, xs: seq<T>)
    requires xs != []
    ensures front + [xs[0]] + xs[1..] == front + xs
  {
    assert xs == [xs[0]] + xs[1..];
  }

  lemma ApplicationsPlacedSplit(input: seq<u8>, q: nat, apps: seq<ApplicationExtension>)
    requires apps != []
    requires Placed(input, q, FlatMap(apps, ApplicationBytes))
    ensures Placed(input, q, ApplicationBytes(apps[0]))
    ensures Placed(input, q + |ApplicationBytes(apps[0])|, FlatMap(apps[1..], ApplicationBytes))
  {
    FlatMapSplit(apps, ApplicationBytes);
    SplitPlaced(input, q, ApplicationBytes(apps[0]), FlatMap(apps[1..], ApplicationBytes));
  }

  lemma ApplicationsRest(apps: seq<ApplicationExtension>)
    requires apps != []
    requires forall k :: 0 <= k < |apps| ==> |apps[k].identifier| == 8 && |apps[k].authenticationCode| == 3
    ensures |apps[0].identifier| == 8 && |apps[0].authenticationCode| == 3
    ensures forall k :: 0 <= k < |apps[1..]| ==> |apps[1..][k].identifier| == 8 && |apps[1..][k].authenticationCode| == 3
  {
    forall k | 0 <= k < |apps[1..]|
      ensures |apps[1..][k].identifier| == 8 && |apps[1..][k].authenticationCode| == 3
    {
      assert apps[1..][k] == apps[k + 1];
    }
  }

  /** The conditions under which the serializer writes a document the parser reads back. */
  ghost predicate Writable(gif: GifFile)
  {
    var size := GlobalColorTableSize(gif.logicalScreenDescriptor.packedField);
    (gif.globalColorTable.Some? <==> size > 0) &&
    (gif.globalColorTable.Some? ==> |gif.globalColorTable.value.colors| == size) &&
    (forall k :: 0 <= k < |gif.commentExtensions| ==> 1 <= |Concat(gif.commentExtensions[k].comments)| <= 255) &&
    (forall k :: 0 <= k < |gif.applicationExtensions| ==>
       |gif.applicationExtensions[k].identifier| == 8 && |gif.applicationExtensions[k].authenticationCode| == 3)
  }

  /** The trailer ends the block loop with what it has gathered. */
  lemma TrailerEnds(input: seq<u8>, pos: nat, acc: Blocks)
    requires Placed(input, pos, [0x3B])
    ensures BlocksFrom(input, pos, acc) == Ok(acc)
  {
    assert input[pos] == input[pos..pos + 1][0];
  }

  /** Where each group of written blocks starts and what the loop has gathered by then. */
  ghost predicate Stages(input: seq<u8>, q: nat, gce: Option<GraphicsControlExtension>, cs: seq<CommentExtension>,
                         apps: seq<ApplicationExtension>, qc: nat, qa: nat, qt: nat)
  {
    Placed(input, q, GraphicsControlBytes(gce)) && qc == q + |GraphicsControlBytes(gce)| &&
    Placed(input, qc, FlatMap(cs, CommentBytes)) && qa == qc + |FlatMap(cs, CommentBytes)| &&
    Placed(input, qa, FlatMap(apps, ApplicationBytes)) && qt == qa + |FlatMap(apps, ApplicationBytes)| &&
    Placed(input, qt, [0x3B])
  }

  lemma StagesOf(input: seq<u8>, q: nat, gce: Option<GraphicsControlExtension>, cs: seq<CommentExtension>,
                 apps: seq<ApplicationExtension>, qc: nat, qa: nat, qt: nat)
    requires Placed(input, q, GraphicsControlBytes(gce) + FlatMap(cs, CommentBytes) + FlatMap(apps, ApplicationBytes) + [0x3B])
    requires qc == q + |GraphicsControlBytes(gce)|
    requires qa == qc + |FlatMap(cs, CommentBytes)|
    requires qt == qa + |FlatMap(apps, ApplicationBytes)|
    ensures Stages(input, q, gce, cs, apps, qc, qa, qt)
  {
    SplitFour(input, q, GraphicsControlBytes(gce), FlatMap(cs, CommentBytes), FlatMap(apps, ApplicationBytes), [0x3B],
              qc, qa, qt);
  }

  lemma SplitFour(input: seq<u8>, q: nat, a: seq<u8>, b: seq<u8>, c: seq<u8>, d: seq<u8>, qb: nat, qc: nat, qd: nat)
    requires Placed(input, q, a + b + c + d)
    requires qb == q + |a| && qc == qb + |b| && qd == qc + |c|
    ensures Placed(input, q, a) && Placed(input, qb, b) && Placed(input, qc, c) && Placed(input, qd, d)
  {
    SplitPlaced(input, q, a + b + c, d);
    SplitPlaced(input, q, a + b, c);
    SplitPlaced(input, q, a, b);
  }

  /**
   * The blocks the serializer writes after the global table of such a document: a graphics
   * control extension, comments, application extensions and the trailer, all gathered by
   * the block loop.
   */
  lemma BlocksRoundTrip(input: seq<u8>, q: nat, gce: Option<GraphicsControlExtension>, cs: seq<CommentExtension>,
                        apps: seq<ApplicationExtension>, written: seq<u8>, blocks: Blocks)
    requires forall k :: 0 <= k < |cs| ==> 1 <= |Concat(cs[k].comments)| <= 255
    requires forall k :: 0 <= k < |apps| ==> |apps[k].identifier| == 8 && |apps[k].authenticationCode| == 3
    requires written == GraphicsControlBytes(gce) + FlatMap(cs, CommentBytes) + FlatMap(apps, ApplicationBytes) + [0x3B]
    requires Placed(input, q, written)
    requires blocks == NoBlocks.(graphicsControl := gce, comments := JoinedComments(cs), applications := apps)
    ensures BlocksFrom(input, q, NoBlocks) == Ok(blocks)
  {
    var qc := q + |GraphicsControlBytes(gce)|;
    var qa := qc + |FlatMap(cs, CommentBytes)|;
    var qt := qa + |FlatMap(apps, ApplicationBytes)|;
    StagesOf(input, q, gce, cs, apps, qc, qa, qt);
    BlocksStaged(input, q, gce, cs, apps, qc, qa, qt, blocks);
  }

  lemma BlocksStaged(input: seq<u8>, q: nat, gce: Option<GraphicsControlExtension>, cs: seq<CommentExtension>,
                     apps: seq<ApplicationExtension>, qc: nat, qa: nat, qt: nat, blocks: Blocks)
    requires forall k :: 0 <= k < |cs| ==> 1 <= |Concat(cs[k].comments)| <= 255
    requires forall k :: 0 <= k < |apps| ==> |apps[k].identifier| == 8 && |apps[k].authenticationCode| == 3
    requires Stages(input, q, gce, cs, apps, qc, qa, qt)
    requires blocks == NoBlocks.(graphicsControl := gce, comments := JoinedComments(cs), applications := apps)
    ensures BlocksFrom(input, q, NoBlocks) == Ok(blocks)
  {
    var a1 := NoBlocks.(graphicsControl := gce);
    var a2 := a1.(comments := a1.comments + JoinedComments(cs));
    var a3 := a2.(applications := a2.applications + apps);
    GraphicsControlStep(input, q, gce, NoBlocks, qc, a1);
    CommentsReadBack(input, qc, cs, a1, qa, a2);
    ApplicationsReadBack(input, qa, apps, a2, qt, a3);
    LeadsTrans(input, q, NoBlocks, qc, a1, qa, a2);
    LeadsTrans(input, q, NoBlocks, qa, a2, qt, a3);
    assert a3 == blocks;
    TrailerEnds(input, qt, a3);
  }

  /** The header, screen descriptor and global table the serializer writes read back unchanged. */
  lemma DocumentPrefix(gif: GifFile, input: seq<u8>, pre: seq<u8>, post: seq<u8>, tableEnd: nat)
    requires Writable(gif)
    requires pre == HeaderBytes(gif.header) + ScreenBytes(gif.logicalScreenDescriptor) + TableBytes(gif.globalColorTable)
    requires input == pre + post
    requires tableEnd == 13 + |TableBytes(gif.globalColorTable)|
    ensures ReadGifHeader(input, 0) == Ok(Parsed(gif.header, 6))
    ensures ReadLogicalScreenDescriptor(input, 6) == Ok(Parsed(gif.logicalScreenDescriptor, 13))
    ensures OptionalColorTableAt(input, 13, GlobalColorTableSize(gif.logicalScreenDescriptor.packedField)) ==
            Ok(Parsed(gif.globalColorTable, tableEnd))
  {
    var h := HeaderBytes(gif.header);
    var d := ScreenBytes(gif.logicalScreenDescriptor);
    var t := TableBytes(gif.globalColorTable);
    assert |h| == 6 && |d| == 7;
    AppendAssoc(h + d, t, post);
    AppendAssoc(h, d, t + post);
    HeaderRoundTrip(gif.header, d + (t + post));
    ScreenRoundTrip(h, gif.logicalScreenDescriptor, t + post);
    TableReadBack(h + d, gif.globalColorTable, GlobalColorTableSize(gif.logicalScreenDescriptor.packedField), post);
  }

  /**
   * A document without plain text and images, written by the serializer and parsed again,
   * comes back as the same document except that each comment's fragments are joined.
   */
  lemma DocumentRoundTrip(gif: GifFile, compress: Compressor)
    requires Writable(gif) && gif.plainTextExtensions == [] && gif.imageDescriptors == []
    ensures GifOf(Serialize(gif, compress)) ==
            Ok(Completed(gif.(commentExtensions := JoinedComments(gif.commentExtensions))))
  {
    var input := Serialize(gif, compress);
    var doc := gif.(commentExtensions := JoinedComments(gif.commentExtensions));
    var tableEnd := 13 + |TableBytes(gif.globalColorTable)|;
    var blocks := NoBlocks.(graphicsControl := gif.graphicsControlExtension,
                            comments := JoinedComments(gif.commentExtensions),
                            applications := gif.applicationExtensions);
    SerializedParts(gif, compress, input, tableEnd, blocks);
    GifOfParts(input, gif.header, gif.logicalScreenDescriptor, gif.globalColorTable, tableEnd, blocks, doc);
  }

  /** The four stages of the parse over what the serializer writes for such a document. */
  lemma SerializedParts(gif: GifFile, compress: Compressor, input: seq<u8>, tableEnd: nat, blocks: Blocks)
    requires Writable(gif) && gif.plainTextExtensions == [] && gif.imageDescriptors == []
    requires input == Serialize(gif, compress)
    requires tableEnd == 13 + |TableBytes(gif.globalColorTable)|
    requires blocks == NoBlocks.(graphicsControl := gif.graphicsControlExtension,
                                 comments := JoinedComments(gif.commentExtensions),
                                 applications := gif.applicationExtensions)
    ensures ReadGifHeader(input, 0) == Ok(Parsed(gif.header, 6))
    ensures ReadLogicalScreenDescriptor(input, 6) == Ok(Parsed(gif.logicalScreenDescriptor, 13))
    ensures OptionalColorTableAt(input, 13, GlobalColorTableSize(gif.logicalScreenDescriptor.packedField)) ==
            Ok(Parsed(gif.globalColorTable, tableEnd))
    ensures BlocksFrom(input, tableEnd, NoBlocks) == Ok(blocks)
  {
    var pre := HeaderBytes(gif.header) + ScreenBytes(gif.logicalScreenDescriptor) + TableBytes(gif.globalColorTable);
    var post := GraphicsControlBytes(gif.graphicsControlExtension) + FlatMap(gif.commentExtensions, CommentBytes)
                + FlatMap(gif.applicationExtensions, ApplicationBytes) + [0x3B];
    SerializedLayout(gif, compress, input, pre, post, tableEnd);
    PlacedAt(input, pre, post, tableEnd);
    DocumentPrefix(gif, input, pre, post, tableEnd);
    BlocksRoundTrip(input, tableEnd, gif.graphicsControlExtension, gif.commentExtensions, gif.applicationExtensions,
                    post, blocks);
  }

  /** Without plain text and images the serializer writes the prefix and then the blocks. */
  lemma SerializedLayout(gif: GifFile, compress: Compressor, input: seq<u8>, pre: seq<u8>, blocks: seq<u8>, tableEnd: nat)
    requires gif.plainTextExtensions == [] && gif.imageDescriptors == []
    requires input == Serialize(gif, compress)
    requires pre == HeaderBytes(gif.header) + ScreenBytes(gif.logicalScreenDescriptor) + TableBytes(gif.globalColorTable)
    requires blocks == GraphicsControlBytes(gif.graphicsControlExtension) + FlatMap(gif.commentExtensions, CommentBytes)
                       + FlatMap(gif.applicationExtensions, ApplicationBytes) + [0x3B]
    requires tableEnd == 13 + |TableBytes(gif.globalColorTable)|
    ensures input == pre + blocks
    ensures |pre| == tableEnd
  {
    var g := GraphicsControlBytes(gif.graphicsControlExtension);
    var fc := FlatMap(gif.commentExtensions, CommentBytes);
    var fa := FlatMap(gif.applicationExtensions, ApplicationBytes);
    assert input == pre + g + fc + fa + [0x3B];
    AppendAssoc(pre, g, fc);
    AppendAssoc(pre, g + fc, fa);
    AppendAssoc(pre, g + fc + fa, [0x3B]);
    assert |HeaderBytes(gif.header) + ScreenBytes(gif.logicalScreenDescriptor)| == 13;
  }

  /** GifOf in terms of its four stages, for any input. */
  lemma GifOfParts(input: seq<u8>, header: GifHeader, screen: LogicalScreenDescriptor, table: Option<ColorTable>,
                   tableEnd: nat, blocks: Blocks, doc: GifFile)
    requires ReadGifHeader(input, 0) == Ok(Parsed(header, 6))
    requires ReadLogicalScreenDescriptor(input, 6) == Ok(Parsed(screen, 13))
    requires OptionalColorTableAt(input, 13, GlobalColorTableSize(screen.packedField)) == Ok(Parsed(table, tableEnd))
    requires BlocksFrom(input, tableEnd, NoBlocks) == Ok(blocks) && !blocks.plainTextFound
    requires doc == GifFile(header, screen, table, blocks.graphicsControl, blocks.comments,
                            blocks.applications, blocks.plainTexts, blocks.images)
    ensures GifOf(input) == Ok(Completed(doc))
  {
  }
}
