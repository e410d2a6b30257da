# GifSauce in Dafny

GifSauce reads a GIF file into a document and can write that document back out again.
The reading side has three parts:

- a header reader and a logical screen descriptor reader;
- an optional global color table;
- a block loop that gathers graphics control, comment, application and plain text extensions and image descriptors until the trailer.

Each image's pixels are decoded by a variable-width LZW decoder. `reassemble_gif` writes
the document back in a fixed order.

This project models that core on byte sequences. The reader is an input `seq<u8>` and a
cursor `pos`. Every reader returns `Result<Parsed<T>>`: the value and the cursor after
it, or the error the Rust code would return. Panics the code can reach are the error
`Panic(reason)`.

Each component has two forms:

- a pure function that serves as the specification;
- a method that runs the source's loop and is proved to compute exactly that function.

The components are these:

- The LZW decoder keeps its mutable state in the class `Lzw.Decoder`. Its fields are the dictionary, `next_code`, the code width, the previous code, the bit buffer, the bit count and the output.
- The block loop keeps its locals in the datatype `Document.Blocks`.
- The writer is a byte sequence that is only appended to.

Lemmas state what the code does. Among them:

- the decoder's table invariant;
- the dispatch of the block loop and its quirks;
- round trips: what the serializer writes, the parser reads back as the same fields.

Files:

- `bytes.dfy`: `u8`/`u16`, little-endian u16, powers of two, concatenation.
- `errors.dfy`: `Option`, `Result` and the error kinds.
- `reader.dfy`: `read_exact` and the sub-block loop.
- `gif.dfy`: the records and packed-field accessors.
- `parser.dfy`: the readers of the header, screen descriptor, tables, extensions and image descriptor.
- `lzw.dfy`: the decoder.
- `lzw_properties.dfy`: properties of the decoder.
- `document.dfy`: `parse_gif`.
- `document_properties.dfy`: properties of `parse_gif`.
- `serializer.dfy`: `reassemble_gif`.
- `roundtrip.dfy`: the serializer's output parsed again.

## Model

| member | source | states |
|---|---|---|
| Bytes.U16LeRoundTrip | GifSauce.rs:614 | reading back the two little-endian bytes of a u16 gives the value itself |
| Bytes.U16LeRoundTripBytes | GifSauce.rs:111 | encoding the u16 read from two bytes gives back those two bytes |
| Reader.ReadExact | GifSauce.rs:95 | succeeds exactly when n bytes remain; returns those bytes and moves the cursor by n; otherwise UnexpectedEof |
| Reader.ReadU16Le | GifSauce.rs:109-111 | succeeds exactly when two bytes remain and yields their little-endian value; otherwise UnexpectedEof |
| Reader.SubBlocks | GifSauce.rs:184-194 | when the sub-block run is read, every payload has 1 to 255 bytes and the cursor ends past the terminator and within the input |
| Reader.ReadSubBlocks | GifSauce.rs:184-194 | the length-prefixed loop up to a zero length byte returns exactly SubBlocks |
| Reader.SubBlocksFraming | GifSauce.rs:184-192 | EOF at a length byte is UnexpectedEof; a zero length byte ends the run with no payload, one byte on; a payload running past the end is UnexpectedEof |
| Reader.SubBlocksEndAtTerminator | GifSauce.rs:187-189 | a run that is read ends right after a zero byte |
| Parser.ReadGifHeader | GifSauce.rs:92-102 | with 6 bytes left: the first 3 as signature, the next 3 as version, cursor +6; else UnexpectedEof; the bytes are not checked |
| Parser.ReadLogicalScreenDescriptor | GifSauce.rs:104-134 | with 7 bytes left: width and height little-endian, packed, background index and aspect ratio, cursor +7; else UnexpectedEof |
| Parser.ColorTableAt | GifSauce.rs:136-146 | succeeds exactly when 3·size bytes remain; color k gets the three bytes at 3k; cursor +3·size |
| Parser.ReadColorTable | GifSauce.rs:136-146 | the per-color loop returns exactly ColorTableAt |
| Parser.OptionalColorTableAt | GifSauce.rs:496-500 | size 0 reads no table and does not move the cursor; otherwise it reads the table |
| Parser.ReadOptionalColorTable | GifSauce.rs:340-344 | the `if size > 0` read returns exactly OptionalColorTableAt |
| Parser.ReadGraphicsControlExtension | GifSauce.rs:148-179 | fails unless the block-size byte is 4; with 6 bytes it yields packed, little-endian delay and transparent index and skips the terminator byte without checking it; truncation is UnexpectedEof |
| Parser.SubBlockData | GifSauce.rs:218-230 | the sub-block payloads joined in order, with the run's cursor and error |
| Parser.ReadSubBlockData | GifSauce.rs:218-230 | the extending loop returns exactly SubBlockData |
| Parser.CommentExtensionAt | GifSauce.rs:181-197 | a comment holds one entry per sub-block payload, in order; it fails when the run fails |
| Parser.ReadCommentExtension | GifSauce.rs:181-197 | the comment loop returns exactly CommentExtensionAt |
| Parser.ApplicationExtensionAt | GifSauce.rs:199-237 | a block-size byte other than 11 is an error; then an 8-byte identifier, a 3-byte authentication code and the joined sub-block data; truncation is UnexpectedEof |
| Parser.ReadApplicationExtension | GifSauce.rs:199-237 | the reader returns exactly ApplicationExtensionAt |
| Parser.PlainTextExtensionAt | GifSauce.rs:239-302 | 13 fixed bytes (block size, four little-endian u16, four u8) and the joined sub-block text; fewer than 13 bytes is UnexpectedEof |
| Parser.ReadPlainTextExtension | GifSauce.rs:239-302 | the reader returns exactly PlainTextExtensionAt |
| Parser.ImageDescriptorAt | GifSauce.rs:304-366 | EOF and a non-0x2C separator are errors; a read image has the geometry and packed byte at the cursor, and has a local table exactly when bit 7 is set |
| Parser.ReadImageDescriptor | GifSauce.rs:304-366 | the reader returns exactly ImageDescriptorAt |
| Gif.LocalTableSizes | GifSauce.rs:333-337 | a local table exists exactly when bit 7 is set; it has 2^(packed % 8 + 1) entries, from 2 to 256 |
| Gif.GlobalTableSizes | GifSauce.rs:490-494 | a global table exists exactly when packed % 8 > 0, whatever bit 7 says; it has 2^(packed % 8 + 1) entries, from 4 to 256; flipping bit 7 changes nothing |
| Lzw.Decoder.ResetTable | GifSauce.rs:418-425 | the table becomes the initial one; the bits and the output are kept |
| Lzw.Decoder.HandleCode | GifSauce.rs:414-458 | one code updates the decoder exactly as ApplyCode says: it stops with the result, or goes on with the new table and output |
| Lzw.Decoder.PushByte | GifSauce.rs:404-459 | one payload byte, shifted in and followed by every code it completes, updates the decoder exactly as FeedByte says |
| Lzw.ReadLzwData | GifSauce.rs:368-462 | the block and byte loops over the Decoder object return exactly DecodeLzw; with overflow checks on, a minimum code size of 16 or more panics on the shift |
| LzwProperties.InitialTableShape | GifSauce.rs:377-387 | the initial dictionary has entry i = [i as u8] below the clear code and empty entries for the clear and end codes; next_code = clear + 2; width min + 1; no previous code |
| LzwProperties.ClearCodeResets | GifSauce.rs:418-427 | the clear code restores the initial table and keeps the output |
| LzwProperties.EndCodeStops | GifSauce.rs:414-416 | the end code stops with the output so far |
| LzwProperties.CodeResolution | GifSauce.rs:429-442 | a code below next_code appends its entry; a higher code appends prev's entry plus that entry's first byte; with no previous code it is InvalidLzwCode; the code becomes the previous code |
| LzwProperties.InitialTableValid | GifSauce.rs:377-385 | for minimum code sizes 2 to 11 the initial table satisfies the table invariant |
| LzwProperties.DecoderInvariant | GifSauce.rs:414-458 | a code no higher than next_code and below 2^width keeps the table invariant. It stops only at the end code, or at an invalid first code. It extends the output. The dictionary grows by prev's entry plus the new first byte only after a previous code and below 4096 entries. The width grows exactly when next_code reaches 2^width below 12 |
| LzwProperties.FallbackRunsPastTable | GifSauce.rs:414-434 | a code above next_code is still taken as the fallback and becomes the previous code: at size 2, after codes 0, 7 a further 0 indexes past the table and panics, while the end code 5 ends quietly with [0, 0, 0] |
| LzwProperties.PastTablePanics | GifSauce.rs:429-440 | once the previous code lies past the end of the table, every code other than clear and end panics on the index |
| LzwProperties.ShapeStep | GifSauce.rs:414-458 | every code, whatever its value, keeps the table's shape: as many entries as next_code, at most 4096, the initial entries, width between min + 1 and 12 |
| LzwProperties.TakeCodeBounds | GifSauce.rs:410-412 | the extracted code is below 2^width and the remaining bits fit their count |
| LzwProperties.PlaceByteIsOr | GifSauce.rs:405-406 | a byte shifted above the pending bits keeps them and can be read back above them |
| LzwProperties.ExtractFraming | GifSauce.rs:409-412 | after extraction fewer than width bits remain pending and they fit their count |
| LzwProperties.AccumulatorFitsU32 | GifSauce.rs:404-406 | one step: with fewer than width <= 16 bits pending, placing a byte stays below 2^24 |
| LzwProperties.CodeStep | GifSauce.rs:414-458 | one code keeps the width at most 16 and, for sizes 2 to 11, the table's shape |
| LzwProperties.ExtractKeeps | GifSauce.rs:409-459 | the extraction loop ends with fewer than width pending bits, a width of at most 16 and the table's shape |
| LzwProperties.FeedByteKeeps | GifSauce.rs:404-459 | one payload byte is placed below 2^24 and the decoder state is kept |
| LzwProperties.FeedBlockStays | GifSauce.rs:403-460 | before every byte of a sub-block the decoder state holds and the byte is placed below 2^24 |
| LzwProperties.DecodeStays | GifSauce.rs:389-461 | the same before every sub-block of the stream and every byte in it |
| LzwProperties.DecodeLzwStays | GifSauce.rs:368-462 | for every input and every minimum code size below 16, fewer than width <= 16 bits are pending before each byte and placing it stays below 2^24, so the u32 never overflows; for sizes 2 to 11 the table keeps its shape throughout |
| LzwProperties.DecodeFraming | GifSauce.rs:389-401 | EOF at a length byte ends decoding with the output so far; a truncated payload is UnexpectedEof; a zero length byte is an empty payload |
| LzwProperties.DecodeExtends | GifSauce.rs:389-461 | decoding only appends to the output it started with |
| LzwProperties.ClearThenEndDecodesNothing | GifSauce.rs:414-427 | at size 2, the one-byte sub-block 0x2C (clear code, then end code) decodes to nothing and the cursor lands after it |
| LzwProperties.OnePixelDecodes | GifSauce.rs:368-462 | a sub-block with clear, 0, end at size 2 decodes to [0], and the cursor lands after that sub-block |
| Document.PlainTextsPrinted | GifSauce.rs:535-544 | the printed text is each plain text extension's data, in order |
| Document.ReadExtension | GifSauce.rs:519-559 | the extension dispatch returns exactly ExtensionAt: the last graphics control replaces the kept one; comments, applications and plain texts are appended; plain text sets the flag; unknown labels skip their sub-blocks |
| Document.IndicatorDispatch | GifSauce.rs:566-581 | EOF and the trailer end the loop with what it has gathered; any other byte except 0x21 and 0x2C is InvalidGifFormat |
| Document.ExtensionStep | GifSauce.rs:517-559 | after 0x21 the loop goes on from the end of the extension, or fails with its error |
| Document.ImageStep | GifSauce.rs:560-565 | at 0x2C the loop goes on one byte past the image block, or fails with its error |
| Document.ReadImageBlock | GifSauce.rs:560-565 | the seek back, the image read and the seek forward return exactly ImageBlockAt |
| Document.ReadBlocks | GifSauce.rs:510-583 | the block-indicator loop returns exactly BlocksFrom from the cursor after the global table |
| Document.ParseGif | GifSauce.rs:482-599 | `parse_gif` returns exactly GifOf: the header, screen and global table, the block loop, then the exit variant when plain text was seen |
| DocumentProperties.UnknownExtensionSkipped | GifSauce.rs:547-558 | an extension with an unknown label is skipped up to its terminator and adds nothing |
| DocumentProperties.TruncatedExtensionFails | GifSauce.rs:519-520 | EOF right after 0x21 is UnexpectedEof, not a graceful end |
| DocumentProperties.ImageResumesOnePastData | GifSauce.rs:560-565 | an image is read from its separator; the loop resumes one byte past the image data; a failed read fails the parse |
| DocumentProperties.LastGraphicsControlWins | GifSauce.rs:523-526 | before a graphics control extension, the one kept earlier makes no difference |
| DocumentProperties.PlainTextFlagTracksList | GifSauce.rs:503-583 | the plain-text flag is set exactly when the list is non-empty, and every list only grows |
| DocumentProperties.CompletedHasNoPlainText | GifSauce.rs:585-598 | a parse that completes has no plain text extension |
| DocumentProperties.PlainTextExitReportsText | GifSauce.rs:585-587 | the exit variant always carries at least one printed text |
| DocumentProperties.SignatureNotChecked | GifSauce.rs:92-102 | an input starting "XYZ123" parses as a document |
| DocumentProperties.FlagWithoutExponentReadsNoTable | GifSauce.rs:490-500 | packed 0x80 reads no global table, so its first color byte is taken as a block indicator and parsing fails |
| DocumentProperties.OnePixelGifParses | GifSauce.rs:482-599 | a 1x1 GIF with packed 0x81 parses with a 4-color table and one image whose data is [0] |
| DocumentProperties.ImageWithoutLocalTable | GifSauce.rs:304-366 | without bit 7 the LZW data starts right after the code-size byte, and the image holds the decoder's result or its error |
| Serializer.WriteColors | GifSauce.rs:621-625 | writes the three bytes of every color, in order |
| Serializer.WriteChunks | GifSauce.rs:652-655 | writes the data as 255-byte chunks, each after its length byte |
| Serializer.WriteComments | GifSauce.rs:637-644 | writes each comment as 0x21 0xFE, its joined length as u8, the joined text and 0 |
| Serializer.WriteApplications | GifSauce.rs:647-657 | writes each application as 0x21 0xFF 0x0B, identifier, code, chunked data and 0 |
| Serializer.WritePlainTextRound | GifSauce.rs:663-687 | round i writes the header (first round only), the text length as u8 and text, and the terminator (last round only) |
| Serializer.WritePlainTexts | GifSauce.rs:659-688 | all plain texts under one header and one terminator |
| Serializer.WriteImage | GifSauce.rs:691-717 | writes the fields, local table, code size, chunked compressed data and 0 |
| Serializer.WriteImages | GifSauce.rs:690-718 | writes every image, in order |
| Serializer.ReassembleGif | GifSauce.rs:602-724 | writes exactly Serialize: header, screen, global table, graphics control, comments, applications, plain texts, images, 0x3B |
| RoundTrip.HeaderRoundTrip | GifSauce.rs:609-611 | every written header reads back unchanged |
| RoundTrip.ScreenRoundTrip | GifSauce.rs:613-618 | a written screen descriptor reads back unchanged, wherever it sits |
| RoundTrip.ColorTableRoundTrip | GifSauce.rs:620-625 | written colors read back as the same table, 3 bytes each |
| RoundTrip.TableReadBack | GifSauce.rs:620-625 | an optional table written with the size the parser expects reads back as itself |
| RoundTrip.GraphicsControlRoundTrip | GifSauce.rs:627-634 | a written graphics control extension reads back and replaces the kept one |
| RoundTrip.ChunksReadBack | GifSauce.rs:652-655 | chunked data with a terminator reads back as the data, ending right after the terminator |
| RoundTrip.CommentRoundTrip | GifSauce.rs:636-644 | a comment of 1 to 255 joined bytes reads back as one fragment holding the join |
| RoundTrip.EmptyCommentBreaksParse | GifSauce.rs:636-644 | an empty comment is written as 21 FE 00 00; the stray 00 then fails the parse |
| RoundTrip.LongCommentLengthWraps | GifSauce.rs:640-641 | a 256-byte comment gets the length byte 0 |
| RoundTrip.CommentsReadBack | GifSauce.rs:636-644 | a written run of comments is gathered by the loop as the joined comments |
| RoundTrip.JoinedCommentsAt | GifSauce.rs:639 | the k-th joined comment is the single fragment holding that comment's fragments joined |
| RoundTrip.ApplicationRoundTrip | GifSauce.rs:646-657 | an application with an 8-byte identifier and 3-byte code reads back unchanged |
| RoundTrip.ApplicationsReadBack | GifSauce.rs:646-657 | a written run of applications is gathered unchanged and in order |
| RoundTrip.TextBlocksReadBack | GifSauce.rs:674-687 | the plain texts' sub-blocks and terminator read back as the list of their texts |
| RoundTrip.PlainTextRoundTrip | GifSauce.rs:659-688 | written plain texts read back as one extension: the first one's fields with all texts joined; the flag is set |
| RoundTrip.ImageRoundTrip | GifSauce.rs:304-366 | a written image read again has every field it was written with, and its pixels are the decoder's result on the bytes after the code-size byte |
| RoundTrip.BlocksRoundTrip | GifSauce.rs:627-721 | the written graphics control, comments, applications and trailer are gathered by the loop as themselves, with comments joined |
| RoundTrip.DocumentRoundTrip | GifSauce.rs:602-724 | a document with no plain text or images, serialized and parsed, is the same document with each comment's fragments joined |

## Where the code and its description differ

The model follows the code in each case:

- The signature bytes are never checked (`SignatureNotChecked`).
- The global table is present when `packed & 0b111 > 0`, not when the flag bit is set. A packed byte of 0x80 reads no table (`FlagWithoutExponentReadsNoTable`). The one-pixel example therefore uses 0x81 and a four-color table.
- Truncation is not always a success. EOF inside an LZW sub-block payload is an error (`DecodeFraming`), and so is EOF right after an extension introducer (`TruncatedExtensionFails`). Only EOF at a block indicator or at an LZW length byte ends reading quietly.
- A code above `next_code` is not rejected. It is taken as the previous code, and decoding succeeds if the end code follows. Only a later code other than clear or end panics, on the index (`FallbackRunsPastTable`, `PastTablePanics`).
- Serializing does not reproduce every parsed document:
  - comment fragments are joined;
  - an empty comment breaks the next parse;
  - a 256-byte comment's length wraps to 0;
  - the image data is re-compressed.

## Left out

- `lzw_compress` (GifSauce.rs:463-480) calls an external LZW encoder. It is the parameter `Compressor` of the serializer.
- `main` (GifSauce.rs:726-819) is omitted: it handles arguments, files and standard input.
- `track_position` (GifSauce.rs:86-90) is omitted: it only queries the stream position.
- I/O failures other than EOF are not modelled. This covers read and seek errors, failure to create the output file, and `BufWriter` write errors. The input is a byte sequence and the output a sequence that can only grow.
- `String::from_utf8_lossy` is not modelled. It is applied to comment fragments, identifiers and authentication codes, and to the plain text when it is printed. Those fields and `PlainTextExit`'s texts stay raw bytes, so invalid UTF-8 is not replaced.
- The `print!` of plain text and `exit(0)` (GifSauce.rs:535-545, 585-587) become the result variant `PlainTextExit`, which carries the texts in print order.
- The source prints each plain text as soon as it is read (GifSauce.rs:535-544). A parse that fails later has already printed it, but the model's `Err` carries no text.
- Shift overflow is modelled as a build with overflow checks does it: `1 << minimum_code_size` for a size of 16 or more, and `1 << current_bit_size` at width 16 (GifSauce.rs:373, 453), are `Panic(ShiftOverflow)`. A release build masks the shift amount and goes on decoding; that behaviour is not modelled.
- The `map_err` around the LZW call (GifSauce.rs:353-354) changes only the error kind. The model passes the decoder's error through unchanged.
- Panics are the error `Panic(IndexOutOfBounds)` or `Panic(ShiftOverflow)`, not an abort.
- The u32 bit buffer is an unbounded integer, and the OR that adds a byte is a sum. `DecodeLzwStays` shows that for every input the pending bits stay below bit `count`, so the OR and the sum agree (`PlaceByteIsOr`), and that the buffer never goes past 24 bits.
- DecodeLzwStays: the full table invariant, with the previous code inside the table, is kept only by codes up to `next_code` (`DecoderInvariant`). Over a whole decode only the table's shape is proved. A code above `next_code` leaves a state that `PastTablePanics` describes.
- DocumentRoundTrip: stated only for documents without plain text extensions and without images. Plain text round trips are proved separately (`PlainTextRoundTrip`). Images are covered up to their data (`ImageRoundTrip`).
- ImageRoundTrip: the pixels are stated as the decoder's result on whatever follows the code-size byte. Compressing and then decoding is not proved to give back the pixels, because the compressor is a parameter.
- PlainTextRoundTrip: requires every text to have 1 to 255 bytes. Longer texts have their length byte wrapped, as comments do.
