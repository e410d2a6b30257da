/** What the LZW decoder specification guarantees: control codes, code resolution, the table invariant and bit framing. */
module LzwProperties {
  import opened Bytes
  import opened Errors
  import opened Lzw

  /** The initial table: one single-byte entry per code below the clear code, two empty entries, width min + 1. */
  lemma InitialTableShape(min: nat)
    ensures var t := InitialTable(min);
            && |t.dict| == t.nextCode == ClearCode(min) + 2
            && (forall i :: 0 <= i < ClearCode(min) ==> t.dict[i] == [(i % 256) as u8])
            && t.dict[ClearCode(min)] == [] && t.dict[EndCode(min)] == []
            && t.width == min + 1 && t.prev == None
  {
  }

  /** A clear code restores the initial table, whatever the table was, and outputs nothing. */
  lemma ClearCodeResets(min: nat, t: Table, out: seq<u8>)
    ensures ApplyCode(min, t, ClearCode(min), out) == Continue(InitialTable(min), out)
  {
  }

  /** The end code stops decoding at once with exactly the output accumulated so far. */
  lemma EndCodeStops(min: nat, t: Table, out: seq<u8>)
    ensures ApplyCode(min, t, EndCode(min), out) == Finish(Ok(out))
  {
  }

  /**
   * A code below `next_code` outputs its table entry; any other code outputs the previous
   * code's entry plus that entry's first byte; with no previous code it is an invalid code.
   */
  lemma CodeResolution(min: nat, t: Table, code: nat, out: seq<u8>)
    requires code != ClearCode(min) && code != EndCode(min)
    ensures var s := ApplyCode(min, t, code, out);
            && (code < t.nextCode && code < |t.dict| && s.Continue? ==> s.out == out + t.dict[code])
            && (code >= t.nextCode && t.prev.Some? && t.prev.value < |t.dict| && |t.dict[t.prev.value]| > 0 && s.Continue? ==>
                  s.out == out + t.dict[t.prev.value] + [t.dict[t.prev.value][0]])
            && (code >= t.nextCode && t.prev.None? ==> s == Finish(Err(InvalidLzwCode)))
            && (s.Continue? ==> s.table.prev == Some(code))
  {
  }

  /**
   * The shape of the decoder's table for minimum code sizes 2..11, which every code keeps:
   * the table holds exactly `next_code` entries, at most 4096; it starts with the initial
   * entries; every other entry but the two control entries has at least two bytes; the
   * previous code, if any, is not a control code; the width is between min + 1 and 12 and
   * can address every assigned code.
   */
  ghost predicate TableShape(min: nat, t: Table)
  {
    && 2 <= min <= 11
    && min + 1 <= t.width <= MaxWidth
    && |t.dict| == t.nextCode
    && ClearCode(min) + 2 <= t.nextCode <= MaxCodes
    && t.dict[..ClearCode(min) + 2] == InitialDictionary(min)
    && (forall i :: ClearCode(min) + 2 <= i < |t.dict| ==> |t.dict[i]| >= 2)
    && (t.prev.Some? ==> t.prev.value != ClearCode(min) && t.prev.value != EndCode(min))
    && (t.nextCode < Pow2(t.width) || (t.width == MaxWidth && t.nextCode == MaxCodes))
  }

  /**
   * The decoder's table invariant: the shape, and the previous code, if any, names an
   * entry of the table. Only a code above `next_code` breaks the second part (FallbackRunsPastTable).
   */
  ghost predicate ValidTable(min: nat, t: Table)
  {
    TableShape(min, t) && (t.prev.Some? ==> t.prev.value < |t.dict|)
  }

  lemma InitialTableValid(min: nat)
    requires 2 <= min <= 11
    ensures ValidTable(min, InitialTable(min))
  {
    Pow2Monotone(min, 11);
    assert Pow2(11) == 2048;
    var t := InitialTable(min);
    assert t.dict[..ClearCode(min) + 2] == t.dict;
    assert Pow2(min + 1) == 2 * Pow2(min);
    Pow2Monotone(2, min);
    assert Pow2(2) == 4;
  }

  /** Every entry of a valid table other than the two control entries is non-empty. */
  lemma ValidEntryNonEmpty(min: nat, t: Table, i: nat)
    requires TableShape(min, t)
    requires i < |t.dict| && i != ClearCode(min) && i != EndCode(min)
    ensures |t.dict[i]| >= 1
  {
    if i < ClearCode(min) {
      assert t.dict[i] == t.dict[..ClearCode(min) + 2][i];
    }
  }

  /**
   * For a code that does not run ahead of the table (at most `next_code`) and fits the
   * current width, a valid table never leads to a panic: the code is the end code, an
   * invalid first code, or decoding goes on with a valid table. The table grows by the
   * entry `dictionary[prev] + [first byte of this code's string]` only when there was a
   * previous code and fewer than 4096 entries; the width grows by one exactly when
   * `next_code` reaches 2^width below 12 bits.
   */
  lemma {:induction false} DecoderInvariant(min: nat, t: Table, code: nat, out: seq<u8>)
    requires ValidTable(min, t)
    requires code <= t.nextCode && code < Pow2(t.width)
    ensures var s := ApplyCode(min, t, code, out);
            && (s.Finish? ==> (code == EndCode(min) && s.result == Ok(out))
                              || (code == t.nextCode && t.prev.None? && s.result == Err(InvalidLzwCode)))
            && (s.Continue? ==> ValidTable(min, s.table))
            && (s.Continue? && code != ClearCode(min) ==>
                  && |s.out| > |out| && s.out[..|out|] == out
                  && (t.prev.None? ==> s.table.dict == t.dict && s.table.width == t.width)
                  && (t.prev.Some? ==>
                        && s.table.dict == t.dict + (if t.nextCode < MaxCodes then [t.dict[t.prev.value] + [s.out[|out|]]] else [])
                        && s.table.width == (if s.table.nextCode == Pow2(t.width) && t.width < MaxWidth then t.width + 1 else t.width)))
  {
    var s := ApplyCode(min, t, code, out);
    if code == EndCode(min) || code == ClearCode(min) {
      if code == ClearCode(min) {
        InitialTableValid(min);
      }
      return;
    }
    if t.prev.Some? {
      ValidEntryNonEmpty(min, t, t.prev.value);
    }
    if code < t.nextCode {
      ValidEntryNonEmpty(min, t, code);
    }
    match Resolve(t, code)
    case Err(e) =>
    case Ok(entry) =>
      assert |entry| >= 1;
      match t.prev
      case None =>
        assert s.Continue? && s.out == out + entry;
      case Some(p) =>
        GrowValid(min, t, code, out, p, entry, s);
  }

  /** A code after a previous one: the table grows by one entry (below 4096) and stays valid. */
  lemma GrowValid(min: nat, t: Table, code: nat, out: seq<u8>, p: nat, entry: seq<u8>, s: Step)
    requires ValidTable(min, t)
    requires code <= t.nextCode && code < Pow2(t.width)
    requires code != EndCode(min) && code != ClearCode(min)
    requires t.prev == Some(p) && Resolve(t, code) == Ok(entry) && |entry| >= 1
    requires s == ApplyCode(min, t, code, out)
    ensures s.Continue? && s.out == out + entry
    ensures ValidTable(min, s.table)
    ensures s.table.dict == t.dict + (if t.nextCode < MaxCodes then [t.dict[p] + [entry[0]]] else [])
    ensures s.table.width == (if s.table.nextCode == Pow2(t.width) && t.width < MaxWidth then t.width + 1 else t.width)
  {
    Pow2Monotone(t.width, 12);
    assert Pow2(12) == 4096;
    var grown := t.nextCode < MaxCodes;
    var dict' := if grown then t.dict + [t.dict[p] + [entry[0]]] else t.dict;
    var next' := if grown then t.nextCode + 1 else t.nextCode;
    var width' := if next' == Pow2(t.width) && t.width < MaxWidth then t.width + 1 else t.width;
    assert s == Continue(Table(dict', next', width', Some(code)), out + entry);
    ValidEntryNonEmpty(min, t, p);
    GrownTableValid(min, t, code, p, entry, Table(dict', next', width', Some(code)));
  }

  lemma GrownTableValid(min: nat, t: Table, code: nat, p: nat, entry: seq<u8>, t': Table)
    requires ValidTable(min, t)
    requires code <= t.nextCode && code < Pow2(t.width) && t.width < 16
    requires code != EndCode(min) && code != ClearCode(min)
    requires t.prev == Some(p) && |t.dict[p]| >= 1 && |entry| >= 1
    requires t'.dict == if t.nextCode < MaxCodes then t.dict + [t.dict[p] + [entry[0]]] else t.dict
    requires t'.nextCode == if t.nextCode < MaxCodes then t.nextCode + 1 else t.nextCode
    requires t'.width == if t'.nextCode == Pow2(t.width) && t.width < MaxWidth then t.width + 1 else t.width
    requires t'.prev == Some(code)
    ensures ValidTable(min, t')
  {
    GrownShape(min, t, code, p, entry[0], t');
    Pow2Monotone(t.width, 12);
    assert Pow2(12) == 4096;
    assert code < |t'.dict| by {
      if code == t.nextCode {
        assert code < Pow2(t.width) <= MaxCodes;
      }
    }
  }

  /**
   * A code above `next_code` still takes the fallback branch, so it is accepted as the
   * previous code even though it names no entry. It is not an error by itself: with
   * minimum code size 2, after the codes 0, 7 a further 0 indexes past the end of the
   * table and panics, while the end code 5 ends decoding quietly with [0, 0, 0].
   */
  lemma FallbackRunsPastTable()
    ensures var s1 := ApplyCode(2, InitialTable(2), 0, []);
            && s1 == Continue(InitialTable(2).(prev := Some(0)), [0])
            && var s2 := ApplyCode(2, s1.table, 7, s1.out);
            && s2.Continue? && s2.out == [0, 0, 0] && s2.table.prev == Some(7) && |s2.table.dict| == 7
            && ApplyCode(2, s2.table, 0, s2.out) == Finish(Err(Panic(IndexOutOfBounds)))
            && ApplyCode(2, s2.table, 5, s2.out) == Finish(Ok([0, 0, 0]))
  {
    assert Pow2(2) == 4;
    InitialTableShape(2);
  }

  /**
   * Once the previous code lies past the end of the table, every code but the two control
   * codes panics on the index: such a state can only end, be cleared, or panic.
   */
  lemma PastTablePanics(min: nat, t: Table, code: nat, out: seq<u8>)
    requires TableShape(min, t) && t.prev.Some? && t.prev.value >= |t.dict|
    requires code != ClearCode(min) && code != EndCode(min)
    ensures ApplyCode(min, t, code, out) == Finish(Err(Panic(IndexOutOfBounds)))
  {
  }

  /**
   * Every code keeps the shape of the table, whatever its value: a code above `next_code`
   * breaks only the clause that the previous code names an entry.
   */
  lemma ShapeStep(min: nat, t: Table, code: nat, out: seq<u8>)
    requires TableShape(min, t)
    ensures var s := ApplyCode(min, t, code, out);
            s.Continue? ==> TableShape(min, s.table)
  {
    if code == ClearCode(min) {
      InitialTableValid(min);
    } else if code != EndCode(min) {
      match Resolve(t, code)
      case Err(_) =>
      case Ok(entry) =>
        match t.prev
        case None =>
        case Some(p) =>
          if p < |t.dict| && |entry| > 0 {
            var grown := t.nextCode < MaxCodes;
            var dict' := if grown then t.dict + [t.dict[p] + [entry[0]]] else t.dict;
            var next' := if grown then t.nextCode + 1 else t.nextCode;
            var width' := if next' == Pow2(t.width) && t.width < MaxWidth then t.width + 1 else t.width;
            var t' := Table(dict', next', width', Some(code));
            assert ApplyCode(min, t, code, out) == Continue(t', out + entry);
            ValidEntryNonEmpty(min, t, p);
            GrownShape(min, t, code, p, entry[0], t');
          }
    }
  }

  /** The table after a code that follows a previous one, grown by `dictionary[prev] + [e]` below 4096 entries, keeps its shape. */
  lemma GrownShape(min: nat, t: Table, code: nat, p: nat, e: u8, t': Table)
    requires TableShape(min, t)
    requires code != EndCode(min) && code != ClearCode(min)
    requires p < |t.dict| && |t.dict[p]| >= 1
    requires t'.dict == if t.nextCode < MaxCodes then t.dict + [t.dict[p] + [e]] else t.dict
    requires t'.nextCode == if t.nextCode < MaxCodes then t.nextCode + 1 else t.nextCode
    requires t'.width == if t'.nextCode == Pow2(t.width) && t.width < MaxWidth then t.width + 1 else t.width
    requires t'.prev == Some(code)
    ensures TableShape(min, t')
  {
    Pow2Monotone(t.width, 12);
    assert Pow2(12) == 4096;
    assert t'.dict[..ClearCode(min) + 2] == t.dict[..ClearCode(min) + 2];
    assert Pow2(t.width + 1) == 2 * Pow2(t.width);
  }

  /** The code taken from the accumulator fits the width, and what stays behind is below the remaining count. */
  lemma TakeCodeBounds(buffer: nat, count: nat, w: nat)
    requires w <= count && buffer < Pow2(count)
    ensures LowBits(buffer, w) < Pow2(w)
    ensures DropBits(buffer, w) < Pow2(count - w)
  {
    var p := Pow2(w);
    Pow2Add(w, count - w);
    var q := buffer / p;
    DivModBasics(buffer, p);
    if q >= Pow2(count - w) {
      MulMonotone(Pow2(count - w), q, p);
      assert false;
    }
  }

  /**
   * A byte placed above pending bits (the source's OR) keeps the pending bits as the low
   * part and the byte as the part above them, which is why the sum models the OR; the
   * result stays below 2^(count + 8).
   */
  lemma PlaceByteIsOr(buffer: nat, count: nat, byte: u8)
    requires buffer < Pow2(count)
    ensures LowBits(PlaceByte(buffer, count, byte), count) == buffer
    ensures DropBits(PlaceByte(buffer, count, byte), count) == byte as nat
    ensures PlaceByte(buffer, count, byte) < Pow2(count + 8)
  {
    var p := Pow2(count);
    var v := PlaceByte(buffer, count, byte);
    DivModUnique(v, p, byte as nat, buffer);
    Pow2Add(count, 8);
    assert Pow2(8) == 256;
    MulMonotone(byte as nat + 1, 256, p);
    MulSucc(byte as nat, p);
  }

  /** The state invariant of the accumulator: the pending bits lie below bit `count`. */
  ghost predicate BitsBelowCount(b: Bits)
  {
    b.buffer < Pow2(b.count)
  }

  /**
   * Bit framing: the extraction loop stops with fewer than `width` bits pending and keeps
   * the pending bits below `count`.
   */
  lemma {:induction false} ExtractFraming(min: nat, t: Table, b: Bits, out: seq<u8>)
    requires BitsBelowCount(b)
    ensures var p := Extract(min, t, b, out);
            p.Running? ==> p.bits.count < p.table.width && BitsBelowCount(p.bits)
    decreases b.count
  {
    if b.count >= t.width {
      TakeCodeBounds(b.buffer, b.count, t.width);
      var b' := Bits(DropBits(b.buffer, t.width), b.count - t.width);
      match ApplyCode(min, t, LowBits(b.buffer, t.width), out)
      case Finish(_) =>
      case Continue(t', out') => ExtractFraming(min, t', b', out');
    }
  }

  /**
   * No 32-bit overflow: between bytes fewer than `width` (at most 16) bits are pending,
   * so after a byte is placed the accumulator is below 2^24 and fits the source's u32.
   */
  lemma AccumulatorFitsU32(b: Bits, width: nat, byte: u8)
    requires BitsBelowCount(b) && b.count < width <= 16
    ensures PlaceByte(b.buffer, b.count, byte) < Pow2(24) < 0x1_0000_0000
  {
    PlaceByteIsOr(b.buffer, b.count, byte);
    Pow2Monotone(b.count + 8, 24);
    assert Pow2(24) == 0x100_0000 by {
      assert Pow2(8) == 256;
      Pow2Add(8, 16);
      Pow2Add(8, 8);
    }
  }

  /**
   * What holds between codes: the minimum code size is below 16 (the decoder's own guard),
   * the width is at most 16 bits, and for sizes 2..11 the table keeps its shape.
   */
  ghost predicate CodeState(min: nat, t: Table)
  {
    min <= 15 && t.width <= 16 && (2 <= min <= 11 ==> TableShape(min, t))
  }

  /** What holds between payload bytes: the code state, and fewer than `width` pending bits below bit `count`. */
  ghost predicate DecoderState(min: nat, t: Table, b: Bits)
  {
    CodeState(min, t) && BitsBelowCount(b) && b.count < t.width
  }

  /** One code keeps the code state. */
  lemma CodeStep(min: nat, t: Table, code: nat, out: seq<u8>)
    requires CodeState(min, t)
    ensures var s := ApplyCode(min, t, code, out);
            s.Continue? ==> CodeState(min, s.table)
  {
    if 2 <= min <= 11 {
      ShapeStep(min, t, code, out);
    }
  }

  /** The extraction loop, entered with the code state and bits below `count`, leaves the decoder state. */
  lemma {:induction false} ExtractKeeps(min: nat, t: Table, b: Bits, out: seq<u8>)
    requires CodeState(min, t) && BitsBelowCount(b)
    ensures var p := Extract(min, t, b, out);
            p.Running? ==> DecoderState(min, p.table, p.bits)
    decreases b.count
  {
    if b.count >= t.width {
      TakeCodeBounds(b.buffer, b.count, t.width);
      var code := LowBits(b.buffer, t.width);
      var b' := Bits(DropBits(b.buffer, t.width), b.count - t.width);
      CodeStep(min, t, code, out);
      match ApplyCode(min, t, code, out)
      case Finish(_) =>
      case Continue(t', out') => ExtractKeeps(min, t', b', out');
    }
  }

  /** One payload byte: placing it stays below 2^24, and the decoder state is kept. */
  lemma FeedByteKeeps(min: nat, t: Table, b: Bits, out: seq<u8>, byte: u8)
    requires DecoderState(min, t, b)
    ensures PlaceByte(b.buffer, b.count, byte) < Pow2(24)
    ensures var p := FeedByte(min, t, b, out, byte);
            p.Running? ==> DecoderState(min, p.table, p.bits)
  {
    AccumulatorFitsU32(b, t.width, byte);
    PlaceByteIsOr(b.buffer, b.count, byte);
    ExtractKeeps(min, t, Bits(PlaceByte(b.buffer, b.count, byte), b.count + 8), out);
  }

  /** Before every byte of a sub-block the decoder state holds and placing the byte stays below 2^24. */
  ghost predicate BlockStays(min: nat, t: Table, b: Bits, out: seq<u8>, block: seq<u8>)
    decreases |block|
  {
    && DecoderState(min, t, b)
    && (block != [] ==>
          && PlaceByte(b.buffer, b.count, block[0]) < Pow2(24)
          && match FeedByte(min, t, b, out, block[0])
             case Done(_) => true
             case Running(t', b', out') => BlockStays(min, t', b', out', block[1..]))
  }

  /** Before every sub-block of the code stream, and every byte in it, the decoder state holds. */
  ghost predicate StreamStays(min: nat, input: seq<u8>, pos: nat, t: Table, b: Bits, out: seq<u8>)
    decreases |input| - pos
  {
    && DecoderState(min, t, b)
    && (pos < |input| && pos + 1 + input[pos] as nat <= |input| ==>
          var block := input[pos + 1..pos + 1 + input[pos] as nat];
          && BlockStays(min, t, b, out, block)
          && match FeedBlock(min, t, b, out, block)
             case Done(_) => true
             case Running(t', b', out') => StreamStays(min, input, pos + 1 + input[pos] as nat, t', b', out'))
  }

  lemma {:induction false} FeedBlockStays(min: nat, t: Table, b: Bits, out: seq<u8>, block: seq<u8>)
    requires DecoderState(min, t, b)
    ensures BlockStays(min, t, b, out, block)
    ensures var p := FeedBlock(min, t, b, out, block);
            p.Running? ==> DecoderState(min, p.table, p.bits)
    decreases |block|
  {
    if block != [] {
      FeedByteKeeps(min, t, b, out, block[0]);
      match FeedByte(min, t, b, out, block[0])
      case Done(_) =>
      case Running(t', b', out') => FeedBlockStays(min, t', b', out', block[1..]);
    }
  }

  lemma {:induction false} DecodeStays(min: nat, input: seq<u8>, pos: nat, t: Table, b: Bits, out: seq<u8>)
    requires DecoderState(min, t, b)
    ensures StreamStays(min, input, pos, t, b, out)
    decreases |input| - pos
  {
    if pos < |input| && pos + 1 + input[pos] as nat <= |input| {
      var next := pos + 1 + input[pos] as nat;
      var block := input[pos + 1..next];
      FeedBlockStays(min, t, b, out, block);
      match FeedBlock(min, t, b, out, block)
      case Done(_) =>
      case Running(t', b', out') => DecodeStays(min, input, next, t', b', out');
    }
  }

  /**
   * The whole of `read_lzw_data`, for every input and every minimum code size it does not
   * reject: before every payload byte the bit buffer holds fewer than `width` <= 16 pending
   * bits, so it stays below 2^24 and the u32 never overflows; for sizes 2..11 the table
   * keeps its shape (at most 4096 entries, width between min + 1 and 12) throughout.
   */
  lemma DecodeLzwStays(input: seq<u8>, pos: nat, minimumCodeSize: u8)
    requires minimumCodeSize < 16
    ensures StreamStays(minimumCodeSize as nat, input, pos, InitialTable(minimumCodeSize as nat), Bits(0, 0), [])
  {
    var min := minimumCodeSize as nat;
    if 2 <= min <= 11 {
      InitialTableValid(min);
    }
    DecodeStays(min, input, pos, InitialTable(min), Bits(0, 0), []);
  }

  /**
   * Sub-block framing of the code stream: EOF at a length byte ends decoding successfully
   * with the output so far; EOF inside a payload is an error; a zero-length sub-block is
   * skipped and does not end decoding.
   */
  lemma DecodeFraming(min: nat, input: seq<u8>, pos: nat, t: Table, b: Bits, out: seq<u8>)
    ensures pos >= |input| ==> DecodeFrom(min, input, pos, t, b, out) == Ok(Parsed(out, pos))
    ensures pos < |input| && pos + 1 + input[pos] as nat > |input| ==>
              DecodeFrom(min, input, pos, t, b, out) == Err(UnexpectedEof)
    ensures pos < |input| && input[pos] == 0 ==>
              DecodeFrom(min, input, pos, t, b, out) == DecodeFrom(min, input, pos + 1, t, b, out)
  {
  }

  /** One code never takes back output: going on extends it, and the only successful stop returns it unchanged. */
  lemma ApplyCodeExtends(min: nat, t: Table, code: nat, out: seq<u8>)
    ensures var s := ApplyCode(min, t, code, out);
            && (s.Continue? ==> |out| <= |s.out| && s.out[..|out|] == out)
            && (s.Finish? && s.result.Ok? ==> s.result.value == out)
  {
  }

  /** The output of a step extends the output before it. */
  ghost predicate Extends(p: Progress, out: seq<u8>)
  {
    match p
    case Running(_, _, o) => |out| <= |o| && o[..|out|] == out
    case Done(r) => r.Ok? ==> |out| <= |r.value| && r.value[..|out|] == out
  }

  lemma {:induction false} ExtractExtends(min: nat, t: Table, b: Bits, out: seq<u8>)
    ensures Extends(Extract(min, t, b, out), out)
    decreases b.count
  {
    if b.count >= t.width {
      var b' := Bits(DropBits(b.buffer, t.width), b.count - t.width);
      var s := ApplyCode(min, t, LowBits(b.buffer, t.width), out);
      ApplyCodeExtends(min, t, LowBits(b.buffer, t.width), out);
      if s.Continue? {
        ExtractExtends(min, s.table, b', s.out);
      }
    }
  }

  lemma {:induction false} FeedBlockExtends(min: nat, t: Table, b: Bits, out: seq<u8>, block: seq<u8>)
    ensures Extends(FeedBlock(min, t, b, out, block), out)
    decreases |block|
  {
    if block != [] {
      var p := FeedByte(min, t, b, out, block[0]);
      ExtractExtends(min, t, Bits(PlaceByte(b.buffer, b.count, block[0]), b.count + 8), out);
      if p.Running? {
        FeedBlockExtends(min, p.table, p.bits, p.out, block[1..]);
      }
    }
  }

  /**
   * Decoded output only accumulates: a successful decode, whether it stops at the end code
   * or at EOF, returns the output it started with followed by what it decoded.
   */
  lemma {:induction false} DecodeExtends(min: nat, input: seq<u8>, pos: nat, t: Table, b: Bits, out: seq<u8>)
    ensures var r := DecodeFrom(min, input, pos, t, b, out);
            r.Ok? ==> |out| <= |r.value.value| && r.value.value[..|out|] == out
    decreases |input| - pos
  {
    if pos < |input| && pos + 1 + input[pos] as nat <= |input| {
      var n := input[pos] as nat;
      var p := FeedBlock(min, t, b, out, input[pos + 1..pos + 1 + n]);
      FeedBlockExtends(min, t, b, out, input[pos + 1..pos + 1 + n]);
      if p.Running? {
        DecodeExtends(min, input, pos + 1 + n, p.table, p.bits, p.out);
      }
    }
  }

  /**
   * A clear code followed by the end code (minimum code size 2: codes 4 and 5 in 3 bits
   * each, the byte 0x2C) decodes to nothing; the cursor stops after the sub-block.
   */
  lemma ClearThenEndDecodesNothing()
    ensures DecodeLzw([1, 0x2C], 0, 2) == Ok(Parsed([], 2))
  {
    assert Pow2(3) == 8;
  }

  /**
   * Clear code, index 0, end code (9 bits: 0x44 0x01) in one two-byte sub-block decode to
   * the one index 0, wherever the sub-block sits; the cursor stops after the sub-block.
   */
  lemma OnePixelDecodes(input: seq<u8>, pos: nat)
    requires pos + 3 <= |input| && input[pos..pos + 3] == [2, 0x44, 0x01]
    ensures DecodeLzw(input, pos, 2) == Ok(Parsed([0], pos + 3))
  {
    var t0 := InitialTable(2);
    OnePixelBlock(t0);
    assert input[pos] == 2 by { assert input[pos] == input[pos..pos + 3][0]; }
    assert input[pos + 1..pos + 3] == [0x44, 0x01] by { assert input[pos + 1..pos + 3] == input[pos..pos + 3][1..]; }
    LastBlockDecoded(2, input, pos, t0, Bits(0, 0), [], [0x44, 0x01], [0]);
    assert DecodeLzw(input, pos, 2) == DecodeFrom(2, input, pos, t0, Bits(0, 0), []);
  }

  /** A sub-block whose payload reaches the end code ends decoding right after that sub-block. */
  lemma LastBlockDecoded(min: nat, input: seq<u8>, pos: nat, t: Table, b: Bits, out: seq<u8>, block: seq<u8>, data: seq<u8>)
    requires pos < |input| && pos + 1 + input[pos] as nat <= |input|
    requires block == input[pos + 1..pos + 1 + input[pos] as nat]
    requires FeedBlock(min, t, b, out, block) == Done(Ok(data))
    ensures DecodeFrom(min, input, pos, t, b, out) == Ok(Parsed(data, pos + 1 + input[pos] as nat))
  {
  }

  /** The payload 0x44 0x01 holds the 3-bit codes clear (4), 0 and end (5). */
  lemma OnePixelBlock(t0: Table)
    requires t0 == InitialTable(2)
    ensures FeedBlock(2, t0, Bits(0, 0), [], [0x44, 0x01]) == Done(Ok([0]))
  {
    var t1 := t0.(prev := Some(0));
    OnePixelFirstByte(t0, t1);
    OnePixelSecondByte(t1);
    assert [0x44, 0x01][1..] == [0x01];
  }

  lemma OnePixelFirstByte(t0: Table, t1: Table)
    requires t0 == InitialTable(2) && t1 == t0.(prev := Some(0))
    ensures FeedByte(2, t0, Bits(0, 0), [], 0x44) == Running(t1, Bits(1, 2), [0])
  {
    assert Pow2(2) == 4 && Pow2(3) == 8;
    assert ApplyCode(2, t0, 4, []) == Continue(t0, []);
    assert t0.dict[0] == [0];
    assert ApplyCode(2, t0, 0, []) == Continue(t1, [0]);
    assert Extract(2, t0, Bits(1, 2), [0]) == Running(t0, Bits(1, 2), [0]);
    assert Extract(2, t0, Bits(8, 5), []) == Running(t1, Bits(1, 2), [0]);
  }

  lemma OnePixelSecondByte(t1: Table)
    requires t1 == InitialTable(2).(prev := Some(0))
    ensures FeedByte(2, t1, Bits(1, 2), [0], 0x01) == Done(Ok([0]))
  {
    assert Pow2(2) == 4 && Pow2(3) == 8;
    assert ApplyCode(2, t1, 5, [0]) == Finish(Ok([0]));
  }
}
