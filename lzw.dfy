/**
 * The variable-length-code LZW decoder of GIF image data: codes are packed LSB-first
 * into a bit stream carried by data sub-blocks; 2^min is the clear code, 2^min + 1 the
 * end code; the table grows by one entry per code after the first, up to 4096 entries,
 * and the code width grows from min + 1 bits up to 12.
 *
 * The pure functions below are the specification; ReadLzwData is the decoder loop and is
 * proved to compute DecodeLzw.
 */
module Lzw {
  import opened Bytes
  import opened Errors
  import opened Reader

  /** `1 << 12`: the table never holds more entries. */
  const MaxCodes: nat := 4096
  /** The largest code width. */
  const MaxWidth: nat := 12

  /** A code width is at least one bit. */
  type Width = w: nat | w >= 1 witness 1

  function ClearCode(min: nat): nat { Pow2(min) }

  function EndCode(min: nat): nat { Pow2(min) + 1 }

  /** One single-byte entry per code below the clear code (`i as u8`), then empty entries for the clear and end codes. */
  function InitialDictionary(min: nat): (d: seq<seq<u8>>)
    ensures |d| == Pow2(min) + 2
  {
    seq(Pow2(min), (i: int) => [(i % 256) as u8]) + [[], []]
  }

  /** The decoder's table state: `dictionary`, `next_code`, `current_bit_size` and `previous_code`. */
  datatype Table = Table(dict: seq<seq<u8>>, nextCode: nat, width: Width, prev: Option<nat>)

  /** The bit accumulator: `bit_buffer` holds `bit_count` pending bits, oldest lowest. */
  datatype Bits = Bits(buffer: nat, count: nat)

  /** The low `w` bits of the accumulator (`buffer & ((1 << w) - 1)`). */
  function LowBits(buffer: nat, w: nat): nat
  {
    buffer % Pow2(w)
  }

  /** The accumulator with its low `w` bits shifted out (`buffer >> w`). */
  function DropBits(buffer: nat, w: nat): nat
  {
    DivNatural(buffer, Pow2(w));
    buffer / Pow2(w)
  }

  /**
   * A byte placed above the `count` pending bits (`buffer | (byte as u32) << count`).
   * Written as a sum: the pending bits lie below bit `count` (BitsBelowCount), so the two
   * operands share no set bit and the OR is their sum.
   */
  function PlaceByte(buffer: nat, count: nat, byte: u8): nat
  {
    buffer + byte as nat * Pow2(count)
  }

  /** The state right after start-up and after every clear code. */
  function InitialTable(min: nat): Table
  {
    Table(InitialDictionary(min), Pow2(min) + 2, min + 1, None)
  }

  /** The outcome of one code: decoding goes on with a new table and output, or stops with a result. */
  datatype Step = Continue(table: Table, out: seq<u8>) | Finish(result: Result<seq<u8>>)

  /**
   * The string a (non-control) code stands for: the table entry when the code is below
   * `next_code`; otherwise, the previous code's entry followed by that entry's first byte;
   * with no previous code, an invalid code. Vec indexing past the end is a panic.
   */
  function Resolve(t: Table, code: nat): Result<seq<u8>>
  {
    if code < t.nextCode then
      if code < |t.dict| then Ok(t.dict[code]) else Err(Panic(IndexOutOfBounds))
    else match t.prev
      case Some(p) =>
        if p >= |t.dict| || |t.dict[p]| == 0 then Err(Panic(IndexOutOfBounds))
        else Ok(t.dict[p] + [t.dict[p][0]])
      case None => Err(InvalidLzwCode)
  }

  /** What the decoder does with one code extracted from the bit stream. */
  function ApplyCode(min: nat, t: Table, code: nat, out: seq<u8>): Step
  {
    if code == EndCode(min) then Finish(Ok(out))
    else if code == ClearCode(min) then Continue(InitialTable(min), out)
    else match Resolve(t, code)
      case Err(e) => Finish(Err(e))
      case Ok(entry) =>
        var out' := out + entry;
        match t.prev
        case None => Continue(t.(prev := Some(code)), out')
        case Some(p) =>
          if p >= |t.dict| || |entry| == 0 then Finish(Err(Panic(IndexOutOfBounds)))
          else
            var grown := t.nextCode < MaxCodes;
            var dict' := if grown then t.dict + [t.dict[p] + [entry[0]]] else t.dict;
            var next' := if grown then t.nextCode + 1 else t.nextCode;
            // `1 << current_bit_size` is a u16 shift
            if t.width >= 16 then Finish(Err(Panic(ShiftOverflow)))
            else
              var width' := if next' == Pow2(t.width) && t.width < MaxWidth then t.width + 1 else t.width;
              Continue(Table(dict', next', width', Some(code)), out')
  }

  /** Decoding goes on with a new state, or has stopped with a result. */
  datatype Progress = Running(table: Table, bits: Bits, out: seq<u8>) | Done(result: Result<seq<u8>>)

  /** The inner loop: while at least `width` bits are pending, take the low `width` bits as the next code. */
  function Extract(min: nat, t: Table, b: Bits, out: seq<u8>): Progress
    decreases b.count
  {
    if b.count < t.width then Running(t, b, out)
    else
      var code := LowBits(b.buffer, t.width);
      var b' := Bits(DropBits(b.buffer, t.width), b.count - t.width);
      match ApplyCode(min, t, code, out)
      case Finish(r) => Done(r)
      case Continue(t', out') => Extract(min, t', b', out')
  }

  /** One payload byte: its bits go above the pending ones, then codes are extracted. */
  function FeedByte(min: nat, t: Table, b: Bits, out: seq<u8>, byte: u8): Progress
  {
    Extract(min, t, Bits(PlaceByte(b.buffer, b.count, byte), b.count + 8), out)
  }

  /** Every byte of one sub-block's payload, in order. */
  function FeedBlock(min: nat, t: Table, b: Bits, out: seq<u8>, block: seq<u8>): Progress
    decreases |block|
  {
    if block == [] then Running(t, b, out)
    else match FeedByte(min, t, b, out, block[0])
      case Done(r) => Done(r)
      case Running(t', b', out') => FeedBlock(min, t', b', out', block[1..])
  }

  /**
   * The sub-block loop from cursor `pos`: EOF at a length byte ends decoding with the
   * output so far; EOF inside a payload is an error; a zero length byte is simply an
   * empty payload. The cursor of a successful result is the position after the last
   * sub-block read.
   */
  function DecodeFrom(min: nat, input: seq<u8>, pos: nat, t: Table, b: Bits, out: seq<u8>): (r: Result<Parsed<seq<u8>>>)
    ensures r.Ok? ==> r.value.next >= pos
    decreases |input| - pos
  {
    if pos >= |input| then Ok(Parsed(out, pos))
    else
      var n := input[pos] as nat;
      if pos + 1 + n > |input| then Err(UnexpectedEof)
      else match FeedBlock(min, t, b, out, input[pos + 1..pos + 1 + n])
        case Done(r) => (match r case Ok(data) => Ok(Parsed(data, pos + 1 + n)) case Err(e) => Err(e))
        case Running(t', b', out') => DecodeFrom(min, input, pos + 1 + n, t', b', out')
  }

  /** How decoding continues once a sub-block ending at cursor `next` has been fed. */
  function AfterBlock(min: nat, input: seq<u8>, next: nat, p: Progress): Result<Parsed<seq<u8>>>
  {
    match p
    case Done(r) => (match r case Ok(data) => Ok(Parsed(data, next)) case Err(e) => Err(e))
    case Running(t, b, out) => DecodeFrom(min, input, next, t, b, out)
  }

  /** How decoding continues once a byte has been fed and `rest` of the sub-block remains. */
  function AfterByte(min: nat, p: Progress, rest: seq<u8>): Progress
  {
    match p
    case Done(r) => Done(r)
    case Running(t, b, out) => FeedBlock(min, t, b, out, rest)
  }

  /** `read_lzw_data(reader, minimum_code_size)` with the reader at `pos`. */
  function DecodeLzw(input: seq<u8>, pos: nat, minimumCodeSize: u8): (r: Result<Parsed<seq<u8>>>)
    ensures r.Ok? ==> r.value.next >= pos
  {
    // `1 << minimum_code_size` is a u16 shift
    if minimumCodeSize >= 16 then Err(Panic(ShiftOverflow))
    else DecodeFrom(minimumCodeSize as nat, input, pos, InitialTable(minimumCodeSize as nat), Bits(0, 0), [])
  }

  /**
   * The decoder's mutable state, one object per call of ReadLzwData: the table
   * (`dictionary`, `next_code`, `current_bit_size`, `previous_code`), the bit accumulator
   * (`bit_buffer`, `bit_count`) and the output `data`.
   */
  class Decoder {
    const minimumCodeSize: nat
    const clearCode: nat
    const endOfInformationCode: nat
    var dictionary: seq<seq<u8>>
    var nextCode: nat
    var currentBitSize: Width
    var previousCode: Option<nat>
    var bitBuffer: nat
    var bitCount: nat
    var data: seq<u8>

    ghost predicate Valid()
      reads this
    {
      clearCode == ClearCode(minimumCodeSize) && endOfInformationCode == EndCode(minimumCodeSize)
    }

    /** The table part of the state, as the specification functions see it. */
    function TableOf(): Table
      reads this
    {
      Table(dictionary, nextCode, currentBitSize, previousCode)
    }

    /** The accumulator part of the state. */
    function BitsOf(): Bits
      reads this
    {
      Bits(bitBuffer, bitCount)
    }

    /** Start-up: the clear and end codes, the initial table, no pending bits and no output. */
    constructor (min: nat)
      ensures Valid() && minimumCodeSize == min
      ensures TableOf() == InitialTable(min) && BitsOf() == Bits(0, 0) && data == []
    {
      minimumCodeSize := min;
      clearCode := Pow2(min);
      endOfInformationCode := Pow2(min) + 1;
      dictionary := InitialDictionary(min);
      nextCode := Pow2(min) + 2;
      currentBitSize := min + 1;
      previousCode := None;
      bitBuffer := 0;
      bitCount := 0;
      data := [];
    }

    /** What a clear code does: the table goes back to its initial state; bits and output stay. */
    method ResetTable()
      requires Valid()
      modifies this
      ensures Valid() && TableOf() == InitialTable(minimumCodeSize)
      ensures BitsOf() == old(BitsOf()) && data == old(data)
    {
      dictionary := InitialDictionary(minimumCodeSize);
      nextCode := clearCode + 2;
      currentBitSize := minimumCodeSize + 1;
      previousCode := None;
    }

    /**
     * Handling of one extracted code: `stop` is the function's return value when the code
     * ends decoding (end code, invalid code, panic), and None when decoding goes on.
     */
    method HandleCode(code: nat) returns (stop: Option<Result<seq<u8>>>)
      requires Valid()
      modifies this
      ensures Valid() && BitsOf() == old(BitsOf())
      ensures var step := ApplyCode(minimumCodeSize, old(TableOf()), code, old(data));
              && (step.Finish? ==> stop == Some(step.result))
              && (step.Continue? ==> stop == None && TableOf() == step.table && data == step.out)
    {
      if code == endOfInformationCode {
        return Some(Ok(data));
      }

      if code == clearCode {
        ResetTable();
        return None;
      }

      var entry: seq<u8>;
      if code < nextCode {
        if code >= |dictionary| {
          return Some(Err(Panic(IndexOutOfBounds)));
        }
        entry := dictionary[code];
      } else if previousCode.Some? {
        var prevCode := previousCode.value;
        if prevCode >= |dictionary| || |dictionary[prevCode]| == 0 {
          return Some(Err(Panic(IndexOutOfBounds)));
        }
        entry := dictionary[prevCode] + [dictionary[prevCode][0]];
      } else {
        return Some(Err(InvalidLzwCode));
      }

      data := data + entry;

      if previousCode.Some? {
        var prevCode := previousCode.value;
        if prevCode >= |dictionary| || |entry| == 0 {
          return Some(Err(Panic(IndexOutOfBounds)));
        }
        var newEntry := dictionary[prevCode] + [entry[0]];
        if nextCode < MaxCodes {
          dictionary := dictionary + [newEntry];
          nextCode := nextCode + 1;
        }
        if currentBitSize >= 16 {
          return Some(Err(Panic(ShiftOverflow)));
        }
        if nextCode == Pow2(currentBitSize) && currentBitSize < MaxWidth {
          currentBitSize := currentBitSize + 1;
        }
      }

      previousCode := Some(code);
      stop := None;
    }

    /** One payload byte: it goes into the accumulator, then codes are taken while enough bits are pending. */
    method PushByte(byte: u8) returns (stop: Option<Result<seq<u8>>>)
      requires Valid()
      modifies this
      ensures Valid()
      ensures var p := FeedByte(minimumCodeSize, old(TableOf()), old(BitsOf()), old(data), byte);
              && (p.Done? ==> stop == Some(p.result))
              && (p.Running? ==> stop == None && TableOf() == p.table && BitsOf() == p.bits && data == p.out)
    {
      ghost var target := FeedByte(minimumCodeSize, TableOf(), BitsOf(), data, byte);
      bitBuffer := PlaceByte(bitBuffer, bitCount, byte);
      bitCount := bitCount + 8;
      while bitCount >= currentBitSize
        invariant Valid()
        invariant Extract(minimumCodeSize, TableOf(), BitsOf(), data) == target
        decreases bitCount
      {
        var code := LowBits(bitBuffer, currentBitSize);
        bitBuffer := DropBits(bitBuffer, currentBitSize);
        bitCount := bitCount - currentBitSize;
        stop := HandleCode(code);
        if stop.Some? {
          return;
        }
      }
      stop := None;
    }
  }

  /**
   * `read_lzw_data` as the source runs it: a loop over sub-blocks and, inside it, a loop
   * feeding each payload byte to the decoder state. It computes exactly DecodeLzw.
   */
  method ReadLzwData(input: seq<u8>, pos: nat, minimumCodeSize: u8) returns (r: Result<Parsed<seq<u8>>>)
    ensures r == DecodeLzw(input, pos, minimumCodeSize)
  {
    if minimumCodeSize >= 16 {
      return Err(Panic(ShiftOverflow));
    }
    var min := minimumCodeSize as nat;
    var decoder := new Decoder(min);
    var cursor := pos;
    ghost var target := DecodeLzw(input, pos, minimumCodeSize);

    while true
      invariant decoder.Valid() && decoder.minimumCodeSize == min
      invariant DecodeFrom(min, input, cursor, decoder.TableOf(), decoder.BitsOf(), decoder.data) == target
      decreases |input| - cursor
    {
      var blockSize := ReadByte(input, cursor);
      if blockSize.Err? {
        // EOF at a length byte: what has been decoded so far is the result
        return Ok(Parsed(decoder.data, cursor));
      }
      cursor := blockSize.value.next;
      var block := ReadExact(input, cursor, blockSize.value.value as nat);
      if block.Err? {
        return Err(block.error);
      }
      var blockData := block.value.value;
      cursor := block.value.next;

      var i := 0;
      while i < |blockData|
        invariant 0 <= i <= |blockData|
        invariant decoder.Valid() && decoder.minimumCodeSize == min
        invariant AfterBlock(min, input, cursor,
                    FeedBlock(min, decoder.TableOf(), decoder.BitsOf(), decoder.data, blockData[i..])) == target
      {
        assert blockData[i..][1..] == blockData[i + 1..];
        var stop := decoder.PushByte(blockData[i]);
        if stop.Some? {
          match stop.value
          case Ok(data) => return Ok(Parsed(data, cursor));
          case Err(e) => return Err(e);
        }
        i := i + 1;
      }
    }
  }
}
