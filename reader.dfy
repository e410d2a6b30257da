/**
 * The byte source the parser reads from: the whole input as a sequence and a cursor
 * position. `read_exact` of n bytes succeeds when n bytes remain after the cursor and
 * otherwise fails with UnexpectedEof. A seek may put the cursor past the end; every
 * read from there fails.
 */
module Reader {
  import opened Bytes
  import opened Errors

  /** `reader.read_exact(&mut buf)` with `buf.len() == n`. */
  function ReadExact(input: seq<u8>, pos: nat, n: nat): (r: Result<Parsed<seq<u8>>>)
    ensures r.Ok? <==> pos + n <= |input|
    ensures r.Ok? ==> r.value.value == input[pos..pos + n] && r.value.next == pos + n
    ensures r.Err? ==> r.error == UnexpectedEof
  {
    if pos + n <= |input| then Ok(Parsed(input[pos..pos + n], pos + n)) else Err(UnexpectedEof)
  }

  /** A one-byte `read_exact`. */
  function ReadByte(input: seq<u8>, pos: nat): (r: Result<Parsed<u8>>)
    ensures r.Ok? <==> pos < |input|
    ensures r.Ok? ==> r.value.value == input[pos] && r.value.next == pos + 1
    ensures r.Err? ==> r.error == UnexpectedEof
  {
    if pos < |input| then Ok(Parsed(input[pos], pos + 1)) else Err(UnexpectedEof)
  }

  /** A two-byte `read_exact` followed by `u16::from_le_bytes`. */
  function ReadU16Le(input: seq<u8>, pos: nat): (r: Result<Parsed<u16>>)
    ensures r.Ok? <==> pos + 2 <= |input|
    ensures r.Ok? ==> r.value.value == U16FromLe(input[pos], input[pos + 1]) && r.value.next == pos + 2
    ensures r.Err? ==> r.error == UnexpectedEof
  {
    if pos + 2 <= |input| then Ok(Parsed(U16FromLe(input[pos], input[pos + 1]), pos + 2)) else Err(UnexpectedEof)
  }

  /**
   * The data sub-block loop shared by the comment, application, plain-text and
   * unknown-extension readers: a length byte n, then n payload bytes, repeated until a
   * zero length byte. The result lists the payloads in order; the cursor ends just
   * after the zero byte. Missing bytes anywhere are an UnexpectedEof error.
   */
  function SubBlocks(input: seq<u8>, pos: nat): (r: Result<Parsed<seq<seq<u8>>>>)
    ensures r.Ok? ==> pos < r.value.next <= |input|
    ensures r.Ok? ==> forall k :: 0 <= k < |r.value.value| ==> 1 <= |r.value.value[k]| <= 255
    decreases |input| - pos
  {
    if pos >= |input| then Err(UnexpectedEof)
    else if input[pos] == 0 then Ok(Parsed([], pos + 1))
    else
      var n := input[pos] as nat;
      if pos + 1 + n > |input| then Err(UnexpectedEof)
      else
        var rest :- SubBlocks(input, pos + 1 + n);
        Ok(Parsed([input[pos + 1..pos + 1 + n]] + rest.value, rest.next))
  }

  /** Puts `done` in front of the payloads of a sub-block result. */
  function PrependBlocks(done: seq<seq<u8>>, r: Result<Parsed<seq<seq<u8>>>>): Result<Parsed<seq<seq<u8>>>>
  {
    match r
    case Ok(p) => Ok(Parsed(done + p.value, p.next))
    case Err(e) => Err(e)
  }

  lemma PrependNothing(r: Result<Parsed<seq<seq<u8>>>>)
    ensures PrependBlocks([], r) == r
  {
    match r
    case Ok(p) => assert [] + p.value == p.value;
    case Err(_) =>
  }

  lemma PrependTwice(a: seq<seq<u8>>, b: seq<seq<u8>>, r: Result<Parsed<seq<seq<u8>>>>)
    ensures PrependBlocks(a, PrependBlocks(b, r)) == PrependBlocks(a + b, r)
  {
    match r
    case Ok(p) => assert a + (b + p.value) == (a + b) + p.value;
    case Err(_) =>
  }

  /** The sub-block loop as the source runs it: read a length byte, stop at zero, else read and keep the payload. */
  method ReadSubBlocks(input: seq<u8>, pos: nat) returns (r: Result<Parsed<seq<seq<u8>>>>)
    ensures r == SubBlocks(input, pos)
  {
    var blocks: seq<seq<u8>> := [];
    var cursor := pos;
    PrependNothing(SubBlocks(input, pos));
    while true
      invariant cursor >= pos
      invariant PrependBlocks(blocks, SubBlocks(input, cursor)) == SubBlocks(input, pos)
      decreases |input| - cursor
    {
      var size := ReadByte(input, cursor);
      if size.Err? {
        return Err(size.error);
      }
      cursor := size.value.next;
      if size.value.value == 0 {
        break;
      }
      var data := ReadExact(input, cursor, size.value.value as nat);
      if data.Err? {
        return Err(data.error);
      }
      cursor := data.value.next;
      PrependTwice(blocks, [data.value.value], SubBlocks(input, cursor));
      blocks := blocks + [data.value.value];
    }
    assert blocks + [] == blocks;
    r := Ok(Parsed(blocks, cursor));
  }

  /** A zero length byte ends the loop at once with no payload; EOF at a length byte or inside a payload is an error. */
  lemma SubBlocksFraming(input: seq<u8>, pos: nat)
    ensures pos >= |input| ==> SubBlocks(input, pos) == Err(UnexpectedEof)
    ensures pos < |input| && input[pos] == 0 ==> SubBlocks(input, pos) == Ok(Parsed([], pos + 1))
    ensures pos < |input| && input[pos] != 0 && pos + 1 + input[pos] as nat > |input| ==>
              SubBlocks(input, pos) == Err(UnexpectedEof)
  {
  }

  /** The loop never stops before a zero length byte: the byte just before the final cursor is 0. */
  lemma {:induction false} SubBlocksEndAtTerminator(input: seq<u8>, pos: nat)
    requires SubBlocks(input, pos).Ok?
    ensures input[SubBlocks(input, pos).value.next - 1] == 0
    decreases |input| - pos
  {
    if input[pos] != 0 {
      SubBlocksEndAtTerminator(input, pos + 1 + input[pos] as nat);
    }
  }
}
