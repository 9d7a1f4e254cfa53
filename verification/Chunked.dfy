/** The chunked transfer coding (`DecodeChunkedBody` of whep_http.cpp; section 7.1 of RFC 9112). */
module Chunked {
  import opened Wrappers
  import opened Text

  const MAXIMUM_RESPONSE_SIZE: nat := 4 * 1024 * 1024

  datatype ChunkError = IncompleteHeader | InvalidSize | IncompleteChunk | TooLarge

  // ---------------------------------------------------------------- the grammar

  /** One chunk on the wire: its size line without the line end, and its data. */
  datatype Chunk = Chunk(line: string, data: string)

  /** The size that a chunk header announces: the hexadecimal number it begins with. */
  function ChunkSize(line: string): (r: Result<nat, NumberError>)
    ensures r.Ok? ==> r.value < SIZE_LIMIT
  {
    FromChars(line, Hexadecimal, SIZE_LIMIT)
  }

  /** Cutting an extension off before reading the number makes no difference. */
  lemma ExtensionIgnored(line: string, semicolon: nat)
    requires semicolon < |line| && line[semicolon] == ';'
    ensures FromChars(line[..semicolon], Hexadecimal, SIZE_LIMIT) == ChunkSize(line)
  {
    var n := DigitRun(line, Hexadecimal, 0);
    DigitRunHoldsDigits(line, Hexadecimal, 0);
    DigitRunIs(line[..semicolon], Hexadecimal, n);
    NumberOfPrefix(line, line[..semicolon], Hexadecimal, n);
  }

  predicate ValidChunk(c: Chunk) {
    && !HasLineEnd(c.line)
    && c.data != ""
    && ChunkSize(c.line) == Ok(|c.data|)
  }

  predicate ValidChunks(chunks: seq<Chunk>) {
    forall c | c in chunks :: ValidChunk(c)
  }

  predicate ValidLastLine(line: string) {
    !HasLineEnd(line) && ChunkSize(line) == Ok(0)
  }

  function Wire(chunks: seq<Chunk>): string {
    if chunks == [] then ""
    else ChunkWire(chunks[0]) + Wire(chunks[1..])
  }

  function ChunkWire(c: Chunk): string {
    (c.line + CRLF) + (c.data + CRLF)
  }

  function Payload(chunks: seq<Chunk>): string {
    if chunks == [] then "" else chunks[0].data + Payload(chunks[1..])
  }

  /** A chunked body that carries `chunks` begins at `cursor`; what follows its last size line does not matter. */
  predicate IsChunkedBody(encoded: string, cursor: nat, chunks: seq<Chunk>, lastLine: string) {
    && ValidChunks(chunks)
    && ValidLastLine(lastLine)
    && OccursAt(encoded, Wire(chunks) + (lastLine + CRLF), cursor)
  }

  // ---------------------------------------------------------------- decoding

  /** `a - b` on `std::size_t`, which wraps around below zero. */
  function SizeDifference(a: nat, b: nat): nat
    requires b < SIZE_LIMIT
  {
    if b <= a then a - b else SIZE_LIMIT - (b - a)
  }

  /** What stands at the cursor: the last size line, or the data of a chunk. */
  datatype Step = Last | Data(begin: nat, size: nat)

  /** Reads the chunk at the cursor, when `already` bytes have been decoded. */
  function TakeChunk(encoded: string, cursor: nat, already: nat): (r: Result<Step, ChunkError>)
    ensures r.Ok? && r.value.Data? ==>
      cursor + 2 <= r.value.begin && r.value.size > 0 && r.value.begin + r.value.size + 2 <= |encoded|
  {
    match FindLineEnd(encoded, cursor)
    case None => Err(IncompleteHeader)
    case Some(lineEnd) =>
      match ChunkSize(encoded[cursor..lineEnd])
      case Err(_) => Err(InvalidSize)
      case Ok(size) =>
        if size == 0 then Ok(Last)
        else if !AtLineEnd(encoded, lineEnd + 2 + size) then Err(IncompleteChunk)
        else if already > SizeDifference(MAXIMUM_RESPONSE_SIZE, size) then Err(TooLarge)
        else Ok(Data(lineEnd + 2, size))
  }

  /** The meaning of decoding: chunk after chunk from the cursor on. */
  function Decoded(encoded: string, cursor: nat, already: nat): Result<string, ChunkError>
    decreases |encoded| - cursor
  {
    match TakeChunk(encoded, cursor, already)
    case Err(e) => Err(e)
    case Ok(Last) => Ok("")
    case Ok(Data(begin, size)) =>
      Prepend(encoded[begin..begin + size], Decoded(encoded, begin + size + 2, already + size))
  }

  function Prepend(head: string, r: Result<string, ChunkError>): Result<string, ChunkError> {
    match r
    case Ok(tail) => Ok(head + tail)
    case Err(e) => Err(e)
  }

  lemma PrependTwice(a: string, b: string, r: Result<string, ChunkError>)
    ensures Prepend(a, Prepend(b, r)) == Prepend(a + b, r)
    ensures Prepend("", r) == r
  {
    if r.Ok? {
      assert a + (b + r.value) == a + b + r.value;
      assert "" + r.value == r.value;
    }
  }

  /** Reads the size from a chunk header whose extension is cut off first. */
  method ReadChunkSize(line: string) returns (size: Result<nat, NumberError>)
    ensures size == ChunkSize(line)
  {
    var sizeText := line;
    var extension := FindChar(sizeText, ';');
    if extension.Some? {
      ExtensionIgnored(line, extension.value);
      sizeText := sizeText[..extension.value];
    }
    size := FromChars(sizeText, Hexadecimal, SIZE_LIMIT);
  }

  /** The outcome of decoding on from the cursor, when `decoded` has been decoded before it. */
  function Outcome(encoded: string, cursor: nat, decoded: string): Result<string, ChunkError> {
    Prepend(decoded, Decoded(encoded, cursor, |decoded|))
  }

  lemma OutcomeStep(encoded: string, cursor: nat, decoded: string, step: Result<Step, ChunkError>)
    requires step == TakeChunk(encoded, cursor, |decoded|)
    ensures step.Err? ==> Outcome(encoded, cursor, decoded) == Err(step.error)
    ensures step == Ok(Last) ==> Outcome(encoded, cursor, decoded) == Ok(decoded)
    ensures step.Ok? && step.value.Data? ==>
      var begin, end := step.value.begin, step.value.begin + step.value.size;
      Outcome(encoded, cursor, decoded) == Outcome(encoded, end + 2, decoded + encoded[begin..end])
  {
    hide TakeChunk;
    match step {
      case Err(e) =>
      case Ok(Last) =>
        assert decoded + "" == decoded;
      case Ok(Data(begin, size)) =>
        PrependTwice(decoded, encoded[begin..begin + size], Decoded(encoded, begin + size + 2, |decoded| + size));
    }
  }

  /** The checks on one chunk: its header, its size, the line end behind its data, and the size decoded so far. */
  method ReadChunk(encoded: string, cursor: nat, already: nat) returns (step: Result<Step, ChunkError>)
    requires cursor <= |encoded|
    ensures step == TakeChunk(encoded, cursor, already)
  {
    hide ChunkSize;
    var lineEnd := FindLineEnd(encoded, cursor);
    if lineEnd.None? {
      return Err(IncompleteHeader);
    }
    var size := ReadChunkSize(encoded[cursor..lineEnd.value]);
    if size.Err? {
      return Err(InvalidSize);
    }
    var chunkSize := size.value;
    var begin := lineEnd.value + 2;
    if chunkSize == 0 {
      return Ok(Last);
    }
    if chunkSize > |encoded| - begin
      || |encoded| - begin - chunkSize < 2
      || !AtLineEnd(encoded, begin + chunkSize)
    {
      return Err(IncompleteChunk);
    }
    if already > SizeDifference(MAXIMUM_RESPONSE_SIZE, chunkSize) {
      return Err(TooLarge);
    }
    return Ok(Data(begin, chunkSize));
  }

  /** Decodes a chunked body with a cursor that moves over the text. */
  method DecodeChunkedBody(encoded: string) returns (result: Result<string, ChunkError>)
    ensures result == Decoded(encoded, 0, 0)
  {
    var cursor := 0;
    var decoded := "";
    PrependTwice("", "", Decoded(encoded, 0, 0));
    assert Outcome(encoded, 0, "") == Decoded(encoded, 0, 0);
    hide *;
    while true
      invariant |decoded| <= cursor <= |encoded|
      invariant Decoded(encoded, 0, 0) == Outcome(encoded, cursor, decoded)
      decreases |encoded| - cursor
    {
      var step := ReadChunk(encoded, cursor, |decoded|);
      OutcomeStep(encoded, cursor, decoded, step);
      match step {
        case Err(error) =>
          return Err(error);
        case Ok(Last) =>
          return Ok(decoded);
        case Ok(Data(begin, size)) =>
          decoded := decoded + encoded[begin..begin + size];
          cursor := begin + size + 2;
      }
    }
  }

  // ---------------------------------------------------------------- decoding inverts the grammar

  /** The wire form of a chunk, piece by piece. */
  lemma ChunkWireAt(encoded: string, c: Chunk, cursor: nat)
    ensures OccursAt(encoded, ChunkWire(c), cursor) <==>
      && OccursAt(encoded, c.line, cursor)
      && AtLineEnd(encoded, cursor + |c.line|)
      && OccursAt(encoded, c.data, cursor + |c.line| + 2)
      && AtLineEnd(encoded, cursor + |c.line| + 2 + |c.data|)
  {
    OccursConcat(encoded, c.line + CRLF, c.data + CRLF, cursor);
    OccursConcat(encoded, c.line, CRLF, cursor);
    OccursConcat(encoded, c.data, CRLF, cursor + |c.line| + 2);
    LineEndOccurs(encoded, cursor + |c.line|);
    LineEndOccurs(encoded, cursor + |c.line| + 2 + |c.data|);
  }

  /** A body with at least one chunk is that chunk and a body behind it. */
  lemma BodyStep(encoded: string, cursor: nat, chunks: seq<Chunk>, lastLine: string)
    requires chunks != []
    ensures IsChunkedBody(encoded, cursor, chunks, lastLine) <==>
      && ValidChunk(chunks[0])
      && OccursAt(encoded, ChunkWire(chunks[0]), cursor)
      && IsChunkedBody(encoded, cursor + |ChunkWire(chunks[0])|, chunks[1..], lastLine)
  {
    var first, tail := ChunkWire(chunks[0]), Wire(chunks[1..]) + (lastLine + CRLF);
    assert Wire(chunks) + (lastLine + CRLF) == first + tail;
    OccursConcat(encoded, first, tail, cursor);
    assert chunks == [chunks[0]] + chunks[1..];
  }

  lemma BodyCons(encoded: string, cursor: nat, c: Chunk, more: seq<Chunk>, lastLine: string)
    requires ValidChunk(c) && OccursAt(encoded, ChunkWire(c), cursor)
    requires IsChunkedBody(encoded, cursor + |ChunkWire(c)|, more, lastLine)
    ensures IsChunkedBody(encoded, cursor, [c] + more, lastLine)
    ensures Payload([c] + more) == c.data + Payload(more)
  {
    assert ([c] + more)[1..] == more;
    BodyStep(encoded, cursor, [c] + more, lastLine);
  }

  lemma BodyNil(encoded: string, cursor: nat, lastLine: string)
    requires ValidLastLine(lastLine) && OccursAt(encoded, lastLine + CRLF, cursor)
    ensures IsChunkedBody(encoded, cursor, [], lastLine)
  {
    assert Wire([]) + (lastLine + CRLF) == lastLine + CRLF;
  }

  /** A valid chunk at the cursor is taken whole. */
  lemma TakesValidChunk(encoded: string, cursor: nat, c: Chunk, already: nat)
    requires ValidChunk(c) && OccursAt(encoded, ChunkWire(c), cursor)
    ensures already + |c.data| <= MAXIMUM_RESPONSE_SIZE ==>
      TakeChunk(encoded, cursor, already) == Ok(Data(cursor + |c.line| + 2, |c.data|))
    ensures TakeChunk(encoded, cursor, already).Ok? ==>
      TakeChunk(encoded, cursor, already) == Ok(Data(cursor + |c.line| + 2, |c.data|))
    ensures cursor + |c.line| + 2 + |c.data| <= |encoded|
    ensures encoded[cursor + |c.line| + 2..cursor + |c.line| + 2 + |c.data|] == c.data
  {
    ChunkWireAt(encoded, c, cursor);
    LineEndsAt(encoded, c.line, cursor);
    OccursSlice(encoded, c.line, cursor);
    OccursSlice(encoded, c.data, cursor + |c.line| + 2);
  }

  /** A chunk that was taken is a valid chunk, and its wire form stands at the cursor. */
  lemma TakenChunkIsValid(encoded: string, cursor: nat, already: nat) returns (c: Chunk)
    requires TakeChunk(encoded, cursor, already).Ok? && TakeChunk(encoded, cursor, already).value.Data?
    ensures ValidChunk(c) && OccursAt(encoded, ChunkWire(c), cursor)
    ensures TakeChunk(encoded, cursor, already) == Ok(Data(cursor + |c.line| + 2, |c.data|))
    ensures encoded[cursor + |c.line| + 2..cursor + |c.line| + 2 + |c.data|] == c.data
  {
    var lineEnd := FindLineEnd(encoded, cursor).value;
    var size := TakeChunk(encoded, cursor, already).value.size;
    c := Chunk(encoded[cursor..lineEnd], encoded[lineEnd + 2..lineEnd + 2 + size]);
    BeforeLineEnd(encoded, cursor);
    OccursSlice(encoded, c.line, cursor);
    OccursSlice(encoded, c.data, lineEnd + 2);
    ChunkWireAt(encoded, c, cursor);
  }

  lemma LastLineAt(encoded: string, cursor: nat, line: string)
    requires ValidLastLine(line)
    requires OccursAt(encoded, line + CRLF, cursor)
    ensures forall already :: TakeChunk(encoded, cursor, already) == Ok(Last)
  {
    OccursConcat(encoded, line, CRLF, cursor);
    LineEndOccurs(encoded, cursor + |line|);
    LineEndsAt(encoded, line, cursor);
    OccursSlice(encoded, line, cursor);
  }

  /** A last size line that was taken is valid, and stands at the cursor. */
  lemma TakenLastLineIsValid(encoded: string, cursor: nat, already: nat) returns (line: string)
    requires TakeChunk(encoded, cursor, already) == Ok(Last)
    ensures ValidLastLine(line) && OccursAt(encoded, line + CRLF, cursor)
  {
    var lineEnd := FindLineEnd(encoded, cursor).value;
    line := encoded[cursor..lineEnd];
    BeforeLineEnd(encoded, cursor);
    OccursSlice(encoded, line, cursor);
    OccursConcat(encoded, line, CRLF, cursor);
    LineEndOccurs(encoded, lineEnd);
  }

  /** Every chunked body within the limit decodes to its payload (chunk extensions and trailers included). */
  lemma {:induction false} DecodesGrammar(encoded: string, cursor: nat, chunks: seq<Chunk>, lastLine: string, already: nat)
    requires IsChunkedBody(encoded, cursor, chunks, lastLine)
    requires already + |Payload(chunks)| <= MAXIMUM_RESPONSE_SIZE
    ensures Decoded(encoded, cursor, already) == Ok(Payload(chunks))
    decreases |chunks|
  {
    hide TakeChunk;
    if chunks == [] {
      assert Wire(chunks) + (lastLine + CRLF) == lastLine + CRLF;
      LastLineAt(encoded, cursor, lastLine);
    } else {
      BodyStep(encoded, cursor, chunks, lastLine);
      TakesValidChunk(encoded, cursor, chunks[0], already);
      DecodesGrammar(encoded, cursor + |ChunkWire(chunks[0])|, chunks[1..], lastLine, already + |chunks[0].data|);
    }
  }

  /** A chunked body of any size decodes to nothing but its payload. */
  lemma {:induction false} DecodesOnlyToPayload(encoded: string, cursor: nat, chunks: seq<Chunk>, lastLine: string, already: nat)
    requires IsChunkedBody(encoded, cursor, chunks, lastLine)
    ensures Decoded(encoded, cursor, already).Ok? ==> Decoded(encoded, cursor, already) == Ok(Payload(chunks))
    decreases |chunks|
  {
    hide TakeChunk;
    if chunks == [] {
      assert Wire(chunks) + (lastLine + CRLF) == lastLine + CRLF;
      LastLineAt(encoded, cursor, lastLine);
    } else {
      BodyStep(encoded, cursor, chunks, lastLine);
      TakesValidChunk(encoded, cursor, chunks[0], already);
      DecodesOnlyToPayload(encoded, cursor + |ChunkWire(chunks[0])|, chunks[1..], lastLine, already + |chunks[0].data|);
    }
  }

  /** Whatever decodes is a chunked body of the grammar, and the result is its payload. */
  lemma {:induction false} DecodedIsGrammar(encoded: string, cursor: nat, already: nat)
    returns (chunks: seq<Chunk>, lastLine: string)
    requires Decoded(encoded, cursor, already).Ok?
    ensures IsChunkedBody(encoded, cursor, chunks, lastLine)
    ensures Decoded(encoded, cursor, already) == Ok(Payload(chunks))
    decreases |encoded| - cursor
  {
    hide TakeChunk, IsChunkedBody;
    match TakeChunk(encoded, cursor, already).value {
      case Last =>
        chunks := [];
        lastLine := TakenLastLineIsValid(encoded, cursor, already);
        BodyNil(encoded, cursor, lastLine);
      case Data(begin, size) =>
        var c := TakenChunkIsValid(encoded, cursor, already);
        var more;
        more, lastLine := DecodedIsGrammar(encoded, begin + size + 2, already + size);
        chunks := [c] + more;
        BodyCons(encoded, cursor, c, more, lastLine);
    }
  }

  /** Wherever the chunk size is subtracted from the limit, it is no larger than the limit, so nothing wraps around. */
  lemma NoSizeWraps(encoded: string, cursor: nat, lineEnd: nat, size: nat)
    requires |encoded| <= MAXIMUM_RESPONSE_SIZE
    requires FindLineEnd(encoded, cursor) == Some(lineEnd) && ChunkSize(encoded[cursor..lineEnd]) == Ok(size)
    requires AtLineEnd(encoded, lineEnd + 2 + size)
    ensures size <= MAXIMUM_RESPONSE_SIZE && SizeDifference(MAXIMUM_RESPONSE_SIZE, size) == MAXIMUM_RESPONSE_SIZE - size
  {
  }

  lemma ChunkFits(encoded: string, cursor: nat, already: nat)
    requires already <= cursor <= |encoded| <= MAXIMUM_RESPONSE_SIZE
    ensures TakeChunk(encoded, cursor, already) != Err(TooLarge)
  {
    hide ChunkSize;
  }

  /** Within the response limit the body is never too large, and no more is decoded than has been consumed. */
  lemma {:induction false} NeverTooLarge(encoded: string, cursor: nat, already: nat)
    requires already <= cursor <= |encoded| <= MAXIMUM_RESPONSE_SIZE
    ensures Decoded(encoded, cursor, already) != Err(TooLarge)
    ensures Decoded(encoded, cursor, already).Ok? ==> |Decoded(encoded, cursor, already).value| <= |encoded| - cursor
    decreases |encoded| - cursor
  {
    hide TakeChunk;
    ChunkFits(encoded, cursor, already);
    var step := TakeChunk(encoded, cursor, already);
    if step.Ok? && step.value.Data? {
      NeverTooLarge(encoded, step.value.begin + step.value.size + 2, already + step.value.size);
    }
  }

  /** Within the limit, decoding succeeds exactly on the chunked bodies, with exactly their payload. */
  lemma DecodesExactlyTheGrammar(encoded: string, payload: string)
    requires |encoded| <= MAXIMUM_RESPONSE_SIZE
    ensures Decoded(encoded, 0, 0) == Ok(payload) <==>
      exists chunks, lastLine :: IsChunkedBody(encoded, 0, chunks, lastLine) && Payload(chunks) == payload
  {
    if Decoded(encoded, 0, 0) == Ok(payload) {
      var chunks, lastLine := DecodedIsGrammar(encoded, 0, 0);
    }
    forall chunks, lastLine | IsChunkedBody(encoded, 0, chunks, lastLine)
      ensures Decoded(encoded, 0, 0) == Ok(Payload(chunks))
    {
      PayloadFitsWire(chunks);
      DecodesGrammar(encoded, 0, chunks, lastLine, 0);
    }
  }

  lemma {:induction false} PayloadFitsWire(chunks: seq<Chunk>)
    ensures |Payload(chunks)| <= |Wire(chunks)|
  {
    if chunks != [] {
      PayloadFitsWire(chunks[1..]);
    }
  }

  /** A body that decodes keeps its meaning when more bytes arrive behind it. */
  lemma DecodedInExtension(encoded: string, more: string)
    requires Decoded(encoded, 0, 0).Ok?
    requires |encoded| <= MAXIMUM_RESPONSE_SIZE
    ensures Decoded(encoded + more, 0, 0) == Decoded(encoded, 0, 0)
  {
    var chunks, lastLine := DecodedIsGrammar(encoded, 0, 0);
    PayloadFitsWire(chunks);
    var wire := Wire(chunks) + (lastLine + CRLF);
    assert (encoded + more)[0..|encoded|] == encoded;
    OccursInPart(encoded + more, 0, |encoded|, wire, 0);
    DecodesGrammar(encoded + more, 0, chunks, lastLine, 0);
  }

  // ---------------------------------------------------------------- which fault is reported

  /** Behind the chunks that begin at the cursor, decoding goes on with what follows them. */
  lemma {:induction false} DecodesChunksFirst(encoded: string, cursor: nat, chunks: seq<Chunk>, already: nat)
    requires ValidChunks(chunks) && OccursAt(encoded, Wire(chunks), cursor)
    requires already + |Payload(chunks)| <= MAXIMUM_RESPONSE_SIZE
    ensures Decoded(encoded, cursor, already) ==
      Prepend(Payload(chunks), Decoded(encoded, cursor + |Wire(chunks)|, already + |Payload(chunks)|))
    decreases |chunks|
  {
    hide TakeChunk, OccursAt, ValidChunk;
    if chunks == [] {
      PrependTwice("", "", Decoded(encoded, cursor, already));
    } else {
      var c, more := chunks[0], chunks[1..];
      OccursConcat(encoded, ChunkWire(c), Wire(more), cursor);
      TakesValidChunk(encoded, cursor, c, already);
      DecodesChunksFirst(encoded, cursor + |ChunkWire(c)|, more, already + |c.data|);
      var end := cursor + |Wire(chunks)|;
      PrependTwice(c.data, Payload(more), Decoded(encoded, end, already + |Payload(chunks)|));
    }
  }

  /** A body whose chunks are followed by text without a line end lacks a chunk header. */
  lemma HeaderIsMissing(chunks: seq<Chunk>, rest: string)
    requires ValidChunks(chunks) && |Payload(chunks)| <= 4194304 && !HasLineEnd(rest)
    ensures Decoded(Wire(chunks) + rest, 0, 0) == Err(IncompleteHeader)
  {
    var wire, encoded := Wire(chunks), Wire(chunks) + rest;
    OccursSlice(encoded, wire, 0);
    DecodesChunksFirst(encoded, 0, chunks, 0);
    forall i | |wire| <= i
      ensures !AtLineEnd(encoded, i)
    {
      assert !AtLineEnd(rest, i - |wire|);
    }
  }

  /**
    Behind any chunks, a size line is refused if it begins with no hexadecimal digit or denotes no `std::size_t`; if it
    announces more bytes than follow it, or no line end stands behind them; and, with all of that in order, if the body
    so far and this chunk together exceed 4 MiB.
    */
  lemma SizeLineIsRefused(chunks: seq<Chunk>, line: string, rest: string)
    requires ValidChunks(chunks) && |Payload(chunks)| <= 4194304 && !HasLineEnd(line)
    ensures
      var (decoded, size) := (Decoded(Wire(chunks) + (line + CRLF + rest), 0, 0), FromChars(line, Hexadecimal, SIZE_LIMIT));
      && (size.Err? ==> decoded == Err(InvalidSize))
      && (size.Ok? && size.value != 0 && !AtLineEnd(rest, size.value) ==> decoded == Err(IncompleteChunk))
      && (size.Ok? && AtLineEnd(rest, size.value) && size.value <= 4194304 < |Payload(chunks)| + size.value ==>
            decoded == Err(TooLarge))
  {
    hide Decoded, FromChars, HasLineEnd;
    var wire := Wire(chunks);
    var encoded := wire + (line + CRLF + rest);
    OccursSlice(encoded, wire, 0);
    DecodesChunksFirst(encoded, 0, chunks, 0);
    FaultAt(encoded, |wire|, line, rest, |Payload(chunks)|);
  }

  lemma FaultAt(encoded: string, cursor: nat, line: string, rest: string, already: nat)
    requires cursor <= |encoded| && encoded[cursor..] == line + CRLF + rest && !HasLineEnd(line)
    requires already <= MAXIMUM_RESPONSE_SIZE
    ensures
      var (decoded, size) := (Decoded(encoded, cursor, already), FromChars(line, Hexadecimal, SIZE_LIMIT));
      && (size.Err? ==> decoded == Err(InvalidSize))
      && (size.Ok? && size.value != 0 && !AtLineEnd(rest, size.value) ==> decoded == Err(IncompleteChunk))
      && (size.Ok? && AtLineEnd(rest, size.value) && size.value <= MAXIMUM_RESPONSE_SIZE < already + size.value ==>
            decoded == Err(TooLarge))
  {
    hide FromChars;
    var text := line + CRLF + rest;
    assert |encoded| == cursor + |text|;
    forall k | 0 <= k < |text|
      ensures encoded[cursor + k] == text[k]
    {
      assert encoded[cursor..][k] == text[k];
    }
    assert OccursAt(encoded, line, cursor) && AtLineEnd(encoded, cursor + |line|);
    LineEndsAt(encoded, line, cursor);
    OccursSlice(encoded, line, cursor);
    var begin := cursor + |line| + 2;
    forall size: nat
      ensures AtLineEnd(encoded, begin + size) <==> AtLineEnd(rest, size)
    {
      if size + 2 <= |rest| {
        assert encoded[cursor + (|line| + 2 + size)] == rest[size];
        assert encoded[cursor + (|line| + 2 + size + 1)] == rest[size + 1];
      }
    }
  }

  // ---------------------------------------------------------------- encoding

  function HexDigit(n: nat, capital: bool): char
    requires n < 16
  {
    (if capital then "0123456789ABCDEF" else "0123456789abcdef")[n]
  }

  /** The hexadecimal text of a number, without leading zeros and with either kind of letters. */
  function HexText(n: nat, capital: bool): string {
    if n < 16 then [HexDigit(n, capital)] else HexText(n / 16, capital) + [HexDigit(n % 16, capital)]
  }

  lemma HexDigitDenotes(d: nat, capital: bool)
    requires d < 16
    ensures IsHexDigit(HexDigit(d, capital)) && DigitValue(HexDigit(d, capital)) == d
  {
    DigitsInOrder(d);
  }

  lemma {:induction false} HexTextDenotes(n: nat, capital: bool)
    ensures var text := HexText(n, capital);
      text != "" && AllDigits(text, Hexadecimal) && NumberOf(text, Hexadecimal) == n
    ensures forall c | c in HexText(n, capital) :: IsHexDigit(c)
  {
    hide HexDigit, DigitValue, IsHexDigit;
    var text := HexText(n, capital);
    HexDigitDenotes(n % 16, capital);
    if n >= 16 {
      HexTextDenotes(n / 16, capital);
      var high := HexText(n / 16, capital);
      NumberOfPrefix(text, high, Hexadecimal, |high|);
    } else {
      assert NumberUpTo(text, Hexadecimal, 0) == 0;
    }
  }

  /** A chunk extension is absent, or it is CRLF-free text behind a semicolon. */
  predicate ValidExtension(ext: string) {
    ext == "" || (ext[0] == ';' && !HasLineEnd(ext))
  }

  /** What a sender puts into one chunk: the data, an extension, and the kind of letters its size is written with. */
  datatype Piece = Piece(data: string, ext: string, capital: bool)

  function EncodedChunk(p: Piece): Chunk {
    Chunk(HexText(|p.data|, p.capital) + p.ext, p.data)
  }

  lemma SizeLineDenotes(n: nat, capital: bool, ext: string)
    requires n < SIZE_LIMIT && ValidExtension(ext)
    ensures ChunkSize(HexText(n, capital) + ext) == Ok(n)
    ensures !HasLineEnd(HexText(n, capital) + ext)
  {
    var hex := HexText(n, capital);
    var line := hex + ext;
    HexTextDenotes(n, capital);
    FromCharsReads(line, Hexadecimal, SIZE_LIMIT, |hex|);
    NumberOfPrefix(hex, line, Hexadecimal, |hex|);
    forall i | 0 <= i < |line|
      ensures !AtLineEnd(line, i)
    {
      assert i < |hex| ==> IsHexDigit(hex[i]);
      assert i >= |hex| ==> !AtLineEnd(ext, i - |hex|);
    }
  }

  /** The chunked encoding of a list of nonempty pieces, each with an extension. */
  function EncodedChunks(pieces: seq<Piece>): seq<Chunk> {
    seq(|pieces|, i requires 0 <= i < |pieces| => EncodedChunk(pieces[i]))
  }

  predicate Encodable(pieces: seq<Piece>) {
    forall p | p in pieces :: 0 < |p.data| < SIZE_LIMIT && ValidExtension(p.ext)
  }

  function Encode(pieces: seq<Piece>, lastExtension: string): string {
    Wire(EncodedChunks(pieces)) + ("0" + lastExtension + CRLF) + CRLF
  }

  function Joined(pieces: seq<Piece>): string {
    if pieces == [] then "" else pieces[0].data + Joined(pieces[1..])
  }

  lemma {:induction false} EncodedPayload(pieces: seq<Piece>)
    ensures Payload(EncodedChunks(pieces)) == Joined(pieces)
  {
    if pieces != [] {
      EncodedPayload(pieces[1..]);
      assert EncodedChunks(pieces)[1..] == EncodedChunks(pieces[1..]);
    }
  }

  /** Round trip: decoding an encoding that fits the limit gives back the concatenation of the pieces. */
  lemma ChunkedRoundTrip(pieces: seq<Piece>, lastExtension: string)
    requires Encodable(pieces) && ValidExtension(lastExtension)
    requires |Encode(pieces, lastExtension)| <= MAXIMUM_RESPONSE_SIZE
    ensures Decoded(Encode(pieces, lastExtension), 0, 0) == Ok(Joined(pieces))
  {
    var chunks := EncodedChunks(pieces);
    forall c | c in chunks
      ensures ValidChunk(c)
    {
      var i :| 0 <= i < |chunks| && chunks[i] == c;
      assert pieces[i] in pieces;
      SizeLineDenotes(|pieces[i].data|, pieces[i].capital, pieces[i].ext);
    }
    assert HexText(0, false) == "0";
    SizeLineDenotes(0, false, lastExtension);
    EncodedPayload(pieces);
    PayloadFitsWire(chunks);
    DecodesGrammar(Encode(pieces, lastExtension), 0, chunks, "0" + lastExtension, 0);
  }
}
