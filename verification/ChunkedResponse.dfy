/** Chunked responses read in fragments: when the receive loop takes them for complete. */
module ChunkedResponses {
  import opened Wrappers
  import opened Text
  import opened Chunked
  import opened HttpResponses
  import opened HttpMessages
  import opened HttpExchange

  const LAST_CHUNK: string := "0"

  /** The message of a head and chunks, closed by the plain last chunk without extension and trailer. */
  function Message(statusLine: string, fields: seq<Field>, chunks: seq<Chunk>): string {
    Head(statusLine, fields) + (Wire(chunks) + (LAST_CHUNK + CRLF) + CRLF)
  }

  /** A head whose one transfer coding field names the chunked coding, without a length field. */
  ghost predicate AnnouncesChunking(statusLine: string, fields: seq<Field>) {
    && ValidHead(statusLine, fields)
    && NoField(fields, CONTENT_LENGTH)
    && exists f :: OnlyField(fields, TRANSFER_ENCODING, f) && Contains(Lowercase(Trimmed(f.value)), "chunked")
  }

  /** The mark of a last chunk occurs in the data of a chunk, or straddles one of the two line ends around it. */
  predicate HoldsMark(c: Chunk) {
    exists i | 0 <= i < |c.data| + 4 :: AtLastChunk(CRLF + (c.data + CRLF), i)
  }

  // ---------------------------------------------------------------- where the mark occurs

  lemma LastChunkIsLast()
    ensures ValidLastLine(LAST_CHUNK)
  {
    FromCharsReads(LAST_CHUNK, Hexadecimal, SIZE_LIMIT, 1);
    assert NumberUpTo(LAST_CHUNK, Hexadecimal, 0) == 0;
  }

  /** A size line begins with a hexadecimal digit, and the line of a chunk with data is not "0". */
  lemma ChunkLineStarts(c: Chunk)
    requires ValidChunk(c)
    ensures c.line != "" && IsHexDigit(c.line[0]) && c.line != LAST_CHUNK
  {
    DigitRunHoldsDigits(c.line, Hexadecimal, 0);
    LastChunkIsLast();
  }

  /** The plain end of a chunked body stands at `z`, and the message ends with it. */
  predicate EndsAt(message: string, z: nat) {
    |message| == z + 5 && message[z] == '0' && AtHeaderEnd(message, z + 1)
  }

  /** The chunks stand at `c`, behind a line end, and the plain end of the body behind them. */
  predicate ChunksAt(message: string, c: nat, chunks: seq<Chunk>) {
    && ValidChunks(chunks)
    && c >= 2 && AtLineEnd(message, c - 2)
    && OccursAt(message, Wire(chunks), c)
    && EndsAt(message, c + |Wire(chunks)|)
  }

  lemma ChunksAtStep(message: string, c: nat, chunks: seq<Chunk>)
    requires chunks != [] && ChunksAt(message, c, chunks)
    ensures ValidChunk(chunks[0]) && OccursAt(message, ChunkWire(chunks[0]), c)
    ensures ChunksAt(message, c + |ChunkWire(chunks[0])|, chunks[1..])
    ensures |Wire(chunks)| == |ChunkWire(chunks[0])| + |Wire(chunks[1..])|
  {
    OccursConcat(message, ChunkWire(chunks[0]), Wire(chunks[1..]), c);
    ChunkWireAt(message, chunks[0], c);
  }

  /** What follows a line end behind chunk data is a hexadecimal digit: of the next size line, or the last "0". */
  lemma DigitFollows(message: string, c: nat, chunks: seq<Chunk>)
    requires ChunksAt(message, c, chunks)
    ensures c < |message| && IsHexDigit(message[c])
  {
    if chunks != [] {
      ChunksAtStep(message, c, chunks);
      ChunkWireAt(message, chunks[0], c);
      ChunkLineStarts(chunks[0]);
      assert message[c + 0] == chunks[0].line[0];
    }
  }

  lemma MarkInText(message: string, at: nat, text: string, i: nat)
    requires OccursAt(message, text, at) && at <= i && i + 7 <= at + |text|
    ensures AtLastChunk(message, i) <==> AtLastChunk(text, i - at)
  {
    forall k | at <= k < at + |text|
      ensures message[k] == text[k - at]
    {
      assert message[at + (k - at)] == text[k - at];
    }
  }

  /** The data of a chunk between its two line ends. */
  lemma DataBetweenLineEnds(message: string, c: nat, chunk: Chunk)
    requires OccursAt(message, ChunkWire(chunk), c)
    ensures OccursAt(message, CRLF + (chunk.data + CRLF), c + |chunk.line|)
    ensures OccursAt(message, chunk.line, c) && AtLineEnd(message, c + |chunk.line|)
    ensures AtLineEnd(message, c + |chunk.line| + 2 + |chunk.data|)
  {
    ChunkWireAt(message, chunk, c);
    LineEndOccurs(message, c + |chunk.line|);
    LineEndOccurs(message, c + |chunk.line| + 2 + |chunk.data|);
    OccursConcat(message, CRLF, chunk.data + CRLF, c + |chunk.line|);
    OccursConcat(message, chunk.data, CRLF, c + |chunk.line| + 2);
  }

  /** A mark that begins at or behind the line end before a chunk lies in that chunk's data, or behind it. */
  lemma MarkPassesChunk(message: string, c: nat, chunks: seq<Chunk>, i: nat)
    requires chunks != [] && ChunksAt(message, c, chunks)
    requires c - 2 <= i && AtLastChunk(message, i)
    ensures var e := c + |ChunkWire(chunks[0])|;
      || e - 2 <= i
      || (c + |chunks[0].line| <= i && i + 7 <= e
          && AtLastChunk(CRLF + (chunks[0].data + CRLF), i - (c + |chunks[0].line|)))
  {
    var chunk := chunks[0];
    var e := c + |ChunkWire(chunk)|;
    ChunksAtStep(message, c, chunks);
    DataBetweenLineEnds(message, c, chunk);
    DigitFollows(message, e, chunks[1..]);
    MarkNotInLine(message, c, chunk, i);
    MarkInData(message, c + |chunk.line|, chunk.data, e, i);
  }

  /** A mark that begins at or behind the line end before some data lies in the data and the line ends around it, or behind. */
  lemma MarkInData(message: string, begin: nat, data: string, e: nat, i: nat)
    requires OccursAt(message, CRLF + (data + CRLF), begin) && e == begin + |data| + 4
    requires AtLineEnd(message, e - 2) && e < |message| && IsHexDigit(message[e])
    requires begin <= i && AtLastChunk(message, i)
    ensures e - 2 <= i || (i + 7 <= e && AtLastChunk(CRLF + (data + CRLF), i - begin))
  {
    hide OccursAt;
    if i + 7 <= e {
      MarkInText(message, begin, CRLF + (data + CRLF), i);
    }
  }

  /** No mark begins at the line end before a size line, or within it. */
  lemma MarkNotInLine(message: string, c: nat, chunk: Chunk, i: nat)
    requires ValidChunk(chunk) && c >= 2 && AtLineEnd(message, c - 2)
    requires OccursAt(message, chunk.line, c) && AtLineEnd(message, c + |chunk.line|)
    requires c - 2 <= i && AtLastChunk(message, i)
    ensures c + |chunk.line| <= i
  {
    LineEndsAt(message, chunk.line, c);
    ChunkLineStarts(chunk);
    OccursSlice(message, chunk.line, c);
    hide OccursAt, ValidChunk;
    assert |chunk.line| == 1 ==> message[c..c + 1] == [message[c]];
  }

  /** Without a mark in any chunk, the only mark is the end of the message. */
  lemma {:induction false} OnlyMarkIsLast(message: string, c: nat, chunks: seq<Chunk>, i: nat)
    requires ChunksAt(message, c, chunks)
    requires forall chunk | chunk in chunks :: !HoldsMark(chunk)
    requires c - 2 <= i && AtLastChunk(message, i)
    ensures i + 7 == |message|
    decreases |chunks|
  {
    if chunks != [] {
      MarkPassesChunk(message, c, chunks, i);
      ChunksAtStep(message, c, chunks);
      assert !HoldsMark(chunks[0]);
      OnlyMarkIsLast(message, c + |ChunkWire(chunks[0])|, chunks[1..], i);
    }
  }

  /** A mark in the data of a chunk is a mark in the message, before its end. */
  lemma {:induction false} MarkInChunk(message: string, c: nat, chunks: seq<Chunk>, chunk: Chunk) returns (i: nat)
    requires ChunksAt(message, c, chunks)
    requires chunk in chunks && HoldsMark(chunk)
    ensures c <= i && AtLastChunk(message, i) && i + 7 < |message|
    decreases |chunks|
  {
    ChunksAtStep(message, c, chunks);
    if chunk == chunks[0] {
      var text := CRLF + (chunk.data + CRLF);
      var k :| 0 <= k < |chunk.data| + 4 && AtLastChunk(text, k);
      DataBetweenLineEnds(message, c, chunk);
      i := c + |chunk.line| + k;
      MarkInText(message, c + |chunk.line|, text, i);
    } else {
      i := MarkInChunk(message, c + |ChunkWire(chunks[0])|, chunks[1..], chunk);
    }
  }

  // ---------------------------------------------------------------- completeness of a chunked response

  /** A message is its head, the chunks behind it, and the plain end. */
  lemma MessageParts(statusLine: string, fields: seq<Field>, chunks: seq<Chunk>)
    requires ValidHead(statusLine, fields) && ValidChunks(chunks)
    ensures var message := Message(statusLine, fields, chunks);
      && OccursAt(message, Head(statusLine, fields), 0)
      && ChunksAt(message, |Head(statusLine, fields)|, chunks)
  {
    var head, wire := Head(statusLine, fields), Wire(chunks);
    var message := Message(statusLine, fields, chunks);
    assert message == head + (wire + (LAST_CHUNK + CRLF + CRLF));
    OccursSlice(message, head, 0);
    OccursSlice(message, wire, |head|);
    HeadEnds(message, statusLine, fields);
  }

  lemma ChunkingHead(statusLine: string, fields: seq<Field>)
    requires AnnouncesChunking(statusLine, fields)
    ensures ValidHead(statusLine, fields) && NamesChunked(fields)
  {
    var f := CodingField(statusLine, fields);
    OnlyIsFirstAndLast(fields, TRANSFER_ENCODING, f);
  }

  /** The end of the chunks as the text that is searched for. */
  lemma EndInText(bytes: string, begin: nat)
    requires begin <= |bytes|
    ensures ChunksEnd(bytes, begin) <==> bytes[begin..] == "0\r\n\r\n" || Contains(bytes[begin..], "\r\n0\r\n\r\n")
  {
    var body := bytes[begin..];
    assert |body| == 5 ==> (body == "0\r\n\r\n" <==> body[0] == '0' && AtHeaderEnd(body, 1));
    forall i: nat
      ensures AtLastChunk(bytes, begin + i) <==> OccursAt(body, "\r\n0\r\n\r\n", i)
    {
      SameMark(bytes, begin, body, i);
      MarkIsText(body, i);
    }
    if i :| begin <= i < |bytes| && AtLastChunk(bytes, i) {
      assert OccursAt(body, "\r\n0\r\n\r\n", i - begin);
    }
    if i :| 0 <= i <= |body| && OccursAt(body, "\r\n0\r\n\r\n", i) {
      assert AtLastChunk(bytes, begin + i);
    }
  }

  lemma MarkIsText(s: string, i: nat)
    ensures AtLastChunk(s, i) <==> OccursAt(s, "\r\n0\r\n\r\n", i)
  {
    if i + 7 <= |s| {
      assert s[i..i + 7] == [s[i], s[i + 1], s[i + 2], s[i + 3], s[i + 4], s[i + 5], s[i + 6]];
      OccursSlice(s, "\r\n0\r\n\r\n", i);
    }
  }

  /**
    Without a length field, a response is complete exactly if it has a transfer coding field, the word "chunked" stands
    anywhere in its head, and the body is the plain empty one or the mark of a last chunk stands anywhere in it.
    */
  lemma CompleteWithoutLength(bytes: string, statusLine: string, fields: seq<Field>)
    requires ValidHead(statusLine, fields) && OccursAt(bytes, Head(statusLine, fields), 0)
    requires NoField(fields, CONTENT_LENGTH)
    ensures |Head(statusLine, fields)| <= |bytes|
    ensures var (head, body) := (bytes[..|Head(statusLine, fields)| - 4], bytes[|Head(statusLine, fields)|..]);
      ResponseIsComplete(bytes) <==>
        && !NoField(fields, TRANSFER_ENCODING)
        && Contains(Lowercase(head), "chunked")
        && (body == "0\r\n\r\n" || Contains(body, "\r\n0\r\n\r\n"))
  {
    KnownKeys();
    HeadFits(bytes, statusLine, fields);
    hide ChunksEnd, FindKey, LengthReached, ValidKey, NoField, Contains, OccursAt;
    HeadEnds(bytes, statusLine, fields);
    FindsNoKey(bytes, statusLine, fields, CONTENT_LENGTH);
    if NoField(fields, TRANSFER_ENCODING) {
      FindsNoKey(bytes, statusLine, fields, TRANSFER_ENCODING);
    } else {
      var f := SomeFirstField(fields, TRANSFER_ENCODING);
      var at := FindsKey(bytes, statusLine, fields, TRANSFER_ENCODING, f);
    }
    FindsIfContained(Lowercase(bytes[..|Head(statusLine, fields)| - 4]), "chunked");
    EndInText(bytes, |Head(statusLine, fields)|);
  }

  lemma FindsIfContained(s: string, p: string)
    ensures Find(s, p, 0).Some? <==> Contains(s, p)
  {
    if Contains(s, p) {
      var i :| 0 <= i <= |s| && OccursAt(s, p, i);
    }
    assert Find(s, p, 0).Some? ==> OccursAt(s, p, Find(s, p, 0).value);
  }

  /** Whether a chunked response is complete depends only on its marks, once the head is there. */
  lemma CompleteByMarks(bytes: string, statusLine: string, fields: seq<Field>)
    requires AnnouncesChunking(statusLine, fields) && OccursAt(bytes, Head(statusLine, fields), 0)
    ensures ResponseIsComplete(bytes) <==> ChunksEnd(bytes, |Head(statusLine, fields)|)
  {
    KnownKeys();
    hide AnnouncesChunks, ChunksEnd, FindKey, LengthReached, ValidKey;
    HeadEnds(bytes, statusLine, fields);
    FindsNoKey(bytes, statusLine, fields, CONTENT_LENGTH);
    CodingIsFound(bytes, statusLine, fields);
  }

  lemma CodingIsFound(bytes: string, statusLine: string, fields: seq<Field>)
    requires AnnouncesChunking(statusLine, fields) && OccursAt(bytes, Head(statusLine, fields), 0)
    ensures |Head(statusLine, fields)| <= |bytes|
    ensures AnnouncesChunks(Lowercase(bytes[..|Head(statusLine, fields)| - 4]))
  {
    KnownKeys();
    hide FindKey, Contains, ValidKey, OnlyField, ValidField;
    var f := CodingField(statusLine, fields);
    FieldIsFound(bytes, statusLine, fields, TRANSFER_ENCODING, f, "chunked");
  }

  /** The name of a field and what its value contains are found in the lower-cased header. */
  lemma FieldIsFound(bytes: string, statusLine: string, fields: seq<Field>, key: string, f: Field, text: string)
    requires ValidHead(statusLine, fields) && OccursAt(bytes, Head(statusLine, fields), 0)
    requires ValidKey(key) && ValidField(f) && OnlyField(fields, key, f)
    requires Contains(Lowercase(Trimmed(f.value)), text)
    ensures |Head(statusLine, fields)| <= |bytes|
    ensures FindKey(Lowercase(bytes[..|Head(statusLine, fields)| - 4]), key).Some?
    ensures Find(Lowercase(bytes[..|Head(statusLine, fields)| - 4]), text, 0).Some?
  {
    var headerEnd := |Head(statusLine, fields)| - 4;
    var at := FindsKey(bytes, statusLine, fields, key, f);
    FieldValueAt(bytes, headerEnd, f, at);
    hide *;
    var i := ValueContains(f.value, text);
    ValueInHeader(bytes, headerEnd, at + |f.name| + 1, f.value, text, i);
  }

  lemma FieldValueAt(bytes: string, headerEnd: nat, f: Field, at: nat)
    requires ValidField(f) && FieldStandsAt(bytes, headerEnd, f, at)
    ensures var begin := at + |f.name| + 1;
      begin + |f.value| <= headerEnd <= |bytes| && bytes[begin..begin + |f.value|] == f.value
  {
    FieldAt(bytes, at, f);
  }

  lemma CodingField(statusLine: string, fields: seq<Field>) returns (f: Field)
    requires AnnouncesChunking(statusLine, fields)
    ensures OnlyField(fields, TRANSFER_ENCODING, f) && ValidField(f)
    ensures Contains(Lowercase(Trimmed(f.value)), "chunked")
  {
    f :| OnlyField(fields, TRANSFER_ENCODING, f) && Contains(Lowercase(Trimmed(f.value)), "chunked");
    assert f in fields;
  }

  /** What the trimmed value contains, the lower-cased value contains. */
  lemma ValueContains(value: string, text: string) returns (i: nat)
    requires Contains(Lowercase(Trimmed(value)), text)
    ensures OccursAt(Lowercase(value), text, i)
  {
    var l := TrimLeftPrefix(value);
    var r := TrimRightSuffix(TrimLeft(value));
    i := MiddleContains(l, Trimmed(value), r, text);
    assert value == l + (Trimmed(value) + r);
  }

  lemma MiddleContains(l: string, middle: string, r: string, text: string) returns (i: nat)
    requires Contains(Lowercase(middle), text)
    ensures OccursAt(Lowercase(l + (middle + r)), text, i)
  {
    var k :| 0 <= k <= |middle| && OccursAt(Lowercase(middle), text, k);
    FitsIn(Lowercase(middle), text, k);
    hide OccursAt;
    var all := Lowercase(l + (middle + r));
    assert all[|l|..|l| + |middle|] == Lowercase(middle);
    i := |l| + k;
    OccursInPart(all, |l|, |l| + |middle|, text, i);
  }

  lemma FitsIn(s: string, p: string, k: nat)
    requires OccursAt(s, p, k)
    ensures k + |p| <= |s|
  {
  }

  /** What the lower-cased value contains, the lower-cased header contains. */
  lemma ValueInHeader(bytes: string, headerEnd: nat, begin: nat, value: string, text: string, i: nat)
    requires headerEnd <= |bytes| && begin + |value| <= headerEnd && bytes[begin..begin + |value|] == value
    requires OccursAt(Lowercase(value), text, i)
    ensures Find(Lowercase(bytes[..headerEnd]), text, 0).Some?
  {
    FitsIn(Lowercase(value), text, i);
    hide OccursAt;
    var header := Lowercase(bytes[..headerEnd]);
    assert header[begin..begin + |value|] == Lowercase(value);
    OccursInPart(header, begin, begin + |value|, text, begin + i);
  }

  /**
    The receive loop takes a chunked response for complete before its end exactly when the mark occurs in the
    data of a chunk, line ends included; the whole message is always complete.
    */
  lemma PrematureExactlyOnMark(statusLine: string, fields: seq<Field>, chunks: seq<Chunk>)
    requires AnnouncesChunking(statusLine, fields) && ValidChunks(chunks)
    ensures ResponseIsComplete(Message(statusLine, fields, chunks))
    ensures (exists n | 0 <= n < |Message(statusLine, fields, chunks)| ::
               ResponseIsComplete(Message(statusLine, fields, chunks)[..n]))
            <==> exists chunk | chunk in chunks :: HoldsMark(chunk)
  {
    hide ResponseIsComplete, Message, AnnouncesChunking;
    WholeIsComplete(statusLine, fields, chunks);
    if forall chunk | chunk in chunks :: !HoldsMark(chunk) {
      forall n | 0 <= n < |Message(statusLine, fields, chunks)|
        ensures !ResponseIsComplete(Message(statusLine, fields, chunks)[..n])
      {
        PrefixIsIncomplete(statusLine, fields, chunks, n);
      }
    } else {
      var chunk :| chunk in chunks && HoldsMark(chunk);
      var n := StopsAtMark(statusLine, fields, chunks, chunk);
    }
  }

  /** Without marks, only the whole message is complete. */
  lemma CompleteOnlyWhole(statusLine: string, fields: seq<Field>, chunks: seq<Chunk>)
    requires AnnouncesChunking(statusLine, fields) && ValidChunks(chunks)
    requires forall chunk | chunk in chunks :: !HoldsMark(chunk)
    ensures var message := Message(statusLine, fields, chunks);
      forall k | 0 <= k <= |message| :: ResponseIsComplete(message[..k]) <==> |message| <= k
  {
    hide ResponseIsComplete, Message, AnnouncesChunking;
    var message := Message(statusLine, fields, chunks);
    forall k | 0 <= k <= |message|
      ensures ResponseIsComplete(message[..k]) <==> |message| <= k
    {
      if k < |message| {
        PrefixIsIncomplete(statusLine, fields, chunks, k);
      } else {
        assert message[..k] == message;
        WholeIsComplete(statusLine, fields, chunks);
      }
    }
  }

  lemma StopsAtMark(statusLine: string, fields: seq<Field>, chunks: seq<Chunk>, chunk: Chunk) returns (n: nat)
    requires AnnouncesChunking(statusLine, fields) && ValidChunks(chunks)
    requires chunk in chunks && HoldsMark(chunk)
    ensures n < |Message(statusLine, fields, chunks)|
    ensures ResponseIsComplete(Message(statusLine, fields, chunks)[..n])
  {
    hide *;
    ChunkingHead(statusLine, fields);
    MessageParts(statusLine, fields, chunks);
    var message := Message(statusLine, fields, chunks);
    var i := MarkInChunk(message, |Head(statusLine, fields)|, chunks, chunk);
    n := i + 7;
    CompleteAtMark(message, statusLine, fields, i);
  }

  lemma CompleteAtMark(message: string, statusLine: string, fields: seq<Field>, i: nat)
    requires AnnouncesChunking(statusLine, fields) && OccursAt(message, Head(statusLine, fields), 0)
    requires |Head(statusLine, fields)| <= i && AtLastChunk(message, i)
    ensures ResponseIsComplete(message[..i + 7])
  {
    hide ResponseIsComplete, AnnouncesChunking, Head;
    var bytes := message[..i + 7];
    OccursInPart(message, 0, i + 7, Head(statusLine, fields), 0);
    assert message[0..i + 7] == bytes;
    CompleteByMarks(bytes, statusLine, fields);
    assert AtLastChunk(bytes, i);
  }

  lemma WholeIsComplete(statusLine: string, fields: seq<Field>, chunks: seq<Chunk>)
    requires AnnouncesChunking(statusLine, fields) && ValidChunks(chunks)
    ensures ResponseIsComplete(Message(statusLine, fields, chunks))
  {
    hide *;
    ChunkingHead(statusLine, fields);
    var message, begin := Message(statusLine, fields, chunks), |Head(statusLine, fields)|;
    MessageParts(statusLine, fields, chunks);
    CompleteByMarks(message, statusLine, fields);
    EndIsSeen(message, begin, chunks);
  }

  /** The end of the whole message is seen: the mark behind the last chunk, or the plain empty body. */
  lemma EndIsSeen(message: string, begin: nat, chunks: seq<Chunk>)
    requires ChunksAt(message, begin, chunks)
    ensures ChunksEnd(message, begin)
  {
    if chunks != [] {
      LastLineEnd(message, begin, chunks);
      assert AtLastChunk(message, begin + |Wire(chunks)| - 2);
    }
  }

  /** The plain end of the body stands behind a line end. */
  lemma {:induction false} LastLineEnd(message: string, c: nat, chunks: seq<Chunk>)
    requires ChunksAt(message, c, chunks)
    ensures AtLineEnd(message, c + |Wire(chunks)| - 2)
    ensures chunks != [] ==> |Wire(chunks)| >= 2
    decreases |chunks|
  {
    if chunks != [] {
      ChunksAtStep(message, c, chunks);
      LastLineEnd(message, c + |ChunkWire(chunks[0])|, chunks[1..]);
    }
  }

  lemma PrefixIsIncomplete(statusLine: string, fields: seq<Field>, chunks: seq<Chunk>, n: nat)
    requires AnnouncesChunking(statusLine, fields) && ValidChunks(chunks)
    requires forall chunk | chunk in chunks :: !HoldsMark(chunk)
    requires n < |Message(statusLine, fields, chunks)|
    ensures !ResponseIsComplete(Message(statusLine, fields, chunks)[..n])
  {
    var message, begin := Message(statusLine, fields, chunks), |Head(statusLine, fields)|;
    MessageParts(statusLine, fields, chunks);
    if n < begin {
      NoHeaderEndYet(message, statusLine, fields, n);
    } else {
      var bytes := message[..n];
      OccursInPart(message, 0, n, Head(statusLine, fields), 0);
      assert message[0..n] == bytes;
      CompleteByMarks(bytes, statusLine, fields);
      NotYetEnded(message, begin, chunks, n);
    }
  }

  /** No proper prefix of a message without marks looks like the end of its chunks. */
  lemma NotYetEnded(message: string, begin: nat, chunks: seq<Chunk>, n: nat)
    requires ChunksAt(message, begin, chunks)
    requires forall chunk | chunk in chunks :: !HoldsMark(chunk)
    requires begin <= n < |message|
    ensures !ChunksEnd(message[..n], begin)
  {
    forall i | begin <= i < n
      ensures !AtLastChunk(message[..n], i)
    {
      if AtLastChunk(message, i) {
        OnlyMarkIsLast(message, begin, chunks, i);
      }
    }
    if chunks != [] {
      NotPlainEnd(message, begin, chunks);
    }
  }

  /** A body that begins with a chunk does not begin with the plain last chunk. */
  lemma NotPlainEnd(message: string, begin: nat, chunks: seq<Chunk>)
    requires chunks != [] && ChunksAt(message, begin, chunks)
    ensures !(message[begin] == '0' && AtLineEnd(message, begin + 1))
  {
    var line := chunks[0].line;
    ChunksAtStep(message, begin, chunks);
    DataBetweenLineEnds(message, begin, chunks[0]);
    LineEndsAt(message, line, begin);
    ChunkLineStarts(chunks[0]);
    OccursSlice(message, line, begin);
    assert |line| == 1 ==> message[begin..begin + 1] == [message[begin]];
  }

  /**
    An empty chunked body with more bytes behind it, delivered together with them, is taken for complete exactly if
    there are no such bytes, or the mark occurs among them and the line end before them.
    */
  lemma EmptyBodyAndMore(statusLine: string, fields: seq<Field>, extra: string)
    requires AnnouncesChunking(statusLine, fields)
    ensures ResponseIsComplete(Message(statusLine, fields, []) + extra) <==>
      extra == "" || exists i | 0 <= i < |extra| :: AtLastChunk(CRLF + extra, i)
  {
    hide ResponseIsComplete, AnnouncesChunking;
    var bytes, head := Message(statusLine, fields, []) + extra, Head(statusLine, fields);
    var tail := LAST_CHUNK + CRLF + CRLF + extra;
    assert bytes == head + tail;
    OccursSlice(bytes, head, 0);
    assert bytes[0..|head|] == head;
    CompleteByMarks(bytes, statusLine, fields);
    EmptyEnd(bytes, |head|, tail, extra);
  }

  lemma EmptyEnd(bytes: string, begin: nat, tail: string, extra: string)
    requires begin <= |bytes| && bytes[begin..] == tail && tail == LAST_CHUNK + CRLF + CRLF + extra
    ensures ChunksEnd(bytes, begin) <==> extra == "" || exists i | 0 <= i < |extra| :: AtLastChunk(CRLF + extra, i)
  {
    var all := CRLF + extra;
    forall i | 0 <= i <= |extra| + 1
      ensures AtLastChunk(bytes, begin + 3 + i) <==> AtLastChunk(all, i)
    {
      assert bytes[begin + 3..] == all by {
        assert bytes[begin + 3..] == tail[3..];
      }
      SameMark(bytes, begin + 3, all, i);
    }
    forall i | begin <= i < begin + 3
      ensures !AtLastChunk(bytes, i)
    {
      assert bytes[i] == tail[i - begin] && bytes[i + 2] == tail[i + 2 - begin];
    }
    if extra != "" && ChunksEnd(bytes, begin) {
      var i :| begin <= i < |bytes| && AtLastChunk(bytes, i);
      assert AtLastChunk(all, i - begin - 3);
    }
    if i :| 0 <= i < |extra| && AtLastChunk(all, i) {
      assert AtLastChunk(bytes, begin + 3 + i);
    }
    if extra == "" {
      assert |bytes| == begin + |tail|;
      assert bytes[begin] == tail[0] && bytes[begin + 1] == tail[1] && bytes[begin + 2] == tail[2];
      assert bytes[begin + 3] == tail[3] && bytes[begin + 4] == tail[4];
    }
  }

  lemma SameMark(bytes: string, begin: nat, all: string, i: nat)
    requires begin <= |bytes| && bytes[begin..] == all
    ensures AtLastChunk(bytes, begin + i) <==> AtLastChunk(all, i)
  {
    forall j | 0 <= j < |all|
      ensures bytes[begin + j] == all[j]
    {
    }
  }

  /** With a chunk in the body, a message with anything behind it is complete exactly from the end of the message on. */
  lemma CompleteFromEnd(statusLine: string, fields: seq<Field>, chunks: seq<Chunk>, extra: string)
    requires AnnouncesChunking(statusLine, fields) && ValidChunks(chunks)
    requires forall chunk | chunk in chunks :: !HoldsMark(chunk)
    requires chunks != [] || extra == ""
    ensures var message := Message(statusLine, fields, chunks);
      forall k | 0 <= k <= |message + extra| :: ResponseIsComplete((message + extra)[..k]) <==> |message| <= k
  {
    hide ResponseIsComplete, Message, AnnouncesChunking;
    var message := Message(statusLine, fields, chunks);
    CompleteOnlyWhole(statusLine, fields, chunks);
    forall k | 0 <= k <= |message + extra|
      ensures ResponseIsComplete((message + extra)[..k]) <==> |message| <= k
    {
      if k <= |message| {
        assert (message + extra)[..k] == message[..k];
      } else {
        assert (message + extra)[..k] == message + extra[..k - |message|];
        CompleteWithMore(statusLine, fields, chunks, extra[..k - |message|]);
      }
    }
  }

  lemma CompleteWithMore(statusLine: string, fields: seq<Field>, chunks: seq<Chunk>, extra: string)
    requires AnnouncesChunking(statusLine, fields) && ValidChunks(chunks) && chunks != []
    ensures ResponseIsComplete(Message(statusLine, fields, chunks) + extra)
  {
    hide ResponseIsComplete, AnnouncesChunking;
    ChunkingHead(statusLine, fields);
    var message, head := Message(statusLine, fields, chunks), Head(statusLine, fields);
    var bytes := message + extra;
    OccursSlice(bytes, head, 0);
    assert bytes[0..|head|] == head;
    CompleteByMarks(bytes, statusLine, fields);
    MessageParts(statusLine, fields, chunks);
    MarkStays(message, extra, |head|, chunks);
  }

  lemma MarkStays(message: string, extra: string, begin: nat, chunks: seq<Chunk>)
    requires ChunksAt(message, begin, chunks) && chunks != []
    ensures ChunksEnd(message + extra, begin)
  {
    hide OccursAt;
    LastLineEnd(message, begin, chunks);
    assert AtLastChunk(message + extra, begin + |Wire(chunks)| - 2);
  }

  // ---------------------------------------------------------------- the whole exchange

  /** The body of a message decodes to its payload, whatever stands behind it. */
  lemma BodyDecodes(body: string, chunks: seq<Chunk>, extra: string)
    requires ValidChunks(chunks)
    requires body == Wire(chunks) + (LAST_CHUNK + CRLF) + CRLF + extra
    ensures Decoded(body, 0, 0).Ok? ==> Decoded(body, 0, 0) == Ok(Payload(chunks))
    ensures |Payload(chunks)| <= MAXIMUM_RESPONSE_SIZE ==> Decoded(body, 0, 0) == Ok(Payload(chunks))
  {
    var wire := Wire(chunks) + (LAST_CHUNK + CRLF);
    LastChunkIsLast();
    OccursSlice(body, wire, 0);
    assert body[0..|wire|] == wire;
    DecodesOnlyToPayload(body, 0, chunks, LAST_CHUNK, 0);
    if |Payload(chunks)| <= MAXIMUM_RESPONSE_SIZE {
      DecodesGrammar(body, 0, chunks, LAST_CHUNK, 0);
    }
  }

  /** A response that names the chunked coding is read as what its body decodes to, even beside a length field. */
  lemma ParsesByDecoding(bytes: string, statusLine: string, fields: seq<Field>)
    requires ValidHead(statusLine, fields) && NamesChunked(fields) && OccursAt(bytes, Head(statusLine, fields), 0)
    ensures Parsed(bytes) ==
      match Decoded(bytes[|Head(statusLine, fields)|..], 0, 0) {
        case Ok(body) => Ok(HttpResponse(StatusOf(statusLine).value, Applied(map[], fields), body))
        case Err(e) => Err(InvalidChunks(e))
      }
  {
    hide Parsed, Decoded, StatusOf, Applied, Head, OccursAt, NamesChunked;
    ParsesMessage(bytes, statusLine, fields);
    ChunkedCodingIs(fields);
  }

  /** The message is read as the payload of its chunks, with anything behind it. */
  lemma ParsesChunked(statusLine: string, fields: seq<Field>, chunks: seq<Chunk>, extra: string)
    requires AnnouncesChunking(statusLine, fields) && ValidChunks(chunks)
    requires |Payload(chunks)| <= MAXIMUM_RESPONSE_SIZE
    ensures Parsed(Message(statusLine, fields, chunks) + extra) ==
      Ok(HttpResponse(StatusOf(statusLine).value, Applied(map[], fields), Payload(chunks)))
  {
    hide Parsed, Decoded, StatusOf, Applied, AnnouncesChunking;
    var message, head := Message(statusLine, fields, chunks), Head(statusLine, fields);
    var bytes := message + extra;
    OccursSlice(bytes, head, 0);
    assert bytes[0..|head|] == head;
    ChunkingHead(statusLine, fields);
    ParsesByDecoding(bytes, statusLine, fields);
    assert bytes[|head|..] == Wire(chunks) + (LAST_CHUNK + CRLF) + CRLF + extra;
    BodyDecodes(bytes[|head|..], chunks, extra);
  }

  /**
    Whatever prefix of a chunked response is at hand when reading stops, and whether or not a chunk holds the mark: it
    is refused, or read as the whole response.
    */
  lemma PrefixNeverParsesToLess(statusLine: string, fields: seq<Field>, chunks: seq<Chunk>, extra: string, n: nat)
    requires AnnouncesChunking(statusLine, fields) && ValidChunks(chunks)
    requires n <= |Message(statusLine, fields, chunks) + extra| && n <= MAXIMUM_RESPONSE_SIZE
    ensures var parsed := Parsed((Message(statusLine, fields, chunks) + extra)[..n]);
      parsed.Ok? ==> parsed == Ok(HttpResponse(StatusOf(statusLine).value, Applied(map[], fields), Payload(chunks)))
  {
    hide Parsed, ParsedBehind, Decoded, StatusOf, Applied, AnnouncesChunking;
    var message, head := Message(statusLine, fields, chunks), Head(statusLine, fields);
    var bytes := message + extra;
    ChunkingHead(statusLine, fields);
    OccursSlice(bytes, head, 0);
    assert bytes[0..|head|] == head;
    if n < |head| {
      NoHeaderEndYet(bytes, statusLine, fields, n);
      HeaderMissing(bytes[..n]);
    } else {
      var prefix := bytes[..n];
      OccursSlice(prefix, head, 0);
      assert prefix[0..|head|] == head;
      ParsesByDecoding(prefix, statusLine, fields);
      assert bytes[|head|..] == Wire(chunks) + (LAST_CHUNK + CRLF) + CRLF + extra;
      BodyDecodes(bytes[|head|..], chunks, extra);
      if Decoded(prefix[|head|..], 0, 0).Ok? {
        assert bytes[|head|..] == prefix[|head|..] + bytes[n..];
        DecodedInExtension(prefix[|head|..], bytes[n..]);
      }
    }
  }

  lemma HeaderMissing(bytes: string)
    requires FindHeaderEnd(bytes, 0).None?
    ensures Parsed(bytes).Err?
  {
  }

  /** What is at hand when reading stops is a prefix of what was sent. */
  lemma {:induction false} ReceivedIsPrefix(bytes: string, fragments: seq<string>, ending: Ending)
    requires Received(bytes, fragments, ending).Ok?
    ensures Received(bytes, fragments, ending).value <= bytes + Delivered(fragments)
    decreases |fragments|
  {
    hide ResponseIsComplete;
    if |bytes| <= MAXIMUM_RESPONSE_SIZE && fragments != [] && !ResponseIsComplete(bytes + fragments[0]) {
      ReceivedIsPrefix(bytes + fragments[0], fragments[1..], ending);
      assert bytes + Delivered(fragments) == bytes + fragments[0] + Delivered(fragments[1..]);
    }
  }

  /**
    A premature stop, a connection that ends too early, or bytes behind the end never make another body of a chunked
    response: for every fragmentation of any prefix of it, with anything behind it, the request fails or reports the
    payload of all chunks. No chunk is excluded.
    */
  lemma NeverAnotherBody(statusLine: string, fields: seq<Field>, chunks: seq<Chunk>, extra: string,
                         fragments: seq<string>, ending: Ending)
    requires AnnouncesChunking(statusLine, fields) && ValidChunks(chunks)
    requires Delivered(fragments) <= Message(statusLine, fields, chunks) + extra
    ensures var reported := Reported(fragments, ending);
      reported.Ok? ==> reported == Ok(HttpResponse(StatusOf(statusLine).value, Applied(map[], fields), Payload(chunks)))
  {
    hide Parsed, Received, Message, AnnouncesChunking, StatusOf, Applied, Payload, ValidChunks;
    if Received("", fragments, ending).Ok? {
      var bytes, all := Received("", fragments, ending).value, Message(statusLine, fields, chunks) + extra;
      ReceivedIsPrefix("", fragments, ending);
      assert "" + Delivered(fragments) == Delivered(fragments);
      if |bytes| <= MAXIMUM_RESPONSE_SIZE {
        assert bytes == all[..|bytes|];
        PrefixNeverParsesToLess(statusLine, fields, chunks, extra, |bytes|);
      }
    }
  }

  /**
    Fragmentation independence of chunked responses: without the mark in a chunk, every way of cutting the message, and
    what is sent behind it, into fragments is reported with the payload of the chunks. Behind an empty chunked body
    nothing may follow; see `EmptyBodyAndMore`.
    */
  lemma ChunkedForEveryFragmentation(
    statusLine: string, fields: seq<Field>, chunks: seq<Chunk>, extra: string, fragments: seq<string>, ending: Ending)
    requires AnnouncesChunking(statusLine, fields) && ValidChunks(chunks)
    requires forall chunk | chunk in chunks :: !HoldsMark(chunk)
    requires chunks != [] || extra == ""
    requires Delivered(fragments) == Message(statusLine, fields, chunks) + extra
    requires WithinLimit(fragments, |Message(statusLine, fields, chunks)|)
    ensures Reported(fragments, ending) ==
      Ok(HttpResponse(StatusOf(statusLine).value, Applied(map[], fields), Payload(chunks)))
  {
    hide *;
    var message := Message(statusLine, fields, chunks);
    MessageWithin(statusLine, fields, chunks, extra, fragments);
    CompleteFromEnd(statusLine, fields, chunks, extra);
    assert message + extra == "" + Delivered(fragments);
    var n := StopsBehind(message + extra, |message|, "", fragments, ending);
    assert (message + extra)[..n] == message + extra[..n - |message|];
    ParsesChunked(statusLine, fields, chunks, extra[..n - |message|]);
    ReportedOnce((message + extra)[..n], fragments, ending);
  }

  lemma MessageWithin(statusLine: string, fields: seq<Field>, chunks: seq<Chunk>, extra: string, fragments: seq<string>)
    requires Delivered(fragments) == Message(statusLine, fields, chunks) + extra
    requires WithinLimit(fragments, |Message(statusLine, fields, chunks)|)
    ensures var end := |Message(statusLine, fields, chunks)|;
      && 0 < end <= MAXIMUM_RESPONSE_SIZE && |Payload(chunks)| <= end
      && (|Delivered(fragments)| <= MAXIMUM_RESPONSE_SIZE
          || (ValidFragments(fragments) && end + READ_BUFFER_SIZE - 1 <= MAXIMUM_RESPONSE_SIZE))
  {
    hide Delivered, ValidFragments;
    PayloadFitsWire(chunks);
  }

  lemma ReportedOnce(message: string, fragments: seq<string>, ending: Ending)
    requires Received("", fragments, ending) == Ok(message) && |message| <= MAXIMUM_RESPONSE_SIZE
    ensures Reported(fragments, ending) ==
      match Parsed(message) { case Ok(response) => Ok(response) case Err(e) => Err(BadResponse(e)) }
  {
    hide Parsed, Received;
  }

  // ---------------------------------------------------------------- a response that is refused because of its data

  lemma CreatedStatus(statusLine: string)
    requires statusLine == "HTTP/1.1 201 Created"
    ensures StatusOf(statusLine) == Ok(201) && !HasLineEnd(statusLine)
  {
    hide StatusOf;
    assert statusLine == "" + "HTTP/1.1" + (" " + ("" + "201" + " Created"));
    var digits := "201";
    assert NumberUpTo(digits, Decimal, 1) == 2 && NumberUpTo(digits, Decimal, 2) == 20;
    StatusLineReads("", "HTTP/1.1", " ", "", digits, " Created");
  }

  /** A value without white space around it and without capital letters contains itself. */
  lemma PlainValue(value: string)
    requires value != "" && !IsSpace(value[0]) && !IsSpace(value[|value| - 1])
    requires forall i | 0 <= i < |value| :: LowerChar(value[i]) == value[i]
    ensures Contains(Lowercase(Trimmed(value)), value)
  {
    hide LowerChar, IsSpace;
    assert Trimmed(value) == value;
    assert Lowercase(value) == value;
    assert OccursAt(value, value, 0);
  }

  lemma FieldName(name: string)
    requires name == "Transfer-Encoding"
    ensures Lowercase(name) == TRANSFER_ENCODING && Lowercase(name) != CONTENT_LENGTH
    ensures forall c | c in name :: c != ':' && !IsSpace(c) && c != '\r'
  {
    assert |TRANSFER_ENCODING| == 17 && |CONTENT_LENGTH| == 14;
  }

  lemma FieldFits(f: Field)
    requires f.name != "" && (forall c | c in f.name :: c != ':' && !IsSpace(c) && c != '\r') && '\r' !in f.value
    ensures ValidField(f)
  {
    hide IsSpace;
    assert '\r' !in FieldText(f);
  }

  lemma ChunkedField(f: Field)
    requires f == Field("Transfer-Encoding", "chunked")
    ensures ValidField(f) && Named(f, TRANSFER_ENCODING) && !Named(f, CONTENT_LENGTH)
    ensures Contains(Lowercase(Trimmed(f.value)), "chunked")
  {
    hide ValidField, Contains, Lowercase, Trimmed;
    FieldName(f.name);
    FieldFits(f);
    PlainValue(f.value);
  }

  lemma PlainHead(statusLine: string, fields: seq<Field>)
    requires statusLine == "HTTP/1.1 201 Created" && fields == [Field("Transfer-Encoding", "chunked")]
    ensures AnnouncesChunking(statusLine, fields) && |Head(statusLine, fields)| <= 100
  {
    hide StatusOf, HasLineEnd, ValidField, Named, Contains;
    var f := fields[0];
    CreatedStatus(statusLine);
    ChunkedField(f);
    assert FieldsWire(fields[1..]) == "";
    assert OnlyField(fields, TRANSFER_ENCODING, f);
  }

  lemma MarkedChunk(chunk: Chunk)
    requires chunk == Chunk("5", "0\r\n\r\n")
    ensures ValidChunk(chunk) && HoldsMark(chunk)
  {
    FromCharsReads(chunk.line, Hexadecimal, SIZE_LIMIT, 1);
    assert NumberUpTo(chunk.line, Hexadecimal, 0) == 0;
    assert AtLastChunk(CRLF + (chunk.data + CRLF), 0);
  }

  /** The wire form of the chunk without its last line end is complete by its mark, and an incomplete chunk. */
  lemma CutAtMark(bytes: string, begin: nat, chunk: Chunk)
    requires chunk == Chunk("5", "0\r\n\r\n")
    requires begin <= |bytes| && bytes[begin..] == chunk.line + CRLF + chunk.data
    ensures ChunksEnd(bytes, begin) && Decoded(bytes[begin..], 0, 0) == Err(IncompleteChunk)
  {
    hide ChunkSize;
    var body := bytes[begin..];
    MarkedChunk(chunk);
    SameMark(bytes, begin, body, 1);
    assert AtLastChunk(body, 1);
    assert AtLastChunk(bytes, begin + 1);
    assert FindLineEnd(body, 0) == Some(1) && body[0..1] == chunk.line;
  }

  /**
    Such a message: a well-formed response, delivered in two fragments, is refused, because its only chunk holds the
    mark and reading stops there.
    */
  lemma MarkedResponseIsRefused(ending: Ending)
    returns (statusLine: string, fields: seq<Field>, chunks: seq<Chunk>, fragments: seq<string>)
    ensures AnnouncesChunking(statusLine, fields) && ValidChunks(chunks)
    ensures ValidFragments(fragments) && Delivered(fragments) == Message(statusLine, fields, chunks)
    ensures Parsed(Message(statusLine, fields, chunks)).Ok?
    ensures Reported(fragments, ending) == Err(BadResponse(InvalidChunks(IncompleteChunk)))
  {
    var chunk := Chunk("5", "0\r\n\r\n");
    statusLine, fields, chunks := "HTTP/1.1 201 Created", [Field("Transfer-Encoding", "chunked")], [chunk];
    PlainHead(statusLine, fields);
    MarkedChunk(chunk);
    fragments := CutMessage(statusLine, fields, chunk, ending);
  }

  lemma CutMessage(statusLine: string, fields: seq<Field>, chunk: Chunk, ending: Ending) returns (fragments: seq<string>)
    requires AnnouncesChunking(statusLine, fields) && |Head(statusLine, fields)| <= 100
    requires chunk == Chunk("5", "0\r\n\r\n") && ValidChunk(chunk)
    ensures ValidFragments(fragments) && Delivered(fragments) == Message(statusLine, fields, [chunk])
    ensures Parsed(Message(statusLine, fields, [chunk])).Ok?
    ensures Reported(fragments, ending) == Err(BadResponse(InvalidChunks(IncompleteChunk)))
  {
    hide Parsed, Decoded, StatusOf, Applied, AnnouncesChunking, ResponseIsComplete, Head, ChunksEnd;
    var head, message := Head(statusLine, fields), Message(statusLine, fields, [chunk]);
    var prefix := head + (chunk.line + CRLF + chunk.data);
    var rest := CRLF + (LAST_CHUNK + CRLF) + CRLF;
    assert Wire([chunk]) == ChunkWire(chunk) + "";
    assert message == prefix + rest;
    fragments := [prefix, rest];
    assert Delivered(fragments[1..]) == rest + "";
    assert message + "" == message;
    ParsesChunked(statusLine, fields, [chunk], "");
    OccursSlice(prefix, head, 0);
    assert prefix[0..|head|] == head && prefix[|head|..] == chunk.line + CRLF + chunk.data;
    CutAtMark(prefix, |head|, chunk);
    CompleteByMarks(prefix, statusLine, fields);
    ChunkingHead(statusLine, fields);
    ParsesByDecoding(prefix, statusLine, fields);
    assert "" + prefix == prefix;
  }
}
