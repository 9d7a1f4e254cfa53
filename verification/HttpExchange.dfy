/** Sending a request and receiving its response in fragments (`SendAll` and `PerformRequest` of whep_http.cpp). */
module HttpExchange {
  import opened Wrappers
  import opened Text
  import opened Chunked
  import opened HttpResponses
  import opened HttpMessages

  const READ_BUFFER_SIZE: nat := 4096

  // ---------------------------------------------------------------- sending

  /**
    Sends the request in as many calls as the socket asks for. `send(offset)` is what the socket answers to the
    call that offers the bytes behind `offset`: a count of accepted bytes, or an error that is zero or negative.
    */
  method SendAll(request: string, send: nat -> int) returns (sent: bool, wire: string)
    requires forall offset | 0 <= offset < |request| :: send(offset) <= |request| - offset
    ensures wire <= request
    ensures sent <==> wire == request
    ensures !sent ==> |wire| < |request| && send(|wire|) <= 0
  {
    var offset := 0;
    wire := "";
    while offset < |request|
      invariant offset <= |request|
      invariant wire == request[..offset]
    {
      var accepted := send(offset);
      if accepted <= 0 {
        return false, wire;
      }
      wire := wire + request[offset..offset + accepted];
      offset := offset + accepted;
    }
    return true, wire;
  }

  // ---------------------------------------------------------------- receiving

  /** How reading ends once the fragments are used up: a closed or reset connection, or another read error. */
  datatype Ending = Closed | Reset | ReadError(code: int)

  datatype ExchangeError = ReceiveFailed(code: int) | ResponseTooLarge | BadResponse(error: ResponseError)

  /** Every successful read delivers at least one byte and at most a buffer full. */
  predicate ValidFragments(fragments: seq<string>) {
    forall f | f in fragments :: 0 < |f| <= READ_BUFFER_SIZE
  }

  function Delivered(fragments: seq<string>): string {
    if fragments == [] then "" else fragments[0] + Delivered(fragments[1..])
  }

  /** The bytes at hand when reading stops, `bytes` having been received before `fragments`. */
  function Received(bytes: string, fragments: seq<string>, ending: Ending): Result<string, ExchangeError>
    decreases |fragments|
  {
    if |bytes| > MAXIMUM_RESPONSE_SIZE then Ok(bytes)
    else if fragments == [] then
      if ending.ReadError? then Err(ReceiveFailed(ending.code)) else Ok(bytes)
    else if ResponseIsComplete(bytes + fragments[0]) then Ok(bytes + fragments[0])
    else Received(bytes + fragments[0], fragments[1..], ending)
  }

  /** What a request reports about the response that arrives in these fragments. */
  function Reported(fragments: seq<string>, ending: Ending): Result<HttpResponse, ExchangeError> {
    match Received("", fragments, ending)
    case Err(e) => Err(e)
    case Ok(bytes) =>
      if |bytes| > MAXIMUM_RESPONSE_SIZE then Err(ResponseTooLarge)
      else
        match Parsed(bytes)
        case Err(e) => Err(BadResponse(e))
        case Ok(response) => Ok(response)
  }

  /** Reads until the response is complete, the connection ends, or the limit is passed; then parses it. */
  method ReceiveResponse(fragments: seq<string>, ending: Ending) returns (result: Result<HttpResponse, ExchangeError>)
    requires ValidFragments(fragments)
    ensures result == Reported(fragments, ending)
  {
    var responseBytes := "";
    var taken := 0;
    assert fragments[0..] == fragments;
    while |responseBytes| <= MAXIMUM_RESPONSE_SIZE
      invariant taken <= |fragments|
      invariant Received("", fragments, ending) == Received(responseBytes, fragments[taken..], ending)
      decreases |fragments| - taken
    {
      if taken == |fragments| {
        if ending.ReadError? {
          return Err(ReceiveFailed(ending.code));
        }
        break;
      }
      responseBytes := responseBytes + fragments[taken];
      taken := taken + 1;
      assert fragments[taken - 1..][1..] == fragments[taken..];
      if ResponseIsComplete(responseBytes) {
        break;
      }
    }
    assert Received("", fragments, ending) == Ok(responseBytes);
    if |responseBytes| > MAXIMUM_RESPONSE_SIZE {
      return Err(ResponseTooLarge);
    }
    var parsed := ParseResponse(responseBytes);
    match parsed {
      case Ok(response) => return Ok(response);
      case Err(error) => return Err(BadResponse(error));
    }
  }

  /**
    Reading up to `end` stays within the limit: all that is sent does, or `end` does even if the read that reaches it
    brings a whole buffer.
    */
  predicate WithinLimit(fragments: seq<string>, end: nat) {
    || |Delivered(fragments)| <= MAXIMUM_RESPONSE_SIZE
    || (ValidFragments(fragments) && end + READ_BUFFER_SIZE - 1 <= MAXIMUM_RESPONSE_SIZE)
  }

  /**
    If `bytes` is complete exactly from a length `end` on, reading stops with a prefix of what was sent that
    reaches `end`, however the bytes are cut into fragments and however the connection ends.
    */
  lemma {:induction false} StopsBehind(message: string, end: nat, bytes: string, fragments: seq<string>, ending: Ending)
    returns (n: nat)
    requires message == bytes + Delivered(fragments)
    requires |bytes| < end <= |message| && end <= MAXIMUM_RESPONSE_SIZE
    requires forall k | 0 <= k <= |message| :: ResponseIsComplete(message[..k]) <==> end <= k
    ensures end <= n <= |message| && Received(bytes, fragments, ending) == Ok(message[..n])
    ensures ValidFragments(fragments) ==> n < end + READ_BUFFER_SIZE
    decreases |fragments|
  {
    hide ResponseIsComplete;
    assert fragments != [] by {
      assert fragments == [] ==> message == bytes;
    }
    var next := bytes + fragments[0];
    assert message == next + Delivered(fragments[1..]);
    assert next == message[..|next|];
    if ResponseIsComplete(next) {
      n := |next|;
    } else {
      n := StopsBehind(message, end, next, fragments[1..], ending);
    }
  }

  // ---------------------------------------------------------------- responses framed by Content-Length

  /** What the length field of a header makes of the bytes behind the header. */
  lemma LengthFieldReached(bytes: string, headerEnd: nat, f: Field, at: nat, available: nat)
    requires ValidField(f) && Named(f, CONTENT_LENGTH)
    requires FieldStandsAt(bytes, headerEnd, f, at)
    ensures at + |CONTENT_LENGTH| + 1 <= |Lowercase(bytes[..headerEnd])|
    ensures LengthReached(Lowercase(bytes[..headerEnd]), at + |CONTENT_LENGTH| + 1, available) <==>
      match FromChars(Trimmed(f.value), Decimal, SIZE_LIMIT) {
        case Ok(length) => length <= available
        case Err(_) => false
      }
  {
    hide FromChars, Trimmed, OccursAt;
    var header := Lowercase(bytes[..headerEnd]);
    var begin, end := at + |f.name| + 1, at + |FieldText(f)|;
    FieldAt(bytes, at, f);
    assert |f.name| == |CONTENT_LENGTH|;
    forall k: int
      ensures AtLineEnd(header, k) <==> AtLineEnd(bytes, k) && k + 2 <= headerEnd
    {
      LineEndLower(bytes, headerEnd, k);
    }
    assert FindLineEnd(header, begin) == if end == headerEnd then None else Some(end);
    assert header[begin..end] == Lowercase(f.value) by {
      assert bytes[begin..end] == f.value;
    }
    TrimmedLower(f.value);
    FromCharsLower(Trimmed(f.value), SIZE_LIMIT);
  }

  /** A head whose one length field announces `length`, without a transfer coding. */
  ghost predicate AnnouncesLength(statusLine: string, fields: seq<Field>, length: nat) {
    && ValidHead(statusLine, fields)
    && NoField(fields, TRANSFER_ENCODING)
    && exists f :: OnlyField(fields, CONTENT_LENGTH, f) && FromChars(Trimmed(f.value), Decimal, SIZE_LIMIT) == Ok(length)
  }

  /** The first length field alone decides whether a response is complete, whatever transfer coding stands beside it. */
  lemma CompleteByField(bytes: string, statusLine: string, fields: seq<Field>, f: Field)
    requires ValidHead(statusLine, fields) && FirstField(fields, CONTENT_LENGTH, f)
    requires OccursAt(bytes, Head(statusLine, fields), 0)
    ensures var length := FromChars(Trimmed(f.value), Decimal, SIZE_LIMIT);
      ResponseIsComplete(bytes) <==> length.Ok? && |Head(statusLine, fields)| + length.value <= |bytes|
  {
    hide *;
    KnownKeys();
    FirstIsValid(statusLine, fields, CONTENT_LENGTH, f);
    HeadEnds(bytes, statusLine, fields);
    HeadFits(bytes, statusLine, fields);
    var head := |Head(statusLine, fields)|;
    var at := FindsKey(bytes, statusLine, fields, CONTENT_LENGTH, f);
    StandsBehindLine(bytes, head - 4, f, at);
    CompleteByKey(bytes, head - 4, at - 2);
    LengthFieldReached(bytes, head - 4, f, at, |bytes| - head);
  }

  lemma FirstIsValid(statusLine: string, fields: seq<Field>, key: string, f: Field)
    requires ValidHead(statusLine, fields) && FirstField(fields, key, f)
    ensures ValidField(f) && Named(f, key)
  {
  }

  lemma StandsBehindLine(bytes: string, headerEnd: nat, f: Field, at: nat)
    requires FieldStandsAt(bytes, headerEnd, f, at)
    ensures at >= 2
  {
  }

  /** Such a response is complete exactly when the announced number of bytes has arrived behind the header. */
  lemma CompleteByLength(bytes: string, statusLine: string, fields: seq<Field>, length: nat)
    requires AnnouncesLength(statusLine, fields, length)
    requires OccursAt(bytes, Head(statusLine, fields), 0)
    ensures ResponseIsComplete(bytes) <==> |Head(statusLine, fields)| + length <= |bytes|
  {
    hide ResponseIsComplete, FromChars, Trimmed, ValidHead;
    var f := LengthField(statusLine, fields, length);
    OnlyIsFirstAndLast(fields, CONTENT_LENGTH, f);
    CompleteByField(bytes, statusLine, fields, f);
  }

  lemma LengthField(statusLine: string, fields: seq<Field>, length: nat) returns (f: Field)
    requires AnnouncesLength(statusLine, fields, length)
    ensures OnlyField(fields, CONTENT_LENGTH, f) && ValidField(f) && Named(f, CONTENT_LENGTH)
    ensures FromChars(Trimmed(f.value), Decimal, SIZE_LIMIT) == Ok(length)
  {
    f :| OnlyField(fields, CONTENT_LENGTH, f) && FromChars(Trimmed(f.value), Decimal, SIZE_LIMIT) == Ok(length);
    assert f in fields;
  }

  lemma CompleteByKey(bytes: string, headerEnd: nat, at: nat)
    requires FindHeaderEnd(bytes, 0) == Some(headerEnd)
    requires FindKey(Lowercase(bytes[..headerEnd]), CONTENT_LENGTH) == Some(at)
    ensures headerEnd + 4 <= |bytes|
    ensures ResponseIsComplete(bytes) ==
      LengthReached(Lowercase(bytes[..headerEnd]), at + |CONTENT_LENGTH| + 3, |bytes| - (headerEnd + 4))
  {
    hide LengthReached, AnnouncesChunks, FindKey;
  }

  /** The same over every prefix of what was sent, the header included. */
  lemma CompleteFromLength(message: string, statusLine: string, fields: seq<Field>, length: nat)
    requires AnnouncesLength(statusLine, fields, length)
    requires OccursAt(message, Head(statusLine, fields), 0)
    ensures forall k | 0 <= k <= |message| ::
      ResponseIsComplete(message[..k]) <==> |Head(statusLine, fields)| + length <= k
  {
    forall k | 0 <= k <= |message|
      ensures ResponseIsComplete(message[..k]) <==> |Head(statusLine, fields)| + length <= k
    {
      if k < |Head(statusLine, fields)| {
        NoHeaderEndYet(message, statusLine, fields, k);
      } else {
        OccursInPart(message, 0, k, Head(statusLine, fields), 0);
        assert message[0..k] == message[..k];
        CompleteByLength(message[..k], statusLine, fields, length);
      }
    }
  }

  /**
    Without the chunked coding, the last length field frames the body: a body of that many bytes is cut off behind the
    header, and one that is shorter, or has no length that can be read, is refused.
    */
  lemma ParsesByField(bytes: string, statusLine: string, fields: seq<Field>, f: Field)
    requires ValidHead(statusLine, fields) && OccursAt(bytes, Head(statusLine, fields), 0)
    requires LastField(fields, CONTENT_LENGTH, f) && !NamesChunked(fields)
    ensures |Head(statusLine, fields)| <= |bytes|
    ensures var (begin, length) := (|Head(statusLine, fields)|, FromChars(Trimmed(f.value), Decimal, SIZE_LIMIT));
      Parsed(bytes) ==
        if length.Ok? && begin + length.value <= |bytes|
        then Ok(HttpResponse(StatusOf(statusLine).value, Applied(map[], fields), bytes[begin..begin + length.value]))
        else Err(IncompleteBody)
  {
    hide ValidHead, FromChars, Trimmed, Parsed, OccursAt, Applied, NamesChunked, LastField;
    ParsesMessage(bytes, statusLine, fields);
    AppliedHolds(map[], fields, CONTENT_LENGTH, f);
    ChunkedCodingIs(fields);
    HeadFits(bytes, statusLine, fields);
    var begin := |Head(statusLine, fields)|;
    assert forall n: nat | begin + n <= |bytes| :: bytes[begin..][..n] == bytes[begin..begin + n];
  }

  lemma HeadFits(bytes: string, statusLine: string, fields: seq<Field>)
    requires OccursAt(bytes, Head(statusLine, fields), 0)
    ensures 4 <= |Head(statusLine, fields)| <= |bytes|
  {
    HeadLength(statusLine, fields);
  }

  /** Any prefix that reaches the declared end is read as the same response. */
  lemma ParsesLengthFramed(bytes: string, statusLine: string, fields: seq<Field>, length: nat)
    requires AnnouncesLength(statusLine, fields, length)
    requires OccursAt(bytes, Head(statusLine, fields), 0)
    requires |Head(statusLine, fields)| + length <= |bytes|
    ensures var begin := |Head(statusLine, fields)|;
      Parsed(bytes) == Ok(HttpResponse(StatusOf(statusLine).value, Applied(map[], fields), bytes[begin..begin + length]))
  {
    hide ValidHead, FromChars, Trimmed, Parsed, OccursAt, Applied;
    var f := LengthField(statusLine, fields, length);
    OnlyIsFirstAndLast(fields, CONTENT_LENGTH, f);
    ParsesByField(bytes, statusLine, fields, f);
  }

  /**
    Fragmentation independence: a response with one Content-Length field is reported with exactly the declared
    body, for every way of cutting what the server sends into fragments, for every ending of the connection, and
    whatever and however much is sent behind the declared end.
    */
  lemma LengthFramedForEveryFragmentation(
    statusLine: string, fields: seq<Field>, body: string, extra: string, fragments: seq<string>, ending: Ending)
    requires AnnouncesLength(statusLine, fields, |body|)
    requires Delivered(fragments) == Head(statusLine, fields) + body + extra
    requires WithinLimit(fragments, |Head(statusLine, fields)| + |body|)
    ensures Reported(fragments, ending) == Ok(HttpResponse(StatusOf(statusLine).value, Applied(map[], fields), body))
  {
    var message, head := Delivered(fragments), Head(statusLine, fields);
    OccursSlice(message, head, 0);
    assert message[0..|head|] == head;
    CompleteFromLength(message, statusLine, fields, |body|);
    assert message == "" + Delivered(fragments);
    WithinLimitEnd(fragments, |head| + |body|);
    hide *;
    var n := StopsBehind(message, |head| + |body|, "", fragments, ending);
    ReportsPrefix(message, n, statusLine, fields, |body|, fragments, ending);
    assert message[|head|..|head| + |body|] == body;
  }

  /** A length field as servers write it announces the number that stands in it. */
  lemma WrittenLength(statusLine: string, before: seq<Field>, after: seq<Field>, length: nat)
    requires var fields := before + [Field("Content-Length", " " + DecimalText(length))] + after;
      ValidHead(statusLine, fields) && NoField(fields, TRANSFER_ENCODING)
    requires NoField(before, CONTENT_LENGTH) && NoField(after, CONTENT_LENGTH)
    requires length < SIZE_LIMIT
    ensures
      AnnouncesLength(statusLine, before + [Field("Content-Length", " " + DecimalText(length))] + after, length)
  {
    hide ValidHead, Named, Trimmed, FromChars, DecimalText;
    var f := Field("Content-Length", " " + DecimalText(length));
    var fields := before + [f] + after;
    FramingFields(f.value);
    TrimmedNumber(length);
    DecimalTextDenotes(length);
    var j := |before|;
    assert fields[j] == f;
    forall m | 0 <= m < |fields| && m != j
      ensures !Named(fields[m], CONTENT_LENGTH)
    {
      assert fields[m] in before || fields[m] in after;
    }
  }

  lemma TrimmedNumber(n: nat)
    ensures Trimmed(" " + DecimalText(n)) == DecimalText(n)
  {
    var text := DecimalText(n);
    DecimalTextDenotes(n);
    assert IsDigitIn(text[0], Decimal) && IsDigitIn(text[|text| - 1], Decimal);
    assert (" " + text)[1..] == text;
    assert TrimLeft(" " + text) == TrimLeft(text) == text;
  }

  lemma WithinLimitEnd(fragments: seq<string>, end: nat)
    requires WithinLimit(fragments, end) && end <= |Delivered(fragments)|
    ensures end <= MAXIMUM_RESPONSE_SIZE
    ensures |Delivered(fragments)| <= MAXIMUM_RESPONSE_SIZE
      || (ValidFragments(fragments) && end + READ_BUFFER_SIZE - 1 <= MAXIMUM_RESPONSE_SIZE)
  {
  }

  lemma ReportsPrefix(
    message: string, n: nat, statusLine: string, fields: seq<Field>, length: nat, fragments: seq<string>, ending: Ending)
    requires AnnouncesLength(statusLine, fields, length)
    requires OccursAt(message, Head(statusLine, fields), 0)
    requires |Head(statusLine, fields)| + length <= n <= |message| && n <= MAXIMUM_RESPONSE_SIZE
    requires Received("", fragments, ending) == Ok(message[..n])
    ensures var begin := |Head(statusLine, fields)|;
      Reported(fragments, ending) ==
        Ok(HttpResponse(StatusOf(statusLine).value, Applied(map[], fields), message[begin..begin + length]))
  {
    hide Parsed, AnnouncesLength, OccursAt, Received, Head;
    var begin := |Head(statusLine, fields)|;
    assert message[0..n] == message[..n];
    OccursInPart(message, 0, n, Head(statusLine, fields), 0);
    ParsesLengthFramed(message[..n], statusLine, fields, length);
    assert message[..n][begin..begin + length] == message[begin..begin + length];
  }
}
