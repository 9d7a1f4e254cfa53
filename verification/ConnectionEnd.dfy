/** Responses that are never taken for complete: the end of the connection decides (`PerformRequest` of whep_http.cpp). */
module ConnectionEnds {
  import opened Wrappers
  import opened Text
  import opened Chunked
  import opened HttpResponses
  import opened HttpMessages
  import opened HttpExchange
  import opened ChunkedResponses

  /** Nothing that arrives of the message stops the reading before the connection ends. */
  ghost predicate NeverComplete(message: string) {
    forall k | 0 <= k <= |message| :: !ResponseIsComplete(message[..k])
  }

  /** Such a message is read to its end, or until it has passed the limit. */
  lemma {:induction false} ReadsOn(message: string, bytes: string, fragments: seq<string>, ending: Ending)
    requires NeverComplete(message) && message == bytes + Delivered(fragments)
    ensures var received := Received(bytes, fragments, ending);
      if |message| <= MAXIMUM_RESPONSE_SIZE
      then received == if ending.ReadError? then Err(ReceiveFailed(ending.code)) else Ok(message)
      else received.Ok? && |received.value| > MAXIMUM_RESPONSE_SIZE
    decreases |fragments|
  {
    hide ResponseIsComplete;
    assert fragments == [] ==> message == bytes;
    if |bytes| <= MAXIMUM_RESPONSE_SIZE && fragments != [] {
      var next := bytes + fragments[0];
      assert message == next + Delivered(fragments[1..]);
      assert next == message[..|next|];
      ReadsOn(message, next, fragments[1..], ending);
    }
  }

  /**
    For every fragmentation, a message that is never complete is reported as it stands when the connection is closed or
    reset; a read error is reported in its place, and so is a message of more than 4 MiB.
    */
  lemma ReportedAtTheEnd(message: string, fragments: seq<string>, ending: Ending)
    requires NeverComplete(message) && Delivered(fragments) == message
    ensures Reported(fragments, ending) ==
      if |message| > 4194304 then Err(ResponseTooLarge)
      else
        match ending {
          case ReadError(code) => Err(ReceiveFailed(code))
          case _ => match Parsed(message) { case Ok(response) => Ok(response) case Err(e) => Err(BadResponse(e)) }
        }
  {
    hide ResponseIsComplete, NeverComplete, Parsed, Received;
    assert message == "" + Delivered(fragments);
    ReadsOn(message, "", fragments, ending);
  }

  // ---------------------------------------------------------------- a body that the end of the connection frames

  /**
    A head that announces neither a length nor the chunked coding. Another transfer coding may stand in it, if the word
    "chunked" stands nowhere in it.
    */
  ghost predicate AnnouncesNothing(statusLine: string, fields: seq<Field>) {
    && ValidHead(statusLine, fields)
    && NoField(fields, CONTENT_LENGTH)
    && !NamesChunked(fields)
    && (NoField(fields, TRANSFER_ENCODING) || !Contains(Lowercase(Head(statusLine, fields)), "chunked"))
  }

  lemma NoCodingNamed(statusLine: string, fields: seq<Field>)
    requires ValidHead(statusLine, fields)
    requires NoField(fields, CONTENT_LENGTH) && NoField(fields, TRANSFER_ENCODING)
    ensures AnnouncesNothing(statusLine, fields)
  {
  }

  /** The whole of what stands behind such a head is the body. */
  lemma ParsesToTheEnd(statusLine: string, fields: seq<Field>, body: string)
    requires ValidHead(statusLine, fields) && NoField(fields, CONTENT_LENGTH) && !NamesChunked(fields)
    ensures Parsed(Head(statusLine, fields) + body) ==
      Ok(HttpResponse(StatusOf(statusLine).value, Applied(map[], fields), body))
  {
    hide ValidHead, Parsed, Applied, Head, NamesChunked;
    var head := Head(statusLine, fields);
    var bytes := head + body;
    OccursSlice(bytes, head, 0);
    assert bytes[0..|head|] == head && bytes[|head|..] == body;
    ParsesMessage(bytes, statusLine, fields);
    AppliedKeeps(map[], fields, CONTENT_LENGTH);
    ChunkedCodingIs(fields);
  }

  /** What contains a text contains it in a longer text too. */
  lemma ContainedInMore(s: string, t: string, p: string)
    requires s <= t && Contains(s, p)
    ensures Contains(t, p)
  {
    var i :| 0 <= i <= |s| && OccursAt(s, p, i);
    assert OccursAt(t, p, i);
  }

  /** No prefix of such a response is complete, whatever its body contains. */
  lemma NeverEndsByItself(statusLine: string, fields: seq<Field>, body: string)
    requires AnnouncesNothing(statusLine, fields)
    ensures NeverComplete(Head(statusLine, fields) + body)
  {
    hide ResponseIsComplete, NamesChunked, ValidHead, NoField, Contains;
    var head := Head(statusLine, fields);
    var message := head + body;
    OccursSlice(message, head, 0);
    assert message[0..|head|] == head;
    forall k | 0 <= k <= |message|
      ensures !ResponseIsComplete(message[..k])
    {
      if k < |head| {
        NoHeaderEndYet(message, statusLine, fields, k);
      } else {
        HeadInPrefix(message, head, k);
        CompleteWithoutLength(message[..k], statusLine, fields);
        if Contains(Lowercase(message[..k][..|head| - 4]), "chunked") {
          assert message[..k][..|head| - 4] == head[..|head| - 4];
          ContainedInMore(Lowercase(head[..|head| - 4]), Lowercase(head), "chunked");
        }
      }
    }
  }

  lemma HeadInPrefix(message: string, head: string, k: nat)
    requires OccursAt(message, head, 0) && |head| <= k <= |message|
    ensures OccursAt(message[..k], head, 0)
  {
  }

  /**
    A body that is framed by the end of the connection is reported whole, for every fragmentation, when the connection
    is closed or reset.
    */
  lemma ClosedForEveryFragmentation(
    statusLine: string, fields: seq<Field>, body: string, fragments: seq<string>, ending: Ending)
    requires AnnouncesNothing(statusLine, fields)
    requires Delivered(fragments) == Head(statusLine, fields) + body
    ensures Reported(fragments, ending) ==
      if |Delivered(fragments)| > 4194304 then Err(ResponseTooLarge)
      else
        match ending {
          case ReadError(code) => Err(ReceiveFailed(code))
          case _ => Ok(HttpResponse(StatusOf(statusLine).value, Applied(map[], fields), body))
        }
  {
    hide Parsed, NeverComplete, ValidHead, Reported, Delivered;
    NeverEndsByItself(statusLine, fields, body);
    ParsesToTheEnd(statusLine, fields, body);
    ReportedAtTheEnd(Delivered(fragments), fragments, ending);
  }

  // ---------------------------------------------------------------- a length that is not reached

  /** A head whose one length field has no value that the body reaches. */
  ghost predicate AnnouncesMore(statusLine: string, fields: seq<Field>, body: string) {
    && ValidHead(statusLine, fields)
    && !NamesChunked(fields)
    && exists f :: OnlyField(fields, CONTENT_LENGTH, f) && NotReached(f, |body|)
  }

  predicate NotReached(f: Field, available: nat) {
    var length := FromChars(Trimmed(f.value), Decimal, SIZE_LIMIT);
    length.Err? || length.value > available
  }

  /**
    A body that is shorter than announced, or whose announced length cannot be read, is refused, for every fragmentation
    of it, when the connection is closed or reset. No other transfer coding makes a difference.
    */
  lemma ShortForEveryFragmentation(
    statusLine: string, fields: seq<Field>, body: string, fragments: seq<string>, ending: Ending)
    requires AnnouncesMore(statusLine, fields, body)
    requires Delivered(fragments) == Head(statusLine, fields) + body
    ensures Reported(fragments, ending) ==
      if |Delivered(fragments)| > 4194304 then Err(ResponseTooLarge)
      else
        match ending {
          case ReadError(code) => Err(ReceiveFailed(code))
          case _ => Err(BadResponse(IncompleteBody))
        }
  {
    hide Parsed, NeverComplete, ResponseIsComplete, ValidHead, Reported, OnlyField, FirstField, LastField, Trimmed, Named;
    hide FromChars, NamesChunked, Delivered;
    var head, message := Head(statusLine, fields), Delivered(fragments);
    var f :| OnlyField(fields, CONTENT_LENGTH, f) && NotReached(f, |body|);
    OnlyIsFirstAndLast(fields, CONTENT_LENGTH, f);
    OccursSlice(message, head, 0);
    assert message[0..|head|] == head;
    NeverReached(message, statusLine, fields, f);
    ParsesByField(message, statusLine, fields, f);
    ReportedAtTheEnd(message, fragments, ending);
  }

  lemma NeverReached(message: string, statusLine: string, fields: seq<Field>, f: Field)
    requires ValidHead(statusLine, fields) && FirstField(fields, CONTENT_LENGTH, f)
    requires OccursAt(message, Head(statusLine, fields), 0)
    requires |Head(statusLine, fields)| <= |message| && NotReached(f, |message| - |Head(statusLine, fields)|)
    ensures NeverComplete(message)
  {
    hide ResponseIsComplete, ValidHead, FirstField, Trimmed, FromChars, Head, OccursAt;
    var head := Head(statusLine, fields);
    forall k | 0 <= k <= |message|
      ensures !ResponseIsComplete(message[..k])
    {
      if k < |head| {
        NoHeaderEndYet(message, statusLine, fields, k);
      } else {
        HeadInPrefix(message, head, k);
        CompleteByField(message[..k], statusLine, fields, f);
      }
    }
  }

  // ---------------------------------------------------------------- a header that does not end

  /** Without an empty line in it, whatever arrives is refused when the connection is closed or reset. */
  lemma HeaderlessForEveryFragmentation(message: string, fragments: seq<string>, ending: Ending)
    requires forall i | 0 <= i <= |message| :: !OccursAt(message, "\r\n\r\n", i)
    requires Delivered(fragments) == message
    ensures Reported(fragments, ending) ==
      if |message| > 4194304 then Err(ResponseTooLarge)
      else
        match ending {
          case ReadError(code) => Err(ReceiveFailed(code))
          case _ => Err(BadResponse(InvalidHeader))
        }
  {
    hide Parsed, Reported, Delivered, OccursAt;
    forall k | 0 <= k <= |message|
      ensures !ResponseIsComplete(message[..k])
    {
      NoHeaderEndIn(message, k);
    }
    forall i: nat
      ensures !OccursAt(message, "\r\n\r\n", i)
    {
      if i > |message| {
        HeaderEndOccurs(message, i);
      }
    }
    HeaderIsRefused(message);
    ReportedAtTheEnd(message, fragments, ending);
  }

  lemma NoHeaderEndIn(message: string, k: nat)
    requires k <= |message| && forall i | 0 <= i <= |message| :: !OccursAt(message, "\r\n\r\n", i)
    ensures !ResponseIsComplete(message[..k])
  {
    hide OccursAt;
    var headerEnd := FindHeaderEnd(message[..k], 0);
    if headerEnd.Some? {
      HeaderEndOccurs(message, headerEnd.value);
    }
  }

  // ---------------------------------------------------------------- both framings at once

  /**
    A response that names the chunked coding and has a length field is framed twice: reading stops where the first
    length field says, and what has been read is decoded as chunks.
    */
  lemma FramedTwice(statusLine: string, fields: seq<Field>, f: Field, bytes: string)
    requires ValidHead(statusLine, fields) && OccursAt(bytes, Head(statusLine, fields), 0)
    requires NamesChunked(fields) && FirstField(fields, CONTENT_LENGTH, f)
    ensures |Head(statusLine, fields)| <= |bytes|
    ensures var length := FromChars(Trimmed(f.value), Decimal, SIZE_LIMIT);
      ResponseIsComplete(bytes) <==> length.Ok? && |Head(statusLine, fields)| + length.value <= |bytes|
    ensures Parsed(bytes) ==
      match Decoded(bytes[|Head(statusLine, fields)|..], 0, 0) {
        case Ok(body) => Ok(HttpResponse(StatusOf(statusLine).value, Applied(map[], fields), body))
        case Err(e) => Err(InvalidChunks(e))
      }
  {
    HeadFits(bytes, statusLine, fields);
    CompleteByField(bytes, statusLine, fields, f);
    ParsesByDecoding(bytes, statusLine, fields);
  }
}
