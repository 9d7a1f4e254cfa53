/** HTTP response messages (`ParseResponse` of whep_http.cpp; sections 2.1, 5 and 6 of RFC 9112). */
module HttpResponses {
  import opened Wrappers
  import opened Text
  import opened Chunked

  const MAXIMUM_HEADER_SIZE: nat := 64 * 1024
  const INT_MAX: int := 0x7fff_ffff

  datatype HttpResponse = HttpResponse(status: int, headers: map<string, string>, body: string)

  datatype ResponseError =
    | InvalidHeader
    | InvalidStatusLine
    | InvalidStatus
    | InvalidHeaderLine
    | InvalidHeaderField
    | IncompleteBody
    | InvalidChunks(error: ChunkError)

  const CONTENT_LENGTH: string := "content-length"
  const TRANSFER_ENCODING: string := "transfer-encoding"

  // ---------------------------------------------------------------- the end of the header

  predicate AtHeaderEnd(s: string, i: int) {
    AtLineEnd(s, i) && AtLineEnd(s, i + 2)
  }

  /** `s.find("\r\n\r\n")`. */
  function FindHeaderEnd(s: string, from: nat): (r: Option<nat>)
    ensures r.Some? ==> from <= r.value && AtHeaderEnd(s, r.value)
    ensures r.Some? ==> forall i | from <= i < r.value :: !AtHeaderEnd(s, i)
    ensures r.None? ==> forall i | from <= i :: !AtHeaderEnd(s, i)
    decreases |s| - from
  {
    if from + 4 > |s| then None
    else if AtHeaderEnd(s, from) then Some(from)
    else FindHeaderEnd(s, from + 1)
  }

  // ---------------------------------------------------------------- the status line

  function SkipSpaces(s: string, i: nat): (j: nat)
    requires i <= |s|
    ensures i <= j <= |s|
    decreases |s| - i
  {
    if i < |s| && IsSpace(s[i]) then SkipSpaces(s, i + 1) else i
  }

  function SkipToken(s: string, i: nat): (j: nat)
    requires i <= |s|
    ensures i <= j <= |s|
    decreases |s| - i
  {
    if i < |s| && !IsSpace(s[i]) then SkipToken(s, i + 1) else i
  }

  /** `stream >> value` for an int: 0 without digits, saturated when the digits do not fit. */
  function ReadInt(s: string, i: nat): int
    requires i <= |s|
  {
    var begin := SkipSpaces(s, i);
    var digits := if begin < |s| && s[begin] in "+-" then begin + 1 else begin;
    var end := DigitRun(s, Decimal, digits);
    var magnitude: int := NumberUpTo(s[digits..], Decimal, end - digits);
    if begin < |s| && s[begin] == '-' then (if magnitude > INT_MAX + 1 then -INT_MAX - 1 else -magnitude)
    else if magnitude > INT_MAX then INT_MAX else magnitude
  }

  /** The status code of a status line: a protocol token, white space, and a number from 100 to 599. */
  function StatusOf(line: string): (r: Result<int, ResponseError>)
    ensures r.Ok? ==> 100 <= r.value <= 599
  {
    var begin := SkipSpaces(line, 0);
    var end := SkipToken(line, begin);
    var status := ReadInt(line, end);
    if "HTTP/" <= line[begin..end] && 100 <= status <= 599 then Ok(status) else Err(InvalidStatus)
  }

  lemma {:induction false} SkipTokenIs(s: string, i: nat, j: nat)
    requires i <= j <= |s| && (forall k | i <= k < j :: !IsSpace(s[k])) && (j < |s| ==> IsSpace(s[j]))
    ensures SkipToken(s, i) == j
    decreases j - i
  {
    if i < j {
      SkipTokenIs(s, i + 1, j);
    }
  }

  lemma CharactersAt(s: string, begin: nat, text: string, more: string)
    requires begin <= |s| && s[begin..] == text + more
    ensures begin + |text| + |more| == |s|
    ensures forall k | 0 <= k < |text| :: s[begin + k] == text[k]
    ensures more != "" ==> s[begin + |text|] == more[0]
  {
    assert |s[begin..]| == |text| + |more|;
    forall k | 0 <= k < |text| ensures s[begin + k] == text[k] {
      assert s[begin..][k] == text[k];
    }
    if more != "" {
      assert s[begin..][|text|] == more[0];
    }
  }

  lemma DigitsAt(s: string, begin: nat, digits: string, reason: string)
    requires begin <= |s| && s[begin..] == digits + reason
    requires AllDigits(digits, Decimal) && (reason != "" ==> !IsDigit(reason[0]))
    ensures DigitRun(s, Decimal, begin) == begin + |digits|
    ensures NumberUpTo(s[begin..], Decimal, |digits|) == NumberOf(digits, Decimal)
  {
    CharactersAt(s, begin, digits, reason);
    forall k | begin <= k < begin + |digits| ensures IsDigitIn(s[k], Decimal) {
      assert s[begin + (k - begin)] == digits[k - begin];
    }
    DigitRunHoldsDigits(s, Decimal, begin);
    NumberOfPrefix(s[begin..], digits, Decimal, |digits|);
  }

  lemma {:induction false} SkipSpacesIs(s: string, i: nat, j: nat)
    requires i <= j <= |s| && (forall k | i <= k < j :: IsSpace(s[k])) && (j < |s| ==> !IsSpace(s[j]))
    ensures SkipSpaces(s, i) == j
    decreases j - i
  {
    if i < j {
      SkipSpacesIs(s, i + 1, j);
    }
  }

  predicate Spaces(s: string) {
    forall c | c in s :: IsSpace(c)
  }

  /** A number behind white space and a sign is read as what its digits denote, up to the range of an `int`. */
  lemma ReadsNumber(s: string, i: nat, gap: string, sign: string, digits: string, reason: string)
    requires i <= |s| && s[i..] == gap + (sign + digits + reason)
    requires Spaces(gap) && sign in {"", "+", "-"}
    requires digits != "" && AllDigits(digits, Decimal) && (reason != "" ==> !IsDigit(reason[0]))
    ensures ReadInt(s, i) == var n: int := NumberOf(digits, Decimal);
      if sign == "-" then (if n > 2147483648 then -2147483648 else -n) else if n > 2147483647 then 2147483647 else n
  {
    hide DigitRun, NumberUpTo, NumberOf, AllDigits, ReadInt;
    var begin := i + |gap|;
    var number := sign + digits + reason;
    CharactersAt(s, i, gap, number);
    FirstDigit(digits);
    forall k | i <= k < begin
      ensures IsSpace(s[k])
    {
      assert s[i + (k - i)] == gap[k - i] && gap[k - i] in gap;
    }
    assert number[0] == if sign == "" then digits[0] else sign[0];
    SkipSpacesIs(s, i, begin);
    assert s[begin..] == number;
    assert s[begin + |sign|..] == digits + reason;
    DigitsAt(s, begin + |sign|, digits, reason);
    SignedNumber(s, i, begin, sign, |digits|, NumberOf(digits, Decimal));
  }

  lemma FirstDigit(digits: string)
    requires digits != "" && AllDigits(digits, Decimal)
    ensures IsDigit(digits[0])
  {
    assert IsDigitIn(digits[0], Decimal);
  }

  lemma SignedNumber(s: string, i: nat, begin: nat, sign: string, length: nat, n: int)
    requires i <= begin < |s| && SkipSpaces(s, i) == begin && sign in {"", "+", "-"}
    requires if sign == "" then IsDigit(s[begin]) else s[begin] == sign[0]
    requires begin + |sign| + length <= |s| && DigitRun(s, Decimal, begin + |sign|) == begin + |sign| + length
    requires NumberUpTo(s[begin + |sign|..], Decimal, length) == n
    ensures ReadInt(s, i) ==
      if sign == "-" then (if n > 2147483648 then -2147483648 else -n) else if n > 2147483647 then 2147483647 else n
  {
    hide DigitRun, NumberUpTo, SkipSpaces;
  }

  /**
    A status line whose first word is a version and whose second word begins with a number is accepted exactly if the
    version begins with "HTTP/" and the number is from 100 to 599, and that number is the status.
    */
  lemma StatusLineReads(
    lead: string, version: string, gap: string, sign: string, digits: string, reason: string)
    requires Spaces(lead) && Spaces(gap) && gap != ""
    requires version != "" && (forall c | c in version :: !IsSpace(c)) && sign in {"", "+", "-"}
    requires digits != "" && AllDigits(digits, Decimal) && (reason != "" ==> !IsDigit(reason[0]))
    ensures StatusOf(lead + version + (gap + (sign + digits + reason))) ==
      var n := NumberOf(digits, Decimal);
      if "HTTP/" <= version && sign != "-" && 100 <= n <= 599 then Ok(n) else Err(InvalidStatus)
  {
    var number := gap + (sign + digits + reason);
    var line := lead + version + number;
    FirstWordOf(lead, version, number);
    var end := |lead| + |version|;
    assert line[end..] == number;
    ReadsNumber(line, end, gap, sign, digits, reason);
  }

  /** Where the first word of a line stands. */
  lemma FirstWordOf(lead: string, word: string, rest: string)
    requires Spaces(lead) && word != "" && (forall c | c in word :: !IsSpace(c)) && (rest != "" ==> IsSpace(rest[0]))
    ensures var line := lead + word + rest;
      && SkipSpaces(line, 0) == |lead|
      && SkipToken(line, |lead|) == |lead| + |word|
      && line[|lead|..|lead| + |word|] == word
  {
    hide SkipSpaces, SkipToken, IsSpace;
    var line := lead + word + rest;
    assert line == lead + (word + rest);
    CharactersAt(line, 0, lead, word + rest);
    assert line[|lead|..] == word + rest;
    CharactersAt(line, |lead|, word, rest);
    assert line[|lead|] == word[0];
    SkipSpacesIs(line, 0, |lead|);
    SkipTokenIs(line, |lead|, |lead| + |word|);
  }

  /** A first word that begins otherwise is refused whatever follows it; so is a line in which no number follows it. */
  lemma StatusLineIsRefused(lead: string, version: string, gap: string, rest: string)
    requires Spaces(lead) && Spaces(gap) && version != "" && (forall c | c in version :: !IsSpace(c))
    requires (gap == "" ==> rest == "") && (rest != "" ==> !IsSpace(rest[0]))
    requires "HTTP/" <= version ==> rest == "" || (!IsDigit(rest[0]) && rest[0] !in "+-")
    ensures StatusOf(lead + version + (gap + rest)) == Err(InvalidStatus)
  {
    hide SkipSpaces, SkipToken, IsSpace, ReadInt, IsDigit;
    var tail := gap + rest;
    var line := lead + version + tail;
    FirstWordOf(lead, version, tail);
    var end := |lead| + |version|;
    assert line[end..] == tail;
    CharactersAt(line, end, gap, rest);
    SkipSpacesIs(line, end, end + |gap|);
    if "HTTP/" <= version {
      NoNumber(line, end, end + |gap|);
    }
  }

  lemma NoNumber(s: string, i: nat, begin: nat)
    requires i <= begin <= |s| && SkipSpaces(s, i) == begin
    requires begin < |s| ==> !IsDigit(s[begin]) && s[begin] !in "+-"
    ensures ReadInt(s, i) == 0
  {
  }

  // ---------------------------------------------------------------- the header fields

  /** The name under which a field is stored. */
  function FieldKey(name: string): string {
    Lowercase(Trimmed(name))
  }

  /** One header field, and the position of its line end. */
  datatype FieldLine = FieldLine(key: string, value: string, lineEnd: nat)

  /** Reads the header field that begins at `lineBegin`. */
  function TakeField(bytes: string, lineBegin: nat, headerEnd: nat): (r: Result<FieldLine, ResponseError>)
    ensures r.Ok? ==> lineBegin < r.value.lineEnd <= headerEnd
  {
    match FindLineEnd(bytes, lineBegin)
    case None => Err(InvalidHeaderLine)
    case Some(lineEnd) =>
      if lineEnd > headerEnd then Err(InvalidHeaderLine)
      else
        match FindCharFrom(bytes, ':', lineBegin)
        case None => Err(InvalidHeaderField)
        case Some(colon) =>
          if colon >= lineEnd then Err(InvalidHeaderField)
          else Ok(FieldLine(FieldKey(bytes[lineBegin..colon]), Trimmed(bytes[colon + 1..lineEnd]), lineEnd))
  }

  /** The fields of the lines from `lineBegin` to the end of the header; a later field replaces an earlier one. */
  function ParsedFields(bytes: string, lineBegin: nat, headerEnd: nat, headers: map<string, string>)
    : Result<map<string, string>, ResponseError>
    decreases headerEnd - lineBegin
  {
    if lineBegin >= headerEnd then Ok(headers)
    else
      match TakeField(bytes, lineBegin, headerEnd)
      case Err(e) => Err(e)
      case Ok(f) => ParsedFields(bytes, f.lineEnd + 2, headerEnd, headers[f.key := f.value])
  }

  // ---------------------------------------------------------------- the body

  predicate IsChunkedCoding(headers: map<string, string>) {
    TRANSFER_ENCODING in headers && Contains(Lowercase(headers[TRANSFER_ENCODING]), "chunked")
  }

  /** The body among the bytes behind the header. */
  function BodyOf(headers: map<string, string>, encoded: string): Result<string, ResponseError> {
    if IsChunkedCoding(headers) then
      match Decoded(encoded, 0, 0)
      case Ok(body) => Ok(body)
      case Err(e) => Err(InvalidChunks(e))
    else if CONTENT_LENGTH in headers then
      match FromChars(headers[CONTENT_LENGTH], Decimal, SIZE_LIMIT)
      case Err(_) => Err(IncompleteBody)
      case Ok(length) => if length > |encoded| then Err(IncompleteBody) else Ok(encoded[..length])
    else Ok(encoded)
  }

  /** The meaning of parsing a response. */
  function Parsed(bytes: string): Result<HttpResponse, ResponseError> {
    match FindHeaderEnd(bytes, 0)
    case None => Err(InvalidHeader)
    case Some(headerEnd) => if headerEnd > MAXIMUM_HEADER_SIZE then Err(InvalidHeader) else ParsedBehind(bytes, headerEnd)
  }

  function ParsedBehind(bytes: string, headerEnd: nat): Result<HttpResponse, ResponseError>
    requires AtHeaderEnd(bytes, headerEnd)
  {
    match FindLineEnd(bytes, 0)
    case None => Err(InvalidStatusLine)
    case Some(statusEnd) =>
      match StatusOf(bytes[..statusEnd])
      case Err(e) => Err(e)
      case Ok(status) =>
        match ParsedFields(bytes, statusEnd + 2, headerEnd, map[])
        case Err(e) => Err(e)
        case Ok(headers) =>
          match BodyOf(headers, bytes[headerEnd + 4..])
          case Err(e) => Err(e)
          case Ok(body) => Ok(HttpResponse(status, headers, body))
  }

  method ReadField(bytes: string, lineBegin: nat, headerEnd: nat) returns (field: Result<FieldLine, ResponseError>)
    ensures field == TakeField(bytes, lineBegin, headerEnd)
  {
    var lineEnd := FindLineEnd(bytes, lineBegin);
    if lineEnd.None? || lineEnd.value > headerEnd {
      return Err(InvalidHeaderLine);
    }
    var colon := FindCharFrom(bytes, ':', lineBegin);
    if colon.None? || colon.value >= lineEnd.value {
      return Err(InvalidHeaderField);
    }
    var name := Trim(bytes[lineBegin..colon.value]);
    var value := Trim(bytes[colon.value + 1..lineEnd.value]);
    return Ok(FieldLine(Lowercase(name), value, lineEnd.value));
  }

  method ParseFields(bytes: string, firstLine: nat, headerEnd: nat) returns (result: Result<map<string, string>, ResponseError>)
    ensures result == ParsedFields(bytes, firstLine, headerEnd, map[])
  {
    var lineBegin := firstLine;
    var headers := map[];
    hide TakeField;
    while lineBegin < headerEnd
      invariant ParsedFields(bytes, firstLine, headerEnd, map[]) == ParsedFields(bytes, lineBegin, headerEnd, headers)
      decreases headerEnd - lineBegin
    {
      var field := ReadField(bytes, lineBegin, headerEnd);
      if field.Err? {
        return Err(field.error);
      }
      headers := headers[field.value.key := field.value.value];
      lineBegin := field.value.lineEnd + 2;
    }
    return Ok(headers);
  }

  method ReadBody(headers: map<string, string>, encodedBody: string) returns (result: Result<string, ResponseError>)
    ensures result == BodyOf(headers, encodedBody)
  {
    if TRANSFER_ENCODING in headers && Find(Lowercase(headers[TRANSFER_ENCODING]), "chunked", 0).Some? {
      var decoded := DecodeChunkedBody(encodedBody);
      match decoded {
        case Ok(body) => return Ok(body);
        case Err(error) => return Err(InvalidChunks(error));
      }
    }
    if CONTENT_LENGTH in headers {
      var expectedLength := FromChars(headers[CONTENT_LENGTH], Decimal, SIZE_LIMIT);
      if expectedLength.Err? || expectedLength.value > |encodedBody| {
        return Err(IncompleteBody);
      }
      return Ok(encodedBody[..expectedLength.value]);
    }
    return Ok(encodedBody);
  }

  /** Reads a whole response: status line, header fields, and the body by whichever framing the fields announce. */
  method ParseResponse(bytes: string) returns (result: Result<HttpResponse, ResponseError>)
    ensures result == Parsed(bytes)
    ensures result != Err(InvalidStatusLine) && result != Err(InvalidHeaderLine)
  {
    var headerEnd := FindHeaderEnd(bytes, 0);
    if headerEnd.None? || headerEnd.value > MAXIMUM_HEADER_SIZE {
      return Err(InvalidHeader);
    }
    var statusEnd := FindLineEnd(bytes, 0);
    if statusEnd.None? {
      return Err(InvalidStatusLine);
    }
    var status := StatusOf(bytes[..statusEnd.value]);
    if status.Err? {
      return Err(status.error);
    }
    var headers := ParseFields(bytes, statusEnd.value + 2, headerEnd.value);
    FieldLinesEnd(bytes, statusEnd.value + 2, headerEnd.value, map[]);
    if headers.Err? {
      return Err(headers.error);
    }
    var body := ReadBody(headers.value, bytes[headerEnd.value + 4..]);
    if body.Err? {
      return Err(body.error);
    }
    return Ok(HttpResponse(status.value, headers.value, body.value));
  }

  /** Every header line ends at or before the end of the header, so that branch is never taken. */
  lemma {:induction false} FieldLinesEnd(bytes: string, lineBegin: nat, headerEnd: nat, headers: map<string, string>)
    requires AtHeaderEnd(bytes, headerEnd)
    ensures ParsedFields(bytes, lineBegin, headerEnd, headers) != Err(InvalidHeaderLine)
    ensures ParsedFields(bytes, lineBegin, headerEnd, headers) != Err(InvalidStatusLine)
    decreases headerEnd - lineBegin
  {
    hide TakeField;
    if lineBegin < headerEnd {
      FieldLineEnds(bytes, lineBegin, headerEnd);
      var f := TakeField(bytes, lineBegin, headerEnd);
      if f.Ok? {
        FieldLinesEnd(bytes, f.value.lineEnd + 2, headerEnd, headers[f.value.key := f.value.value]);
      }
    }
  }

  lemma FieldLineEnds(bytes: string, lineBegin: nat, headerEnd: nat)
    requires AtHeaderEnd(bytes, headerEnd) && lineBegin < headerEnd
    ensures TakeField(bytes, lineBegin, headerEnd) != Err(InvalidHeaderLine)
    ensures TakeField(bytes, lineBegin, headerEnd) != Err(InvalidStatusLine)
  {
    var lineEnd := FindLineEnd(bytes, lineBegin);
    assert lineEnd.Some? && lineEnd.value <= headerEnd;
  }

  // ---------------------------------------------------------------- when to stop reading

  /** Looks for a header line that begins with the key and a colon. */
  function FindKey(headers: string, key: string): (r: Option<nat>)
    ensures r.Some? ==> r.value + |key| + 3 <= |headers|
  {
    Find(headers, CRLF + (key + ":"), 0)
  }

  /** The bytes CRLF "0" CRLF CRLF. */
  predicate AtLastChunk(s: string, i: int) {
    AtLineEnd(s, i) && i + 2 < |s| && s[i + 2] == '0' && AtHeaderEnd(s, i + 3)
  }

  /** The body that begins at `begin` is an empty chunked body, or the mark of a last chunk occurs in it. */
  predicate ChunksEnd(bytes: string, begin: nat) {
    || (|bytes| == begin + 5 && bytes[begin] == '0' && AtHeaderEnd(bytes, begin + 1))
    || (exists i | begin <= i < |bytes| :: AtLastChunk(bytes, i))
  }

  /** Whether the length in the value that begins at `valueBegin` of the lower-cased header is available. */
  predicate LengthReached(headers: string, valueBegin: nat, available: nat)
    requires valueBegin <= |headers|
  {
    var valueEnd := match FindLineEnd(headers, valueBegin) case Some(end) => end case None => |headers|;
    match FromChars(Trimmed(headers[valueBegin..valueEnd]), Decimal, SIZE_LIMIT)
    case Ok(length) => length <= available
    case Err(_) => false
  }

  predicate AnnouncesChunks(headers: string) {
    FindKey(headers, TRANSFER_ENCODING).Some? && Find(headers, "chunked", 0).Some?
  }

  /** Decides, on what has been received so far, whether to stop reading. */
  predicate ResponseIsComplete(bytes: string) {
    match FindHeaderEnd(bytes, 0)
    case None => false
    case Some(headerEnd) =>
      var headers := Lowercase(bytes[..headerEnd]);
      match FindKey(headers, CONTENT_LENGTH)
      case Some(at) => LengthReached(headers, at + |CONTENT_LENGTH| + 3, |bytes| - (headerEnd + 4))
      case None => AnnouncesChunks(headers) && ChunksEnd(bytes, headerEnd + 4)
  }
}
