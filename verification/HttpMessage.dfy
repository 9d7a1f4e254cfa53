/** Response messages built from a status line and fields, and what the two readers of a response make of them. */
module HttpMessages {
  import opened Wrappers
  import opened Text
  import opened HttpResponses

  // ---------------------------------------------------------------- the grammar

  datatype Field = Field(name: string, value: string)

  function FieldText(f: Field): string {
    f.name + (":" + f.value)
  }

  /** A field name is a nonempty text without colon and white space (section 5.1 of RFC 9112). */
  predicate ValidField(f: Field) {
    && f.name != ""
    && (forall c | c in f.name :: c != ':' && !IsSpace(c))
    && !HasLineEnd(FieldText(f))
  }

  predicate ValidFields(fields: seq<Field>) {
    forall f | f in fields :: ValidField(f)
  }

  function FieldsWire(fields: seq<Field>): string {
    if fields == [] then "" else (FieldText(fields[0]) + CRLF) + FieldsWire(fields[1..])
  }

  function Head(statusLine: string, fields: seq<Field>): string {
    (statusLine + CRLF) + (FieldsWire(fields) + CRLF)
  }

  predicate ValidHead(statusLine: string, fields: seq<Field>) {
    && !HasLineEnd(statusLine)
    && StatusOf(statusLine).Ok?
    && ValidFields(fields)
    && |Head(statusLine, fields)| - 4 <= MAXIMUM_HEADER_SIZE
  }

  /** The fields as a map: the last field of a name wins. */
  function Applied(headers: map<string, string>, fields: seq<Field>): map<string, string>
    decreases |fields|
  {
    if fields == [] then headers
    else Applied(headers[Lowercase(fields[0].name) := Trimmed(fields[0].value)], fields[1..])
  }

  predicate Named(f: Field, key: string) {
    Lowercase(f.name) == key
  }

  predicate OnlyField(fields: seq<Field>, key: string, f: Field) {
    exists j | 0 <= j < |fields| ::
      && fields[j] == f && Named(f, key)
      && forall m | 0 <= m < |fields| && m != j :: !Named(fields[m], key)
  }

  predicate FirstField(fields: seq<Field>, key: string, f: Field) {
    exists j | 0 <= j < |fields| :: fields[j] == f && Named(f, key) && forall m | 0 <= m < j :: !Named(fields[m], key)
  }

  predicate LastField(fields: seq<Field>, key: string, f: Field) {
    exists j | 0 <= j < |fields| ::
      fields[j] == f && Named(f, key) && forall m | j < m < |fields| :: !Named(fields[m], key)
  }

  predicate NoField(fields: seq<Field>, key: string) {
    forall f | f in fields :: !Named(f, key)
  }

  // ---------------------------------------------------------------- fields as a map

  lemma {:induction false} AppliedKeeps(headers: map<string, string>, fields: seq<Field>, key: string)
    requires NoField(fields, key)
    ensures key in Applied(headers, fields) <==> key in headers
    ensures key in headers ==> Applied(headers, fields)[key] == headers[key]
    decreases |fields|
  {
    if fields != [] {
      assert fields[0] in fields;
      AppliedKeeps(headers[Lowercase(fields[0].name) := Trimmed(fields[0].value)], fields[1..], key);
    }
  }

  /** The map holds the trimmed value of the last field of a name. */
  lemma {:induction false} AppliedHolds(headers: map<string, string>, fields: seq<Field>, key: string, f: Field)
    requires LastField(fields, key, f)
    ensures key in Applied(headers, fields) && Applied(headers, fields)[key] == Trimmed(f.value)
    decreases |fields|
  {
    var j :| 0 <= j < |fields| && fields[j] == f && forall m | j < m < |fields| :: !Named(fields[m], key);
    var next := headers[Lowercase(fields[0].name) := Trimmed(fields[0].value)];
    if j == 0 {
      AppliedKeeps(next, fields[1..], key);
    } else {
      assert fields[1..][j - 1] == f;
      AppliedHolds(next, fields[1..], key, f);
    }
  }

  /** The transfer coding field that counts names the chunked coding somewhere in its value. */
  ghost predicate NamesChunked(fields: seq<Field>) {
    exists f :: LastField(fields, TRANSFER_ENCODING, f) && Contains(Lowercase(Trimmed(f.value)), "chunked")
  }

  /** That is what the reader of the response looks at. */
  lemma ChunkedCodingIs(fields: seq<Field>)
    ensures IsChunkedCoding(Applied(map[], fields)) <==> NamesChunked(fields)
  {
    hide Contains, LastField, NoField;
    var headers := Applied(map[], fields);
    forall f | LastField(fields, TRANSFER_ENCODING, f)
      ensures TRANSFER_ENCODING in headers && headers[TRANSFER_ENCODING] == Trimmed(f.value)
    {
      AppliedHolds(map[], fields, TRANSFER_ENCODING, f);
    }
    if NoField(fields, TRANSFER_ENCODING) {
      AppliedKeeps(map[], fields, TRANSFER_ENCODING);
    } else {
      var f := SomeLastField(fields, TRANSFER_ENCODING);
    }
  }

  lemma {:induction false} SomeLastField(fields: seq<Field>, key: string) returns (f: Field)
    requires !NoField(fields, key)
    ensures LastField(fields, key, f) && f in fields
    decreases |fields|
  {
    var n := |fields| - 1;
    if Named(fields[n], key) {
      f := fields[n];
    } else {
      var fewer := fields[..n];
      assert fields == fewer + [fields[n]];
      f := SomeLastField(fewer, key);
      var j :| 0 <= j < n && fewer[j] == f && forall m | j < m < n :: !Named(fewer[m], key);
      assert fields[j] == f;
      assert forall m | j < m < n :: fields[m] == fewer[m];
    }
  }

  lemma OnlyIsFirstAndLast(fields: seq<Field>, key: string, f: Field)
    requires OnlyField(fields, key, f)
    ensures FirstField(fields, key, f) && LastField(fields, key, f)
  {
  }

  /** A field of some name stands among the fields first and last. */
  lemma {:induction false} SomeFirstField(fields: seq<Field>, key: string) returns (f: Field)
    requires !NoField(fields, key)
    ensures FirstField(fields, key, f) && f in fields
    decreases |fields|
  {
    if Named(fields[0], key) {
      f := fields[0];
    } else {
      var more := fields[1..];
      assert fields == [fields[0]] + more;
      f := SomeFirstField(more, key);
      var j :| 0 <= j < |more| && more[j] == f && forall m | 0 <= m < j :: !Named(more[m], key);
      assert fields[j + 1] == f;
      assert forall m | 0 < m < j + 1 :: fields[m] == more[m - 1];
    }
  }

  // ---------------------------------------------------------------- one line

  lemma {:induction false} TrimmedName(s: string)
    requires forall c | c in s :: !IsSpace(c)
    ensures Trimmed(s) == s
  {
    if s != "" {
      assert s[0] in s && s[|s| - 1] in s;
    }
  }

  /** What stands where a field stands, its name being any text without a colon. */
  lemma FieldAt(bytes: string, i: nat, f: Field)
    requires ':' !in f.name && !HasLineEnd(FieldText(f))
    requires OccursAt(bytes, FieldText(f), i) && AtLineEnd(bytes, i + |FieldText(f)|)
    ensures FindLineEnd(bytes, i) == Some(i + |FieldText(f)|)
    ensures FindCharFrom(bytes, ':', i) == Some(i + |f.name|)
    ensures bytes[i..i + |f.name|] == f.name
    ensures bytes[i + |f.name| + 1..i + |FieldText(f)|] == f.value
  {
    LineEndsAt(bytes, FieldText(f), i);
    OccursConcat(bytes, f.name, ":" + f.value, i);
    OccursConcat(bytes, ":", f.value, i + |f.name|);
    OccursSlice(bytes, f.name, i);
    OccursSlice(bytes, f.value, i + |f.name| + 1);
    assert ":"[0] == ':' && bytes[i + |f.name| + 0] == ":"[0];
    forall k | i <= k < i + |f.name|
      ensures bytes[k] != ':'
    {
      assert bytes[i + (k - i)] == f.name[k - i] && f.name[k - i] in f.name;
    }
  }

  /** Name and value are stored without the white space around them, the name in lower case. */
  lemma TakesField(bytes: string, i: nat, headerEnd: nat, f: Field)
    requires ':' !in f.name && !HasLineEnd(FieldText(f))
    requires OccursAt(bytes, FieldText(f), i) && AtLineEnd(bytes, i + |FieldText(f)|)
    requires i + |FieldText(f)| <= headerEnd
    ensures TakeField(bytes, i, headerEnd) ==
      Ok(FieldLine(Lowercase(Trimmed(f.name)), Trimmed(f.value), i + |FieldText(f)|))
  {
    FieldAt(bytes, i, f);
  }

  /** The fields that begin at `i` are one field line and the fields behind it. */
  lemma FieldsStep(bytes: string, i: nat, fields: seq<Field>)
    requires fields != []
    requires OccursAt(bytes, FieldsWire(fields) + CRLF, i)
    ensures var next := i + |FieldText(fields[0])| + 2;
      && OccursAt(bytes, FieldText(fields[0]), i)
      && AtLineEnd(bytes, i + |FieldText(fields[0])|)
      && OccursAt(bytes, FieldsWire(fields[1..]) + CRLF, next)
      && |FieldsWire(fields)| == |FieldText(fields[0])| + 2 + |FieldsWire(fields[1..])|
      && (|FieldsWire(fields[1..])| == 0 || |FieldsWire(fields[1..])| >= 2)
  {
    var line, tail := FieldText(fields[0]), FieldsWire(fields[1..]) + CRLF;
    FieldsLength(fields);
    assert FieldsWire(fields) + CRLF == (line + CRLF) + tail;
    hide FieldsWire, FieldText;
    LineThenTail(bytes, i, line, tail);
  }

  lemma FieldsLength(fields: seq<Field>)
    requires fields != []
    ensures |FieldsWire(fields)| == |FieldText(fields[0])| + 2 + |FieldsWire(fields[1..])|
    ensures |FieldsWire(fields[1..])| == 0 || |FieldsWire(fields[1..])| >= 2
  {
    hide FieldText;
  }

  lemma LineThenTail(bytes: string, i: nat, line: string, tail: string)
    requires OccursAt(bytes, (line + CRLF) + tail, i)
    ensures OccursAt(bytes, line, i) && AtLineEnd(bytes, i + |line|) && OccursAt(bytes, tail, i + |line| + 2)
  {
    OccursConcat(bytes, line + CRLF, tail, i);
    OccursConcat(bytes, line, CRLF, i);
    LineEndOccurs(bytes, i + |line|);
  }

  lemma FieldsEnd(bytes: string, i: nat)
    requires OccursAt(bytes, FieldsWire([]) + CRLF, i)
    ensures AtLineEnd(bytes, i)
  {
    assert FieldsWire([]) + CRLF == CRLF;
    LineEndOccurs(bytes, i);
  }

  // ---------------------------------------------------------------- the whole header

  /** Behind a line end, fields hold no end of the header before their own. */
  lemma {:induction false} NoEarlierHeaderEnd(bytes: string, i: nat, fields: seq<Field>)
    requires ValidFields(fields) && OccursAt(bytes, FieldsWire(fields) + CRLF, i)
    requires i >= 2 && AtLineEnd(bytes, i - 2)
    ensures forall j | i - 2 <= j < i - 2 + |FieldsWire(fields)| :: !AtHeaderEnd(bytes, j)
    ensures AtHeaderEnd(bytes, i - 2 + |FieldsWire(fields)|)
    decreases |fields|
  {
    if fields == [] {
      FieldsEnd(bytes, i);
    } else {
      FieldsStep(bytes, i, fields);
      assert ValidField(fields[0]);
      FieldAt(bytes, i, fields[0]);
      NoEarlierHeaderEnd(bytes, i + |FieldText(fields[0])| + 2, fields[1..]);
    }
  }

  /** Fields are read as the map they stand for. */
  lemma {:induction false} ParsesFields(bytes: string, i: nat, fields: seq<Field>, headers: map<string, string>)
    requires ValidFields(fields) && OccursAt(bytes, FieldsWire(fields) + CRLF, i) && i >= 2
    ensures ParsedFields(bytes, i, i - 2 + |FieldsWire(fields)|, headers) == Ok(Applied(headers, fields))
    decreases |fields|
  {
    hide TakeField;
    if fields != [] {
      FieldsStep(bytes, i, fields);
      var f := fields[0];
      assert ValidField(f);
      TakesField(bytes, i, i - 2 + |FieldsWire(fields)|, f);
      TrimmedName(f.name);
      ParsesFields(bytes, i + |FieldText(f)| + 2, fields[1..], headers[Lowercase(f.name) := Trimmed(f.value)]);
    }
  }

  lemma HeadLength(statusLine: string, fields: seq<Field>)
    ensures |Head(statusLine, fields)| == |statusLine| + |FieldsWire(fields)| + 4
  {
  }

  lemma HeadParts(bytes: string, statusLine: string, fields: seq<Field>)
    requires !HasLineEnd(statusLine) && OccursAt(bytes, Head(statusLine, fields), 0)
    ensures OccursAt(bytes, statusLine, 0) && bytes[..|statusLine|] == statusLine
    ensures AtLineEnd(bytes, |statusLine|) && FindLineEnd(bytes, 0) == Some(|statusLine|)
    ensures OccursAt(bytes, FieldsWire(fields) + CRLF, |statusLine| + 2)
  {
    OccursConcat(bytes, statusLine + CRLF, FieldsWire(fields) + CRLF, 0);
    OccursConcat(bytes, statusLine, CRLF, 0);
    LineEndOccurs(bytes, |statusLine|);
    LineEndsAt(bytes, statusLine, 0);
    OccursSlice(bytes, statusLine, 0);
  }

  lemma HeadEnds(bytes: string, statusLine: string, fields: seq<Field>)
    requires ValidHead(statusLine, fields) && OccursAt(bytes, Head(statusLine, fields), 0)
    ensures FindHeaderEnd(bytes, 0) == Some(|Head(statusLine, fields)| - 4)
  {
    HeadParts(bytes, statusLine, fields);
    NoEarlierHeaderEnd(bytes, |statusLine| + 2, fields);
  }

  /** A message is read as its status, its fields, and the body that its fields frame. */
  lemma ParsesMessage(bytes: string, statusLine: string, fields: seq<Field>)
    requires ValidHead(statusLine, fields) && OccursAt(bytes, Head(statusLine, fields), 0)
    ensures Parsed(bytes) ==
      match BodyOf(Applied(map[], fields), bytes[|Head(statusLine, fields)|..]) {
        case Ok(body) => Ok(HttpResponse(StatusOf(statusLine).value, Applied(map[], fields), body))
        case Err(e) => Err(e)
      }
  {
    hide ParsedFields, BodyOf, StatusOf, OccursAt, AtLineEnd, Head, Applied, FieldsWire;
    HeadLength(statusLine, fields);
    HeadEnds(bytes, statusLine, fields);
    HeadParts(bytes, statusLine, fields);
    ParsesFields(bytes, |statusLine| + 2, fields, map[]);
  }

  // ---------------------------------------------------------------- heads that are refused

  lemma HeaderEndOccurs(s: string, i: int)
    ensures OccursAt(s, "\r\n\r\n", i) <==> AtHeaderEnd(s, i)
  {
    OccursConcat(s, CRLF, CRLF, if i < 0 then 0 else i);
    LineEndOccurs(s, i);
    LineEndOccurs(s, i + 2);
    assert CRLF + CRLF == "\r\n\r\n";
  }

  /** Without an empty line within the first 64 KiB, there is no header. */
  lemma HeaderIsRefused(bytes: string)
    requires forall i | 0 <= i <= 65536 :: !OccursAt(bytes, "\r\n\r\n", i)
    ensures Parsed(bytes) == Err(InvalidHeader)
  {
    hide OccursAt;
    var headerEnd := FindHeaderEnd(bytes, 0);
    if headerEnd.Some? {
      HeaderEndOccurs(bytes, headerEnd.value);
    }
  }

  ghost predicate HasHeaderEnd(bytes: string) {
    exists i :: 0 <= i <= 65536 && OccursAt(bytes, "\r\n\r\n", i)
  }

  lemma HeaderEndFound(bytes: string) returns (headerEnd: nat)
    requires HasHeaderEnd(bytes)
    ensures FindHeaderEnd(bytes, 0) == Some(headerEnd) && AtHeaderEnd(bytes, headerEnd) && headerEnd <= MAXIMUM_HEADER_SIZE
  {
    hide OccursAt;
    var i :| 0 <= i <= 65536 && OccursAt(bytes, "\r\n\r\n", i);
    HeaderEndOccurs(bytes, i);
    headerEnd := FindHeaderEnd(bytes, 0).value;
  }

  /** With a header, a status line that is not accepted is reported, whatever the fields are. */
  lemma StatusIsRefused(bytes: string, statusLine: string)
    requires HasHeaderEnd(bytes) && !HasLineEnd(statusLine) && OccursAt(bytes, statusLine + CRLF, 0)
    requires StatusOf(statusLine).Err?
    ensures Parsed(bytes) == Err(InvalidStatus)
  {
    var headerEnd := HeaderEndFound(bytes);
    FirstLine(bytes, statusLine);
  }

  lemma FirstLine(bytes: string, line: string)
    requires !HasLineEnd(line) && OccursAt(bytes, line + CRLF, 0)
    ensures FindLineEnd(bytes, 0) == Some(|line|) && bytes[..|line|] == line
  {
    OccursConcat(bytes, line, CRLF, 0);
    LineEndOccurs(bytes, |line|);
    LineEndsAt(bytes, line, 0);
    OccursSlice(bytes, line, 0);
  }

  /** A header line without a colon is reported, wherever it stands and even if a colon stands behind it. */
  lemma FieldIsRefused(bytes: string, statusLine: string, fields: seq<Field>, line: string)
    requires HasHeaderEnd(bytes) && !HasLineEnd(statusLine) && StatusOf(statusLine).Ok? && ValidFields(fields)
    requires line != "" && ':' !in line && !HasLineEnd(line)
    requires OccursAt(bytes, (statusLine + CRLF) + (FieldsWire(fields) + (line + CRLF)), 0)
    ensures Parsed(bytes) == Err(InvalidHeaderField)
  {
    hide StatusOf, OccursAt, ParsedFields, FieldsWire, HasLineEnd;
    OccursConcat(bytes, statusLine + CRLF, FieldsWire(fields) + (line + CRLF), 0);
    FirstLine(bytes, statusLine);
    var headerEnd := HeaderEndFound(bytes);
    var first := |statusLine| + 2;
    NotAtOnce(bytes, first, headerEnd, fields, line);
    RefusesBehind(bytes, first, headerEnd, fields, line, map[]);
  }

  /** The header does not end before a line of its own. */
  lemma NotAtOnce(bytes: string, i: nat, headerEnd: nat, fields: seq<Field>, line: string)
    requires ValidFields(fields) && line != "" && !HasLineEnd(line)
    requires OccursAt(bytes, FieldsWire(fields) + (line + CRLF), i)
    requires AtHeaderEnd(bytes, headerEnd) && FindLineEnd(bytes, 0) == Some(i - 2) && i >= 2
    ensures i < headerEnd
  {
    assert i - 2 <= headerEnd;
    StartsLine(bytes, i, fields, line);
  }

  /** No line end stands where a field or a nonempty line begins. */
  lemma StartsLine(bytes: string, i: nat, fields: seq<Field>, line: string)
    requires ValidFields(fields) && line != "" && !HasLineEnd(line)
    requires OccursAt(bytes, FieldsWire(fields) + (line + CRLF), i)
    ensures !AtLineEnd(bytes, i)
  {
    if fields == [] {
      assert FieldsWire(fields) + (line + CRLF) == line + CRLF;
      LineStarts(bytes, i, line);
    } else {
      assert ValidField(fields[0]);
      var text, tail := FieldText(fields[0]), FieldsWire(fields[1..]) + (line + CRLF);
      assert FieldsWire(fields) + (line + CRLF) == (text + CRLF) + tail;
      OccursConcat(bytes, text + CRLF, tail, i);
      LineStarts(bytes, i, text);
    }
  }

  lemma LineStarts(bytes: string, i: nat, line: string)
    requires line != "" && !HasLineEnd(line) && OccursAt(bytes, line + CRLF, i)
    ensures !AtLineEnd(bytes, i)
  {
    OccursConcat(bytes, line, CRLF, i);
    LineEndOccurs(bytes, i + |line|);
    LineEndsAt(bytes, line, i);
  }

  lemma {:induction false} RefusesBehind(
    bytes: string, i: nat, headerEnd: nat, fields: seq<Field>, line: string, headers: map<string, string>)
    requires ValidFields(fields) && line != "" && ':' !in line && !HasLineEnd(line)
    requires OccursAt(bytes, FieldsWire(fields) + (line + CRLF), i)
    requires AtHeaderEnd(bytes, headerEnd) && i < headerEnd
    ensures ParsedFields(bytes, i, headerEnd, headers) == Err(InvalidHeaderField)
    decreases |fields|
  {
    hide TakeField, AtHeaderEnd, ValidField, Trimmed, FieldText, Lowercase;
    if fields == [] {
      assert FieldsWire(fields) + (line + CRLF) == line + CRLF;
      RefusesLine(bytes, i, headerEnd, line);
    } else {
      var f := fields[0];
      var text, tail := FieldText(f), FieldsWire(fields[1..]) + (line + CRLF);
      assert FieldsWire(fields) + (line + CRLF) == (text + CRLF) + tail;
      hide OccursAt, HasLineEnd;
      LineThenTail(bytes, i, text, tail);
      assert ValidField(f);
      TakesBefore(bytes, i, headerEnd, f);
      var next := i + |text| + 2;
      StartsLine(bytes, next, fields[1..], line);
      BehindLine(bytes, next, headerEnd);
      RefusesBehind(bytes, next, headerEnd, fields[1..], line, headers[Lowercase(Trimmed(f.name)) := Trimmed(f.value)]);
    }
  }

  lemma BehindLine(bytes: string, next: nat, headerEnd: nat)
    requires AtHeaderEnd(bytes, headerEnd) && next >= 2 && next - 2 <= headerEnd
    requires AtLineEnd(bytes, next - 2) && !AtLineEnd(bytes, next)
    ensures next < headerEnd
  {
  }

  lemma TakesBefore(bytes: string, i: nat, headerEnd: nat, f: Field)
    requires ValidField(f) && OccursAt(bytes, FieldText(f), i) && AtLineEnd(bytes, i + |FieldText(f)|)
    requires AtHeaderEnd(bytes, headerEnd) && i < headerEnd
    ensures i + |FieldText(f)| <= headerEnd
    ensures TakeField(bytes, i, headerEnd) ==
      Ok(FieldLine(Lowercase(Trimmed(f.name)), Trimmed(f.value), i + |FieldText(f)|))
  {
    hide TakeField;
    FieldAt(bytes, i, f);
    TakesField(bytes, i, headerEnd, f);
  }

  lemma RefusesLine(bytes: string, i: nat, headerEnd: nat, line: string)
    requires ':' !in line && !HasLineEnd(line) && OccursAt(bytes, line + CRLF, i)
    requires AtHeaderEnd(bytes, headerEnd) && i < headerEnd
    ensures TakeField(bytes, i, headerEnd) == Err(InvalidHeaderField)
  {
    OccursConcat(bytes, line, CRLF, i);
    LineEndOccurs(bytes, i + |line|);
    LineEndsAt(bytes, line, i);
    assert forall k | i <= k < i + |line| :: bytes[k] == line[k - i] && line[k - i] in line;
  }

  /** Before the whole head has arrived, no end of the header is seen. */
  lemma NoHeaderEndYet(message: string, statusLine: string, fields: seq<Field>, n: nat)
    requires ValidHead(statusLine, fields) && OccursAt(message, Head(statusLine, fields), 0)
    requires n < |Head(statusLine, fields)|
    ensures FindHeaderEnd(message[..n], 0).None?
    ensures !ResponseIsComplete(message[..n])
  {
    HeadEnds(message, statusLine, fields);
    assert forall i: int | 0 <= i :: AtHeaderEnd(message[..n], i) ==> AtHeaderEnd(message, i);
  }

  // ---------------------------------------------------------------- finding a field in the lower-cased header

  predicate ValidKey(key: string) {
    ':' !in key && '\r' !in key
  }

  lemma KnownKeys()
    ensures ValidKey(CONTENT_LENGTH) && ValidKey(TRANSFER_ENCODING)
  {
  }

  /** The two fields that frame a body, as servers usually write their names. */
  lemma FramingFields(value: string)
    ensures Named(Field("Content-Length", value), CONTENT_LENGTH)
    ensures Named(Field("Transfer-Encoding", value), TRANSFER_ENCODING)
  {
  }

  lemma KeyOccurs(header: string, key: string, k: nat)
    ensures OccursAt(header, CRLF + (key + ":"), k) <==> AtLineEnd(header, k) && OccursAt(header, key + ":", k + 2)
  {
    OccursConcat(header, CRLF, key + ":", k);
    LineEndOccurs(header, k);
  }

  /** The lower-cased field line up to its colon. */
  lemma NameInHeader(bytes: string, headerEnd: nat, i: nat, f: Field)
    requires ValidField(f) && headerEnd <= |bytes|
    requires OccursAt(bytes, FieldText(f), i) && i + |FieldText(f)| <= headerEnd
    ensures var header := Lowercase(bytes[..headerEnd]);
      && (forall k | 0 <= k < |f.name| :: header[i + k] == Lowercase(f.name)[k])
      && FindCharFrom(header, ':', i) == Some(i + |f.name|)
  {
    var header := Lowercase(bytes[..headerEnd]);
    forall k | i <= k < i + |f.name|
      ensures header[k] == Lowercase(f.name)[k - i] && header[k] != ':'
    {
      assert FieldText(f)[k - i] == f.name[k - i] && f.name[k - i] in f.name;
      assert bytes[i + (k - i)] == FieldText(f)[k - i];
    }
    assert FieldText(f)[|f.name|] == ':';
  }

  /** A key in the header ends at the first colon. */
  lemma KeyInHeader(header: string, key: string, i: nat)
    requires ValidKey(key) && OccursAt(header, key + ":", i)
    ensures forall k | 0 <= k < |key| :: header[i + k] == key[k]
    ensures FindCharFrom(header, ':', i) == Some(i + |key|)
  {
    var text := key + ":";
    forall k | i <= k < i + |key|
      ensures header[k] == key[k - i] && header[k] != ':'
    {
      assert text[k - i] == key[k - i] && key[k - i] in key;
      assert header[i + (k - i)] == text[k - i];
    }
    assert text[|key|] == ':';
  }

  /** The key stands at the start of a field line exactly when the field has that name. */
  lemma KeyAtField(bytes: string, headerEnd: nat, i: nat, f: Field, key: string)
    requires ValidField(f) && ValidKey(key) && headerEnd <= |bytes|
    requires OccursAt(bytes, FieldText(f), i) && i + |FieldText(f)| <= headerEnd
    ensures OccursAt(Lowercase(bytes[..headerEnd]), key + ":", i) <==> Named(f, key)
  {
    var header, text := Lowercase(bytes[..headerEnd]), key + ":";
    NameInHeader(bytes, headerEnd, i, f);
    if OccursAt(header, text, i) {
      KeyInHeader(header, key, i);
      assert Lowercase(f.name) == key;
    }
    if Named(f, key) {
      assert forall k | 0 <= k < |text| :: header[i + k] == text[k];
    }
  }

  lemma LineEndLower(bytes: string, headerEnd: nat, k: int)
    requires headerEnd <= |bytes|
    ensures AtLineEnd(Lowercase(bytes[..headerEnd]), k) <==> AtLineEnd(bytes, k) && k + 2 <= headerEnd
  {
  }

  /** Searching the key from a line end skips a field of another name. */
  lemma KeySkipsField(bytes: string, headerEnd: nat, i: nat, f: Field, key: string)
    requires ValidField(f) && ValidKey(key) && headerEnd <= |bytes| && !Named(f, key)
    requires OccursAt(bytes, FieldText(f), i) && AtLineEnd(bytes, i + |FieldText(f)|)
    requires i + |FieldText(f)| <= headerEnd && i >= 2 && AtLineEnd(bytes, i - 2)
    ensures forall k | i - 2 <= k < i + |FieldText(f)| :: !OccursAt(Lowercase(bytes[..headerEnd]), CRLF + (key + ":"), k)
  {
    var header := Lowercase(bytes[..headerEnd]);
    FieldAt(bytes, i, f);
    forall k | i - 2 <= k < i + |FieldText(f)|
      ensures !OccursAt(header, CRLF + (key + ":"), k)
    {
      KeyOccurs(header, key, k);
      LineEndLower(bytes, headerEnd, k);
      KeyAtField(bytes, headerEnd, i, f, key);
    }
  }

  /** Without a field of that name, the key does not occur behind the line end before the fields. */
  lemma {:induction false} KeyAbsent(bytes: string, headerEnd: nat, i: nat, fields: seq<Field>, key: string, k: nat)
    requires ValidFields(fields) && ValidKey(key) && NoField(fields, key)
    requires OccursAt(bytes, FieldsWire(fields) + CRLF, i) && i >= 2 && AtLineEnd(bytes, i - 2)
    requires headerEnd == i - 2 + |FieldsWire(fields)| <= |bytes| && i - 2 <= k
    ensures !OccursAt(Lowercase(bytes[..headerEnd]), CRLF + (key + ":"), k)
    decreases |fields|
  {
    hide NoField, ValidKey;
    if fields == [] {
      assert FieldsWire(fields) == "";
      assert |CRLF + (key + ":")| > 2;
    } else {
      FieldsStep(bytes, i, fields);
      FirstFieldNot(fields, key);
      if k < i + |FieldText(fields[0])| {
        KeySkipsField(bytes, headerEnd, i, fields[0], key);
      } else {
        KeyAbsent(bytes, headerEnd, i + |FieldText(fields[0])| + 2, fields[1..], key, k);
      }
    }
  }

  lemma FirstFieldNot(fields: seq<Field>, key: string)
    requires fields != [] && NoField(fields, key)
    ensures !Named(fields[0], key) && NoField(fields[1..], key)
  {
    assert fields[0] in fields;
  }

  /** The line of `f` stands at `at`; it is the last line of the header, or another line follows. */
  predicate FieldStandsAt(bytes: string, headerEnd: nat, f: Field, at: nat) {
    && 2 <= at && headerEnd <= |bytes|
    && (at + |FieldText(f)| == headerEnd || at + |FieldText(f)| + 2 <= headerEnd)
    && OccursAt(bytes, FieldText(f), at)
    && AtLineEnd(bytes, at + |FieldText(f)|)
  }

  /** The key is first found where the first field of that name stands. */
  lemma {:induction false} KeyPresent(bytes: string, i: nat, fields: seq<Field>, key: string, j: nat) returns (at: nat)
    requires ValidFields(fields) && ValidKey(key)
    requires j < |fields| && Named(fields[j], key) && forall m | 0 <= m < j :: !Named(fields[m], key)
    requires OccursAt(bytes, FieldsWire(fields) + CRLF, i) && i >= 2 && AtLineEnd(bytes, i - 2)
    ensures i <= at && FieldStandsAt(bytes, i - 2 + |FieldsWire(fields)|, fields[j], at)
    ensures var header := Lowercase(bytes[..i - 2 + |FieldsWire(fields)|]);
      && OccursAt(header, CRLF + (key + ":"), at - 2)
      && (forall k | i - 2 <= k < at - 2 :: !OccursAt(header, CRLF + (key + ":"), k))
    decreases |fields|
  {
    var headerEnd := i - 2 + |FieldsWire(fields)|;
    assert headerEnd + 4 <= |bytes|;
    hide OccursAt, AtLineEnd, FieldsWire, Named, ValidKey, FieldStandsAt;
    FieldsStep(bytes, i, fields);
    if j == 0 {
      at := i;
      KeyIsFirst(bytes, headerEnd, i, fields[0], key);
    } else {
      KeySkipsField(bytes, headerEnd, i, fields[0], key);
      at := KeyPresent(bytes, i + |FieldText(fields[0])| + 2, fields[1..], key, j - 1);
    }
  }

  lemma KeyIsFirst(bytes: string, headerEnd: nat, i: nat, f: Field, key: string)
    requires ValidField(f) && ValidKey(key) && Named(f, key) && headerEnd <= |bytes|
    requires OccursAt(bytes, FieldText(f), i) && AtLineEnd(bytes, i + |FieldText(f)|)
    requires i + |FieldText(f)| == headerEnd || i + |FieldText(f)| + 2 <= headerEnd
    requires i >= 2 && AtLineEnd(bytes, i - 2)
    ensures FieldStandsAt(bytes, headerEnd, f, i)
    ensures OccursAt(Lowercase(bytes[..headerEnd]), CRLF + (key + ":"), i - 2)
  {
    KeyAtField(bytes, headerEnd, i, f, key);
    KeyOccurs(Lowercase(bytes[..headerEnd]), key, i - 2);
    LineEndLower(bytes, headerEnd, i - 2);
  }

  /** No key stands before the end of the status line. */
  lemma KeyNotInStatusLine(bytes: string, statusLine: string, headerEnd: nat, key: string)
    requires FindLineEnd(bytes, 0) == Some(|statusLine|) && headerEnd <= |bytes|
    ensures forall k | 0 <= k < |statusLine| :: !OccursAt(Lowercase(bytes[..headerEnd]), CRLF + (key + ":"), k)
  {
    forall k | 0 <= k < |statusLine|
      ensures !OccursAt(Lowercase(bytes[..headerEnd]), CRLF + (key + ":"), k)
    {
      KeyOccurs(Lowercase(bytes[..headerEnd]), key, k);
      LineEndLower(bytes, headerEnd, k);
    }
  }

  lemma FindsNoKey(bytes: string, statusLine: string, fields: seq<Field>, key: string)
    requires ValidHead(statusLine, fields) && OccursAt(bytes, Head(statusLine, fields), 0)
    requires ValidKey(key) && NoField(fields, key)
    ensures FindKey(Lowercase(bytes[..|Head(statusLine, fields)| - 4]), key).None?
  {
    HeadLength(statusLine, fields);
    HeadParts(bytes, statusLine, fields);
    assert ValidFields(fields);
    hide *;
    var headerEnd := |Head(statusLine, fields)| - 4;
    KeyNotInStatusLine(bytes, statusLine, headerEnd, key);
    forall k: nat | |statusLine| <= k
      ensures !OccursAt(Lowercase(bytes[..headerEnd]), CRLF + (key + ":"), k)
    {
      KeyAbsent(bytes, headerEnd, |statusLine| + 2, fields, key, k);
    }
    NoKeyAnywhere(bytes, headerEnd, |statusLine|, key);
  }

  lemma NoKeyAnywhere(bytes: string, headerEnd: nat, m: nat, key: string)
    requires headerEnd <= |bytes|
    requires forall k | 0 <= k < m :: !OccursAt(Lowercase(bytes[..headerEnd]), CRLF + (key + ":"), k)
    requires forall k: nat | m <= k :: !OccursAt(Lowercase(bytes[..headerEnd]), CRLF + (key + ":"), k)
    ensures FindKey(Lowercase(bytes[..headerEnd]), key).None?
  {
    hide OccursAt, Lowercase;
  }

  lemma FindsKey(bytes: string, statusLine: string, fields: seq<Field>, key: string, f: Field) returns (at: nat)
    requires ValidHead(statusLine, fields) && OccursAt(bytes, Head(statusLine, fields), 0)
    requires ValidKey(key) && FirstField(fields, key, f)
    ensures FieldStandsAt(bytes, |Head(statusLine, fields)| - 4, f, at)
    ensures FindKey(Lowercase(bytes[..|Head(statusLine, fields)| - 4]), key) == Some(at - 2)
  {
    HeadLength(statusLine, fields);
    HeadParts(bytes, statusLine, fields);
    assert ValidFields(fields);
    hide *;
    var j := FieldIndex(fields, key, f);
    at := KeyPresent(bytes, |statusLine| + 2, fields, key, j);
    FirstKeyIs(bytes, statusLine, |Head(statusLine, fields)| - 4, key, at);
  }

  lemma FirstKeyIs(bytes: string, statusLine: string, headerEnd: nat, key: string, at: nat)
    requires FindLineEnd(bytes, 0) == Some(|statusLine|) && headerEnd <= |bytes| && at >= 2
    requires OccursAt(Lowercase(bytes[..headerEnd]), CRLF + (key + ":"), at - 2)
    requires forall k | |statusLine| <= k < at - 2 :: !OccursAt(Lowercase(bytes[..headerEnd]), CRLF + (key + ":"), k)
    ensures FindKey(Lowercase(bytes[..headerEnd]), key) == Some(at - 2)
  {
    hide OccursAt, AtLineEnd;
    KeyNotInStatusLine(bytes, statusLine, headerEnd, key);
  }

  lemma FieldIndex(fields: seq<Field>, key: string, f: Field) returns (j: nat)
    requires FirstField(fields, key, f)
    ensures j < |fields| && fields[j] == f && Named(f, key)
    ensures forall m | 0 <= m < j :: !Named(fields[m], key)
  {
    j :| j < |fields| && fields[j] == f && forall m | 0 <= m < j :: !Named(fields[m], key);
  }
}
