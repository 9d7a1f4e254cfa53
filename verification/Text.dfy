/**
  The string operations of the C++ standard library that the HTTP code is written with.
  A string holds bytes: one character stands for one byte.
  */
module Text {
  import opened Wrappers

  const CRLF: string := "\r\n"

  /** One past the largest value of `std::size_t`. */
  const SIZE_LIMIT: nat := 0x1_0000_0000_0000_0000

  /** One past the largest value of `unsigned int`. */
  const UINT_LIMIT: nat := 0x1_0000_0000

  // ---------------------------------------------------------------- searching

  predicate OccursAt(s: string, p: string, i: int) {
    && 0 <= i <= i + |p| <= |s|
    && forall k | 0 <= k < |p| :: s[i + k] == p[k]
  }

  predicate Contains(s: string, p: string) {
    exists i | 0 <= i <= |s| :: OccursAt(s, p, i)
  }

  /** `s.find(p, from)`; None stands for `npos`. */
  function Find(s: string, p: string, from: nat): (r: Option<nat>)
    ensures r.Some? ==> from <= r.value && OccursAt(s, p, r.value)
    ensures r.Some? ==> forall i | from <= i < r.value :: !OccursAt(s, p, i)
    ensures r.None? ==> forall i | from <= i :: !OccursAt(s, p, i)
    decreases |s| - from
  {
    if from + |p| > |s| then None
    else if OccursAt(s, p, from) then Some(from)
    else Find(s, p, from + 1)
  }

  predicate AtLineEnd(s: string, i: int) {
    0 <= i && i + 2 <= |s| && s[i] == '\r' && s[i + 1] == '\n'
  }

  predicate HasLineEnd(s: string) {
    exists i | 0 <= i < |s| :: AtLineEnd(s, i)
  }

  /** `s.find("\r\n", from)`. */
  function FindLineEnd(s: string, from: nat): (r: Option<nat>)
    ensures r.Some? ==> from <= r.value && AtLineEnd(s, r.value)
    ensures r.Some? ==> forall i | from <= i < r.value :: !AtLineEnd(s, i)
    ensures r.None? ==> forall i | from <= i :: !AtLineEnd(s, i)
    decreases |s| - from
  {
    if from + 2 > |s| then None
    else if AtLineEnd(s, from) then Some(from)
    else FindLineEnd(s, from + 1)
  }

  /** `s.rfind(c)`. */
  function FindLast(s: string, c: char): (r: Option<nat>)
    ensures r.Some? ==> r.value < |s| && s[r.value] == c && c !in s[r.value + 1..]
    ensures r.None? ==> c !in s
  {
    if |s| == 0 then None
    else if s[|s| - 1] == c then Some(|s| - 1)
    else
      var r := FindLast(s[..|s| - 1], c);
      assert s == s[..|s| - 1] + [s[|s| - 1]];
      assert r.Some? ==> s[r.value + 1..] == s[..|s| - 1][r.value + 1..] + [s[|s| - 1]];
      r
  }

  /** `s.find_first_of(stops, from)`. */
  function FindFirstOf(s: string, stops: string, from: nat): (r: Option<nat>)
    ensures r.Some? ==> from <= r.value < |s| && s[r.value] in stops
    ensures r.Some? ==> forall i | from <= i < r.value :: s[i] !in stops
    ensures r.None? ==> forall i | from <= i < |s| :: s[i] !in stops
    decreases |s| - from
  {
    if from >= |s| then None
    else if s[from] in stops then Some(from)
    else FindFirstOf(s, stops, from + 1)
  }

  /** `s.find(c, from)` for one character. */
  function FindCharFrom(s: string, c: char, from: nat): (r: Option<nat>)
    ensures r.Some? ==> from <= r.value < |s| && s[r.value] == c
    ensures r.Some? ==> forall i | from <= i < r.value :: s[i] != c
    ensures r.None? ==> forall i | from <= i < |s| :: s[i] != c
    decreases |s| - from
  {
    if from >= |s| then None
    else if s[from] == c then Some(from)
    else FindCharFrom(s, c, from + 1)
  }

  /** `s.find(c)` for one character. */
  function FindChar(s: string, c: char): (r: Option<nat>)
    ensures r.Some? ==> r.value < |s| && s[r.value] == c
    ensures r.Some? ==> forall i | 0 <= i < r.value :: s[i] != c
    ensures r.None? ==> forall i | 0 <= i < |s| :: s[i] != c
  {
    FindCharFrom(s, c, 0)
  }

  /** An occurrence inside a part of a text is an occurrence in the text. */
  lemma OccursInPart(s: string, lo: nat, hi: nat, p: string, i: nat)
    requires lo <= i && i + |p| <= hi <= |s|
    ensures OccursAt(s[lo..hi], p, i - lo) <==> OccursAt(s, p, i)
  {
    var part := s[lo..hi];
    assert forall k | 0 <= k < |p| :: s[i + k] == part[i - lo + k] && p[k] == p[k];
  }

  /** A concatenation occurs where its first part occurs and its second part follows. */
  lemma OccursConcat(s: string, p: string, q: string, i: nat)
    ensures OccursAt(s, p + q, i) <==> OccursAt(s, p, i) && OccursAt(s, q, i + |p|)
  {
    var pq := p + q;
    if i + |pq| <= |s| {
      assert forall k | 0 <= k < |p| :: pq[k] == p[k] && s[i + k] == s[i + k];
      assert forall k | 0 <= k < |q| :: pq[|p| + k] == q[k] && s[i + |p| + k] == s[i + (|p| + k)];
      if OccursAt(s, pq, i) {
        forall k | 0 <= k < |q|
          ensures s[i + |p| + k] == q[k]
        {
          assert pq[|p| + k] == s[i + (|p| + k)];
        }
      }
      if OccursAt(s, p, i) && OccursAt(s, q, i + |p|) {
        forall k | 0 <= k < |pq|
          ensures s[i + k] == pq[k]
        {
          assert k >= |p| ==> s[i + |p| + (k - |p|)] == q[k - |p|];
        }
      }
    }
  }

  lemma OccursSlice(s: string, p: string, i: nat)
    requires i + |p| <= |s|
    ensures OccursAt(s, p, i) <==> s[i..i + |p|] == p
  {
    if OccursAt(s, p, i) {
      assert forall k | 0 <= k < |p| :: s[i..i + |p|][k] == p[k];
    } else {
      var k :| 0 <= k < |p| && s[i + k] != p[k];
      assert s[i..i + |p|][k] != p[k];
    }
  }

  lemma LineEndOccurs(s: string, i: int)
    ensures OccursAt(s, CRLF, i) <==> AtLineEnd(s, i)
  {
    if 0 <= i && i + 2 <= |s| {
      assert CRLF[0] == '\r' && CRLF[1] == '\n';
      assert s[i + 0] == s[i];
    }
  }

  /** A line without CRLF ends at the first CRLF behind its start, even when its last byte is a lone CR. */
  lemma LineEndsAt(s: string, line: string, i: nat)
    requires OccursAt(s, line, i) && AtLineEnd(s, i + |line|) && !HasLineEnd(line)
    ensures FindLineEnd(s, i) == Some(i + |line|)
  {
    forall j | i <= j < i + |line|
      ensures !AtLineEnd(s, j)
    {
      assert !AtLineEnd(line, j - i);
      assert s[i + (j - i)] == line[j - i];
      assert j + 1 < i + |line| ==> s[i + (j + 1 - i)] == line[j + 1 - i];
    }
  }

  /** The bytes up to the first CRLF behind `i` hold none. */
  lemma BeforeLineEnd(s: string, i: nat)
    requires FindLineEnd(s, i).Some?
    ensures !HasLineEnd(s[i..FindLineEnd(s, i).value])
  {
    var n := FindLineEnd(s, i).value;
    forall j | 0 <= j < n - i
      ensures !AtLineEnd(s[i..n], j)
    {
      assert !AtLineEnd(s, i + j);
    }
  }

  // ---------------------------------------------------------------- characters

  function LowerChar(c: char): char {
    if 'A' <= c <= 'Z' then (c as int + 32) as char else c
  }

  function Lowercase(s: string): (r: string)
    ensures |r| == |s|
    ensures forall i | 0 <= i < |s| :: r[i] == LowerChar(s[i])
  {
    seq(|s|, i requires 0 <= i < |s| => LowerChar(s[i]))
  }

  predicate IsSpace(c: char) {
    c in " \t\n\U{0B}\U{0C}\r"
  }

  predicate IsDigit(c: char) {
    '0' <= c <= '9'
  }

  predicate IsHexDigit(c: char) {
    IsDigit(c) || 'a' <= c <= 'f' || 'A' <= c <= 'F'
  }

  /** The white space of the C locale. */
  lemma SpaceCharacters(c: char)
    ensures IsSpace(c) <==> c as int == 32 || 9 <= c as int <= 13
  {
  }

  /** Lower-casing maps the letters A to Z, and no other character. */
  lemma LowerLetters(c: char)
    ensures Lowercase("ABCDEFGHIJKLMNOPQRSTUVWXYZ") == "abcdefghijklmnopqrstuvwxyz"
    ensures (forall i | 0 <= i < 26 :: c != "ABCDEFGHIJKLMNOPQRSTUVWXYZ"[i]) ==> LowerChar(c) == c
  {
    var upper := "ABCDEFGHIJKLMNOPQRSTUVWXYZ";
    assert 'A' <= c <= 'Z' ==> upper[c as int - 'A' as int] == c;
  }

  function TrimLeft(s: string): string {
    if s != "" && IsSpace(s[0]) then TrimLeft(s[1..]) else s
  }

  function TrimRight(s: string): string {
    if s != "" && IsSpace(s[|s| - 1]) then TrimRight(s[..|s| - 1]) else s
  }

  /** The text without its leading and trailing white space. */
  function Trimmed(s: string): string {
    TrimRight(TrimLeft(s))
  }

  /** Drops white space from both ends of the view, one byte at a time. */
  method Trim(value: string) returns (result: string)
    ensures result == Trimmed(value)
  {
    result := value;
    while result != "" && IsSpace(result[0])
      invariant TrimLeft(result) == TrimLeft(value)
      decreases |result|
    {
      result := result[1..];
    }
    while result != "" && IsSpace(result[|result| - 1])
      invariant TrimRight(result) == Trimmed(value)
      decreases |result|
    {
      result := result[..|result| - 1];
    }
  }

  /** What trimming leaves: the text between two runs of white space, with no white space at either end. */
  lemma {:induction false} TrimmedIsMiddle(s: string)
    ensures exists l, r ::
      && s == l + Trimmed(s) + r
      && (forall c | c in l :: IsSpace(c))
      && (forall c | c in r :: IsSpace(c))
    ensures Trimmed(s) != "" ==> !IsSpace(Trimmed(s)[0]) && !IsSpace(Trimmed(s)[|Trimmed(s)| - 1])
  {
    var l := TrimLeftPrefix(s);
    var r := TrimRightSuffix(TrimLeft(s));
    assert s == l + Trimmed(s) + r;
  }

  lemma {:induction false} TrimLeftPrefix(s: string) returns (l: string)
    ensures s == l + TrimLeft(s)
    ensures forall c | c in l :: IsSpace(c)
    ensures TrimLeft(s) != "" ==> !IsSpace(TrimLeft(s)[0])
  {
    if s != "" && IsSpace(s[0]) {
      var m := TrimLeftPrefix(s[1..]);
      l := [s[0]] + m;
      assert s == [s[0]] + s[1..];
    } else {
      l := "";
    }
  }

  lemma {:induction false} TrimRightSuffix(s: string) returns (r: string)
    ensures s == TrimRight(s) + r
    ensures forall c | c in r :: IsSpace(c)
    ensures TrimRight(s) != "" ==> !IsSpace(TrimRight(s)[|TrimRight(s)| - 1])
    ensures TrimRight(s) != "" ==> TrimRight(s)[0] == s[0]
  {
    if s != "" && IsSpace(s[|s| - 1]) {
      var m := TrimRightSuffix(s[..|s| - 1]);
      r := m + [s[|s| - 1]];
      assert s == s[..|s| - 1] + [s[|s| - 1]];
    } else {
      r := "";
    }
  }

  lemma {:induction false} TrimLeftLower(s: string)
    ensures TrimLeft(Lowercase(s)) == Lowercase(TrimLeft(s))
  {
    if s != "" && IsSpace(s[0]) {
      TrimLeftLower(s[1..]);
      assert Lowercase(s)[1..] == Lowercase(s[1..]);
    }
  }

  lemma {:induction false} TrimRightLower(s: string)
    ensures TrimRight(Lowercase(s)) == Lowercase(TrimRight(s))
  {
    if s != "" && IsSpace(s[|s| - 1]) {
      TrimRightLower(s[..|s| - 1]);
      assert Lowercase(s)[..|s| - 1] == Lowercase(s[..|s| - 1]);
    }
  }

  lemma TrimmedLower(s: string)
    ensures Trimmed(Lowercase(s)) == Lowercase(Trimmed(s))
  {
    TrimLeftLower(s);
    TrimRightLower(TrimLeft(s));
  }

  // ---------------------------------------------------------------- numbers

  datatype Radix = Decimal | Hexadecimal

  predicate IsDigitIn(c: char, radix: Radix) {
    if radix.Hexadecimal? then IsHexDigit(c) else IsDigit(c)
  }

  function DigitValue(c: char): nat {
    if IsDigit(c) then (c as int - '0' as int) as nat
    else if 'a' <= c <= 'f' then (c as int - 'a' as int + 10) as nat
    else if 'A' <= c <= 'F' then (c as int - 'A' as int + 10) as nat
    else 0
  }

  /** The digits in order of their values; hexadecimal digits come in either case. */
  lemma DigitsInOrder(d: nat)
    requires d < 16
    ensures DigitValue("0123456789abcdef"[d]) == DigitValue("0123456789ABCDEF"[d]) == d
    ensures IsHexDigit("0123456789abcdef"[d]) && IsHexDigit("0123456789ABCDEF"[d])
    ensures d < 10 ==> IsDigit("0123456789"[d]) && DigitValue("0123456789"[d]) == d
  {
  }

  lemma DigitCharacters(c: char)
    ensures IsDigitIn(c, Decimal) <==> c in "0123456789"
    ensures IsDigitIn(c, Hexadecimal) <==> c in "0123456789abcdefABCDEF"
  {
    var digits := "0123456789abcdefABCDEF";
    assert IsDigit(c) ==> digits[c as int - '0' as int] == c && "0123456789"[c as int - '0' as int] == c;
    assert 'a' <= c <= 'f' ==> digits[c as int - 'a' as int + 10] == c;
    assert 'A' <= c <= 'F' ==> digits[c as int - 'A' as int + 16] == c;
  }

  predicate AllDigits(s: string, radix: Radix) {
    forall i | 0 <= i < |s| :: IsDigitIn(s[i], radix)
  }

  /** The number that the first `n` characters denote, all of them digits. */
  function NumberUpTo(s: string, radix: Radix, n: nat): nat
    requires n <= |s|
  {
    if n == 0 then 0
    else
      var high := NumberUpTo(s, radix, n - 1);
      (if radix.Hexadecimal? then high * 16 else high * 10) + DigitValue(s[n - 1])
  }

  /** The number that a string of digits denotes. */
  function NumberOf(digits: string, radix: Radix): nat {
    NumberUpTo(digits, radix, |digits|)
  }

  /** The end of the run of digits that begins at `from`. */
  function DigitRun(s: string, radix: Radix, from: nat): (n: nat)
    requires from <= |s|
    ensures from <= n <= |s|
    decreases |s| - from
  {
    if from < |s| && IsDigitIn(s[from], radix) then DigitRun(s, radix, from + 1) else from
  }

  lemma {:induction false} DigitRunHoldsDigits(s: string, radix: Radix, from: nat)
    requires from <= |s|
    ensures forall i | from <= i < DigitRun(s, radix, from) :: IsDigitIn(s[i], radix)
    ensures DigitRun(s, radix, from) < |s| ==> !IsDigitIn(s[DigitRun(s, radix, from)], radix)
    decreases |s| - from
  {
    if from < |s| && IsDigitIn(s[from], radix) {
      DigitRunHoldsDigits(s, radix, from + 1);
    }
  }

  /** The run of digits is the longest one. */
  lemma DigitRunIs(s: string, radix: Radix, n: nat)
    requires n <= |s| && forall i | 0 <= i < n :: IsDigitIn(s[i], radix)
    requires n < |s| ==> !IsDigitIn(s[n], radix)
    ensures DigitRun(s, radix, 0) == n
  {
    DigitRunHoldsDigits(s, radix, 0);
  }

  datatype NumberError = InvalidArgument | OutOfRange

  /** `std::from_chars` into an unsigned type: reads the longest run of digits and ignores what follows it. */
  function FromChars(s: string, radix: Radix, limit: nat): Result<nat, NumberError> {
    var n := DigitRun(s, radix, 0);
    if n == 0 then Err(InvalidArgument)
    else if NumberUpTo(s, radix, n) >= limit then Err(OutOfRange)
    else Ok(NumberUpTo(s, radix, n))
  }

  /** A text that begins with digits up to a place without one reads as the number of those digits. */
  lemma FromCharsReads(s: string, radix: Radix, limit: nat, n: nat)
    requires 0 < n <= |s| && forall i | 0 <= i < n :: IsDigitIn(s[i], radix)
    requires n < |s| ==> !IsDigitIn(s[n], radix)
    ensures FromChars(s, radix, limit) ==
      if NumberUpTo(s, radix, n) >= limit then Err(OutOfRange) else Ok(NumberUpTo(s, radix, n))
  {
    DigitRunIs(s, radix, n);
  }

  /** A text that does not begin with a digit is not a number. */
  lemma FromCharsRefuses(s: string, radix: Radix, limit: nat)
    requires s == "" || !IsDigitIn(s[0], radix)
    ensures FromChars(s, radix, limit) == Err(InvalidArgument)
  {
    DigitRunIs(s, radix, 0);
  }

  lemma {:induction false} NumberOfPrefix(s: string, t: string, radix: Radix, n: nat)
    requires n <= |s| && n <= |t| && forall i | 0 <= i < n :: s[i] == t[i]
    ensures NumberUpTo(s, radix, n) == NumberUpTo(t, radix, n)
  {
    if n > 0 {
      NumberOfPrefix(s, t, radix, n - 1);
    }
  }

  /** Lower-casing does not change what `std::from_chars` reads in base ten. */
  lemma FromCharsLower(s: string, limit: nat)
    ensures FromChars(Lowercase(s), Decimal, limit) == FromChars(s, Decimal, limit)
  {
    var n := DigitRun(s, Decimal, 0);
    DigitRunHoldsDigits(s, Decimal, 0);
    DigitRunIs(Lowercase(s), Decimal, n);
    NumberOfPrefix(s, Lowercase(s), Decimal, n);
  }

  /** The decimal text of a number, as an output stream writes it. */
  function DecimalText(n: nat): string {
    if n < 10 then ["0123456789"[n]] else DecimalText(n / 10) + ["0123456789"[n % 10]]
  }

  /** What is written in base ten is read back as the same number. */
  lemma {:induction false} DecimalTextDenotes(n: nat)
    ensures DecimalText(n) != "" && AllDigits(DecimalText(n), Decimal) && NumberOf(DecimalText(n), Decimal) == n
    ensures forall limit | n < limit :: FromChars(DecimalText(n), Decimal, limit) == Ok(n)
  {
    var text := DecimalText(n);
    DigitsInOrder(n % 10);
    if n >= 10 {
      DecimalTextDenotes(n / 10);
      var high := DecimalText(n / 10);
      NumberOfPrefix(text, high, Decimal, |high|);
    } else {
      assert NumberUpTo(text, Decimal, 0) == 0;
    }
    DigitRunIs(text, Decimal, |text|);
  }
}
