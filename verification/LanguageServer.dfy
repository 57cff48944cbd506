/**
 The language server connection: messages framed by header lines with a content length
 (Language Server Protocol 3.17, "Base Protocol"), and requests matched to replies by id.
 The server's output is the byte stream still to be read; it ends when the server exits.
 */
module LanguageServer {
  import opened Wrappers
  import opened Numerals

  // ---------------------------------------------------------------------------
  // Text of header lines.

  const COLON: Byte := 58

  /** `Content-Length` in lower case. */
  const CONTENT_LENGTH_LOWER: Bytes := [99, 111, 110, 116, 101, 110, 116, 45, 108, 101, 110, 103, 116, 104]

  /** `Content-Length: ` as written. */
  const CONTENT_LENGTH: Bytes := [67, 111, 110, 116, 101, 110, 116, 45, 76, 101, 110, 103, 116, 104]

  function LowerByte(c: Byte): Byte {
    if 65 <= c <= 90 then c + 32 else c
  }

  function Lower(s: Bytes): (r: Bytes)
    ensures |r| == |s| && forall i :: 0 <= i < |s| ==> r[i] == LowerByte(s[i])
  {
    if s == [] then [] else [LowerByte(s[0])] + Lower(s[1..])
  }

  /** Length of the first line, its line feed included; all that is left when no line feed follows. */
  function LineLength(s: Bytes): (n: nat)
    ensures n <= |s| && (s != [] ==> n > 0)
    ensures forall i :: 0 <= i < n - 1 ==> s[i] != LF
    ensures n < |s| ==> s[n - 1] == LF
  {
    if s == [] then 0 else if s[0] == LF then 1 else 1 + LineLength(s[1..])
  }

  /** Position of the first colon, or the length when there is none. */
  function ColonAt(s: Bytes): (n: nat)
    ensures n <= |s| && forall i :: 0 <= i < n ==> s[i] != COLON
    ensures n < |s| ==> s[n] == COLON
  {
    if s == [] || s[0] == COLON then 0 else 1 + ColonAt(s[1..])
  }

  predicate IsSpace(c: Byte) {
    c == 32 || 9 <= c <= 13 || 28 <= c <= 31
  }

  function StripLeft(s: Bytes): Bytes {
    if s != [] && IsSpace(s[0]) then StripLeft(s[1..]) else s
  }

  function StripRight(s: Bytes): Bytes {
    if s != [] && IsSpace(s[|s| - 1]) then StripRight(s[..|s| - 1]) else s
  }

  /** Digits with single underscores between them, as `int` accepts. */
  function DigitsValue(s: Bytes, before: nat, afterDigit: bool): Option<nat> {
    if s == [] then if afterDigit then Some(before) else None
    else if IsDigit(s[0], 10) then DigitsValue(s[1..], before * 10 + DigitOf(s[0], 10).value, true)
    else if s[0] == 95 && afterDigit then DigitsValue(s[1..], before, false)
    else None
  }

  /** Python's `int` on stripped ASCII text: an optional sign and digits. */
  function ParseInt(s: Bytes): Option<int> {
    if s != [] && s[0] in {43, 45} then
      var v := DigitsValue(s[1..], 0, false);
      if v.None? then None
      else
        var n: int := v.value;
        Some(if s[0] == 45 then -n else n)
    else
      var v := DigitsValue(s, 0, false);
      if v.None? then None else Some(v.value)
  }

  // ---------------------------------------------------------------------------
  // Reading one message.

  datatype ReadError = ServerExited | BadLength | NoLength | Truncated | NotJson | NotAnObject

  datatype Read<+T> = Read(result: Result<T, ReadError>, rest: Bytes)

  predicate IsBlankLine(line: Bytes) {
    line == CRLF || line == [LF]
  }

  predicate NamesLength(line: Bytes) {
    Lower(line[..ColonAt(line)]) == CONTENT_LENGTH_LOWER
  }

  function LengthValue(line: Bytes): Option<int> {
    var k := ColonAt(line);
    ParseInt(StripRight(StripLeft(if k < |line| then line[k + 1..] else [])))
  }

  /** Header lines up to the blank one; the last content length wins. */
  function ReadHeaders(s: Bytes, length: Option<int>): (r: Read<Option<int>>)
    ensures r.result.Success? ==> |r.rest| < |s|
    decreases |s|
  {
    var n := LineLength(s);
    var line, rest := s[..n], s[n..];
    if s == [] then Read(Failure(ServerExited), [])
    else if IsBlankLine(line) then Read(Success(length), rest)
    else if !NamesLength(line) then ReadHeaders(rest, length)
    else
      var value := LengthValue(line);
      if value.None? then Read(Failure(BadLength), rest) else ReadHeaders(rest, value)
  }

  /** The payload of the next message and what is left unread; a length of -1 reads everything, other negative ones fail. */
  function ReadPayload(s: Bytes): (r: Read<Bytes>)
    ensures r.result.Success? ==> |r.rest| < |s|
  {
    var headers := ReadHeaders(s, None);
    if headers.result.Failure? then Read(Failure(headers.result.error), headers.rest)
    else if headers.result.value.None? then Read(Failure(NoLength), headers.rest)
    else
      var n := headers.result.value.value;
      if n < -1 then Read(Failure(BadLength), headers.rest)
      else if n == -1 || |headers.rest| < n then Read(Failure(Truncated), [])
      else Read(Success(headers.rest[..n]), headers.rest[n..])
  }

  // ---------------------------------------------------------------------------
  // Frames: what is written, and what a conforming server may write.

  /** `Content-Length: n` and its line end. */
  function LengthLine(n: nat): Bytes {
    CONTENT_LENGTH + [COLON, 32] + Print(n, 10) + CRLF
  }

  /** The bytes the connection writes for a payload. */
  function Frame(payload: Bytes): Bytes {
    LengthLine(|payload|) + CRLF + payload
  }

  /** A frame with further header lines around the length, such as `Content-Type`. */
  datatype ServerFrame = ServerFrame(before: seq<Bytes>, after: seq<Bytes>, payload: Bytes)

  /** One complete header line that is neither blank nor another content length. */
  ghost predicate OtherHeader(line: Bytes) {
    |line| > 0 && line[|line| - 1] == LF && (forall i :: 0 <= i < |line| - 1 ==> line[i] != LF) &&
    !IsBlankLine(line) && !NamesLength(line)
  }

  ghost predicate Conforming(f: ServerFrame) {
    (forall i :: 0 <= i < |f.before| ==> OtherHeader(f.before[i])) &&
    (forall i :: 0 <= i < |f.after| ==> OtherHeader(f.after[i]))
  }

  ghost function FrameBytes(f: ServerFrame): Bytes {
    Concat(f.before) + (LengthLine(|f.payload|) + (Concat(f.after) + (CRLF + f.payload)))
  }

  lemma {:induction false} FirstLine(line: Bytes, rest: Bytes)
    requires |line| > 0 && line[|line| - 1] == LF && forall i :: 0 <= i < |line| - 1 ==> line[i] != LF
    ensures LineLength(line + rest) == |line|
    ensures (line + rest)[..|line|] == line && (line + rest)[|line|..] == rest
  {
    assert (line + rest)[|line| - 1] == LF;
  }

  lemma {:induction false} SkipHeaders(lines: seq<Bytes>, rest: Bytes, length: Option<int>)
    requires forall i :: 0 <= i < |lines| ==> OtherHeader(lines[i])
    ensures ReadHeaders(Concat(lines) + rest, length) == ReadHeaders(rest, length)
  {
    if lines == [] {
      assert Concat(lines) + rest == rest;
    } else {
      var tail := Concat(lines[1..]) + rest;
      assert Concat(lines) + rest == lines[0] + tail;
      assert OtherHeader(lines[0]);
      FirstLine(lines[0], tail);
      SkipHeaders(lines[1..], rest, length);
    }
  }

  lemma {:induction false} DigitsValueReads(s: Bytes, before: nat, afterDigit: bool)
    requires AllDigits(s, 10) && (s != [] || afterDigit)
    ensures DigitsValue(s, before, afterDigit) == Some(ReadOn(s, before, 10))
  {
    if s != [] {
      DigitsValueReads(s[1..], before * 10 + DigitOf(s[0], 10).value, true);
    }
  }

  lemma {:induction false} StripPadding(digits: Bytes)
    requires digits != [] && AllDigits(digits, 10)
    ensures StripRight(StripLeft([32] + digits + CRLF)) == digits
  {
    var padded := [32] + digits + CRLF;
    assert IsDigit(digits[0], 10) && IsDigit(digits[|digits| - 1], 10);
    assert padded[1..] == digits + CRLF;
    assert StripLeft(padded) == digits + CRLF;
    StripLast(digits + [CR], LF);
    assert digits + [CR] + [LF] == digits + CRLF;
    StripLast(digits, CR);
  }

  lemma {:induction false} StripLast(s: Bytes, c: Byte)
    requires IsSpace(c)
    ensures StripRight(s + [c]) == StripRight(s)
  {
    assert (s + [c])[..|s|] == s;
  }

  lemma {:induction false} ParsePrinted(n: nat)
    ensures ParseInt(Print(n, 10)) == Some(n)
  {
    var digits := Print(n, 10);
    assert IsDigit(digits[0], 10);
    DigitsValueReads(digits, 0, false);
    PrintedReadsBack(n, 10);
  }

  lemma {:induction false} LowerOf(s: Bytes, t: Bytes)
    requires |s| == |t| && forall i :: 0 <= i < |s| ==> t[i] == LowerByte(s[i])
    ensures Lower(s) == t
  {
  }

  lemma {:induction false} LengthLineShape(n: nat)
    ensures var line := LengthLine(n);
            && ColonAt(line) == |CONTENT_LENGTH|
            && line[..|CONTENT_LENGTH|] == CONTENT_LENGTH
            && line[|CONTENT_LENGTH| + 1..] == [32] + Print(n, 10) + CRLF
  {
    var line, k := LengthLine(n), |CONTENT_LENGTH|;
    assert line == CONTENT_LENGTH + ([COLON] + ([32] + Print(n, 10) + CRLF));
    assert forall i :: 0 <= i < k ==> line[i] == CONTENT_LENGTH[i];
    assert forall i :: 0 <= i < k ==> CONTENT_LENGTH[i] != COLON;
    assert line[k] == COLON;
  }

  lemma {:induction false} LengthLineIsLine(n: nat)
    ensures var line := LengthLine(n);
            |line| > 0 && line[|line| - 1] == LF && forall i :: 0 <= i < |line| - 1 ==> line[i] != LF
  {
    var line, digits := LengthLine(n), Print(n, 10);
    var front := CONTENT_LENGTH + [COLON, 32];
    assert line == front + digits + CRLF;
    forall i | 0 <= i < |digits| ensures digits[i] != LF {
      assert IsDigit(digits[i], 10);
    }
    assert forall i :: 0 <= i < |front| ==> front[i] != LF;
  }

  /** The length line reads back as the length it was printed for. */
  lemma {:induction false} LengthLineReads(n: nat)
    ensures !IsBlankLine(LengthLine(n)) && NamesLength(LengthLine(n)) && LengthValue(LengthLine(n)) == Some(n)
  {
    LengthLineShape(n);
    LengthLineName(LengthLine(n));
    LengthLineValue(LengthLine(n), n);
  }

  lemma {:induction false} LengthLineName(line: Bytes)
    requires ColonAt(line) == |CONTENT_LENGTH| && line[..|CONTENT_LENGTH|] == CONTENT_LENGTH
    ensures NamesLength(line) && !IsBlankLine(line)
  {
    LowerOf(CONTENT_LENGTH, CONTENT_LENGTH_LOWER);
  }

  lemma {:induction false} LengthLineValue(line: Bytes, n: nat)
    requires ColonAt(line) < |line| && line[ColonAt(line) + 1..] == [32] + Print(n, 10) + CRLF
    ensures LengthValue(line) == Some(n)
  {
    var digits := Print(n, 10);
    StripPadding(digits);
    ParsePrinted(n);
  }

  /** A length line replaces any length read before. */
  lemma {:induction false} LengthLineHeader(n: nat, rest: Bytes, before: Option<int>)
    ensures ReadHeaders(LengthLine(n) + rest, before) == ReadHeaders(rest, Some(n))
  {
    LengthLineReads(n);
    LengthLineIsLine(n);
    hide LengthLine, IsBlankLine, NamesLength, LengthValue;
    FirstLine(LengthLine(n), rest);
  }

  lemma {:induction false} BlankLineEnds(rest: Bytes, length: Option<int>)
    ensures ReadHeaders(CRLF + rest, length) == Read(Success(length), rest)
  {
    FirstLine(CRLF, rest);
  }

  /** Reading a conforming frame gives its payload and leaves exactly what follows it. */
  lemma {:induction false} FrameReads(f: ServerFrame, rest: Bytes)
    requires Conforming(f)
    ensures ReadPayload(FrameBytes(f) + rest) == Read(Success(f.payload), rest)
  {
    hide ReadHeaders, LengthLine, Concat;
    var line, last := LengthLine(|f.payload|), CRLF + (f.payload + rest);
    var afterLength := Concat(f.after) + last;
    assert FrameBytes(f) + rest == Concat(f.before) + (line + afterLength);
    SkipHeaders(f.before, line + afterLength, None);
    LengthLineHeader(|f.payload|, afterLength, None);
    SkipHeaders(f.after, last, Some(|f.payload|));
    BlankLineEnds(f.payload + rest, Some(|f.payload|));
    assert (f.payload + rest)[..|f.payload|] == f.payload && (f.payload + rest)[|f.payload|..] == rest;
  }

  /** The connection's own frames are conforming ones without further headers. */
  lemma {:induction false} OwnFrameReads(payload: Bytes, rest: Bytes)
    ensures ReadPayload(Frame(payload) + rest) == Read(Success(payload), rest)
  {
    var f := ServerFrame([], [], payload);
    assert FrameBytes(f) == Frame(payload);
    FrameReads(f, rest);
  }

  /** An unfinished line, then nothing: no header section ends there. */
  lemma {:induction false} UnfinishedLine(s: Bytes, length: Option<int>)
    requires forall i :: 0 <= i < |s| ==> s[i] != LF
    ensures ReadHeaders(s, length).result.Failure?
  {
    hide NamesLength, LengthValue;
    if s != [] {
      assert LineLength(s) == |s|;
      assert s[..|s|] == s && s[|s|..] == [];
      assert s[|s| - 1] != LF;
      assert !IsBlankLine(s);
      assert ReadHeaders([], length).result.Failure?;
      assert ReadHeaders([], LengthValue(s)).result.Failure?;
    }
  }

  lemma {:induction false} OtherHeaderRead(line: Bytes, rest: Bytes, length: Option<int>)
    requires OtherHeader(line)
    ensures ReadHeaders(line + rest, length) == ReadHeaders(rest, length)
  {
    FirstLine(line, rest);
  }

  lemma {:induction false} CutHeaders(lines: seq<Bytes>, k: nat, length: Option<int>)
    requires (forall i :: 0 <= i < |lines| ==> OtherHeader(lines[i])) && k < |Concat(lines)|
    ensures ReadHeaders(Concat(lines)[..k], length).result.Failure?
    decreases |lines|
  {
    hide ReadHeaders;
    var line, rest := lines[0], Concat(lines[1..]);
    assert OtherHeader(line);
    CutConcat(line, rest, k);
    if k < |line| {
      UnfinishedLine(line[..k], length);
    } else {
      OtherHeaderRead(line, rest[..k - |line|], length);
      CutHeaders(lines[1..], k - |line|, length);
    }
  }

  /** The end of a frame, from its blank line on, cut short. */
  lemma {:induction false} CutPayload(payload: Bytes, k: nat)
    requires k < 2 + |payload|
    ensures var r := ReadHeaders((CRLF + payload)[..k], Some(|payload|));
            r.result.Failure? || (r.result == Success(Some(|payload|)) && |r.rest| < |payload|)
  {
    if k < 2 {
      UnfinishedLine((CRLF + payload)[..k], Some(|payload|));
    } else {
      assert (CRLF + payload)[..k] == CRLF + payload[..k - 2];
      BlankLineEnds(payload[..k - 2], Some(|payload|));
    }
  }

  /** The headers and payload behind the length line, cut short. */
  lemma {:induction false} CutBehindLength(f: ServerFrame, k: nat)
    requires Conforming(f) && k < |Concat(f.after) + (CRLF + f.payload)|
    ensures var r := ReadHeaders((Concat(f.after) + (CRLF + f.payload))[..k], Some(|f.payload|));
            r.result.Failure? || (r.result == Success(Some(|f.payload|)) && |r.rest| < |f.payload|)
  {
    hide ReadHeaders, Concat;
    var headers, end := Concat(f.after), CRLF + f.payload;
    CutConcat(headers, end, k);
    if k < |headers| {
      CutHeaders(f.after, k, Some(|f.payload|));
    } else {
      SkipHeaders(f.after, end[..k - |headers|], Some(|f.payload|));
      CutPayload(f.payload, k - |headers|);
    }
  }

  lemma {:induction false} CutFromLength(f: ServerFrame, k: nat)
    requires Conforming(f) && k < |LengthLine(|f.payload|) + (Concat(f.after) + (CRLF + f.payload))|
    ensures var r := ReadHeaders((LengthLine(|f.payload|) + (Concat(f.after) + (CRLF + f.payload)))[..k], None);
            r.result.Failure? || (r.result == Success(Some(|f.payload|)) && |r.rest| < |f.payload|)
  {
    var line, behind := LengthLine(|f.payload|), Concat(f.after) + (CRLF + f.payload);
    LengthLineIsLine(|f.payload|);
    hide ReadHeaders, Concat, LengthLine;
    CutConcat(line, behind, k);
    if k < |line| {
      UnfinishedLine(line[..k], None);
    } else {
      LengthLineHeader(|f.payload|, behind[..k - |line|], None);
      CutBehindLength(f, k - |line|);
    }
  }

  /** A frame cut short anywhere, as when the server dies while writing it, is never taken for a message. */
  lemma {:induction false} CutFrameFails(f: ServerFrame, k: nat)
    requires Conforming(f) && k < |FrameBytes(f)|
    ensures ReadPayload(FrameBytes(f)[..k]).result.Failure?
  {
    hide ReadHeaders, Concat, LengthLine;
    var headers, behind := Concat(f.before), LengthLine(|f.payload|) + (Concat(f.after) + (CRLF + f.payload));
    CutConcat(headers, behind, k);
    if k < |headers| {
      CutHeaders(f.before, k, None);
    } else {
      SkipHeaders(f.before, behind[..k - |headers|], None);
      CutFromLength(f, k - |headers|);
    }
  }

  lemma {:induction false} CutOwnFrameFails(payload: Bytes, k: nat)
    requires k < |Frame(payload)|
    ensures ReadPayload(Frame(payload)[..k]).result.Failure?
  {
    var f := ServerFrame([], [], payload);
    assert FrameBytes(f) == Frame(payload);
    CutFrameFails(f, k);
  }

  /** The name of the length header in any mixture of cases, and no other name. */
  lemma {:induction false} NamedInAnyCase(line: Bytes)
    ensures NamesLength(line) <==>
            ColonAt(line) == 14 && forall i :: 0 <= i < 14 ==>
              line[i] == CONTENT_LENGTH_LOWER[i] || (65 <= line[i] <= 90 && line[i] + 32 == CONTENT_LENGTH_LOWER[i])
  {
    hide Lower, ColonAt;
    var name := line[..ColonAt(line)];
    if NamesLength(line) {
      assert |Lower(name)| == |name|;
      forall i | 0 <= i < 14
        ensures line[i] == CONTENT_LENGTH_LOWER[i] || (65 <= line[i] <= 90 && line[i] + 32 == CONTENT_LENGTH_LOWER[i])
      {
        assert name[i] == line[i] && LowerByte(name[i]) == Lower(name)[i] == CONTENT_LENGTH_LOWER[i];
      }
    }
    if ColonAt(line) == 14 && forall i :: 0 <= i < 14 ==>
         line[i] == CONTENT_LENGTH_LOWER[i] || (65 <= line[i] <= 90 && line[i] + 32 == CONTENT_LENGTH_LOWER[i])
    {
      assert forall i :: 0 <= i < 14 ==> !(65 <= CONTENT_LENGTH_LOWER[i] <= 90);
      forall i | 0 <= i < 14 ensures CONTENT_LENGTH_LOWER[i] == LowerByte(name[i]) {
        assert name[i] == line[i];
      }
      LowerOf(name, CONTENT_LENGTH_LOWER);
    }
  }

  ghost predicate AllSpace(s: Bytes) {
    forall i :: 0 <= i < |s| ==> IsSpace(s[i])
  }

  lemma {:induction false} StripsLeft(pad: Bytes, s: Bytes)
    requires AllSpace(pad) && s != [] && !IsSpace(s[0])
    ensures StripLeft(pad + s) == s
  {
    if pad == [] {
      assert pad + s == s;
    } else {
      assert (pad + s)[1..] == pad[1..] + s;
      StripsLeft(pad[1..], s);
    }
  }

  lemma {:induction false} StripsRight(s: Bytes, pad: Bytes)
    requires AllSpace(pad) && s != [] && !IsSpace(s[|s| - 1])
    ensures StripRight(s + pad) == s
  {
    if pad == [] {
      assert s + pad == s;
    } else {
      assert (s + pad)[..|s + pad| - 1] == s + pad[..|pad| - 1];
      StripsRight(s, pad[..|pad| - 1]);
    }
  }

  lemma {:induction false} ColonAfterName(name: Bytes, rest: Bytes)
    requires forall i :: 0 <= i < |name| ==> name[i] != COLON
    ensures ColonAt(name + [COLON] + rest) == |name|
  {
    var line := name + [COLON] + rest;
    assert line[|name|] == COLON;
    assert forall i :: 0 <= i < |name| ==> line[i] == name[i];
  }

  lemma {:induction false} ParsesDigits(digits: Bytes)
    requires digits != [] && AllDigits(digits, 10)
    ensures !IsSpace(digits[0]) && !IsSpace(digits[|digits| - 1])
    ensures ParseInt(digits) == ParseInt([43] + digits) == Some(ReadOn(digits, 0, 10))
    ensures var value: int := ReadOn(digits, 0, 10); ParseInt([45] + digits) == Some(-value)
  {
    DigitsValueReads(digits, 0, false);
    assert IsDigit(digits[0], 10) && IsDigit(digits[|digits| - 1], 10);
    hide DigitsValue, ReadOn;
    assert ([45] + digits)[1..] == digits && ([43] + digits)[1..] == digits;
  }

  lemma {:induction false} PaddedValue(name: Bytes, before: Bytes, text: Bytes, after: Bytes)
    requires (forall i :: 0 <= i < |name| ==> name[i] != COLON) && AllSpace(before) && AllSpace(after)
    requires text != [] && !IsSpace(text[0]) && !IsSpace(text[|text| - 1])
    ensures LengthValue(name + [COLON] + (before + (text + after))) == ParseInt(text)
  {
    var padded := before + (text + after);
    var line := name + [COLON] + padded;
    ColonAfterName(name, padded);
    assert line[|name| + 1..] == padded;
    StripsLeft(before, text + after);
    StripsRight(text, after);
    hide ColonAt, StripLeft, StripRight, ParseInt;
  }

  lemma {:induction false} DigitsInFront(a: Bytes, rest: Bytes, before: nat, afterDigit: bool)
    requires a != [] && AllDigits(a, 10)
    ensures DigitsValue(a + rest, before, afterDigit) == DigitsValue(rest, ReadOn(a, before, 10), true)
  {
    assert (a + rest)[1..] == a[1..] + rest;
    if |a| == 1 {
      assert a[1..] + rest == rest;
    } else {
      DigitsInFront(a[1..], rest, before * 10 + DigitOf(a[0], 10).value, true);
    }
  }

  /** Single underscores between digits are passed over; at either end, or two of them, they are no number. */
  lemma {:induction false} Underscores(a: Bytes, b: Bytes)
    requires a != [] && b != [] && AllDigits(a, 10) && AllDigits(b, 10)
    ensures DigitsValue(a + ([95] + b), 0, false) == Some(ReadOn(b, ReadOn(a, 0, 10), 10))
    ensures DigitsValue(a + [95], 0, false) == None && DigitsValue([95] + a, 0, false) == None
    ensures DigitsValue(a + ([95, 95] + b), 0, false) == None
  {
    var value := ReadOn(a, 0, 10);
    DigitsInFront(a, [95] + b, 0, false);
    DigitsInFront(a, [95], 0, false);
    DigitsInFront(a, [95, 95] + b, 0, false);
    DigitsValueReads(b, value, false);
    assert ([95] + b)[1..] == b && [95][1..] == [] && ([95, 95] + b)[1..] == [95] + b;
  }

  /** Any other byte makes the text no number. */
  lemma {:induction false} OtherByteIsNoNumber(s: Bytes, i: nat, before: nat, afterDigit: bool)
    requires i < |s| && !IsDigit(s[i], 10) && s[i] != 95
    ensures DigitsValue(s, before, afterDigit) == None
    decreases |s|
  {
    if i > 0 && IsDigit(s[0], 10) {
      OtherByteIsNoNumber(s[1..], i - 1, before * 10 + DigitOf(s[0], 10).value, true);
    } else if i > 0 && s[0] == 95 && afterDigit {
      OtherByteIsNoNumber(s[1..], i - 1, before, false);
    }
  }

  /** A length may be padded, start with zeros and carry a sign; it is read as the number its digits stand for. */
  lemma {:induction false} LengthValueOf(name: Bytes, before: Bytes, digits: Bytes, after: Bytes)
    requires (forall i :: 0 <= i < |name| ==> name[i] != COLON) && AllSpace(before) && AllSpace(after)
    requires digits != [] && AllDigits(digits, 10)
    ensures LengthValue(name + [COLON] + (before + (digits + after))) == Some(ReadOn(digits, 0, 10))
    ensures var value: int := ReadOn(digits, 0, 10);
            LengthValue(name + [COLON] + (before + ([45] + digits + after))) == Some(-value)
    ensures LengthValue(name + [COLON] + (before + ([43] + digits + after))) == Some(ReadOn(digits, 0, 10))
  {
    ParsesDigits(digits);
    hide LengthValue, ParseInt, ReadOn;
    PaddedValue(name, before, digits, after);
    PaddedValue(name, before, [45] + digits, after);
    PaddedValue(name, before, [43] + digits, after);
  }

  /** What the payload read makes of the headers: too few bytes and a length of -1 use up the stream, other negative lengths do not. */
  lemma {:induction false} PayloadMeans(s: Bytes, n: int, rest: Bytes)
    requires ReadHeaders(s, None) == Read(Success(Some(n)), rest)
    ensures 0 <= n <= |rest| ==> ReadPayload(s) == Read(Success(rest[..n]), rest[n..])
    ensures n > |rest| || n == -1 ==> ReadPayload(s) == Read(Failure(Truncated), [])
    ensures n < -1 ==> ReadPayload(s) == Read(Failure(BadLength), rest)
  {
  }

  /** A message without a length line is an error, whatever other headers it has. */
  lemma {:induction false} NoLengthFails(lines: seq<Bytes>, rest: Bytes)
    requires forall i :: 0 <= i < |lines| ==> OtherHeader(lines[i])
    ensures ReadPayload(Concat(lines) + (CRLF + rest)) == Read(Failure(NoLength), rest)
  {
    hide ReadHeaders, Concat;
    SkipHeaders(lines, CRLF + rest, None);
    BlankLineEnds(rest, None);
  }

  /** Of two lengths the later one counts. */
  lemma {:induction false} LastLengthWins(m: nat, payload: Bytes, rest: Bytes)
    ensures ReadPayload(LengthLine(m) + (Frame(payload) + rest)) == Read(Success(payload), rest)
  {
    hide ReadHeaders, LengthLine;
    var behind := CRLF + (payload + rest);
    assert Frame(payload) + rest == LengthLine(|payload|) + behind;
    LengthLineHeader(m, LengthLine(|payload|) + behind, None);
    LengthLineHeader(|payload|, behind, Some(m));
    BlankLineEnds(payload + rest, Some(|payload|));
    assert (payload + rest)[..|payload|] == payload && (payload + rest)[|payload|..] == rest;
  }

  /** The payloads of the next `n` messages, as long as all of them can be read. */
  ghost function ReadMany(s: Bytes, n: nat): Read<seq<Bytes>>
    decreases n
  {
    if n == 0 then Read(Success([]), s)
    else
      var first := ReadPayload(s);
      if first.result.Failure? then Read(Failure(first.result.error), first.rest)
      else
        var more := ReadMany(first.rest, n - 1);
        if more.result.Failure? then more else Read(Success([first.result.value] + more.result.value), more.rest)
  }

  ghost function StreamOf(frames: seq<ServerFrame>): Bytes {
    if frames == [] then [] else FrameBytes(frames[0]) + StreamOf(frames[1..])
  }

  ghost function Payloads(frames: seq<ServerFrame>): seq<Bytes> {
    if frames == [] then [] else [frames[0].payload] + Payloads(frames[1..])
  }

  ghost predicate AllConforming(frames: seq<ServerFrame>) {
    forall i :: 0 <= i < |frames| ==> Conforming(frames[i])
  }

  /** Any concatenation of conforming frames reads back as its payloads in order, consuming exactly its bytes. */
  lemma {:induction false} FramesReadBack(frames: seq<ServerFrame>, rest: Bytes)
    requires AllConforming(frames)
    ensures ReadMany(StreamOf(frames) + rest, |frames|) == Read(Success(Payloads(frames)), rest)
  {
    if frames == [] {
      assert StreamOf(frames) + rest == rest;
    } else {
      var tail := StreamOf(frames[1..]) + rest;
      assert StreamOf(frames) + rest == FrameBytes(frames[0]) + tail;
      FrameReads(frames[0], tail);
      FramesReadBack(frames[1..], rest);
    }
  }

  /** A stream cut short anywhere reads as its whole frames, and then as an error: no payload is made up or damaged. */
  lemma {:induction false} CutStreamFails(frames: seq<ServerFrame>, k: nat) returns (whole: nat, rest: Bytes)
    requires AllConforming(frames) && k < |StreamOf(frames)|
    ensures whole < |frames| && |StreamOf(frames[..whole])| + |rest| == k
    ensures ReadMany(StreamOf(frames)[..k], whole) == Read(Success(Payloads(frames[..whole])), rest)
    ensures ReadPayload(rest).result.Failure?
    decreases |frames|
  {
    hide ReadPayload, FrameBytes, Conforming;
    var first, tail := FrameBytes(frames[0]), StreamOf(frames[1..]);
    assert Conforming(frames[0]);
    CutConcat(first, tail, k);
    if k < |first| {
      whole, rest := 0, first[..k];
      CutFrameFails(frames[0], k);
    } else {
      whole, rest := CutStreamFails(frames[1..], k - |first|);
      var cut := tail[..k - |first|];
      FrameReads(frames[0], cut);
      assert frames[..whole + 1][0] == frames[0] && frames[..whole + 1][1..] == frames[1..][..whole];
      whole := whole + 1;
    }
  }

  // ---------------------------------------------------------------------------
  // Messages and replies. JSON text itself is encoded and decoded by the caller's functions.

  type Json = string

  /** `Number(n)` stands for every JSON value that Python finds equal to the integer `n`. */
  datatype Id = NoId | Number(n: int) | OtherId

  /** A message with a method is a call or notice of the server, one without is a reply. */
  datatype Message = Message(id: Id, method_: Option<string>, error: Option<Json>, result: Option<Json>)

  datatype Decoded = Malformed | NonObject | Object(message: Message)

  type Decoder = Bytes -> Decoded

  function ReadMessage(s: Bytes, decode: Decoder): (r: Read<Message>)
    ensures r.result.Success? ==> |r.rest| < |s|
  {
    var payload := ReadPayload(s);
    if payload.result.Failure? then Read(Failure(payload.result.error), payload.rest)
    else
      match decode(payload.result.value)
      case Malformed => Read(Failure(NotJson), payload.rest)
      case NonObject => Read(Failure(NotAnObject), payload.rest)
      case Object(m) => Read(Success(m), payload.rest)
  }

  /** What a payload can turn out to be once it is read. */
  lemma {:induction false} MessageMeans(s: Bytes, payload: Bytes, rest: Bytes, decode: Decoder)
    requires ReadPayload(s) == Read(Success(payload), rest)
    ensures decode(payload) == Malformed ==> ReadMessage(s, decode) == Read(Failure(NotJson), rest)
    ensures decode(payload) == NonObject ==> ReadMessage(s, decode) == Read(Failure(NotAnObject), rest)
    ensures forall m :: decode(payload) == Object(m) ==> ReadMessage(s, decode) == Read(Success(m), rest)
  {
  }

  datatype Reply = Answer(result: Option<Json>) | ServerError(error: Json) | Lost(reason: ReadError)

  function ReplyOf(m: Message): Reply {
    if m.error.Some? then ServerError(m.error.value) else Answer(m.result)
  }

  /** The reply taken, what is left unread, and how many messages were passed over. */
  datatype Awaited = Awaited(reply: Reply, rest: Bytes, skipped: nat)

  /** Takes the first message with the given id; every message before it is dropped. */
  function AwaitReply(s: Bytes, id: int, decode: Decoder): Awaited
    decreases |s|
  {
    var r := ReadMessage(s, decode);
    if r.result.Failure? then Awaited(Lost(r.result.error), r.rest, 0)
    else if r.result.value.id == Number(id) then Awaited(ReplyOf(r.result.value), r.rest, 0)
    else
      var more := AwaitReply(r.rest, id, decode);
      more.(skipped := more.skipped + 1)
  }

  ghost predicate Decodes(f: ServerFrame, decode: Decoder) {
    Conforming(f) && decode(f.payload).Object?
  }

  ghost predicate HasId(f: ServerFrame, id: int, decode: Decoder) {
    Decodes(f, decode) && decode(f.payload).message.id == Number(id)
  }

  ghost predicate IsReplyTo(f: ServerFrame, id: int, decode: Decoder) {
    HasId(f, id, decode) && decode(f.payload).message.method_.None?
  }

  ghost function ReplyIn(f: ServerFrame, decode: Decoder): Reply {
    var d := decode(f.payload);
    if d.Object? then ReplyOf(d.message) else Lost(NotJson)
  }

  lemma {:induction false} AwaitStep(f: ServerFrame, tail: Bytes, id: int, decode: Decoder)
    requires Decodes(f, decode)
    ensures AwaitReply(FrameBytes(f) + tail, id, decode) ==
            if HasId(f, id, decode) then Awaited(ReplyIn(f, decode), tail, 0)
            else var more := AwaitReply(tail, id, decode); more.(skipped := more.skipped + 1)
  {
    FrameReads(f, tail);
    assert ReadMessage(FrameBytes(f) + tail, decode) == Read(Success(decode(f.payload).message), tail);
  }

  lemma {:induction false} StreamStep(frames: seq<ServerFrame>, rest: Bytes)
    requires frames != []
    ensures StreamOf(frames) + rest == FrameBytes(frames[0]) + (StreamOf(frames[1..]) + rest)
  {
    Associates(FrameBytes(frames[0]), StreamOf(frames[1..]), rest);
  }

  lemma {:induction false} FirstFrom(frames: seq<ServerFrame>, i: nat, k: nat, rest: Bytes, id: int, decode: Decoder)
    requires i <= k < |frames| && HasId(frames[k], id, decode)
    requires forall j :: i <= j < k ==> Decodes(frames[j], decode) && !HasId(frames[j], id, decode)
    ensures AwaitReply(StreamOf(frames[i..]) + rest, id, decode) ==
            Awaited(ReplyIn(frames[k], decode), StreamOf(frames[k + 1..]) + rest, k - i)
    decreases k - i
  {
    assert Decodes(frames[i], decode);
    hide AwaitReply, StreamOf, FrameBytes, ReplyIn, Decodes, HasId;
    StreamStep(frames[i..], rest);
    assert frames[i..][0] == frames[i] && frames[i..][1..] == frames[i + 1..];
    AwaitStep(frames[i], StreamOf(frames[i + 1..]) + rest, id, decode);
    if i < k {
      FirstFrom(frames, i + 1, k, rest, id, decode);
    }
  }

  /** The first message with the id is the one taken, and everything after it stays unread. */
  lemma {:induction false} FirstWithIdIsTaken(frames: seq<ServerFrame>, k: nat, rest: Bytes, id: int, decode: Decoder)
    requires k < |frames| && HasId(frames[k], id, decode)
    requires forall i :: 0 <= i < k ==> Decodes(frames[i], decode) && !HasId(frames[i], id, decode)
    ensures AwaitReply(StreamOf(frames) + rest, id, decode) ==
            Awaited(ReplyIn(frames[k], decode), StreamOf(frames[k + 1..]) + rest, k)
    ensures var m := decode(frames[k].payload).message;
            AwaitReply(StreamOf(frames) + rest, id, decode).reply ==
            match m.error
            case Some(error) => ServerError(error)
            case None => Answer(m.result)
  {
    assert ReplyIn(frames[k], decode) ==
           match decode(frames[k].payload).message.error
           case Some(error) => ServerError(error)
           case None => Answer(decode(frames[k].payload).message.result);
    hide AwaitReply, StreamOf, ReplyIn, Decodes, HasId;
    FirstFrom(frames, 0, k, rest, id, decode);
    assert frames[0..] == frames;
  }

  /** Where the server's output ends, or breaks off within a frame, before any message with the id, the request fails. */
  lemma {:induction false} CutOutputIsLost(frames: seq<ServerFrame>, f: ServerFrame, k: nat, id: int, decode: Decoder)
    requires Conforming(f) && k < |FrameBytes(f)|
    requires forall j :: 0 <= j < |frames| ==> Decodes(frames[j], decode) && !HasId(frames[j], id, decode)
    ensures var awaited := AwaitReply(StreamOf(frames) + FrameBytes(f)[..k], id, decode);
            awaited.reply.Lost? && awaited.skipped == |frames|
    decreases |frames|
  {
    var cut := FrameBytes(f)[..k];
    if frames == [] {
      assert StreamOf(frames) + cut == cut;
      CutFrameFails(f, k);
      assert ReadMessage(cut, decode).result.Failure?;
    } else {
      assert Decodes(frames[0], decode) && !HasId(frames[0], id, decode);
      hide AwaitReply, StreamOf, FrameBytes, Decodes, HasId, Conforming;
      StreamStep(frames, cut);
      AwaitStep(frames[0], StreamOf(frames[1..]) + cut, id, decode);
      assert forall j :: 0 <= j < |frames[1..]| ==> frames[1..][j] == frames[j + 1];
      CutOutputIsLost(frames[1..], f, k, id, decode);
    }
  }

  /** The stream begins with these frames, and number `k` is the first with the id. */
  ghost predicate TakesFrom(s: Bytes, frames: seq<ServerFrame>, k: nat, rest: Bytes, id: int, decode: Decoder) {
    && s == StreamOf(frames) + rest
    && k < |frames| && HasId(frames[k], id, decode)
    && forall i :: 0 <= i < k ==> Decodes(frames[i], decode) && !HasId(frames[i], id, decode)
  }

  /** What the caller gets for a message taken, and what is left unread. */
  ghost predicate Taken(reply: Reply, left: Bytes, frames: seq<ServerFrame>, k: nat, rest: Bytes, decode: Decoder)
    requires k < |frames| && decode(frames[k].payload).Object?
  {
    var m := decode(frames[k].payload).message;
    && left == StreamOf(frames[k + 1..]) + rest
    && (m.error.Some? ==> reply == ServerError(m.error.value))
    && (m.error.None? ==> reply == Answer(m.result))
  }

  lemma {:induction false} TakenFrom(s: Bytes, id: int, decode: Decoder)
    ensures forall frames, k: nat, rest :: TakesFrom(s, frames, k, rest, id, decode) ==>
              Taken(AwaitReply(s, id, decode).reply, AwaitReply(s, id, decode).rest, frames, k, rest, decode)
  {
    forall frames, k: nat, rest | TakesFrom(s, frames, k, rest, id, decode)
      ensures Taken(AwaitReply(s, id, decode).reply, AwaitReply(s, id, decode).rest, frames, k, rest, decode)
    {
      FirstWithIdIsTaken(frames, k, rest, id, decode);
    }
  }

  /**
   A request gets its own reply, the first reply with its id, exactly when no call of the
   server with the same id comes before it; such a call would be taken for the reply.
   */
  lemma {:induction false} OwnReplyIffNoClash(frames: seq<ServerFrame>, k: nat, rest: Bytes, id: int, decode: Decoder)
    requires k < |frames| && IsReplyTo(frames[k], id, decode)
    requires forall i :: 0 <= i < k ==> Decodes(frames[i], decode) && !IsReplyTo(frames[i], id, decode)
    ensures var awaited := AwaitReply(StreamOf(frames) + rest, id, decode);
            awaited.skipped == k <==> forall i :: 0 <= i < k ==> !HasId(frames[i], id, decode)
    ensures (forall i :: 0 <= i < k ==> !HasId(frames[i], id, decode)) ==>
              AwaitReply(StreamOf(frames) + rest, id, decode) ==
              Awaited(ReplyIn(frames[k], decode), StreamOf(frames[k + 1..]) + rest, k)
  {
    var j := FirstIndex(frames, k, id, decode);
    FirstWithIdIsTaken(frames, j, rest, id, decode);
  }

  lemma {:induction false} FirstIndex(frames: seq<ServerFrame>, k: nat, id: int, decode: Decoder) returns (j: nat)
    requires k < |frames| && HasId(frames[k], id, decode)
    ensures j <= k && HasId(frames[j], id, decode) && forall i :: 0 <= i < j ==> !HasId(frames[i], id, decode)
  {
    j := 0;
    while !HasId(frames[j], id, decode)
      invariant j <= k && forall i :: 0 <= i < j ==> !HasId(frames[i], id, decode)
      decreases k - j
    {
      j := j + 1;
    }
  }

  // ---------------------------------------------------------------------------
  // A whole session.

  /** What the server sends for one request: other messages, then the reply. */
  datatype Exchange = Exchange(noise: seq<ServerFrame>, reply: ServerFrame)

  ghost predicate Answers(e: Exchange, id: int, decode: Decoder) {
    IsReplyTo(e.reply, id, decode) &&
    forall i :: 0 <= i < |e.noise| ==> Decodes(e.noise[i], decode) && !HasId(e.noise[i], id, decode)
  }

  ghost function SessionBytes(exchanges: seq<Exchange>): Bytes {
    if exchanges == [] then []
    else StreamOf(exchanges[0].noise + [exchanges[0].reply]) + SessionBytes(exchanges[1..])
  }

  /** The replies of `n` requests with consecutive ids from `first` on, and what is left unread. */
  ghost function Session(s: Bytes, first: int, n: nat, decode: Decoder): (seq<Reply>, Bytes)
    decreases n
  {
    if n == 0 then ([], s)
    else
      var awaited := AwaitReply(s, first, decode);
      var more := Session(awaited.rest, first + 1, n - 1, decode);
      ([awaited.reply] + more.0, more.1)
  }

  ghost function RepliesOf(exchanges: seq<Exchange>, decode: Decoder): seq<Reply> {
    if exchanges == [] then [] else [ReplyIn(exchanges[0].reply, decode)] + RepliesOf(exchanges[1..], decode)
  }

  /** One exchange at the front of the stream. */
  lemma {:induction false} ExchangeStep(e: Exchange, tail: Bytes, id: int, decode: Decoder)
    requires Answers(e, id, decode)
    ensures var awaited := AwaitReply(StreamOf(e.noise + [e.reply]) + tail, id, decode);
            awaited.reply == ReplyIn(e.reply, decode) && awaited.rest == tail
  {
    hide AwaitReply, ReplyIn, Decodes, FrameBytes;
    var frames := e.noise + [e.reply];
    FirstWithIdIsTaken(frames, |e.noise|, tail, id, decode);
    assert frames[|e.noise| + 1..] == [];
    assert StreamOf([]) + tail == tail;
  }

  /** Over a whole session every request gets its own reply and nothing is read too far. */
  lemma {:induction false} SessionStaysInStep(exchanges: seq<Exchange>, first: int, rest: Bytes, decode: Decoder)
    requires forall i :: 0 <= i < |exchanges| ==> Answers(exchanges[i], first + i, decode)
    ensures Session(SessionBytes(exchanges) + rest, first, |exchanges|, decode) == (RepliesOf(exchanges, decode), rest)
  {
    hide AwaitReply, ReplyIn, StreamOf, Answers;
    if exchanges == [] {
      assert SessionBytes(exchanges) + rest == rest;
    } else {
      var e, tail := exchanges[0], SessionBytes(exchanges[1..]) + rest;
      Associates(StreamOf(e.noise + [e.reply]), SessionBytes(exchanges[1..]), rest);
      assert Answers(e, first + 0, decode);
      ExchangeStep(e, tail, first, decode);
      forall i | 0 <= i < |exchanges[1..]| ensures Answers(exchanges[1..][i], first + 1 + i, decode) {
        assert Answers(exchanges[i + 1], first + (i + 1), decode);
      }
      SessionStaysInStep(exchanges[1..], first + 1, rest, decode);
    }
  }

  // ---------------------------------------------------------------------------
  // The connection.

  datatype Outgoing =
    | Call(id: int, method_: string, params: Json)
    | Notice(method_: string, params: Json)

  class Connection {
    const encode: Outgoing -> Bytes
    const decode: Decoder
    var nextId: int
    /** Bytes written to the server so far. */
    var stdin: Bytes
    /** Bytes of the server not yet read. */
    var stdout: Bytes

    constructor (encode: Outgoing -> Bytes, decode: Decoder, stdout: Bytes)
      ensures this.encode == encode && this.decode == decode
      ensures nextId == 1 && stdin == [] && this.stdout == stdout
    {
      this.encode := encode;
      this.decode := decode;
      this.stdout := stdout;
      nextId := 1;
      stdin := [];
    }

    method Write(m: Outgoing)
      modifies this`stdin
      ensures stdin == old(stdin) + Frame(encode(m))
    {
      var payload := encode(m);
      stdin := stdin + (LengthLine(|payload|) + CRLF + payload);
    }

    method ReadLine() returns (line: Bytes)
      modifies this`stdout
      ensures line == old(stdout)[..LineLength(old(stdout))] && stdout == old(stdout)[LineLength(old(stdout))..]
    {
      var n := LineLength(stdout);
      line := stdout[..n];
      stdout := stdout[n..];
    }

    /** Reads header lines until the blank one, then as many bytes as announced. */
    method ReadOne() returns (r: Result<Message, ReadError>)
      modifies this`stdout
      ensures Read(r, stdout) == ReadMessage(old(stdout), decode)
    {
      var contentLength: Option<int> := None;
      while true
        invariant ReadHeaders(stdout, contentLength) == ReadHeaders(old(stdout), None)
        decreases |stdout|
      {
        var line := ReadLine();
        if line == [] {
          return Failure(ServerExited);
        }
        if IsBlankLine(line) {
          break;
        }
        if NamesLength(line) {
          contentLength := LengthValue(line);
          if contentLength.None? {
            return Failure(BadLength);
          }
        }
      }
      assert ReadHeaders(old(stdout), None) == Read(Success(contentLength), stdout);
      if contentLength.None? {
        return Failure(NoLength);
      }
      var n := contentLength.value;
      if n < -1 {
        return Failure(BadLength);
      }
      if n == -1 || |stdout| < n {
        stdout := [];
        return Failure(Truncated);
      }
      var payload := stdout[..n];
      stdout := stdout[n..];
      match decode(payload)
      case Malformed => return Failure(NotJson);
      case NonObject => return Failure(NotAnObject);
      case Object(m) => return Success(m);
    }

    /** Sends a call under a new id and waits for the message that carries it. */
    method Request(name: string, params: Json) returns (reply: Reply)
      modifies this
      ensures nextId == old(nextId) + 1
      ensures stdin == old(stdin) + Frame(encode(Call(old(nextId), name, params)))
      ensures var awaited := AwaitReply(old(stdout), old(nextId), decode);
              reply == awaited.reply && stdout == awaited.rest
      ensures forall frames, k: nat, rest :: TakesFrom(old(stdout), frames, k, rest, old(nextId), decode) ==>
                Taken(reply, stdout, frames, k, rest, decode)
    {
      TakenFrom(stdout, nextId, decode);
      var id := nextId;
      nextId := nextId + 1;
      Write(Call(id, name, params));
      while true
        invariant nextId == old(nextId) + 1
        invariant stdin == old(stdin) + Frame(encode(Call(old(nextId), name, params)))
        invariant AwaitReply(stdout, id, decode).reply == AwaitReply(old(stdout), id, decode).reply
        invariant AwaitReply(stdout, id, decode).rest == AwaitReply(old(stdout), id, decode).rest
        decreases |stdout|
      {
        var r := ReadOne();
        if r.Failure? {
          return Lost(r.error);
        }
        var message := r.value;
        if message.id != Number(id) {
          continue;
        }
        if message.error.Some? {
          return ServerError(message.error.value);
        }
        return Answer(message.result);
      }
    }

    method Notify(name: string, params: Json)
      modifies this`stdin
      ensures stdin == old(stdin) + Frame(encode(Notice(name, params)))
    {
      Write(Notice(name, params));
    }
  }
}
