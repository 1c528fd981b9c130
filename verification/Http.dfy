/** The HTTP/1.1 response parser of the plan client. */
module Http {
  import opened FabricTypes
  import opened Chunked
  import opened Numerals

  const COLON: byte := ':' as int
  const SPACE: byte := ' ' as int
  const LFLF: seq<byte> := [LF, LF]
  const HEAD_END: seq<byte> := [CR, LF, CR, LF]
  const U16_MAX: nat := 0xFFFF

  function Ascii(s: string): seq<byte>
    requires forall c :: c in s ==> c as int < 128
  {
    if s == "" then []
    else
      assert s[0] in s && forall c :: c in s[1..] ==> c in s;
      [s[0] as int] + Ascii(s[1..])
  }

  const TRANSFER_ENCODING: seq<byte> := Ascii("transfer-encoding")
  const CHUNKED: seq<byte> := Ascii("chunked")

  type Headers = map<seq<byte>, seq<byte>>

  datatype Response = Response(status: nat, headers: Headers, body: seq<byte>)

  // ------------------------------------------------------------ the functions

  /** Just past the head: after the first blank line of a CRLF head if there is one
      anywhere, and only otherwise after the first bare one. */
  function HeaderEnd(raw: seq<byte>): (r: Option<nat>)
    ensures r.Some? ==> r.value <= |raw|
  {
    match Find(raw, HEAD_END)
    case Some(i) => Some(i + 4)
    case None =>
      match Find(raw, LFLF)
      case Some(i) => Some(i + 2)
      case None => None
  }

  function WithoutCr(line: seq<byte>): seq<byte> {
    if line != [] && line[|line| - 1] == CR then line[..|line| - 1] else line
  }

  function Lines(text: seq<byte>): seq<seq<byte>>
    decreases |text|
  {
    if text == [] then []
    else
      match Find(text, [LF])
      case Some(i) => [WithoutCr(text[..i])] + Lines(text[i + 1..])
      case None => [text]
  }

  function Trim(s: seq<byte>): seq<byte> {
    TrimEnd(TrimStart(s))
  }

  function Token(s: seq<byte>): seq<byte> {
    if s == [] || IsSpace(s[0]) then [] else [s[0]] + Token(s[1..])
  }

  function AfterToken(s: seq<byte>): seq<byte> {
    if s == [] || IsSpace(s[0]) then s else AfterToken(s[1..])
  }

  function SecondToken(line: seq<byte>): Option<seq<byte>> {
    var rest := TrimStart(AfterToken(TrimStart(line)));
    if rest == [] then None else Some(Token(rest))
  }

  function StatusOf(line: seq<byte>): Option<nat> {
    match SecondToken(line)
    case Some(token) => ParseUnsigned(token, 10, U16_MAX)
    case None => None
  }

  function Lower(s: seq<byte>): seq<byte> {
    if s == [] then [] else [if 65 <= s[0] <= 90 then s[0] + 32 else s[0]] + Lower(s[1..])
  }

  /** The headers once a line has been read: a line without a colon adds none, and a
      repeated name overwrites. */
  function WithLine(headers: Headers, line: seq<byte>): Headers {
    match Find(line, [COLON])
    case Some(i) => headers[Lower(Trim(line[..i])) := Trim(line[i + 1..])]
    case None => headers
  }

  function HeadersOf(lines: seq<seq<byte>>): Headers {
    if lines == [] then map[] else WithLine(HeadersOf(lines[..|lines| - 1]), lines[|lines| - 1])
  }

  predicate IsChunked(headers: Headers) {
    TRANSFER_ENCODING in headers && Find(Lower(headers[TRANSFER_ENCODING]), CHUNKED).Some?
  }

  function BodyOf(headers: Headers, rest: seq<byte>): seq<byte> {
    if IsChunked(headers) then Decoded(rest) else rest
  }

  /** The response the lines of a head and the bytes behind it make. */
  function Assembled(lines: seq<seq<byte>>, rest: seq<byte>): Option<Response> {
    if lines == [] || StatusOf(lines[0]).None? then None
    else
      var headers := HeadersOf(lines[1..]);
      Some(Response(StatusOf(lines[0]).value, headers, BodyOf(headers, rest)))
  }

  function ParseResponse(isUtf8: seq<byte> -> bool, raw: seq<byte>): Option<Response> {
    match HeaderEnd(raw)
    case None => None
    case Some(split) => if !isUtf8(raw[..split]) then None else Assembled(Lines(raw[..split]), raw[split..])
  }

  // --------------------------------------------------------------- the method

  method ReadHeaders(fields: seq<seq<byte>>) returns (headers: Headers)
    ensures headers == HeadersOf(fields)
  {
    headers := map[];
    for i := 0 to |fields|
      invariant headers == HeadersOf(fields[..i])
    {
      assert fields[..i + 1][..i] == fields[..i];
      var colon := Find(fields[i], [COLON]);
      if colon.Some? {
        headers := headers[Lower(Trim(fields[i][..colon.value])) := Trim(fields[i][colon.value + 1..])];
      }
    }
    assert fields[..|fields|] == fields;
  }

  method ParseHttpResponse(isUtf8: seq<byte> -> bool, raw: seq<byte>) returns (answer: Option<Response>)
    ensures answer == ParseResponse(isUtf8, raw)
  {
    var end := HeaderEnd(raw);
    if end.None? || !isUtf8(raw[..end.value]) {
      return None;
    }
    var lines := Lines(raw[..end.value]);
    if lines == [] {
      return None;
    }
    var status := StatusOf(lines[0]);
    if status.None? {
      return None;
    }
    var headers := ReadHeaders(lines[1..]);
    var body := raw[end.value..];
    if IsChunked(headers) {
      body := Dechunk(body);
    }
    answer := Some(Response(status.value, headers, body));
  }

  // ------------------------------------------------------------- as it is sent

  /** A field as it is sent, with any white space on either side of its value. */
  datatype Field = Field(name: seq<byte>, left: seq<byte>, value: seq<byte>, right: seq<byte>)

  datatype Head = Head(version: seq<byte>, code: seq<byte>, status: nat, reason: seq<byte>, fields: seq<Field>)

  predicate Unbroken(s: seq<byte>) {
    CR !in s && LF !in s
  }

  predicate Trimmed(s: seq<byte>) {
    s == [] || (!IsBlank(s[0]) && !IsBlank(s[|s| - 1]))
  }

  predicate IsToken(s: seq<byte>) {
    s != [] && forall b :: b in s ==> !IsBlank(b)
  }

  predicate IsField(f: Field) {
    && Unbroken(f.name) && Trimmed(f.name) && COLON !in f.name
    && Unbroken(f.value) && Trimmed(f.value)
    && AllBlank(f.left) && Unbroken(f.left) && AllBlank(f.right) && Unbroken(f.right)
  }

  predicate IsHead(h: Head) {
    && IsToken(h.version) && Spells(h.code, h.status, 10) && h.status <= 65535 && Unbroken(h.reason)
    && forall f :: f in h.fields ==> IsField(f)
  }

  function FieldLine(f: Field): seq<byte> {
    f.name + [COLON] + (f.left + (f.value + f.right))
  }

  function StatusLine(h: Head): seq<byte> {
    h.version + ([SPACE] + (h.code + ([SPACE] + h.reason)))
  }

  function FieldLines(fields: seq<Field>): seq<seq<byte>> {
    if fields == [] then [] else [FieldLine(fields[0])] + FieldLines(fields[1..])
  }

  function HeadLines(h: Head): seq<seq<byte>> {
    [StatusLine(h)] + FieldLines(h.fields)
  }

  /** Lines with their ends, and the blank line behind them. */
  function Text(lines: seq<seq<byte>>): seq<byte> {
    if lines == [] then CRLF else lines[0] + (CRLF + Text(lines[1..]))
  }

  /** What the fields say: names in lower case, the last value of each. */
  function Meaning(fields: seq<Field>): Headers {
    if fields == [] then map[]
    else
      var last := fields[|fields| - 1];
      Meaning(fields[..|fields| - 1])[Lower(last.name) := last.value]
  }

  // ------------------------------------------------------------------- proofs

  predicate IsLine(line: seq<byte>) {
    line != [] && Unbroken(line)
  }

  predicate AllLines(lines: seq<seq<byte>>) {
    forall line :: line in lines ==> IsLine(line)
  }

  /** The text behind a line starts with the next line, or with the blank one. */
  lemma TextStarts(lines: seq<seq<byte>>)
    requires AllLines(lines)
    ensures |Text(lines)| >= 2 && Text(lines)[0] != LF && (lines != [] ==> Text(lines)[0] != CR)
  {
    if lines != [] {
      assert lines[0] in lines && lines[0][0] in lines[0];
      assert Text(lines)[0] == lines[0][0];
    }
  }

  /** What occurs behind a prefix occurs in what follows it. */
  lemma OccursBehind(prefix: seq<byte>, rest: seq<byte>, needle: seq<byte>, i: nat)
    ensures OccursAt(prefix + rest, needle, |prefix| + i) <==> OccursAt(rest, needle, i)
  {
    if i + |needle| <= |rest| {
      assert (prefix + rest)[|prefix| + i..|prefix| + i + |needle|] == rest[i..i + |needle|];
    }
  }

  /** A blank line does not start in an unbroken line that another one follows. */
  lemma NoEndInLine(line: seq<byte>, rest: seq<byte>, i: nat)
    requires Unbroken(line) && i < |line| + 2 && |rest| > 0 && rest[0] != CR
    ensures !OccursAt(line + CRLF + rest, HEAD_END, i)
  {
    var all := line + CRLF + rest;
    assert all[|line|] == CR && all[|line| + 1] == LF && all[|line| + 2] == rest[0];
    assert i < |line| ==> all[i] in line;
    assert i + 4 <= |all| ==> all[i..i + 4] == [all[i], all[i + 1], all[i + 2], all[i + 3]];
  }

  /** No blank line shows before the end of the head. */
  lemma {:induction false} NoEarlierEnd(lines: seq<seq<byte>>, body: seq<byte>, i: nat)
    requires AllLines(lines) && lines != [] && i + 4 < |Text(lines)|
    ensures !OccursAt(Text(lines) + body, HEAD_END, i)
    decreases |lines|
  {
    var line, text := lines[0], Text(lines[1..]);
    assert line in lines;
    assert Text(lines) + body == line + CRLF + (text + body);
    TextStarts(lines[1..]);
    if i < |line| + 2 {
      if lines[1..] != [] {
        NoEndInLine(line, text + body, i);
      } else {
        NoEndInLastLine(line, body, i);
      }
    } else {
      var j: nat := i - |line| - 2;
      NoEarlierEnd(lines[1..], body, j);
      OccursBehind(line + CRLF, text + body, HEAD_END, j);
    }
  }

  lemma NoEndInLastLine(line: seq<byte>, body: seq<byte>, i: nat)
    requires Unbroken(line) && i < |line|
    ensures !OccursAt(line + CRLF + (CRLF + body), HEAD_END, i)
  {
    var all := line + CRLF + (CRLF + body);
    assert all[i] in line;
    assert all[i..i + 4][0] == all[i];
  }

  lemma {:induction false} TextEnds(lines: seq<seq<byte>>)
    requires lines != []
    ensures |Text(lines)| >= 4 && Text(lines)[|Text(lines)| - 4..] == HEAD_END
  {
    if |lines| > 1 {
      TextEnds(lines[1..]);
    } else {
      assert lines[1..] == [];
    }
  }

  lemma HeadIsFound(lines: seq<seq<byte>>, body: seq<byte>)
    requires AllLines(lines) && lines != []
    ensures HeaderEnd(Text(lines) + body) == Some(|Text(lines)|)
  {
    var text := Text(lines);
    var all := text + body;
    TextEnds(lines);
    assert all[|text| - 4..|text|] == HEAD_END;
    forall i: nat | i < |text| - 4
      ensures !OccursAt(all, HEAD_END, i)
    {
      NoEarlierEnd(lines, body, i);
    }
    FindIs(all, HEAD_END, |text| - 4);
  }

  lemma LineIsRead(line: seq<byte>, rest: seq<byte>)
    requires Unbroken(line)
    ensures Lines(line + (CRLF + rest)) == [line] + Lines(rest)
  {
    var all, n := line + (CRLF + rest), |line| + 1;
    forall i: nat | i < n
      ensures !OccursAt(all, [LF], i)
    {
      assert i < |line| ==> all[i] in line;
      assert all[i..i + 1] == [all[i]];
    }
    assert all[n..n + 1] == [LF];
    FindIs(all, [LF], n);
    assert all[..n] == line + [CR] && all[n + 1..] == rest;
    assert WithoutCr(line + [CR]) == line;
  }

  lemma BlankLineIsRead()
    ensures Lines(CRLF) == [[]]
  {
    LineIsRead([], []);
    assert [] + (CRLF + []) == CRLF;
  }

  lemma LineThenLines(line: seq<byte>, rest: seq<byte>, read: seq<seq<byte>>)
    requires Unbroken(line) && Lines(rest) == read
    ensures Lines(line + (CRLF + rest)) == [line] + read
  {
    LineIsRead(line, rest);
  }

  lemma {:induction false} LinesOfText(lines: seq<seq<byte>>)
    requires AllLines(lines)
    ensures Lines(Text(lines)) == lines + [[]]
  {
    if lines == [] {
      BlankLineIsRead();
    } else {
      assert lines[0] in lines;
      LinesOfText(lines[1..]);
      LineThenLines(lines[0], Text(lines[1..]), lines[1..] + [[]]);
      assert [lines[0]] + (lines[1..] + [[]]) == lines + [[]];
    }
  }

  lemma FieldIsRead(headers: Headers, f: Field)
    requires IsField(f)
    ensures WithLine(headers, FieldLine(f)) == headers[Lower(f.name) := f.value]
  {
    var line, n := FieldLine(f), |f.name|;
    forall i: nat | i < n
      ensures !OccursAt(line, [COLON], i)
    {
      assert line[i] in f.name && line[i..i + 1] == [line[i]];
    }
    assert line[n..n + 1] == [COLON];
    FindIs(line, [COLON], n);
    assert line[..n] == f.name && line[n + 1..] == f.left + (f.value + f.right);
    TrimmedAway([], f.name, []);
    TrimmedAway(f.left, f.value, f.right);
    assert [] + (f.name + []) == f.name;
  }

  lemma {:induction false} OnlyBlanks(blanks: seq<byte>)
    requires AllBlank(blanks)
    ensures TrimStart(blanks) == []
  {
    if blanks != [] {
      OnlyBlanks(blanks[1..]);
    }
  }

  lemma TrimmedAway(left: seq<byte>, s: seq<byte>, right: seq<byte>)
    requires AllBlank(left) && Trimmed(s) && AllBlank(right)
    ensures Trim(left + (s + right)) == s
  {
    if s == [] {
      assert left + (s + right) == left + right;
      OnlyBlanks(left + right);
    } else {
      TrimStartOfBlanks(left, s + right);
      TrimEndOfSpaces(s, right);
    }
  }

  lemma {:induction false} FieldLinesOn(fields: seq<Field>)
    requires fields != []
    ensures FieldLines(fields) == FieldLines(fields[..|fields| - 1]) + [FieldLine(fields[|fields| - 1])]
  {
    if |fields| > 1 {
      FieldLinesOn(fields[1..]);
      assert fields[1..][..|fields| - 2] == fields[..|fields| - 1][1..];
    }
  }

  lemma {:induction false} FieldsAreRead(fields: seq<Field>)
    requires forall f :: f in fields ==> IsField(f)
    ensures HeadersOf(FieldLines(fields)) == Meaning(fields)
    decreases |fields|
  {
    if fields != [] {
      var n := |fields| - 1;
      assert fields[n] in fields && forall f :: f in fields[..n] ==> f in fields;
      FieldsAreRead(fields[..n]);
      FieldLinesOn(fields);
      var lines := FieldLines(fields);
      assert lines[..|lines| - 1] == FieldLines(fields[..n]);
      FieldIsRead(Meaning(fields[..n]), fields[n]);
    }
  }

  lemma {:induction false} TokenEnds(token: seq<byte>, rest: seq<byte>)
    requires forall b :: b in token ==> !IsSpace(b)
    ensures Token(token + ([SPACE] + rest)) == token
    ensures AfterToken(token + ([SPACE] + rest)) == [SPACE] + rest
  {
    var all := token + ([SPACE] + rest);
    if token != [] {
      assert token[0] in token && all[0] == token[0];
      assert all[1..] == token[1..] + ([SPACE] + rest);
      TokenEnds(token[1..], rest);
    }
  }

  lemma CodeIsToken(code: seq<byte>, status: nat)
    requires Spells(code, status, 10)
    ensures IsToken(code) && code[0] != PLUS && Unbroken(code)
  {
    forall i | 0 <= i < |code|
      ensures '0' as int <= code[i] <= '9' as int
    {
      OnlyDigits(code, status, 10, i);
      var d :| 0 <= d < 10 && IsDigit(code[i], d);
      assert LOWER[d] as int == UPPER[d] as int == '0' as int + d;
    }
  }

  lemma StatusIsRead(h: Head)
    requires IsHead(h)
    ensures StatusOf(StatusLine(h)) == Some(h.status)
  {
    var tail := h.code + ([SPACE] + h.reason);
    CodeIsToken(h.code, h.status);
    DigitsReadNumerals(h.code, 10, U16_MAX, h.status);
    assert h.version[0] in h.version && h.code[0] in h.code;
    assert TrimStart(StatusLine(h)) == StatusLine(h);
    TokenEnds(h.version, tail);
    assert ([SPACE] + tail)[1..] == tail;
    assert TrimStart([SPACE] + tail) == TrimStart(tail) == tail;
    TokenEnds(h.code, h.reason);
  }

  lemma {:induction false} FieldLinesAreLines(fields: seq<Field>)
    requires forall f :: f in fields ==> IsField(f)
    ensures AllLines(FieldLines(fields))
  {
    if fields != [] {
      assert fields[0] in fields;
      FieldLinesAreLines(fields[1..]);
    }
  }

  lemma HeadLinesAreLines(h: Head)
    requires IsHead(h)
    ensures AllLines(HeadLines(h))
  {
    FieldLinesAreLines(h.fields);
    CodeIsToken(h.code, h.status);
    assert forall b :: b in h.version ==> b != CR && b != LF;
    assert forall b :: b in h.code ==> b != CR && b != LF;
    assert IsLine(StatusLine(h));
  }

  lemma HeadersOfHead(h: Head)
    requires IsHead(h)
    ensures var lines := Lines(Text(HeadLines(h)));
            && lines != [] && lines[0] == StatusLine(h) && HeadersOf(lines[1..]) == Meaning(h.fields)
  {
    HeadLinesAreLines(h);
    LinesOfText(HeadLines(h));
    FieldsAreRead(h.fields);
    var fields := FieldLines(h.fields);
    assert (HeadLines(h) + [[]])[1..] == fields + [[]];
    assert (fields + [[]])[..|fields|] == fields;
    assert Find([], [COLON]) == None;
  }

  lemma ParseGives(isUtf8: seq<byte> -> bool, text: seq<byte>, body: seq<byte>)
    requires HeaderEnd(text + body) == Some(|text|) && isUtf8(text)
    ensures ParseResponse(isUtf8, text + body) == Assembled(Lines(text), body)
  {
    assert (text + body)[..|text|] == text && (text + body)[|text|..] == body;
  }

  /** Whatever follows a well-formed head, the parser gives back its status, the last
      value of every field under its lower-case name, and the body decoded if it says
      so. */
  lemma ParserReadsTheResponse(isUtf8: seq<byte> -> bool, h: Head, body: seq<byte>)
    requires IsHead(h) && isUtf8(Text(HeadLines(h)))
    ensures ParseResponse(isUtf8, Text(HeadLines(h)) + body)
         == Some(Response(h.status, Meaning(h.fields), if SaysChunked(h.fields) then Decoded(body) else body))
  {
    var text := Text(HeadLines(h));
    HeadLinesAreLines(h);
    HeadIsFound(HeadLines(h), body);
    HeadersOfHead(h);
    StatusIsRead(h);
    ParseGives(isUtf8, text, body);
    ChunkedIffSaidSo(h.fields);
  }

  // ------------------------------------------------- letters of either case

  /** The bytes are the text, each letter of it in either case. */
  predicate SpelledLike(s: seq<byte>, text: string) {
    && |s| == |text|
    && forall i :: 0 <= i < |s| ==>
         || s[i] as int == text[i] as int
         || ('a' <= text[i] <= 'z' && s[i] as int == text[i] as int - 'a' as int + 'A' as int)
  }

  predicate LowerCase(text: string) {
    forall c :: c in text ==> c as int < 128 && !('A' <= c <= 'Z')
  }

  lemma {:induction false} LowerAt(s: seq<byte>, i: nat)
    requires i < |s|
    ensures |Lower(s)| == |s|
    ensures Lower(s)[i] == if 'A' as int <= s[i] <= 'Z' as int then s[i] - 'A' as int + 'a' as int else s[i]
  {
    if |s| > 1 {
      LowerAt(s[1..], if i == 0 then 0 else i - 1);
    }
  }

  lemma {:induction false} AsciiAt(text: string, i: nat)
    requires (forall c :: c in text ==> c as int < 128) && i < |text|
    ensures |Ascii(text)| == |text| && Ascii(text)[i] == text[i] as int
  {
    assert forall c :: c in text[1..] ==> c in text;
    if |text| > 1 {
      AsciiAt(text[1..], if i == 0 then 0 else i - 1);
    }
  }

  /** Lower case forgets the case of letters and nothing else. */
  lemma LowerIsCaseless(s: seq<byte>, text: string)
    requires LowerCase(text)
    ensures Lower(s) == Ascii(text) <==> SpelledLike(s, text)
  {
    forall i | 0 <= i < |text|
      ensures |Ascii(text)| == |text| && Ascii(text)[i] == text[i] as int && !('A' <= text[i] <= 'Z')
    {
      AsciiAt(text, i);
      assert text[i] in text;
    }
    forall i | 0 <= i < |s|
      ensures |Lower(s)| == |s|
      ensures Lower(s)[i] == if 'A' as int <= s[i] <= 'Z' as int then s[i] - 'A' as int + 'a' as int else s[i]
    {
      LowerAt(s, i);
    }
    assert s == [] ==> Lower(s) == [];
    assert text == "" ==> Ascii(text) == [];
    if |s| == |text| {
      assert SpelledLike(s, text) ==> forall i :: 0 <= i < |s| ==> Lower(s)[i] == Ascii(text)[i];
    }
  }

  predicate SpelledAt(value: seq<byte>, text: string, i: nat) {
    i + |text| <= |value| && SpelledLike(value[i..i + |text|], text)
  }

  /** The value says `text` somewhere, in letters of either case. */
  ghost predicate Mentions(value: seq<byte>, text: string) {
    exists i: nat :: SpelledAt(value, text, i)
  }

  lemma LowerOfSlice(s: seq<byte>, i: nat, j: nat)
    requires i <= j <= |s|
    ensures |Lower(s)| == |s| && Lower(s)[i..j] == Lower(s[i..j])
  {
    if s != [] {
      LowerAt(s, 0);
    }
    if i < j {
      LowerAt(s[i..j], 0);
    }
    forall k | 0 <= k < j - i
      ensures Lower(s)[i + k] == Lower(s[i..j])[k]
    {
      LowerAt(s, i + k);
      LowerAt(s[i..j], k);
    }
  }

  lemma OccursIffSpelled(value: seq<byte>, text: string, i: nat)
    requires LowerCase(text)
    ensures |Ascii(text)| == |text|
    ensures OccursAt(Lower(value), Ascii(text), i) <==> SpelledAt(value, text, i)
  {
    if text != "" {
      AsciiAt(text, 0);
    }
    LowerOfSlice(value, 0, 0);
    if i + |text| <= |value| {
      LowerOfSlice(value, i, i + |text|);
      LowerIsCaseless(value[i..i + |text|], text);
    }
  }

  lemma FoundIffMentioned(value: seq<byte>, text: string)
    requires LowerCase(text) && text != ""
    ensures Ascii(text) != []
    ensures Find(Lower(value), Ascii(text)).Some? <==> Mentions(value, text)
  {
    OccursIffSpelled(value, text, 0);
    if i: nat :| SpelledAt(value, text, i) {
      OccursIffSpelled(value, text, i);
      FindIsFirst(Lower(value), Ascii(text), i);
    }
    var found := Find(Lower(value), Ascii(text));
    if found.Some? {
      OccursIffSpelled(value, text, found.value);
    }
  }

  /** The value of the last field with a name, in letters of either case. */
  function LastValue(fields: seq<Field>, name: string): Option<seq<byte>> {
    if fields == [] then None
    else
      var last := fields[|fields| - 1];
      if SpelledLike(last.name, name) then Some(last.value) else LastValue(fields[..|fields| - 1], name)
  }

  /** A header is the value of the last field with its name, whatever case it is in. */
  lemma {:induction false} HeaderIsLastValue(fields: seq<Field>, name: string)
    requires LowerCase(name)
    ensures Get(Meaning(fields), Ascii(name)) == LastValue(fields, name)
  {
    if fields != [] {
      var n := |fields| - 1;
      HeaderIsLastValue(fields[..n], name);
      LowerIsCaseless(fields[n].name, name);
    }
  }

  /** The last transfer-encoding field mentions chunked, both in letters of either case. */
  ghost predicate SaysChunked(fields: seq<Field>) {
    var value := LastValue(fields, "transfer-encoding");
    value.Some? && Mentions(value.value, "chunked")
  }

  lemma ChunkedIffNamed(fields: seq<Field>, headers: Headers, name: string, word: string)
    requires LowerCase(name) && LowerCase(word) && word != "" && headers == Meaning(fields)
    requires TRANSFER_ENCODING == Ascii(name) && CHUNKED == Ascii(word)
    ensures var value := LastValue(fields, name);
            IsChunked(headers) <==> value.Some? && Mentions(value.value, word)
  {
    var value := LastValue(fields, name);
    HeaderIsLastValue(fields, name);
    if value.Some? {
      FoundIffMentioned(value.value, word);
    }
  }

  lemma WordsAreLowerCase()
    ensures LowerCase("transfer-encoding") && LowerCase("chunked")
  {
  }

  /** The body is decoded exactly when the last transfer-encoding field mentions chunked,
      both in letters of either case. */
  lemma ChunkedIffSaidSo(fields: seq<Field>)
    ensures IsChunked(Meaning(fields)) <==> SaysChunked(fields)
  {
    WordsAreLowerCase();
    ChunkedIffNamed(fields, Meaning(fields), "transfer-encoding", "chunked");
  }

  /** A chunked response cut anywhere in its body is handed on as the chunks whose data
      arrived whole; nothing in the result tells that it was cut. */
  lemma ChunkedResponseIsRead(isUtf8: seq<byte> -> bool, h: Head, chunks: seq<Chunk>, e: Ending, k: nat)
    requires IsHead(h) && isUtf8(Text(HeadLines(h))) && SaysChunked(h.fields)
    requires (forall c :: c in chunks ==> IsChunk(c)) && IsEnding(e) && k <= |Message(chunks, e)|
    ensures ParseResponse(isUtf8, Text(HeadLines(h)) + Message(chunks, e)[..k])
         == Some(Response(h.status, Meaning(h.fields), WhollyPresent(chunks, k)))
  {
    ParserReadsTheResponse(isUtf8, h, Message(chunks, e)[..k]);
    TruncationKeepsWholeChunks(chunks, e, k);
  }

  /** A head with CRLF line ends holds no two line feeds in a row. */
  lemma {:induction false} NoBareEnd(lines: seq<seq<byte>>, text: seq<byte>, i: nat)
    requires AllLines(lines) && text == Text(lines)
    ensures !OccursAt(text, LFLF, i)
    decreases |lines|
  {
    if i + 2 <= |text| {
      assert text[i..i + 2] == [text[i], text[i + 1]];
      if lines != [] {
        var line, rest := lines[0], Text(lines[1..]);
        assert line in lines;
        if i < |line| {
          assert text[i] in line;
        } else if i == |line| {
          assert text[i] == CR;
        } else if i == |line| + 1 {
          assert text[i + 1] == rest[0];
          TextStarts(lines[1..]);
        } else {
          var j: nat := i - |line| - 2;
          assert text[i..i + 2] == rest[j..j + 2];
          NoBareEnd(lines[1..], rest, j);
        }
      }
    }
  }

  /** What occurs before a cut occurs in the whole. */
  lemma OccursBefore(text: seq<byte>, k: nat, needle: seq<byte>, i: nat)
    requires k <= |text| && OccursAt(text[..k], needle, i)
    ensures OccursAt(text, needle, i) && i + |needle| <= k
  {
    assert text[..k][i..i + |needle|] == text[i..i + |needle|];
  }

  lemma NoEndInCut(lines: seq<seq<byte>>, text: seq<byte>, k: nat)
    requires AllLines(lines) && lines != [] && text == Text(lines) && k < |text|
    ensures Find(text[..k], HEAD_END) == None && Find(text[..k], LFLF) == None
  {
    assert text + [] == text;
    var end, bare := Find(text[..k], HEAD_END), Find(text[..k], LFLF);
    if end.Some? {
      OccursBefore(text, k, HEAD_END, end.value);
      NoEarlierEnd(lines, [], end.value);
    }
    if bare.Some? {
      OccursBefore(text, k, LFLF, bare.value);
      NoBareEnd(lines, text, bare.value);
    }
  }

  /** Without the blank line of a head there is no response. */
  lemma CutHeadIsRefused(isUtf8: seq<byte> -> bool, h: Head, k: nat)
    requires IsHead(h) && k < |Text(HeadLines(h))|
    ensures ParseResponse(isUtf8, Text(HeadLines(h))[..k]) == None
  {
    HeadLinesAreLines(h);
    NoEndInCut(HeadLines(h), Text(HeadLines(h)), k);
  }

  /** A head that ends in its first bare blank line is split there if and only if no
      CRLF blank line follows anywhere, be it in the body. */
  lemma BareHeadIsFoundIff(head: seq<byte>, body: seq<byte>)
    requires |head| >= 2 && OccursAt(head, LFLF, |head| - 2) && CR !in head
    requires forall i: nat :: i < |head| - 2 ==> !OccursAt(head + body, LFLF, i)
    ensures HeaderEnd(head + body) == Some(|head|) <==> forall i: nat :: !OccursAt(head + body, HEAD_END, i)
  {
    var all := head + body;
    assert all[|head| - 2..|head|] == LFLF;
    FindIs(all, LFLF, |head| - 2);
    if found :| OccursAt(all, HEAD_END, found) {
      assert forall j :: 0 <= j < |head| ==> all[j] in head;
      FindIsFirst(all, HEAD_END, found);
      var i := Find(all, HEAD_END).value;
      assert all[i..i + 4][0] == CR && all[i] == CR;
    } else {
      assert Find(all, HEAD_END).Some? ==> OccursAt(all, HEAD_END, Find(all, HEAD_END).value);
    }
  }
}
