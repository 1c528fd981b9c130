/** The chunk decoder of the plan client, against the chunked coding of section
    7.1 of RFC 9112. */
module Chunked {
  import opened FabricTypes
  import opened Numerals

  const CR: byte := '\r' as int
  const LF: byte := '\n' as int
  const SEMICOLON: byte := ';' as int
  const PLUS: byte := '+' as int
  const CRLF: seq<byte> := [CR, LF]
  const USIZE_MAX: nat := 0xFFFF_FFFF_FFFF_FFFF

  // -------------------------------------------------------------- searching

  /** Offset of the first occurrence of `needle`. */
  function Find(haystack: seq<byte>, needle: seq<byte>): (r: Option<nat>)
    requires needle != []
    ensures r.Some? ==> r.value + |needle| <= |haystack| && haystack[r.value..r.value + |needle|] == needle
    decreases |haystack|
  {
    if |haystack| < |needle| then None
    else if haystack[..|needle|] == needle then Some(0)
    else
      match Find(haystack[1..], needle)
      case None => None
      case Some(i) =>
        assert haystack[1..][i..i + |needle|] == haystack[i + 1..i + 1 + |needle|];
        Some(i + 1)
  }

  /** `needle` stands at offset `i`. */
  predicate OccursAt(haystack: seq<byte>, needle: seq<byte>, i: nat) {
    i + |needle| <= |haystack| && haystack[i..i + |needle|] == needle
  }

  lemma {:induction false} FindIsFirst(haystack: seq<byte>, needle: seq<byte>, i: nat)
    requires needle != [] && OccursAt(haystack, needle, i)
    ensures Find(haystack, needle).Some? && Find(haystack, needle).value <= i
    decreases i
  {
    if i > 0 && haystack[..|needle|] != needle {
      assert haystack[1..][i - 1..i - 1 + |needle|] == haystack[i..i + |needle|];
      FindIsFirst(haystack[1..], needle, i - 1);
    }
  }

  lemma FindIs(haystack: seq<byte>, needle: seq<byte>, n: nat)
    requires needle != [] && OccursAt(haystack, needle, n)
    requires forall i: nat :: i < n ==> !OccursAt(haystack, needle, i)
    ensures Find(haystack, needle) == Some(n)
  {
    FindIsFirst(haystack, needle, n);
    assert OccursAt(haystack, needle, Find(haystack, needle).value);
  }

  // ------------------------------------------------------------ chunk size

  predicate IsSpace(b: byte) {
    9 <= b <= 13 || b == 32
  }

  function HexDigit(b: byte): Option<nat> {
    if 48 <= b <= 57 then Some(b - 48)
    else if 65 <= b <= 70 then Some(b - 55)
    else if 97 <= b <= 102 then Some(b - 87)
    else None
  }

  /** The value of a string of digits, unless one is not a digit or it overflows. */
  function Digits(s: seq<byte>, radix: nat, max: nat): Option<nat> {
    if s == [] then Some(0)
    else
      match (Digits(s[..|s| - 1], radix, max), HexDigit(s[|s| - 1]))
      case (Some(v), Some(d)) => if d < radix && radix * v + d <= max then Some(radix * v + d) else None
      case _ => None
  }

  /** Parses an unsigned word: not empty, and one leading plus is allowed. */
  function ParseUnsigned(s: seq<byte>, radix: nat, max: nat): Option<nat> {
    if s == [] || s == [PLUS] then None
    else if s[0] == PLUS then Digits(s[1..], radix, max)
    else Digits(s, radix, max)
  }

  /** The value of hex digits that fit a word. */
  function HexValue(s: seq<byte>): Option<nat> {
    Digits(s, 16, USIZE_MAX)
  }

  function BeforeSemicolon(s: seq<byte>): seq<byte> {
    if s == [] || s[0] == SEMICOLON then [] else [s[0]] + BeforeSemicolon(s[1..])
  }

  function TrimStart(s: seq<byte>): seq<byte> {
    if s != [] && IsSpace(s[0]) then TrimStart(s[1..]) else s
  }

  function TrimEnd(s: seq<byte>): seq<byte>
    decreases |s|
  {
    if s != [] && IsSpace(s[|s| - 1]) then TrimEnd(s[..|s| - 1]) else s
  }

  function SizeOf(line: seq<byte>): Option<nat> {
    ParseUnsigned(TrimEnd(TrimStart(BeforeSemicolon(line))), 16, USIZE_MAX)
  }

  // ---------------------------------------------------------------- decoding

  function LineEnd(rest: seq<byte>): (e: nat)
    ensures e <= |rest|
  {
    match Find(rest, CRLF)
    case Some(i) => i
    case None => |rest|
  }

  /** Where the data of the first chunk lies, when all of it is there. */
  function FirstChunk(rest: seq<byte>): (r: Option<(nat, nat)>)
    ensures r.Some? ==> 0 < r.value.0 < r.value.1 <= |rest|
  {
    var start := LineEnd(rest) + 2;
    match SizeOf(rest[..LineEnd(rest)])
    case None => None
    case Some(len) =>
      if len == 0 || start + len > USIZE_MAX || start + len > |rest| then None else Some((start, start + len))
  }

  /** Past the two bytes that follow the data, as far as there are any. */
  function AfterChunk(rest: seq<byte>, end: nat): seq<byte>
    requires end <= |rest|
  {
    rest[if end + 2 <= |rest| then end + 2 else |rest|..]
  }

  function Decoded(rest: seq<byte>): seq<byte>
    decreases |rest|
  {
    match FirstChunk(rest)
    case None => []
    case Some((start, end)) => rest[start..end] + Decoded(AfterChunk(rest, end))
  }

  /** The output so far and the decoding of what is left make up the whole. */
  ghost predicate Continues(whole: seq<byte>, out: seq<byte>, rest: seq<byte>) {
    whole == out + Decoded(rest)
  }

  lemma NoChunkIsTheEnd(whole: seq<byte>, out: seq<byte>, rest: seq<byte>)
    requires Continues(whole, out, rest) && FirstChunk(rest).None?
    ensures whole == out
  {
  }

  lemma ChunkIsMoved(whole: seq<byte>, out: seq<byte>, rest: seq<byte>, start: nat, end: nat)
    requires Continues(whole, out, rest) && FirstChunk(rest) == Some((start, end))
    ensures Continues(whole, out + rest[start..end], AfterChunk(rest, end))
  {
    var tail := Decoded(AfterChunk(rest, end));
    assert Decoded(rest) == rest[start..end] + tail;
    assert (out + rest[start..end]) + tail == out + (rest[start..end] + tail);
  }

  /** The parts of `FirstChunk`, in the order the loop looks at them. */
  lemma FirstChunkParts(rest: seq<byte>, lineEnd: nat, size: Option<nat>)
    requires lineEnd == LineEnd(rest) && size == SizeOf(rest[..lineEnd])
    ensures var start := lineEnd + 2;
            FirstChunk(rest) == if size.None? || size.value == 0 || start + size.value > USIZE_MAX
                                   || start + size.value > |rest| then None
                                else Some((start, start + size.value))
  {
  }

  method Dechunk(body: seq<byte>) returns (out: seq<byte>)
    ensures out == Decoded(body)
  {
    ghost var whole := Decoded(body);
    out := [];
    var rest := body;
    while true
      invariant Continues(whole, out, rest)
      decreases |rest|
    {
      var found := Find(rest, CRLF);
      var lineEnd := if found.Some? then found.value else |rest|;
      var size := SizeOf(rest[..lineEnd]);
      FirstChunkParts(rest, lineEnd, size);
      if FirstChunk(rest).None? {
        NoChunkIsTheEnd(whole, out, rest);
      }
      if size.None? {
        return;
      }
      var len := size.value;
      if len == 0 {
        return;
      }
      var start := lineEnd + 2;
      if start + len > USIZE_MAX || start + len > |rest| {
        return;
      }
      var end := start + len;
      ChunkIsMoved(whole, out, rest, start, end);
      out := out + rest[start..end];
      rest := AfterChunk(rest, end);
    }
  }

  // ---------------------------------------------------------------- encoding

  /** A chunk as it is sent: its size in hex digits (of either case, with any leading
      zeros), its extension, its data, and the two bytes that end it. */
  datatype Chunk = Chunk(size: seq<byte>, extension: seq<byte>, data: seq<byte>, terminator: seq<byte>)

  predicate IsBlank(b: byte) {
    b in {'\t' as int, '\n' as int, 11, 12, '\r' as int, ' ' as int}
  }

  predicate IsHex(s: seq<byte>) {
    s != [] && forall b :: b in s ==> HexDigit(b).Some?
  }

  predicate Spaces(s: seq<byte>) {
    forall b :: b in s ==> IsSpace(b)
  }

  /** Blanks up to `k`, and there the end or a semicolon. */
  predicate BlankTo(s: seq<byte>, k: nat) {
    k <= |s| && (forall i :: 0 <= i < k ==> IsBlank(s[i])) && (k < |s| ==> s[k] == SEMICOLON)
  }

  /** White space, then nothing or a semicolon and anything, with no line end inside. */
  ghost predicate IsExtension(s: seq<byte>) {
    (exists k :: BlankTo(s, k)) && forall i :: 0 <= i < |s| - 1 ==> !(s[i] == CR && s[i + 1] == LF)
  }

  /** The size is a hexadecimal numeral of the number of bytes that follow it. */
  ghost predicate IsChunk(c: Chunk) {
    && Spells(c.size, |c.data|, 16) && c.data != []
    && IsExtension(c.extension) && |c.terminator| == 2
    && |c.size| + |c.extension| + 2 + |c.data| <= 0xFFFF_FFFF_FFFF_FFFF
  }

  function Encode(c: Chunk): seq<byte> {
    c.size + c.extension + CRLF + c.data + c.terminator
  }

  function EncodeAll(chunks: seq<Chunk>): seq<byte> {
    if chunks == [] then [] else Encode(chunks[0]) + EncodeAll(chunks[1..])
  }

  function Payload(chunks: seq<Chunk>): seq<byte> {
    if chunks == [] then [] else chunks[0].data + Payload(chunks[1..])
  }

  /** The last chunk: a size of zero, an extension, and any trailer section. */
  datatype Ending = Ending(zeros: seq<byte>, extension: seq<byte>, trailer: seq<byte>)

  ghost predicate IsEnding(e: Ending) {
    Spells(e.zeros, 0, 16) && IsExtension(e.extension)
  }

  function EncodeEnding(e: Ending): seq<byte> {
    e.zeros + e.extension + CRLF + e.trailer
  }

  function Message(chunks: seq<Chunk>, e: Ending): seq<byte> {
    EncodeAll(chunks) + EncodeEnding(e)
  }

  /** The data of the chunks whose data lies wholly within the first `k` bytes. */
  function WhollyPresent(chunks: seq<Chunk>, k: int): seq<byte> {
    if chunks == [] then []
    else
      var c := chunks[0];
      if k < |c.size| + |c.extension| + 2 + |c.data| then []
      else c.data + WhollyPresent(chunks[1..], k - |Encode(c)|)
  }

  // --------------------------------------------------------------- numerals

  lemma HexDigitIs(b: byte, d: nat)
    requires d < 16
    ensures HexDigit(b) == Some(d) <==> IsDigit(b, d)
  {
    assert LOWER[d] as int == if d < 10 then '0' as int + d else 'a' as int + (d - 10);
    assert UPPER[d] as int == if d < 10 then '0' as int + d else 'A' as int + (d - 10);
  }

  lemma QuotientAndRemainder(radix: nat, v: nat, d: nat, n: nat)
    requires d < radix && n == radix * v + d
    ensures n / radix == v && n % radix == d
  {
    assert n == radix * (n / radix) + n % radix;
    Multiples(radix, n / radix - v);
    assert radix * (n / radix - v) == radix * (n / radix) - radix * v;
  }

  lemma {:induction false} OnlyNumeralsAreRead(s: seq<byte>, radix: nat, max: nat, n: nat)
    requires s != [] && 2 <= radix <= 16 && Digits(s, radix, max) == Some(n)
    ensures Spells(s, n, radix) && n <= max
    decreases |s|
  {
    var p, b := s[..|s| - 1], s[|s| - 1];
    var v, d := Digits(p, radix, max).value, HexDigit(b).value;
    QuotientAndRemainder(radix, v, d, n);
    HexDigitIs(b, d);
    if p != [] {
      OnlyNumeralsAreRead(p, radix, max, v);
    }
  }

  lemma DigitsOn(s: seq<byte>, radix: nat, max: nat, n: nat, q: nat, d: nat)
    requires s != [] && Digits(s[..|s| - 1], radix, max) == Some(q)
    requires d < radix <= 16 && IsDigit(s[|s| - 1], d) && radix * q + d == n && n <= max
    ensures Digits(s, radix, max) == Some(n)
  {
    HexDigitIs(s[|s| - 1], d);
  }

  lemma {:induction false} NumeralIsRead(s: seq<byte>, radix: nat, max: nat, n: nat)
    requires 2 <= radix <= 16 && Spells(s, n, radix) && n <= max
    ensures Digits(s, radix, max) == Some(n)
    decreases |s|
  {
    var q, d := Decompose(n, radix);
    SpellsParts(s, n, radix, q, d);
    if |s| > 1 {
      NumeralIsRead(s[..|s| - 1], radix, max, q);
    }
    DigitsOn(s, radix, max, n, q, d);
  }

  lemma Decompose(n: nat, radix: nat) returns (q: nat, d: nat)
    requires radix >= 2
    ensures q == n / radix && d == n % radix
    ensures n == radix * q + d && d < radix && q <= n && (n < radix ==> q == 0)
  {
    var a: int, b: int := n / radix, n % radix;
    assert n == radix * a + b && 0 <= b < radix;
    Multiples(radix, a);
    AtMostProduct(radix, a);
    q, d := a, b;
  }

  lemma AtMostProduct(radix: nat, k: int)
    requires radix >= 1
    ensures k >= 0 ==> k <= radix * k
  {
    if k >= 1 {
      Multiples(k, radix - 1);
      assert radix * k == k + k * (radix - 1);
    }
  }

  /** The number reader accepts exactly the numerals of numbers within its range, and
      reads the number they stand for. */
  lemma DigitsReadNumerals(s: seq<byte>, radix: nat, max: nat, n: nat)
    requires s != [] && 2 <= radix <= 16
    ensures Digits(s, radix, max) == Some(n) <==> Spells(s, n, radix) && n <= max
  {
    if Digits(s, radix, max) == Some(n) {
      OnlyNumeralsAreRead(s, radix, max, n);
    } else if Spells(s, n, radix) && n <= max {
      NumeralIsRead(s, radix, max, n);
    }
  }

  lemma SpelledIsHex(s: seq<byte>, n: nat)
    requires Spells(s, n, 16)
    ensures IsHex(s) && (n <= USIZE_MAX ==> HexValue(s) == Some(n))
  {
    forall i | 0 <= i < |s|
      ensures HexDigit(s[i]).Some?
    {
      OnlyDigits(s, n, 16, i);
      var d :| 0 <= d < 16 && IsDigit(s[i], d);
      HexDigitIs(s[i], d);
    }
    DigitsReadNumerals(s, 16, USIZE_MAX, n);
  }

  /** Every size a word can hold is read back as it is written, in letters of either case
      and behind any zeros. */
  lemma WrittenSizeIsRead(zeros: nat, n: nat, upper: bool)
    requires n <= 0xFFFF_FFFF_FFFF_FFFF
    ensures HexValue(Zeros(zeros) + Written(n, 16, upper)) == Some(n)
  {
    WrittenSpells(zeros, n, 16, upper);
    DigitsReadNumerals(Zeros(zeros) + Written(n, 16, upper), 16, USIZE_MAX, n);
  }

  // ------------------------------------------------------------- size lines

  lemma {:induction false} BeforeSemicolonOf(size: seq<byte>, extension: seq<byte>)
    requires SEMICOLON !in size
    ensures BeforeSemicolon(size + extension) == size + BeforeSemicolon(extension)
  {
    if size == [] {
      assert size + extension == extension;
    } else {
      assert size[0] in size;
      assert (size + extension)[1..] == size[1..] + extension;
      BeforeSemicolonOf(size[1..], extension);
      assert [size[0]] + (size[1..] + BeforeSemicolon(extension)) == size + BeforeSemicolon(extension);
    }
  }

  lemma {:induction false} TrimEndOfSpaces(s: seq<byte>, spaces: seq<byte>)
    requires Spaces(spaces) && s != [] && !IsSpace(s[|s| - 1])
    ensures TrimEnd(s + spaces) == s
    decreases |spaces|
  {
    if spaces == [] {
      assert s + spaces == s;
    } else {
      var n := |spaces| - 1;
      assert (s + spaces)[..|s| + n] == s + spaces[..n];
      assert spaces[n] in spaces;
      TrimEndOfSpaces(s, spaces[..n]);
    }
  }

  lemma {:induction false} ExtensionIsCut(s: seq<byte>, k: nat)
    requires BlankTo(s, k)
    ensures Spaces(BeforeSemicolon(s))
  {
    if s != [] && s[0] != SEMICOLON {
      assert forall i :: 0 <= i < k - 1 ==> s[1..][i] == s[i + 1];
      ExtensionIsCut(s[1..], k - 1);
    }
  }

  /** The size survives its extension: white space is trimmed, the rest is cut off. */
  lemma SizeIsTrimmed(size: seq<byte>, extension: seq<byte>)
    requires size != [] && SEMICOLON !in size && !IsSpace(size[0]) && !IsSpace(size[|size| - 1])
    requires IsExtension(extension)
    ensures SizeOf(size + extension) == ParseUnsigned(size, 16, USIZE_MAX)
  {
    BeforeSemicolonOf(size, extension);
    var k :| BlankTo(extension, k);
    ExtensionIsCut(extension, k);
    var spaces := BeforeSemicolon(extension);
    assert TrimStart(size + spaces) == size + spaces;
    TrimEndOfSpaces(size, spaces);
  }

  lemma SizeLine(size: seq<byte>, extension: seq<byte>)
    requires IsHex(size) && IsExtension(extension)
    ensures SizeOf(size + extension) == HexValue(size)
  {
    assert size[0] in size && size[|size| - 1] in size;
    SizeIsTrimmed(size, extension);
  }

  predicate AllBlank(s: seq<byte>) {
    forall i :: 0 <= i < |s| ==> IsBlank(s[i])
  }

  /** A hexadecimal numeral of `n`, or one behind a plus, within a word. */
  predicate IsSize(s: seq<byte>, n: nat) {
    && n <= 0xFFFF_FFFF_FFFF_FFFF
    && (Spells(s, n, 16) || (|s| > 1 && s[0] == PLUS && Spells(s[1..], n, 16)))
  }

  lemma {:induction false} TrimStartOfBlanks(blanks: seq<byte>, s: seq<byte>)
    requires AllBlank(blanks) && s != [] && !IsSpace(s[0])
    ensures TrimStart(blanks + s) == s
  {
    if blanks == [] {
      assert blanks + s == s;
    } else {
      assert (blanks + s)[1..] == blanks[1..] + s;
      TrimStartOfBlanks(blanks[1..], s);
    }
  }

  lemma SizeHasNoBlanks(s: seq<byte>, n: nat)
    requires IsSize(s, n)
    ensures s != [] && !IsSpace(s[0]) && !IsSpace(s[|s| - 1]) && SEMICOLON !in s
    ensures ParseUnsigned(s, 16, USIZE_MAX) == Some(n)
  {
    if Spells(s, n, 16) {
      SpelledIsHex(s, n);
      assert s[0] in s && s[|s| - 1] in s;
    } else {
      var digits := s[1..];
      SpelledIsHex(digits, n);
      assert digits[|digits| - 1] in digits && forall b :: b in s ==> b == PLUS || b in digits;
    }
  }

  /** A size line reads as the size it shows: blanks around it are trimmed, a semicolon
      and what follows it are cut off, and one plus is accepted, as the grammar does not. */
  lemma SizeLineReads(before: seq<byte>, size: seq<byte>, after: seq<byte>, rest: seq<byte>, n: nat)
    requires AllBlank(before) && IsSize(size, n) && AllBlank(after) && (rest != [] ==> rest[0] == SEMICOLON)
    ensures SizeOf(before + size + after + rest) == Some(n)
  {
    SizeHasNoBlanks(size, n);
    BeforeSemicolonOf(before + size + after, rest);
    assert BeforeSemicolon(rest) == [] && before + size + after + [] == before + (size + after);
    TrimStartOfBlanks(before, size + after);
    TrimEndOfSpaces(size, after);
  }

  lemma {:induction false} SemicolonParts(s: seq<byte>) returns (rest: seq<byte>)
    ensures s == BeforeSemicolon(s) + rest && (rest != [] ==> rest[0] == SEMICOLON)
  {
    if s == [] || s[0] == SEMICOLON {
      rest := s;
    } else {
      rest := SemicolonParts(s[1..]);
      assert s == [s[0]] + (BeforeSemicolon(s[1..]) + rest);
    }
  }

  lemma BlankInFront(s: seq<byte>, blanks: seq<byte>, t: seq<byte>)
    requires s != [] && IsSpace(s[0]) && AllBlank(blanks) && s[1..] == blanks + t
    ensures AllBlank([s[0]] + blanks) && s == ([s[0]] + blanks) + t
  {
    assert s == [s[0]] + s[1..];
  }

  lemma BlankBehind(s: seq<byte>, blanks: seq<byte>, t: seq<byte>)
    requires s != [] && IsSpace(s[|s| - 1]) && AllBlank(blanks) && s[..|s| - 1] == t + blanks
    ensures AllBlank(blanks + [s[|s| - 1]]) && s == t + (blanks + [s[|s| - 1]])
  {
    assert s == s[..|s| - 1] + [s[|s| - 1]];
  }

  lemma {:induction false} TrimStartParts(s: seq<byte>) returns (blanks: seq<byte>)
    ensures AllBlank(blanks) && s == blanks + TrimStart(s)
  {
    blanks := [];
    if s != [] && IsSpace(s[0]) {
      blanks := TrimStartParts(s[1..]);
      BlankInFront(s, blanks, TrimStart(s[1..]));
      blanks := [s[0]] + blanks;
    }
  }

  lemma {:induction false} TrimEndParts(s: seq<byte>) returns (blanks: seq<byte>)
    ensures AllBlank(blanks) && s == TrimEnd(s) + blanks
    decreases |s|
  {
    blanks := [];
    if s != [] && IsSpace(s[|s| - 1]) {
      blanks := TrimEndParts(s[..|s| - 1]);
      BlankBehind(s, blanks, TrimEnd(s[..|s| - 1]));
      blanks := blanks + [s[|s| - 1]];
    }
  }

  lemma OnlySizesAreRead(s: seq<byte>, n: nat)
    requires ParseUnsigned(s, 16, USIZE_MAX) == Some(n)
    ensures IsSize(s, n)
  {
    if s[0] == PLUS {
      OnlyNumeralsAreRead(s[1..], 16, USIZE_MAX, n);
    } else {
      OnlyNumeralsAreRead(s, 16, USIZE_MAX, n);
    }
  }

  lemma JoinParts(line: seq<byte>, cut: seq<byte>, trimmed: seq<byte>, before: seq<byte>, size: seq<byte>,
                  after: seq<byte>, rest: seq<byte>)
    requires line == cut + rest && cut == before + trimmed && trimmed == size + after
    ensures line == before + size + after + rest
  {
    assert before + (size + after) == before + size + after;
  }

  /** And nothing else is read: a line has a size only if it shows one in this way. */
  lemma SizeLineParts(line: seq<byte>, n: nat)
    returns (before: seq<byte>, size: seq<byte>, after: seq<byte>, rest: seq<byte>)
    requires SizeOf(line) == Some(n)
    ensures line == before + size + after + rest
    ensures AllBlank(before) && IsSize(size, n) && AllBlank(after) && (rest != [] ==> rest[0] == SEMICOLON)
  {
    var cut := BeforeSemicolon(line);
    var trimmed := TrimStart(cut);
    size := TrimEnd(trimmed);
    rest := SemicolonParts(line);
    before := TrimStartParts(cut);
    after := TrimEndParts(trimmed);
    JoinParts(line, cut, trimmed, before, size, after, rest);
    OnlySizesAreRead(size, n);
  }

  /** The grammar has no sign before a size; the decoder accepts one plus and reads the
      size behind it, but no second one. */
  lemma LeadingPlusIsAccepted(size: seq<byte>, extension: seq<byte>)
    requires IsHex(size) && IsExtension(extension)
    ensures SizeOf([PLUS] + size + extension) == HexValue(size)
    ensures SizeOf([PLUS, PLUS] + size + extension) == None
  {
    assert size[0] in size && size[|size| - 1] in size;
    assert ([PLUS] + size)[1..] == size;
    SizeIsTrimmed([PLUS] + size, extension);
    assert ([PLUS, PLUS] + size)[1..] == [PLUS] + size;
    NoDigitFirst([PLUS] + size);
    SizeIsTrimmed([PLUS, PLUS] + size, extension);
  }

  lemma {:induction false} NoDigitFirst(s: seq<byte>)
    requires s != [] && HexDigit(s[0]).None?
    ensures HexValue(s) == None
  {
    if |s| > 1 {
      NoDigitFirst(s[..|s| - 1]);
    }
  }

  /** Neither a size nor an extension holds a line end, nor do they form one together. */
  lemma NoEndInside(size: seq<byte>, extension: seq<byte>, after: seq<byte>, i: nat)
    requires IsHex(size) && IsExtension(extension) && i < |size| + |extension|
    ensures !OccursAt(size + extension + CRLF + after, CRLF, i)
  {
    var all := size + extension + CRLF + after;
    assert i < |size| ==> all[i] in size;
    assert i >= |size| ==> all[i] == extension[i - |size|];
    assert |size| <= i < |size| + |extension| - 1 ==> all[i + 1] == extension[i - |size| + 1];
    assert i == |size| + |extension| - 1 ==> all[i + 1] == CR;
    assert all[i..i + 2] == [all[i], all[i + 1]];
  }

  /** The line of a chunk ends at its own line end, whatever follows. */
  lemma LineEndOf(size: seq<byte>, extension: seq<byte>, after: seq<byte>)
    requires IsHex(size) && IsExtension(extension)
    ensures Find(size + extension + CRLF + after, CRLF) == Some(|size| + |extension|)
  {
    var all, n := size + extension + CRLF + after, |size| + |extension|;
    assert all[n..n + 2] == CRLF;
    forall i: nat | i < n
      ensures !OccursAt(all, CRLF, i)
    {
      NoEndInside(size, extension, after, i);
    }
    FindIs(all, CRLF, n);
  }

  /** Without a line end there is no chunk. */
  lemma NoLineNoChunk(rest: seq<byte>)
    requires Find(rest, CRLF).None?
    ensures Decoded(rest) == []
  {
  }

  /** A cut inside a line leaves no line end before the cut. */
  lemma CutLineHasNoEnd(size: seq<byte>, extension: seq<byte>, after: seq<byte>, k: nat)
    requires IsHex(size) && IsExtension(extension) && k < |size| + |extension| + 2
    ensures Find((size + extension + CRLF + after)[..k], CRLF).None?
  {
    var all := size + extension + CRLF + after;
    LineEndOf(size, extension, after);
    forall i: nat | OccursAt(all[..k], CRLF, i)
      ensures OccursAt(all, CRLF, i) && i + 2 <= k
    {
      assert all[..k][i..i + 2] == all[i..i + 2];
    }
    forall i: nat | OccursAt(all, CRLF, i)
      ensures i >= |size| + |extension|
    {
      FindIsFirst(all, CRLF, i);
    }
    var cut := Find(all[..k], CRLF);
    assert cut.Some? ==> OccursAt(all[..k], CRLF, cut.value);
  }

  // -------------------------------------------------------------- the theorem

  /** The first chunk of a body that starts with the line of one. */
  lemma FirstChunkOf(c: Chunk, tail: seq<byte>)
    requires IsChunk(c)
    ensures var start := |c.size| + |c.extension| + 2;
            FirstChunk(c.size + c.extension + CRLF + tail)
            == if |tail| < |c.data| then None else Some((start, start + |c.data|))
  {
    var line := c.size + c.extension;
    SpelledIsHex(c.size, |c.data|);
    assert (line + CRLF + tail)[..|line|] == line;
    LineEndOf(c.size, c.extension, tail);
    SizeLine(c.size, c.extension);
  }

  /** A chunk whose line is within the cut is found there just when its data is too. */
  lemma HeadChunk(c: Chunk, all: seq<byte>, after: seq<byte>, k: nat)
    requires IsChunk(c) && |c.size| + |c.extension| + 2 <= k <= |Encode(c) + after|
    requires all == (Encode(c) + after)[..k]
    ensures var end := |c.size| + |c.extension| + 2 + |c.data|;
            FirstChunk(all) == if k < end then None else Some((end - |c.data|, end))
  {
    var line := c.size + c.extension + CRLF;
    assert all[..|line|] == line;
    assert all == line + all[|line|..];
    FirstChunkOf(c, all[|line|..]);
  }

  lemma DecodeStep(all: seq<byte>, start: nat, end: nat)
    requires FirstChunk(all) == Some((start, end))
    ensures Decoded(all) == all[start..end] + Decoded(AfterChunk(all, end))
  {
  }

  lemma NoChunkNoData(all: seq<byte>)
    requires FirstChunk(all) == None
    ensures Decoded(all) == []
  {
  }

  /** How much of what follows a chunk is within the first `k` bytes. */
  function Beyond(c: Chunk, k: nat): (j: nat) {
    if k <= |Encode(c)| then 0 else k - |Encode(c)|
  }

  /** A cut inside the line of a chunk leaves nothing to decode. */
  lemma DecodeCutLine(c: Chunk, after: seq<byte>, k: nat)
    requires IsChunk(c) && k < |c.size| + |c.extension| + 2
    ensures Decoded((Encode(c) + after)[..k]) == []
  {
    SpelledIsHex(c.size, |c.data|);
    assert Encode(c) + after == c.size + c.extension + CRLF + (c.data + c.terminator + after);
    CutLineHasNoEnd(c.size, c.extension, c.data + c.terminator + after, k);
    NoLineNoChunk((Encode(c) + after)[..k]);
  }

  /** Behind a chunk whose data is present stands what follows it in the message. */
  lemma BehindChunk(c: Chunk, after: seq<byte>, k: nat, end: nat)
    requires |c.terminator| == 2 && end == |c.size| + |c.extension| + 2 + |c.data|
    requires end <= k <= |Encode(c) + after|
    ensures (Encode(c) + after)[..k][end - |c.data|..end] == c.data
    ensures AfterChunk((Encode(c) + after)[..k], end) == after[..Beyond(c, k)]
  {
    var all := (Encode(c) + after)[..k];
    assert all[end - |c.data|..end] == c.data;
    if k <= |Encode(c)| {
      assert |AfterChunk(all, end)| == 0;
    } else {
      assert all[|Encode(c)|..] == after[..k - |Encode(c)|];
    }
  }

  lemma DecodeHead(c: Chunk, all: seq<byte>, after: seq<byte>, k: nat)
    requires IsChunk(c) && k <= |Encode(c) + after| && all == (Encode(c) + after)[..k]
    ensures Decoded(all)
         == if k < |c.size| + |c.extension| + 2 + |c.data| then []
            else c.data + Decoded(after[..Beyond(c, k)])
  {
    var end := |c.size| + |c.extension| + 2 + |c.data|;
    if k < |c.size| + |c.extension| + 2 {
      DecodeCutLine(c, after, k);
    } else {
      HeadChunk(c, all, after, k);
      if k < end {
        NoChunkNoData(all);
      } else {
        DecodeStep(all, end - |c.data|, end);
        BehindChunk(c, after, k, end);
      }
    }
  }

  /** The last chunk decodes to nothing, wherever it is cut. */
  lemma EndingDecodesToNothing(e: Ending, k: nat)
    requires IsEnding(e) && k <= |EncodeEnding(e)|
    ensures Decoded(EncodeEnding(e)[..k]) == []
  {
    var all := EncodeEnding(e)[..k];
    SpelledIsHex(e.zeros, 0);
    var line := e.zeros + e.extension;
    if k < |line| + 2 {
      CutLineHasNoEnd(e.zeros, e.extension, e.trailer, k);
      NoLineNoChunk(all);
    } else {
      assert all[..|line|] == line;
      assert all == e.zeros + e.extension + CRLF + all[|line| + 2..];
      LineEndOf(e.zeros, e.extension, all[|line| + 2..]);
      SizeLine(e.zeros, e.extension);
    }
  }

  /** On any truncation of any message the decoder returns exactly the concatenation
      of the chunks whose data is wholly present. */
  lemma {:induction false} TruncationKeepsWholeChunks(chunks: seq<Chunk>, e: Ending, k: nat)
    requires (forall c :: c in chunks ==> IsChunk(c)) && IsEnding(e) && k <= |Message(chunks, e)|
    ensures Decoded(Message(chunks, e)[..k]) == WhollyPresent(chunks, k)
    decreases |chunks|
  {
    if chunks == [] {
      assert Message(chunks, e) == EncodeEnding(e);
      EndingDecodesToNothing(e, k);
    } else {
      var c, others := chunks[0], chunks[1..];
      var after := Message(others, e);
      assert c in chunks && forall d :: d in others ==> d in chunks;
      assert Message(chunks, e) == Encode(c) + after;
      DecodeHead(c, (Encode(c) + after)[..k], after, k);
      TruncationKeepsWholeChunks(others, e, Beyond(c, k));
      PresentBeyond(others, c, k);
    }
  }

  lemma PresentBeyond(others: seq<Chunk>, c: Chunk, k: nat)
    requires forall d :: d in others ==> IsChunk(d)
    ensures WhollyPresent(others, Beyond(c, k)) == WhollyPresent(others, k - |Encode(c)|)
  {
    if k <= |Encode(c)| {
      NothingPresent(others, k - |Encode(c)|);
      NothingPresent(others, 0);
    }
  }

  lemma NothingPresent(chunks: seq<Chunk>, k: int)
    requires (forall c :: c in chunks ==> IsChunk(c)) && k <= 0
    ensures WhollyPresent(chunks, k) == []
  {
    if chunks != [] {
      assert chunks[0] in chunks;
    }
  }

  lemma {:induction false} AllPresent(chunks: seq<Chunk>, k: nat)
    requires k >= |EncodeAll(chunks)| && forall c :: c in chunks ==> IsChunk(c)
    ensures WhollyPresent(chunks, k) == Payload(chunks)
    decreases |chunks|
  {
    if chunks != [] {
      assert chunks[0] in chunks && forall d :: d in chunks[1..] ==> d in chunks;
      AllPresent(chunks[1..], k - |Encode(chunks[0])|);
    }
  }

  /** The decoder inverts the chunked coding for any non-empty chunks, any extensions
      and any trailer. */
  lemma DecoderInvertsEncoder(chunks: seq<Chunk>, e: Ending)
    requires (forall c :: c in chunks ==> IsChunk(c)) && IsEnding(e)
    ensures Decoded(Message(chunks, e)) == Payload(chunks)
  {
    var m := Message(chunks, e);
    assert m[..|m|] == m;
    TruncationKeepsWholeChunks(chunks, e, |m|);
    AllPresent(chunks, |m|);
  }

  lemma Regroup(a: seq<byte>, b: seq<byte>, c: seq<byte>)
    ensures (a + b) + c == a + (b + c)
  {
  }

  lemma WholeHead(c: Chunk, after: seq<byte>)
    requires IsChunk(c)
    ensures Decoded(Encode(c) + after) == c.data + Decoded(after)
  {
    var all := Encode(c) + after;
    assert all[..|all|] == all && after[..|after|] == after;
    DecodeHead(c, all, after, |all|);
  }

  lemma HeadAndPayload(c: Chunk, others: seq<Chunk>, bad: seq<byte>)
    requires IsChunk(c) && Decoded(EncodeAll(others) + bad) == Payload(others)
    ensures Decoded((Encode(c) + EncodeAll(others)) + bad) == c.data + Payload(others)
  {
    WholeHead(c, EncodeAll(others) + bad);
    Regroup(Encode(c), EncodeAll(others), bad);
  }

  /** A chunk without a readable size ends the decoding: what came before it is kept, and
      neither it nor anything behind it is guessed at. */
  lemma {:induction false} BadChunkEndsTheBody(chunks: seq<Chunk>, bad: seq<byte>)
    requires (forall c :: c in chunks ==> IsChunk(c)) && SizeOf(bad[..LineEnd(bad)]) == None
    ensures Decoded(EncodeAll(chunks) + bad) == Payload(chunks)
    decreases |chunks|
  {
    if chunks == [] {
      assert EncodeAll(chunks) + bad == bad;
      NoChunkNoData(bad);
    } else {
      assert chunks[0] in chunks && forall d :: d in chunks[1..] ==> d in chunks;
      BadChunkEndsTheBody(chunks[1..], bad);
      HeadAndPayload(chunks[0], chunks[1..], bad);
    }
  }
}
