/** The header block of one multipart part: splitting into lines and reading the two fields the parser uses. */
module PartHeaders {
  import opened Bytes
  import opened Search
  import opened Wrappers

  datatype Fields = Fields(contentType: Option<bytes>, contentLength: Option<nat>)

  // "content-type:" and "content-length:", in lower case
  const TYPE_NAME: bytes := [99, 111, 110, 116, 101, 110, 116, 45, 116, 121, 112, 101, 58]
  const LENGTH_NAME: bytes := [99, 111, 110, 116, 101, 110, 116, 45, 108, 101, 110, 103, 116, 104, 58]
  const SEMICOLON: byte := 59
  const COLON: byte := 58

  /** Lines of a text, separated by LF or CR LF. */
  function SplitLines(text: bytes): (lines: seq<bytes>)
    ensures |lines| > 0
    decreases |text|
  {
    var k := IndexOf(text, [LF]);
    if k == -1 then [text]
    else [WithoutFinalCr(text[..k])] + SplitLines(text[k + 1..])
  }

  function WithoutFinalCr(line: bytes): bytes {
    if line != [] && line[|line| - 1] == CR then line[..|line| - 1] else line
  }

  /** White space of a Latin-1 text in ECMAScript's sense. */
  predicate IsSpace(b: byte) {
    9 <= b <= 13 || b == 32 || b == 160
  }

  predicate IsDigit(b: byte) {
    48 <= b <= 57
  }

  function Lower(b: byte): byte {
    if 65 <= b <= 90 then b + 32 else b
  }

  predicate StartsWith(line: bytes, name: bytes) {
    |name| <= |line| && forall i :: 0 <= i < |name| ==> Lower(line[i]) == name[i]
  }

  /** Number of leading white-space bytes. */
  function LeadingSpaces(s: bytes): (n: nat)
    ensures n <= |s| && (forall i :: 0 <= i < n ==> IsSpace(s[i])) && (n < |s| ==> !IsSpace(s[n]))
  {
    if s != [] && IsSpace(s[0]) then 1 + LeadingSpaces(s[1..]) else 0
  }

  function TrimEnd(s: bytes): (r: bytes)
    ensures r <= s && (r != [] ==> !IsSpace(r[|r| - 1]))
    ensures forall i :: |r| <= i < |s| ==> IsSpace(s[i])
  {
    if s != [] && IsSpace(s[|s| - 1]) then TrimEnd(s[..|s| - 1]) else s
  }

  function Trim(s: bytes): bytes {
    TrimEnd(s[LeadingSpaces(s)..])
  }

  function BeforeSemicolon(s: bytes): bytes {
    var k := IndexOf(s, [SEMICOLON]);
    if k == -1 then s else s[..k]
  }

  /**
   * A `Content-Type` line: the value must be non-empty and free of line breaks, white space before it is
   * skipped greedily but at least one byte is left to the value, and parameters are cut off.
   */
  function ContentTypeOf(line: bytes): Option<bytes> {
    if !StartsWith(line, TYPE_NAME) then None else
      var rest := line[|TYPE_NAME|..];
      if rest == [] then None else
        var n := LeadingSpaces(rest);
        var value := if n == |rest| then rest[n - 1..] else rest[n..];
        if CR in value || LF in value then None else Some(Trim(BeforeSemicolon(Trim(value))))
  }

  /** A `Content-Length` line: decimal digits with white space around them. */
  function ContentLengthOf(line: bytes): Option<nat> {
    if !StartsWith(line, LENGTH_NAME) then None else
      var value := Trim(line[|LENGTH_NAME|..]);
      if value != [] && (forall i :: 0 <= i < |value| ==> IsDigit(value[i])) then Some(Number(value)) else None
  }

  function Number(digits: bytes): nat
    requires forall i :: 0 <= i < |digits| ==> IsDigit(digits[i])
  {
    if digits == [] then 0 else 
      var last := digits[|digits| - 1];
      assert IsDigit(last);
      10 * Number(digits[..|digits| - 1]) + (last as int - 48)
  }

  /** The fields after a list of lines: of several lines for one field the last counts. */
  function FieldsOf(lines: seq<bytes>): Fields {
    if lines == [] then Fields(None, None) else
      var before := FieldsOf(lines[..|lines| - 1]);
      var line := lines[|lines| - 1];
      var t := ContentTypeOf(line);
      var n := ContentLengthOf(line);
      Fields(if t.Some? then t else before.contentType, if n.Some? then n else before.contentLength)
  }

  method ParseHeadersText(text: bytes) returns (contentType: Option<bytes>, contentLength: Option<nat>)
    ensures Fields(contentType, contentLength) == FieldsOf(SplitLines(text))
  {
    hide ContentTypeOf, ContentLengthOf, SplitLines;
    contentType, contentLength := None, None;
    var lines := SplitLines(text);
    for i := 0 to |lines|
      invariant Fields(contentType, contentLength) == FieldsOf(lines[..i])
    {
      assert lines[..i + 1][..i] == lines[..i] && lines[..i + 1][i] == lines[i];
      var t := ContentTypeOf(lines[i]);
      if t.Some? {
        contentType := t;
      }
      var n := ContentLengthOf(lines[i]);
      if n.Some? {
        contentLength := n;
      }
    }
    assert lines[..|lines|] == lines;
  }

  // ---------- a line that is no field changes nothing ----------

  predicate NoField(line: bytes) {
    ContentTypeOf(line) == None && ContentLengthOf(line) == None
  }

  /** Both fields have a colon at the end of their name. */
  lemma NoColonNoField(line: bytes)
    requires COLON !in line
    ensures NoField(line)
  {
    if |line| >= 13 {
      assert Lower(line[12]) != COLON;
    }
    if |line| >= 15 {
      assert Lower(line[14]) != COLON;
    }
  }

  lemma {:induction false} OtherLineFirst(line: bytes, lines: seq<bytes>)
    requires NoField(line)
    ensures FieldsOf([line] + lines) == FieldsOf(lines)
  {
    hide ContentTypeOf, ContentLengthOf;
    if lines == [] {
      var one: seq<bytes> := [line];
      assert one[..0] == [] && [line] + lines == one;
    } else {
      assert ([line] + lines)[..|lines|] == [line] + lines[..|lines| - 1];
      OtherLineFirst(line, lines[..|lines| - 1]);
    }
  }

  /** A first line that is no field, with CR LF or a bare LF, is not seen. */
  lemma NoFieldFirst(line: bytes, text: bytes)
    requires LF !in line && NoField(WithoutFinalCr(line))
    ensures FieldsOf(SplitLines(line + [LF] + text)) == FieldsOf(SplitLines(text))
  {
    hide FieldsOf, NoField, WithoutFinalCr;
    var all := line + [LF] + text;
    assert all[..|line|] == line && all[|line| + 1..] == text;
    FirstByte(all, LF, |line|);
    assert SplitLines(all) == [WithoutFinalCr(line)] + SplitLines(text);
    OtherLineFirst(WithoutFinalCr(line), SplitLines(text));
  }

  /** What is left of a delimiter line before a header block: a rest of `--` CR LF. */
  predicate LineEndRest(rest: bytes) {
    |rest| <= 4 && rest == CLOSE[4 - |rest|..]
  }

  /** Such a rest in front of a header block does not change the fields read from it. */
  lemma LineEndRestIgnored(rest: bytes, text: bytes)
    requires LineEndRest(rest)
    ensures FieldsOf(SplitLines(rest + text)) == FieldsOf(SplitLines(text))
  {
    hide FieldsOf, SplitLines, NoField;
    if rest == [] {
      assert rest + text == text;
    } else {
      var line := rest[..|rest| - 1];
      PlainRest(rest, line);
      NoColonNoField(WithoutFinalCr(line));
      NoFieldFirst(line, text);
    }
  }

  lemma PlainRest(rest: bytes, line: bytes)
    requires LineEndRest(rest) && rest != [] && line == rest[..|rest| - 1]
    ensures rest == line + [LF] && LF !in line && COLON !in WithoutFinalCr(line)
  {
    assert CLOSE[3..] == [LF] && CLOSE[2..] == [CR, LF] && CLOSE[1..] == [DASH, CR, LF] && CLOSE[0..] == CLOSE;
    assert line == [] || line == [CR] || line == [DASH, CR] || line == [DASH, DASH, CR];
    assert rest == line + [LF];
    assert WithoutFinalCr(line) == [] || WithoutFinalCr(line) == [DASH] || WithoutFinalCr(line) == [DASH, DASH];
  }

  // ---------- header lines ----------

  // "Content-Type: " and "Content-Length: "
  const TYPE_PREFIX: bytes := [67, 111, 110, 116, 101, 110, 116, 45, 84, 121, 112, 101, 58, 32]
  const LENGTH_PREFIX: bytes := [67, 111, 110, 116, 101, 110, 116, 45, 76, 101, 110, 103, 116, 104, 58, 32]

  function Decimal(n: nat): (s: bytes)
    ensures s != [] && forall i :: 0 <= i < |s| ==> IsDigit(s[i])
  {
    if n < 10 then [48 + n] else Decimal(n / 10) + [48 + n % 10]
  }

  /** The letters of a word in lower case, each written in either case. */
  predicate Spells(text: bytes, word: bytes) {
    |text| == |word| && forall i :: 0 <= i < |word| ==> text[i] == word[i] || (97 <= word[i] <= 122 && text[i] == word[i] - 32)
  }

  /** A media type without parameters: not empty, no line break, no `;`, no white space around it. */
  predicate MediaType(t: bytes) {
    t != [] && CR !in t && LF !in t && SEMICOLON !in t && t[0] !in BLANKS && t[|t| - 1] !in BLANKS
  }

  // Tabulators, form feed, space and no-break space: white space that does not end a line.
  const BLANKS: set<byte> := {9, 11, 12, 32, 160}

  predicate Blank(s: bytes) {
    forall b :: b in s ==> b in BLANKS
  }

  /** A header line as a device may send it. Parameters are empty or begin with `;`. */
  datatype Field =
    | TypeField(name: bytes, before: bytes, value: bytes, after: bytes, parameters: bytes)
    | LengthField(name: bytes, before: bytes, number: nat, after: bytes)
    | OtherField(text: bytes)

  /** A line with its line end, CR LF or LF. */
  datatype Line = Line(field: Field, crlf: bool)

  predicate GoodField(f: Field) {
    match f
    case TypeField(name, before, value, after, parameters) =>
      && Spells(name, TYPE_NAME) && Blank(before) && MediaType(value) && Blank(after)
      && CR !in parameters && LF !in parameters && (parameters != [] ==> parameters[0] == SEMICOLON)
    case LengthField(name, before, _, after) => Spells(name, LENGTH_NAME) && Blank(before) && Blank(after)
    case OtherField(text) =>
      && text != [] && CR !in text && LF !in text
      && (|text| >= |TYPE_NAME| ==> !Spells(text[..|TYPE_NAME|], TYPE_NAME))
      && (|text| >= |LENGTH_NAME| ==> !Spells(text[..|LENGTH_NAME|], LENGTH_NAME))
  }

  function FieldText(f: Field): bytes {
    match f
    case TypeField(name, before, value, after, parameters) => name + before + value + after + parameters
    case LengthField(name, before, number, after) => name + before + Decimal(number) + after
    case OtherField(text) => text
  }

  /** The lines as they are sent; the last one is ended by the blank line. */
  function Printed(lines: seq<Line>): bytes {
    if lines == [] then []
    else if |lines| == 1 then FieldText(lines[0].field)
    else FieldText(lines[0].field) + (if lines[0].crlf then CRLF else [LF]) + Printed(lines[1..])
  }

  /** What the lines say: the last media type and the last length. */
  function Said(lines: seq<Line>): Fields {
    if lines == [] then Fields(None, None) else
      var before := Said(lines[..|lines| - 1]);
      match lines[|lines| - 1].field
      case TypeField(_, _, value, _, _) => before.(contentType := Some(value))
      case LengthField(_, _, number, _) => before.(contentLength := Some(number))
      case OtherField(_) => before
  }

  predicate GoodLines(lines: seq<Line>) {
    lines != [] && forall l :: l in lines ==> GoodField(l.field)
  }

  lemma {:induction false} DecimalRoundTrip(n: nat)
    ensures Number(Decimal(n)) == n
  {
    if n < 10 {
      assert Decimal(n)[..0] == [];
    } else {
      assert Decimal(n)[..|Decimal(n)| - 1] == Decimal(n / 10);
      DecimalRoundTrip(n / 10);
    }
  }

  lemma SpelledStarts(name: bytes, word: bytes, rest: bytes)
    requires Spells(name, word) && forall i :: 0 <= i < |word| ==> !(65 <= word[i] <= 90)
    ensures StartsWith(name + rest, word) && (name + rest)[|word|..] == rest
  {
    hide Lower;
    forall i | 0 <= i < |word| ensures Lower((name + rest)[i]) == word[i] {
      LowerOf(name[i], word[i]);
    }
  }

  lemma LowerOf(b: byte, w: byte)
    requires !(65 <= w <= 90)
    ensures Lower(b) == w <==> b == w || (97 <= w <= 122 && b == w - 32)
  {
  }

  lemma StartsSpelled(text: bytes, word: bytes)
    requires StartsWith(text, word) && forall i :: 0 <= i < |word| ==> !(65 <= word[i] <= 90)
    ensures Spells(text[..|word|], word)
  {
    hide Lower;
    forall i | 0 <= i < |word| ensures text[i] == word[i] || (97 <= word[i] <= 122 && text[i] == word[i] - 32) {
      LowerOf(text[i], word[i]);
    }
  }

  lemma OtherNames(a: bytes, b: bytes, rest: bytes)
    ensures Spells(a, TYPE_NAME) ==> !StartsWith(a + rest, LENGTH_NAME)
    ensures Spells(b, LENGTH_NAME) ==> !StartsWith(b + rest, TYPE_NAME)
  {
    if Spells(a, TYPE_NAME) {
      assert (a + rest)[8] == a[8] && Lower(a[8]) != LENGTH_NAME[8];
    }
    if Spells(b, LENGTH_NAME) {
      assert (b + rest)[8] == b[8] && Lower(b[8]) != TYPE_NAME[8];
    }
  }

  lemma BlanksAreSpaces(s: bytes)
    requires Blank(s)
    ensures forall i :: 0 <= i < |s| ==> IsSpace(s[i]) && s[i] != CR && s[i] != LF && s[i] != SEMICOLON
  {
    forall i | 0 <= i < |s| ensures IsSpace(s[i]) && s[i] != CR && s[i] != LF && s[i] != SEMICOLON {
      assert s[i] in s;
    }
  }

  lemma {:induction false} LeadingSpacesOf(before: bytes, rest: bytes)
    requires (forall i :: 0 <= i < |before| ==> IsSpace(before[i])) && rest != [] && !IsSpace(rest[0])
    ensures LeadingSpaces(before + rest) == |before| && (before + rest)[|before|..] == rest
  {
    if before == [] {
      assert before + rest == rest;
    } else {
      assert (before + rest)[1..] == before[1..] + rest;
      LeadingSpacesOf(before[1..], rest);
    }
  }

  lemma {:induction false} TrimEndOf(value: bytes, after: bytes)
    requires (forall i :: 0 <= i < |after| ==> IsSpace(after[i])) && value != [] && !IsSpace(value[|value| - 1])
    ensures TrimEnd(value + after) == value
  {
    if after == [] {
      assert value + after == value;
    } else {
      assert (value + after)[..|value + after| - 1] == value + after[..|after| - 1];
      TrimEndOf(value, after[..|after| - 1]);
    }
  }

  lemma TrimOf(before: bytes, value: bytes, after: bytes)
    requires (forall i :: 0 <= i < |before| ==> IsSpace(before[i])) && (forall i :: 0 <= i < |after| ==> IsSpace(after[i]))
    requires value != [] && !IsSpace(value[0]) && !IsSpace(value[|value| - 1])
    ensures Trim(before + value + after) == value
  {
    LeadingSpacesOf(before, value + after);
    assert before + value + after == before + (value + after);
    TrimEndOf(value, after);
  }

  /** A media type neither begins nor ends with white space. */
  lemma TypeEnds(value: bytes)
    requires MediaType(value)
    ensures !IsSpace(value[0]) && !IsSpace(value[|value| - 1])
  {
    assert value[0] in value && value[|value| - 1] in value;
  }

  /** White space at the end of the parameters does not matter, and the media type ends at the first `;`. */
  lemma ValueOfType(value: bytes, after: bytes, parameters: bytes)
    requires MediaType(value) && Blank(after) && (parameters != [] ==> parameters[0] == SEMICOLON)
    ensures Trim(BeforeSemicolon(Trim(value + after + parameters))) == value
  {
    hide IsSpace, Trim, TrimEnd, LeadingSpaces, IndexOf, MatchAt, BeforeSemicolon;
    TypeEnds(value);
    BlanksAreSpaces(after);
    var all := value + after + parameters;
    TrimOf([], value, after);
    TrimOf([], value, []);
    assert [] + value + after == value + after && [] + value + [] == value;
    if parameters == [] {
      assert all == value + after;
      NoCut(value);
    } else {
      SemicolonIsNoSpace();
      TrimKeeps(all, |value + after|);
      CutAt(Trim(all), value + after);
    }
  }

  lemma SemicolonIsNoSpace()
    ensures !IsSpace(SEMICOLON)
  {
  }

  lemma NoCut(value: bytes)
    requires SEMICOLON !in value
    ensures BeforeSemicolon(value) == value
  {
    NoByte(value, SEMICOLON);
  }

  lemma CutAt(text: bytes, front: bytes)
    requires SEMICOLON !in front && front < text && text[|front|] == SEMICOLON
    ensures BeforeSemicolon(text) == front
  {
    assert text[..|front|] == front;
    FirstByte(text, SEMICOLON, |front|);
  }

  /** Trimming takes nothing from the front of a text that begins without white space, up to a byte that is none. */
  lemma TrimKeeps(text: bytes, k: nat)
    requires k < |text| && !IsSpace(text[0]) && !IsSpace(text[k])
    ensures |Trim(text)| > k && Trim(text) <= text
  {
    LeadingSpacesOf([], text);
    assert [] + text == text && text[0..] == text;
  }

  lemma TypeFieldRead(f: Field)
    requires GoodField(f) && f.TypeField?
    ensures ContentTypeOf(FieldText(f)) == Some(f.value) && ContentLengthOf(FieldText(f)) == None
  {
    hide Spells, StartsWith, Trim, LeadingSpaces, BeforeSemicolon, IsSpace, Blank, MediaType, ContentTypeOf, ContentLengthOf;
    var TypeField(name, before, value, after, parameters) := f;
    var text := value + after + parameters;
    assert FieldText(f) == name + (before + text);
    StartOf(value, after + parameters);
    assert value + (after + parameters) == text;
    NoBreaks(value, after, parameters);
    ValueOfType(value, after, parameters);
    ValueRead(name, before, text);
  }

  lemma StartOf(value: bytes, rest: bytes)
    requires MediaType(value)
    ensures value + rest != [] && !IsSpace((value + rest)[0])
  {
    TypeEnds(value);
  }

  /** After the name and white space, the value is read up to its first `;`. */
  lemma ValueRead(name: bytes, before: bytes, text: bytes)
    requires Spells(name, TYPE_NAME) && Blank(before) && text != [] && !IsSpace(text[0]) && CR !in text && LF !in text
    ensures ContentTypeOf(name + (before + text)) == Some(Trim(BeforeSemicolon(Trim(text))))
    ensures ContentLengthOf(name + (before + text)) == None
  {
    hide Spells, StartsWith, Trim, BeforeSemicolon, IsSpace, Blank, LeadingSpaces;
    SpelledStarts(name, TYPE_NAME, before + text);
    OtherNames(name, [], before + text);
    BlanksAreSpaces(before);
    LeadingSpacesOf(before, text);
  }

  lemma NoBreaks(value: bytes, after: bytes, parameters: bytes)
    requires MediaType(value) && Blank(after) && CR !in parameters && LF !in parameters
    ensures CR !in value + after + parameters && LF !in value + after + parameters
  {
  }

  lemma LengthFieldRead(f: Field)
    requires GoodField(f) && f.LengthField?
    ensures ContentLengthOf(FieldText(f)) == Some(f.number) && ContentTypeOf(FieldText(f)) == None
  {
    hide Spells, StartsWith, Trim, IsSpace, Blank, Decimal, Number;
    var LengthField(name, before, number, after) := f;
    var digits := Decimal(number);
    var rest := before + digits + after;
    assert FieldText(f) == name + rest;
    SpelledStarts(name, LENGTH_NAME, rest);
    OtherNames([], name, rest);
    DigitsAreNoSpaces(digits);
    BlanksAreSpaces(before);
    BlanksAreSpaces(after);
    TrimOf(before, digits, after);
    DecimalRoundTrip(number);
  }

  lemma DigitsAreNoSpaces(digits: bytes)
    requires forall i :: 0 <= i < |digits| ==> IsDigit(digits[i])
    ensures forall i :: 0 <= i < |digits| ==> !IsSpace(digits[i])
  {
  }

  lemma OtherFieldRead(f: Field)
    requires GoodField(f) && f.OtherField?
    ensures NoField(FieldText(f))
  {
    hide Spells;
    if StartsWith(f.text, TYPE_NAME) {
      StartsSpelled(f.text, TYPE_NAME);
    }
    if StartsWith(f.text, LENGTH_NAME) {
      StartsSpelled(f.text, LENGTH_NAME);
    }
  }

  // White space of a line, with the line breaks that may stand inside it.
  const WHITE: set<byte> := {9, 10, 11, 12, 13, 32, 160}

  /** A length is read exactly when only digits stand between the white space around the value. */
  lemma LengthNeedsDigits(name: bytes, before: bytes, value: bytes, after: bytes)
    requires Spells(name, LENGTH_NAME) && value != [] && value[0] !in WHITE && value[|value| - 1] !in WHITE
    requires (forall b :: b in before ==> b in WHITE) && forall b :: b in after ==> b in WHITE
    ensures ContentLengthOf(name + (before + value + after)).Some? <==> forall b :: b in value ==> 48 <= b <= 57
  {
    hide Spells, StartsWith, Trim;
    SpelledStarts(name, LENGTH_NAME, before + value + after);
    forall i | 0 <= i < |before| ensures IsSpace(before[i]) {
      assert before[i] in before;
    }
    forall i | 0 <= i < |after| ensures IsSpace(after[i]) {
      assert after[i] in after;
    }
    TrimOf(before, value, after);
    assert forall i :: 0 <= i < |value| ==> value[i] in value;
    if forall i :: 0 <= i < |value| ==> IsDigit(value[i]) {
      forall b | b in value ensures 48 <= b <= 57 {
        var i :| 0 <= i < |value| && value[i] == b;
      }
    }
  }

  /** A media type with a line break inside is not read. */
  lemma NoBreakInType(name: bytes, before: bytes, value: bytes)
    requires Spells(name, TYPE_NAME) && value != [] && value[0] !in WHITE
    requires (forall b :: b in before ==> b in WHITE) && (CR in value || LF in value)
    ensures ContentTypeOf(name + (before + value)) == None
  {
    hide Spells, StartsWith, Trim;
    SpelledStarts(name, TYPE_NAME, before + value);
    forall i | 0 <= i < |before| ensures IsSpace(before[i]) {
      assert before[i] in before;
    }
    LeadingSpacesOf(before, value);
  }

  function Texts(lines: seq<Line>): seq<bytes> {
    seq(|lines|, i requires 0 <= i < |lines| => FieldText(lines[i].field))
  }

  /** Field by field, what is read is what the lines say. */
  lemma {:induction false} FieldsAreSaid(lines: seq<Line>)
    requires forall l :: l in lines ==> GoodField(l.field)
    ensures FieldsOf(Texts(lines)) == Said(lines)
  {
    hide ContentTypeOf, ContentLengthOf, GoodField, FieldText;
    if lines != [] {
      var front, last := lines[..|lines| - 1], lines[|lines| - 1];
      FieldsAreSaid(front);
      assert Texts(lines)[..|lines| - 1] == Texts(front);
      assert last in lines;
      match last.field
      case TypeField(_, _, _, _, _) => TypeFieldRead(last.field);
      case LengthField(_, _, _, _) => LengthFieldRead(last.field);
      case OtherField(_) => OtherFieldRead(last.field);
    }
  }

  /** The text of a field holds no line break and is not empty. */
  lemma FieldTextPlain(f: Field)
    requires GoodField(f)
    ensures FieldText(f) != [] && CR !in FieldText(f) && LF !in FieldText(f)
  {
    hide Spells, Decimal;
    match f
    case TypeField(name, before, value, after, parameters) =>
      SpelledPlain(name, TYPE_NAME);
      NoBreaks(value, after, parameters);
      TypePlain(name, before, value + after + parameters);
      assert FieldText(f) == name + before + (value + after + parameters);
    case LengthField(name, before, number, after) =>
      SpelledPlain(name, LENGTH_NAME);
      DecimalPlain(number);
      LengthPlain(name, before, Decimal(number), after);
    case OtherField(_) =>
  }

  lemma TypePlain(name: bytes, before: bytes, rest: bytes)
    requires name != [] && CR !in name && LF !in name && Blank(before) && CR !in rest && LF !in rest
    ensures name + before + rest != [] && CR !in name + before + rest && LF !in name + before + rest
  {
  }

  lemma LengthPlain(name: bytes, before: bytes, digits: bytes, after: bytes)
    requires name != [] && CR !in name && LF !in name && Blank(before) && Blank(after) && CR !in digits && LF !in digits
    ensures var text := name + before + digits + after; text != [] && CR !in text && LF !in text
  {
  }

  lemma SpelledPlain(name: bytes, word: bytes)
    requires Spells(name, word) && word != [] && forall i :: 0 <= i < |word| ==> word[i] > 44
    ensures name != [] && CR !in name && LF !in name
  {
  }

  lemma DecimalPlain(n: nat)
    ensures CR !in Decimal(n) && LF !in Decimal(n)
  {
  }

  /** The first line of a text. */
  lemma SplitFirst(line: bytes, crlf: bool, rest: bytes)
    requires CR !in line && LF !in line
    ensures SplitLines(line + (if crlf then CRLF else [LF]) + rest) == [line] + SplitLines(rest)
  {
    var end := if crlf then CRLF else [LF];
    var all := line + end + rest;
    var k := |line| + |end| - 1;
    assert all[..k] == if crlf then line + [CR] else line;
    assert all[k + 1..] == rest;
    FirstByte(all, LF, k);
    assert WithoutFinalCr(all[..k]) == line;
  }

  lemma OnlyLine(text: bytes)
    requires LF !in text
    ensures SplitLines(text) == [text]
  {
    NoByte(text, LF);
  }

  lemma {:induction false} SplitPrinted(lines: seq<Line>)
    requires GoodLines(lines)
    ensures SplitLines(Printed(lines)) == Texts(lines)
  {
    hide GoodField, FieldText, SplitLines;
    var head := lines[0];
    assert head in lines;
    FieldTextPlain(head.field);
    var text := FieldText(head.field);
    if |lines| == 1 {
      OnlyLine(text);
      assert Texts(lines) == [text];
    } else {
      SplitPrinted(lines[1..]);
      SplitFirst(text, head.crlf, Printed(lines[1..]));
      assert Texts(lines) == [text] + Texts(lines[1..]);
    }
  }

  /**
   * Whatever the case of the names, the white space, the parameters, the order, other fields and the line
   * ends, the fields read from printed lines are those the lines say.
   */
  lemma HeaderLinesRead(lines: seq<Line>)
    requires GoodLines(lines)
    ensures FieldsOf(SplitLines(Printed(lines))) == Said(lines)
  {
    SplitPrinted(lines);
    FieldsAreSaid(lines);
  }

  // ---------- the canonical header block ----------

  function HeaderText(contentType: bytes, parameters: bytes, length: nat): bytes {
    TYPE_PREFIX + contentType + parameters + CRLF + LENGTH_PREFIX + Decimal(length)
  }

  /** The two lines of the canonical block. */
  function TwoLines(contentType: bytes, parameters: bytes, length: nat): seq<Line> {
    [Line(TypeField(TYPE_PREFIX[..13], [32], contentType, [], parameters), true),
     Line(LengthField(LENGTH_PREFIX[..15], [32], length, []), true)]
  }

  /** Reading a printed header block gives back its media type, without its parameters, and its length. */
  lemma HeaderTextRoundTrip(contentType: bytes, parameters: bytes, length: nat)
    requires MediaType(contentType) && CR !in parameters && LF !in parameters
    requires parameters != [] ==> parameters[0] == SEMICOLON
    ensures FieldsOf(SplitLines(HeaderText(contentType, parameters, length))) == Fields(Some(contentType), Some(length))
  {
    var lines := TwoLines(contentType, parameters, length);
    TwoLinesGood(contentType, parameters, length);
    HeaderLinesRead(lines);
    TwoLinesText(contentType, parameters, length);
    TwoLinesSay(contentType, parameters, length);
  }

  lemma TwoLinesGood(contentType: bytes, parameters: bytes, length: nat)
    requires MediaType(contentType) && CR !in parameters && LF !in parameters
    requires parameters != [] ==> parameters[0] == SEMICOLON
    ensures GoodLines(TwoLines(contentType, parameters, length))
  {
    hide MediaType, Spells;
    NamesSpelled();
  }

  lemma NamesSpelled()
    ensures Spells(TYPE_PREFIX[..13], TYPE_NAME) && TYPE_PREFIX == TYPE_PREFIX[..13] + [32]
    ensures Spells(LENGTH_PREFIX[..15], LENGTH_NAME) && LENGTH_PREFIX == LENGTH_PREFIX[..15] + [32]
  {
  }

  lemma TwoLinesText(contentType: bytes, parameters: bytes, length: nat)
    ensures Printed(TwoLines(contentType, parameters, length)) == HeaderText(contentType, parameters, length)
  {
    var lines := TwoLines(contentType, parameters, length);
    NamesSpelled();
    assert Printed(lines[1..]) == FieldText(lines[1].field) == LENGTH_PREFIX + Decimal(length);
    assert FieldText(lines[0].field) == TYPE_PREFIX + contentType + parameters;
  }

  lemma TwoLinesSay(contentType: bytes, parameters: bytes, length: nat)
    ensures Said(TwoLines(contentType, parameters, length)) == Fields(Some(contentType), Some(length))
  {
    var lines := TwoLines(contentType, parameters, length);
    assert lines[..1][..0] == [];
    assert Said(lines[..1]) == Fields(Some(contentType), None);
  }

  // ---------- a length line before another line ----------

  lemma LengthLine(n: nat)
    ensures ContentLengthOf(LENGTH_PREFIX + Decimal(n)) == Some(n)
  {
    hide Spells, Decimal, ContentLengthOf;
    var name := LENGTH_PREFIX[..15];
    NamesSpelled();
    LengthFieldRead(LengthField(name, [32], n, []));
    assert name + [32] + Decimal(n) + [] == LENGTH_PREFIX + Decimal(n);
  }

  lemma SplitTwoLines(first: bytes, second: bytes)
    requires CR !in first && LF !in first && LF !in second
    ensures SplitLines(first + CRLF + second) == [first, second]
  {
    SplitFirst(first, true, second);
    NoByte(second, LF);
  }

  lemma LengthPrefixPlain(n: nat)
    ensures CR !in LENGTH_PREFIX + Decimal(n) && LF !in LENGTH_PREFIX + Decimal(n)
  {
    DecimalPlain(n);
  }
}
