/** JSON text (RFC 8259): what the parser accepts and what the printer writes, as functions of the text that is left. */
module JsonText {
  import opened Basics
  import opened Json
  import opened JsonPointer

  const NESTING_LIMIT := 1000

  /** A value read off the front of the text, and the text that is left. */
  datatype Parsed<T> = Failed | Parsed(value: T, rest: string)

  // ----- numbers -----

  predicate NumberChar(c: char) {
    '0' <= c <= '9' || c == '+' || c == '-' || c == 'e' || c == 'E' || c == '.'
  }

  /** The characters copied for the conversion: at most n. */
  function NumberRun(s: string, n: nat): (run: string)
    ensures |run| <= |s| && |run| <= n
  {
    if n == 0 || s == [] || !NumberChar(s[0]) then [] else [s[0]] + NumberRun(s[1..], n - 1)
  }

  /** What the C conversion yields: the integer value stored, and how many characters it used. */
  datatype Reading = Reading(value: int, used: nat)

  type Conversion = string -> Reading

  predicate Int32(n: int) {
    -0x8000_0000 <= n < 0x8000_0000
  }

  function NumberText(n: int): string {
    if n < 0 then "-" + Decimal(-n) else Decimal(n)
  }

  /** What is asked of the conversion: 32-bit integers are read exactly. */
  ghost predicate ReadsIntegers(strtod: Conversion) {
    forall n :: Int32(n) ==> strtod(NumberText(n)) == Reading(n, |NumberText(n)|)
  }

  /** The conversion buffer holds 63 characters; a conversion that uses none of them fails, and none uses more. */
  function ParseNumber(s: string, strtod: Conversion): (r: Parsed<Json>)
    ensures r.Parsed? ==> |r.rest| < |s|
  {
    var run := NumberRun(s, 63);
    var number := strtod(run);
    if 0 < number.used <= |run| then Parsed(Number(number.value), s[number.used..]) else Failed
  }

  // ----- strings: escapes -----

  function HexDigit(c: char): Option<nat> {
    if '0' <= c <= '9' then Some(c as int - '0' as int)
    else if 'A' <= c <= 'F' then Some(10 + c as int - 'A' as int)
    else if 'a' <= c <= 'f' then Some(10 + c as int - 'a' as int)
    else None
  }

  /** Four hexadecimal digits; anything else counts as 0. */
  function ParseHex4(s: string): (code: nat)
    requires |s| >= 4
    ensures code < 0x10000
  {
    var a, b, c, d := HexDigit(s[0]), HexDigit(s[1]), HexDigit(s[2]), HexDigit(s[3]);
    if a.None? || b.None? || c.None? || d.None? then 0
    else ((a.value * 16 + b.value) * 16 + c.value) * 16 + d.value
  }

  /** A code point as UTF-8 (section 3 of RFC 3629), one character a byte. */
  function Utf8(codepoint: nat): (bytes: string)
    requires codepoint <= 0x10FFFF
    ensures 1 <= |bytes| <= 4
    ensures forall i :: 0 <= i < |bytes| ==> bytes[i] < 256 as char
  {
    if codepoint < 0x80 then [codepoint as char]
    else if codepoint < 0x800 then [(0xC0 + codepoint / 0x40) as char, (0x80 + codepoint % 0x40) as char]
    else if codepoint < 0x10000 then
      [(0xE0 + codepoint / 0x1000) as char, (0x80 + codepoint / 0x40 % 0x40) as char, (0x80 + codepoint % 0x40) as char]
    else
      [(0xF0 + codepoint / 0x40000) as char, (0x80 + codepoint / 0x1000 % 0x40) as char,
       (0x80 + codepoint / 0x40 % 0x40) as char, (0x80 + codepoint % 0x40) as char]
  }

  /** The bytes of one \u escape, or of a surrogate pair of them, and the length of the escape. */
  function Utf16Escape(s: string): (r: Option<(string, nat)>)
    ensures r.Some? ==> (r.value.1 == 6 && |r.value.0| <= 3) || (r.value.1 == 12 && |r.value.0| == 4)
    ensures r.Some? ==> r.value.1 <= |s|
  {
    if |s| < 6 then None
    else
      var first := ParseHex4(s[2..]);
      if 0xDC00 <= first <= 0xDFFF then None
      else if 0xD800 <= first <= 0xDBFF then
        if |s| < 12 || s[6] != '\\' || s[7] != 'u' then None
        else
          var second := ParseHex4(s[8..]);
          if second < 0xDC00 || second > 0xDFFF then None
          else Some((Utf8(0x10000 + first % 0x400 * 0x400 + second % 0x400), 12))
      else Some((Utf8(first), 6))
  }

  /** The character a two-character escape stands for. */
  function ShortEscape(c: char): Option<char> {
    match c
    case 'b' => Some(8 as char)
    case 'f' => Some(12 as char)
    case 'n' => Some('\n')
    case 'r' => Some('\r')
    case 't' => Some('\t')
    case '"' => Some(c)
    case '\\' => Some(c)
    case '/' => Some(c)
    case _ => None
  }

  /** The first scan: where the string ends, stepping over pairs that start with a backslash. */
  function ScanEnd(s: string, at: nat): (r: Option<nat>)
    ensures r.Some? ==> at <= r.value < |s| && s[r.value] == '"'
    decreases |s| - at
  {
    if at >= |s| then None
    else if s[at] == '"' then Some(at)
    else if s[at] == '\\' then if at + 1 >= |s| then None else ScanEnd(s, at + 2)
    else ScanEnd(s, at + 1)
  }

  /** The second pass: the characters between the quotes, unescaped. Its steps need not be those of the scan. */
  function Unescape(s: string, at: nat, end: nat): Option<string>
    requires end < |s|
    decreases end - at
  {
    if at >= end then Some([])
    else if s[at] != '\\' then Then([s[at]], Unescape(s, at + 1, end))
    else if s[at + 1] == 'u' then
      var escape := Utf16Escape(s[at..end]);
      if escape.None? then None else Then(escape.value.0, Unescape(s, at + escape.value.1, end))
    else
      var c := ShortEscape(s[at + 1]);
      if c.None? then None else Then([c.value], Unescape(s, at + 2, end))
  }

  function Then(front: string, more: Option<string>): Option<string> {
    if more.None? then None else Some(front + more.value)
  }

  /** A C string ends at its first NUL. */
  function CString(s: string): (r: string)
    ensures Terminated(r)
  {
    if s == [] || s[0] == '\0' then [] else [s[0]] + CString(s[1..])
  }

  function ParseString(s: string): (r: Parsed<string>)
    ensures r.Parsed? ==> |r.rest| < |s|
  {
    if s == [] || s[0] != '"' then Failed
    else
      var end := ScanEnd(s, 1);
      if end.None? then Failed
      else
        var body := Unescape(s, 1, end.value);
        if body.None? then Failed else Parsed(CString(body.value), s[end.value + 1..])
  }

  // ----- values -----

  /** Skips blanks, but never the last character of the buffer. */
  function Skip(s: string): (r: string)
    ensures |r| <= |s|
    ensures s != [] ==> r != []
  {
    if |s| <= 1 || s[0] > ' ' then s else Skip(s[1..])
  }

  predicate Starts(s: string, word: string) {
    word <= s
  }

  function ParseValue(s: string, depth: nat, strtod: Conversion): (r: Parsed<Json>)
    ensures r.Parsed? ==> |r.rest| < |s|
    decreases |s|, 3
  {
    if Starts(s, "null") then Parsed(Null, s[4..])
    else if Starts(s, "false") then Parsed(False, s[5..])
    else if Starts(s, "true") then Parsed(True, s[4..])
    else if s == [] then Failed
    else if s[0] == '"' then
      var name := ParseString(s);
      if name.Failed? then Failed else Parsed(String(name.value), name.rest)
    else if s[0] == '-' || '0' <= s[0] <= '9' then ParseNumber(s, strtod)
    else if s[0] == '[' then
      if depth >= NESTING_LIMIT then Failed
      else
        var p := Skip(s[1..]);
        if p == [] then Failed
        else if p[0] == ']' then Parsed(Array([]), p[1..])
        else
          var items := ParseItems(p, depth + 1, strtod);
          if items.Failed? then Failed else Parsed(Array(items.value), items.rest)
    else if s[0] == '{' then
      if depth >= NESTING_LIMIT then Failed
      else
        var p := Skip(s[1..]);
        if p == [] then Failed
        else if p[0] == '}' then Parsed(Object([]), p[1..])
        else
          var members := ParseMembers(p, depth + 1, strtod);
          if members.Failed? then Failed else Parsed(Object(members.value), members.rest)
    else Failed
  }

  /** Elements up to the closing bracket. */
  function ParseItems(s: string, depth: nat, strtod: Conversion): (r: Parsed<seq<Json>>)
    ensures r.Parsed? ==> |r.rest| < |s|
    decreases |s|, 4
  {
    var first := ParseValue(Skip(s), depth, strtod);
    if first.Failed? then Failed
    else
      var p := Skip(first.rest);
      if p != [] && p[0] == ',' then
        var more := ParseItems(p[1..], depth, strtod);
        if more.Failed? then Failed else Parsed([first.value] + more.value, more.rest)
      else if p != [] && p[0] == ']' then Parsed([first.value], p[1..])
      else Failed
  }

  /** Members up to the closing brace. */
  function ParseMembers(s: string, depth: nat, strtod: Conversion): (r: Parsed<seq<Member>>)
    ensures r.Parsed? ==> |r.rest| < |s|
    decreases |s|, 4
  {
    var name := ParseString(Skip(s));
    if name.Failed? then Failed
    else
      var p := Skip(name.rest);
      if p == [] || p[0] != ':' then Failed
      else
        var first := ParseValue(Skip(p[1..]), depth, strtod);
        if first.Failed? then Failed
        else
          var q := Skip(first.rest);
          var member := Member(name.value, first.value);
          if q != [] && q[0] == ',' then
            var more := ParseMembers(q[1..], depth, strtod);
            if more.Failed? then Failed else Parsed([member] + more.value, more.rest)
          else if q != [] && q[0] == '}' then Parsed([member], q[1..])
          else Failed
  }

  /** From the opening bracket on, one level deeper. */
  function Bracketed(s: string, depth: nat, strtod: Conversion): Parsed<Json>
    requires s != []
  {
    var p := Skip(s[1..]);
    if p == [] then Failed
    else if p[0] == ']' then Parsed(Array([]), p[1..])
    else
      var items := ParseItems(p, depth, strtod);
      if items.Failed? then Failed else Parsed(Array(items.value), items.rest)
  }

  lemma BracketedValue(s: string, depth: nat, strtod: Conversion)
    requires s != [] && s[0] == '['
    ensures ParseValue(s, depth, strtod) == if depth >= NESTING_LIMIT then Failed else Bracketed(s, depth + 1, strtod)
  {
    hide ParseItems, Skip;
  }

  /** From the opening brace on, one level deeper. */
  function Braced(s: string, depth: nat, strtod: Conversion): Parsed<Json>
    requires s != []
  {
    var p := Skip(s[1..]);
    if p == [] then Failed
    else if p[0] == '}' then Parsed(Object([]), p[1..])
    else
      var members := ParseMembers(p, depth, strtod);
      if members.Failed? then Failed else Parsed(Object(members.value), members.rest)
  }

  lemma BracedValue(s: string, depth: nat, strtod: Conversion)
    requires s != [] && s[0] == '{'
    ensures ParseValue(s, depth, strtod) == if depth >= NESTING_LIMIT then Failed else Braced(s, depth + 1, strtod)
  {
    hide ParseMembers, Skip;
  }

  const BOM := [0xEF as char, 0xBB as char, 0xBF as char]

  /** A C string, read with its NUL as the last character of the buffer, after a byte order mark and blanks. */
  function ParseText(text: string, requireEnd: bool, strtod: Conversion): Option<Json> {
    var buffer := CString(text) + [0 as char];
    var start := if |buffer| > 4 && BOM <= buffer then buffer[3..] else buffer;
    var value := ParseValue(Skip(start), 0, strtod);
    if value.Failed? then None
    else
      var end := Skip(value.rest);
      if requireEnd && (end == [] || end[0] != 0 as char) then None else Some(value.value)
  }

  // ----- printing -----

  function HexChar(n: nat): char
    requires n < 16
  {
    "0123456789abcdef"[n]
  }

  function EscapeChar(c: char): (r: string)
    ensures 1 <= |r| <= 6
  {
    if c == '"' || c == '\\' then ['\\', c]
    else if c == 8 as char then "\\b"
    else if c == 12 as char then "\\f"
    else if c == '\n' then "\\n"
    else if c == '\r' then "\\r"
    else if c == '\t' then "\\t"
    else if c < ' ' then "\\u00" + [HexChar(c as int / 16), HexChar(c as int % 16)]
    else [c]
  }

  function Escape(s: string): string {
    if s == [] then [] else EscapeChar(s[0]) + Escape(s[1..])
  }

  function PrintString(s: string): string {
    "\"" + Escape(s) + "\""
  }

  function Tabs(n: nat): (r: string)
    ensures |r| == n && forall i :: 0 <= i < n ==> r[i] == '\t'
  {
    seq(n, _ => '\t')
  }

  /** The text of a value at a nesting depth. */
  function Print(j: Json, depth: nat, format: bool): string
    decreases j, 1
  {
    match j
    case Invalid => []
    case Null => "null"
    case False => "false"
    case True => "true"
    case Number(n) => NumberText(n)
    case String(s) => PrintString(s)
    case Array(items) => "[" + PrintItems(items, depth + 1, format) + "]"
    case Object(ms, _) =>
      (if format then "{\n" else "{") + PrintMembers(ms, depth + 1, format) + (if format then Tabs(depth) else "") + "}"
  }

  function PrintItems(items: seq<Json>, depth: nat, format: bool): string
    decreases items, 0
  {
    if items == [] then []
    else
      Print(items[0], depth, format) + (if |items| == 1 then "" else if format then ", " else ",")
      + PrintItems(items[1..], depth, format)
  }

  function PrintMembers(ms: seq<Member>, depth: nat, format: bool): string
    decreases ms, 0
  {
    if ms == [] then []
    else PrintMember(ms[0], |ms| == 1, depth, format) + PrintMembers(ms[1..], depth, format)
  }

  function PrintMember(m: Member, last: bool, depth: nat, format: bool): string
    decreases m, 0
  {
    (if format then Tabs(depth) else "") + PrintString(m.key) + (if format then ":\t" else ":")
    + Print(m.value, depth, format) + (if last then "" else ",") + (if format then "\n" else "")
  }

  // ----- printing then parsing -----

  /** Trees that can be printed: C strings, 32-bit integers, nothing invalid. */
  predicate Printable(j: Json)
    decreases j
  {
    match j
    case Invalid => false
    case Null => true
    case False => true
    case True => true
    case Number(n) => Int32(n)
    case String(s) => Terminated(s)
    case Array(items) => forall i :: 0 <= i < |items| ==> Printable(items[i])
    case Object(ms, _) => forall i :: 0 <= i < |ms| ==> Terminated(ms[i].key) && Printable(ms[i].value)
  }

  /** Nested at most n deep. */
  predicate Within(j: Json, n: nat)
    decreases j
  {
    match j
    case Array(items) => n > 0 && forall i :: 0 <= i < |items| ==> Within(items[i], n - 1)
    case Object(ms, _) => n > 0 && forall i :: 0 <= i < |ms| ==> Within(ms[i].value, n - 1)
    case _ => true
  }
}
