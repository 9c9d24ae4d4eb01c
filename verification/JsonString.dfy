/** Unescaping a string into a buffer sized by an earlier scan: the two passes may step differently, and never outrun the buffer. */
module JsonString {
  import opened Basics
  import opened Json
  import opened JsonPointer
  import opened JsonText

  // ----- the pairs the scan skips -----

  /** How many backslash pairs the scan from `at` starts before `limit`. */
  function Pairs(s: string, at: nat, limit: nat): nat
    decreases |s| - at
  {
    if at >= |s| || s[at] == '"' || (s[at] == '\\' && at + 1 >= |s|) then 0
    else if s[at] == '\\' then (if at < limit then 1 else 0) + Pairs(s, at + 2, limit)
    else Pairs(s, at + 1, limit)
  }

  /** Pairs do not overlap. */
  lemma {:induction false} PairsAfter(s: string, at: nat, limit: nat)
    ensures at <= limit ==> Pairs(s, at, limit) <= (limit - at + 1) / 2
    ensures at >= limit ==> Pairs(s, at, limit) == 0
    decreases |s| - at
  {
    if at >= |s| || s[at] == '"' || (s[at] == '\\' && at + 1 >= |s|) {
    } else if s[at] == '\\' {
      PairsAfter(s, at + 2, limit);
    } else {
      PairsAfter(s, at + 1, limit);
    }
  }

  /** k more characters hold at most half as many pair starts, rounded up. */
  lemma {:induction false} PairsSpacing(s: string, at: nat, p: nat, k: nat)
    ensures Pairs(s, at, p + k) <= Pairs(s, at, p) + (k + 1) / 2
    decreases |s| - at
  {
    if at >= p {
      PairsAfter(s, at, p + k);
      PairsAfter(s, at, p);
    } else if at >= |s| || s[at] == '"' || (s[at] == '\\' && at + 1 >= |s|) {
    } else if s[at] == '\\' {
      PairsSpacing(s, at + 2, p, k);
    } else {
      PairsSpacing(s, at + 1, p, k);
    }
  }

  /** No pair starts at an ordinary character. */
  lemma {:induction false} PairsOrdinary(s: string, at: nat, p: nat)
    requires p < |s| && s[p] != '\\'
    ensures Pairs(s, at, p + 1) == Pairs(s, at, p)
    decreases |s| - at
  {
    if at > p {
      PairsAfter(s, at, p + 1);
      PairsAfter(s, at, p);
    } else if at >= |s| || s[at] == '"' || (s[at] == '\\' && at + 1 >= |s|) {
    } else if s[at] == '\\' {
      PairsOrdinary(s, at + 2, p);
    } else {
      PairsOrdinary(s, at + 1, p);
    }
  }

  /** All pairs start before the end of the string. */
  lemma {:induction false} PairsWithin(s: string, at: nat, limit: nat)
    requires ScanEnd(s, at).Some? && ScanEnd(s, at).value <= limit
    ensures Pairs(s, at, limit) == Pairs(s, at, |s|)
    decreases |s| - at
  {
    if s[at] == '"' {
    } else if s[at] == '\\' {
      PairsWithin(s, at + 2, limit);
    } else {
      PairsWithin(s, at + 1, limit);
    }
  }

  // ----- the scan -----

  /** Finds the closing quote and counts the characters skipped on the way. */
  method Scan(s: string) returns (found: bool, end: nat, skipped: nat)
    requires s != []
    ensures found <==> ScanEnd(s, 1).Some?
    ensures found ==> end == ScanEnd(s, 1).value && skipped == Pairs(s, 1, |s|) && end < |s|
  {
    end, skipped := 1, 0;
    while end < |s| && s[end] != '"'
      invariant ScanEnd(s, end) == ScanEnd(s, 1)
      invariant skipped + Pairs(s, end, |s|) == Pairs(s, 1, |s|)
      decreases |s| - end
    {
      if s[end] == '\\' {
        if end + 1 >= |s| {
          return false, end, skipped;
        }
        skipped := skipped + 1;
        end := end + 1;
      }
      end := end + 1;
    }
    found := end < |s|;
  }

  // ----- one UTF-16 literal -----

  method Hex4(s: string, at: nat) returns (h: nat)
    requires at + 4 <= |s|
    ensures h == ParseHex4(s[at..])
  {
    ghost var t := s[at..];
    h := 0;
    var i := 0;
    while i < 4
      invariant i <= 4 && (forall k :: 0 <= k < i ==> HexDigit(t[k]).Some?)
      invariant h == Leading(t, i)
    {
      assert s[at + i] == t[i];
      var d := HexDigit(s[at + i]);
      if d.None? {
        return 0;
      }
      h := h + d.value;
      if i < 3 {
        h := h * 16;
      }
      i := i + 1;
    }
    assert Leading(t, 4) == Leading(t, 3) + HexDigit(t[3]).value
           && Leading(t, 3) == (Leading(t, 2) + HexDigit(t[2]).value) * 16
        && Leading(t, 2) == (Leading(t, 1) + HexDigit(t[1]).value) * 16 && Leading(t, 1) == HexDigit(t[0]).value * 16;
  }

  /** The value after i digits, moved left for the next one. */
  ghost function Leading(t: string, i: nat): nat
    requires i <= 4 <= |t| && (forall k :: 0 <= k < i ==> HexDigit(t[k]).Some?)
  {
    if i == 0 then 0 else (Leading(t, i - 1) + HexDigit(t[i - 1]).value) * if i < 4 then 16 else 1
  }

  /** The number of bytes of a code point. */
  function Utf8Length(codepoint: nat): (n: nat) {
    if codepoint < 0x80 then 1 else if codepoint < 0x800 then 2 else if codepoint < 0x10000 then 3 else 4
  }

  function FirstByteMark(length: nat): nat {
    if length == 2 then 0xC0 else if length == 3 then 0xE0 else if length == 4 then 0xF0 else 0
  }

  /** What is left of the code point after n low groups of six bits. */
  function Shifted(codepoint: nat, n: nat): nat {
    if n == 0 then codepoint else Shifted(codepoint, n - 1) / 0x40
  }

  /** Writes the bytes of a code point, the last one first; setting and clearing the mark bits is written as arithmetic. */
  method WriteUtf8(output: array<char>, o: nat, codepoint: nat) returns (n: nat)
    requires codepoint <= 0x10FFFF && o + |Utf8(codepoint)| <= output.Length
    modifies output
    ensures n == |Utf8(codepoint)| && output[..o + n] == old(output[..o]) + Utf8(codepoint)
  {
    n := Utf8Length(codepoint);
    var left, position := codepoint, n - 1;
    ghost var bytes := Utf8(codepoint);
    BytesByGroups(codepoint);
    while position > 0
      invariant 0 <= position < n && left == Shifted(codepoint, n - 1 - position)
      invariant output[..o] == old(output[..o])
      invariant forall k :: position < k < n ==> output[o + k] == bytes[k]
    {
      output[o + position] := (0x80 + left % 0x40) as char;
      left := left / 0x40;
      position := position - 1;
    }
    output[o] := if n > 1 then (left + FirstByteMark(n)) as char else (left % 0x80) as char;
    assert output[o..o + n] == bytes;
    assert output[..o + n] == output[..o] + output[o..o + n];
  }

  /** The bytes, from the last: groups of six bits, then the mark of the length. */
  lemma BytesByGroups(codepoint: nat)
    requires codepoint <= 0x10FFFF
    ensures var n, bytes := Utf8Length(codepoint), Utf8(codepoint);
            && |bytes| == n
            && Shifted(codepoint, n - 1) + FirstByteMark(n) < 0x100
            && bytes[0] == (Shifted(codepoint, n - 1) + FirstByteMark(n)) as char
            && (forall k :: 0 < k < n ==> bytes[k] == (0x80 + Shifted(codepoint, n - 1 - k) % 0x40) as char)
    ensures Utf8Length(codepoint) == 1 ==> codepoint < 0x80
  {
    assert Shifted(codepoint, 1) == codepoint / 0x40;
    assert Shifted(codepoint, 2) == codepoint / 0x1000;
    assert Shifted(codepoint, 3) == codepoint / 0x40000;
  }

  /** One or two \u escapes to bytes: the length of the escape and of the bytes, 0 for a literal that is no character. */
  method Utf16ToUtf8(s: string, p: nat, end: nat, output: array<char>, o: nat) returns (used: nat, n: nat)
    requires p <= end <= |s|
    requires Utf16Escape(s[p..end]).Some? ==> o + |Utf16Escape(s[p..end]).value.0| <= output.Length
    modifies output
    ensures used == 0 <==> Utf16Escape(s[p..end]).None?
    ensures used != 0 ==> var e := Utf16Escape(s[p..end]).value;
                          used == e.1 && n == |e.0| && output[..o + n] == old(output[..o]) + e.0
    ensures used == 0 ==> output[..] == old(output[..])
  {
    hide Utf8, ParseHex4;
    ghost var t := s[p..end];
    if end - p < 6 {
      return 0, 0;
    }
    SameHex(s, p, end, 2);
    var first := Hex4(s, p + 2);
    if 0xDC00 <= first <= 0xDFFF {
      return 0, 0;
    }
    var codepoint := first;
    used := 6;
    if 0xD800 <= first <= 0xDBFF {
      if end - (p + 6) < 6 {
        return 0, 0;
      }
      assert s[p + 6] == t[6] && s[p + 7] == t[7];
      if s[p + 6] != '\\' || s[p + 7] != 'u' {
        return 0, 0;
      }
      SameHex(s, p, end, 8);
      var second := Hex4(s, p + 8);
      if second < 0xDC00 || second > 0xDFFF {
        return 0, 0;
      }
      codepoint := 0x10000 + first % 0x400 * 0x400 + second % 0x400;
      used := 12;
    }
    n := WriteUtf8(output, o, codepoint);
  }

  lemma SameHex(s: string, p: nat, end: nat, k: nat)
    requires p + k + 4 <= end <= |s|
    ensures ParseHex4(s[p + k..]) == ParseHex4(s[p..end][k..])
  {
    var a, b := s[p + k..], s[p..end][k..];
    assert a[0] == b[0] && a[1] == b[1] && a[2] == b[2] && a[3] == b[3];
    hide HexDigit;
  }

  // ----- the second pass -----

  /** What one step of the second pass writes and how far it moves. */
  function Step(s: string, p: nat, end: nat): Option<(string, nat)>
    requires p < end < |s|
  {
    if s[p] != '\\' then Some(([s[p]], 1))
    else if s[p + 1] == 'u' then Utf16Escape(s[p..end])
    else
      var c := ShortEscape(s[p + 1]);
      if c.None? then None else Some(([c.value], 2))
  }

  lemma UnescapeStep(s: string, p: nat, end: nat)
    requires p < end < |s|
    ensures var step := Step(s, p, end);
            && (step.None? ==> Unescape(s, p, end).None?)
            && (step.Some? ==> step.value.1 > 0 && p + step.value.1 <= end + 1
                               && Unescape(s, p, end) == Then(step.value.0, Unescape(s, p + step.value.1, end)))
  {
    hide Utf16Escape;
  }

  /** A step never writes more than it moves, less the pairs it moves over. */
  lemma StepFits(s: string, p: nat, end: nat)
    requires p < end < |s| && Step(s, p, end).Some?
    ensures var (bytes, n) := Step(s, p, end).value;
            |bytes| + Pairs(s, 1, p + n) <= n + Pairs(s, 1, p)
  {
    if s[p] != '\\' {
      PairsOrdinary(s, 1, p);
    } else {
      PairsSpacing(s, 1, p, Step(s, p, end).value.1);
      hide Pairs, Utf16Escape;
    }
  }

  /** One step, written to the buffer. */
  method WriteStep(s: string, p: nat, end: nat, output: array<char>, o: nat) returns (ok: bool, used: nat, n: nat)
    requires p < end < |s|
    requires Step(s, p, end).Some? ==> o + |Step(s, p, end).value.0| <= output.Length
    modifies output
    ensures ok <==> Step(s, p, end).Some?
    ensures ok ==> var (bytes, length) := Step(s, p, end).value;
                   used == length && n == |bytes| && output[..o + n] == old(output[..o]) + bytes
  {
    hide Utf16Escape;
    if s[p] != '\\' {
      output[o] := s[p];
      return true, 1, 1;
    }
    if s[p + 1] == 'u' {
      used, n := Utf16ToUtf8(s, p, end, output, o);
      return used != 0, used, n;
    }
    var c := ShortEscape(s[p + 1]);
    if c.None? {
      return false, 0, 0;
    }
    output[o] := c.value;
    return true, 2, 1;
  }

  lemma UnescapeEnd(s: string, p: nat, end: nat)
    requires end <= p && end < |s|
    ensures Unescape(s, p, end) == Some([])
  {
  }

  /** What may have been written before position q fits the size computed by the scan. */
  lemma RoomLeft(s: string, end: nat, q: nat)
    requires ScanEnd(s, 1) == Some(end) && 1 <= q <= end + 1
    ensures Pairs(s, 1, |s|) <= end && q - 1 - Pairs(s, 1, q) <= end - Pairs(s, 1, |s|)
  {
    PairsWithin(s, 1, end);
    PairsAfter(s, 1, end);
    if q < end {
      PairsSpacing(s, 1, q, end - q);
    } else {
      PairsWithin(s, 1, q);
    }
  }

  lemma ThenAll(x: Option<string>)
    ensures Then([], x) == x
  {
    if x.Some? {
      assert [] + x.value == x.value;
    }
  }

  lemma ThenThen(a: string, b: string, x: Option<string>)
    ensures Then(a + b, x) == Then(a, Then(b, x))
  {
    if x.Some? {
      assert a + b + x.value == a + (b + x.value);
    }
  }

  /** Unescapes the string between its quotes into a buffer of the size the scan computed: every write is inside it,
      whatever the text, and the result is that of the specification. */
  method ParseStringInto(s: string) returns (ok: bool, value: string, next: nat)
    requires s != []
    ensures next <= |s|
    ensures ok <==> ParseString(s).Parsed?
    ensures ok ==> ParseString(s) == Parsed(value, s[next..])
  {
    hide Step, Pairs, Unescape;
    var p := 1;
    if s[0] != '"' {
      return false, [], p;
    }
    var found, end, skipped := Scan(s);
    if !found {
      return false, [], p;
    }
    RoomLeft(s, end, 1);
    var allocation := end - skipped;
    var output := new char[allocation + 1];
    var o: nat := 0;
    PairsAfter(s, 1, 1);
    ThenAll(Unescape(s, 1, end));
    while p < end
      invariant output.Length == allocation + 1
      invariant 1 <= p <= end + 1 && o + Pairs(s, 1, p) <= p - 1 && o <= allocation
      invariant Then(output[..o], Unescape(s, p, end)) == Unescape(s, 1, end)
      decreases end + 1 - p
    {
      UnescapeStep(s, p, end);
      if Step(s, p, end).Some? {
        StepFits(s, p, end);
        RoomLeft(s, end, p + Step(s, p, end).value.1);
      }
      ghost var done := output[..o];
      var written, used, n := WriteStep(s, p, end, output, o);
      if !written {
        return false, [], p;
      }
      ThenThen(done, Step(s, p, end).value.0, Unescape(s, p + used, end));
      p, o := p + used, o + n;
    }
    output[o] := '\0';
    assert Unescape(s, p, end) == Some([]) by {
      UnescapeEnd(s, p, end);
    }
    assert output[..o] + [] == output[..o];
    value := CString(output[..o]);
    next := end + 1;
    ok := true;
  }

  /** The unescaped string fits the size computed by the scan, less its NUL, for every text. */
  lemma UnescapedFits(s: string, end: nat)
    requires ScanEnd(s, 1) == Some(end) && Unescape(s, 1, end).Some?
    ensures |Unescape(s, 1, end).value| <= end - Pairs(s, 1, |s|)
  {
    PairsAfter(s, 1, 1);
    PairsWithin(s, 1, end);
    PairsAfter(s, 1, end);
    UnescapedFitsFrom(s, 1, end);
  }

  lemma {:induction false} UnescapedFitsFrom(s: string, p: nat, end: nat)
    requires ScanEnd(s, 1) == Some(end) && 1 <= p <= end + 1 && Unescape(s, p, end).Some?
    ensures |Unescape(s, p, end).value| + p - 1 - Pairs(s, 1, p) <= end - Pairs(s, 1, |s|)
    decreases end + 1 - p
  {
    if p < end {
      UnescapeStep(s, p, end);
      StepFits(s, p, end);
      hide Unescape, Step, Pairs, ScanEnd;
      UnescapedFitsFrom(s, p + Step(s, p, end).value.1, end);
    } else {
      RoomLeft(s, end, p);
    }
  }

  // ----- what the bytes mean -----

  predicate Scalar(codepoint: nat) {
    codepoint <= 0x10FFFF && !(0xD800 <= codepoint <= 0xDFFF)
  }

  predicate Continues(c: char) {
    0x80 <= c as int < 0xC0
  }

  /** Reading UTF-8 (section 3 of RFC 3629). */
  function Utf8Decode(bytes: string): Option<nat> {
    if |bytes| == 1 && bytes[0] < 0x80 as char then Some(bytes[0] as int)
    else if |bytes| == 2 && 0xC0 <= bytes[0] as int < 0xE0 && Continues(bytes[1]) then
      Some((bytes[0] as int - 0xC0) * 0x40 + (bytes[1] as int - 0x80))
    else if |bytes| == 3 && 0xE0 <= bytes[0] as int < 0xF0 && Continues(bytes[1]) && Continues(bytes[2]) then
      Some((bytes[0] as int - 0xE0) * 0x1000 + (bytes[1] as int - 0x80) * 0x40 + (bytes[2] as int - 0x80))
    else if |bytes| == 4 && 0xF0 <= bytes[0] as int < 0xF8 && Continues(bytes[1]) && Continues(bytes[2])
      && Continues(bytes[3]) then
      Some((bytes[0] as int - 0xF0) * 0x40000 + (bytes[1] as int - 0x80) * 0x1000
           + (bytes[2] as int - 0x80) * 0x40 + (bytes[3] as int - 0x80))
    else None
  }

  /** Decoding undoes encoding. */
  lemma Utf8RoundTrip(codepoint: nat)
    requires codepoint <= 0x10FFFF
    ensures Utf8Decode(Utf8(codepoint)) == Some(codepoint)
  {
    var c := codepoint;
    assert c == c / 0x40 * 0x40 + c % 0x40;
    assert c / 0x40 == c / 0x1000 * 0x40 + c / 0x40 % 0x40;
    assert c / 0x1000 == c / 0x40000 * 0x40 + c / 0x1000 % 0x40;
  }

  // ----- literals (section 7 of RFC 8259) -----

  predicate IsHexDigit(c: char) {
    '0' <= c <= '9' || 'A' <= c <= 'F' || 'a' <= c <= 'f'
  }

  predicate HexAt(s: string, at: nat) {
    at + 4 <= |s| && forall k :: at <= k < at + 4 ==> IsHexDigit(s[k])
  }

  /** The value of four hexadecimal digits from a position on, in either case. */
  function FourDigits(s: string, at: nat): (code: nat)
    requires HexAt(s, at)
  {
    0x1000 * DigitValue(s[at]) + 0x100 * DigitValue(s[at + 1]) + 0x10 * DigitValue(s[at + 2]) + DigitValue(s[at + 3])
  }

  function DigitValue(c: char): (v: nat)
    requires IsHexDigit(c)
    ensures v < 16
  {
    if c <= '9' then c as int - '0' as int else if c <= 'F' then 10 + c as int - 'A' as int else 10 + c as int - 'a' as int
  }

  /** Four hexadecimal digits of that value stand at a position. */
  predicate FourHex(s: string, at: nat, code: nat) {
    HexAt(s, at) && FourDigits(s, at) == code
  }

  /** s starts with the \u literal of a code point: one escape, or a surrogate pair, of n characters in all. */
  predicate Literal(s: string, codepoint: nat, n: nat) {
    if codepoint < 0x10000 then n == 6 && FourHex(s, 2, codepoint)
    else
      && n == 12 <= |s| && s[6] == '\\' && s[7] == 'u'
      && FourHex(s, 2, 0xD800 + (codepoint - 0x10000) / 0x400)
      && FourHex(s, 8, 0xDC00 + (codepoint - 0x10000) % 0x400)
  }

  /** The digits of the escape, or of both escapes, are hexadecimal. */
  predicate HexEscapes(s: string, n: nat) {
    HexAt(s, 2) && (n >= 12 ==> HexAt(s, 8))
  }

  /** The library reads hexadecimal digits by their value, and anything else as 0. */
  lemma Hex4Exactly(s: string, at: nat)
    requires at + 4 <= |s|
    ensures ParseHex4(s[at..]) == if HexAt(s, at) then FourDigits(s, at) else 0
  {
    var t := s[at..];
    assert t[0] == s[at] && t[1] == s[at + 1] && t[2] == s[at + 2] && t[3] == s[at + 3];
    DigitExactly(s[at]);
    DigitExactly(s[at + 1]);
    DigitExactly(s[at + 2]);
    DigitExactly(s[at + 3]);
    hide HexDigit, IsHexDigit, DigitValue;
  }

  lemma DigitExactly(c: char)
    ensures HexDigit(c) == if IsHexDigit(c) then Some(DigitValue(c)) else None
  {
  }

  /** The two codes of a surrogate pair. */
  predicate Pair(codepoint: nat, first: nat, second: nat) {
    && codepoint >= 0x10000 && 0xD800 <= first <= 0xDBFF && 0xDC00 <= second <= 0xDFFF
    && first == 0xD800 + (codepoint - 0x10000) / 0x400 && second == 0xDC00 + (codepoint - 0x10000) % 0x400
  }

  lemma PairOf(codepoint: nat)
    requires 0x10000 <= codepoint <= 0x10FFFF
    ensures var first, second := 0xD800 + (codepoint - 0x10000) / 0x400, 0xDC00 + (codepoint - 0x10000) % 0x400;
            Pair(codepoint, first, second) && 0x10000 + first % 0x400 * 0x400 + second % 0x400 == codepoint
  {
    var low := codepoint - 0x10000;
    assert (0xD800 + low / 0x400) % 0x400 == low / 0x400;
    assert (0xDC00 + low % 0x400) % 0x400 == low % 0x400;
  }

  lemma PairTo(first: nat, second: nat)
    requires 0xD800 <= first <= 0xDBFF && 0xDC00 <= second <= 0xDFFF
    ensures var c := 0x10000 + first % 0x400 * 0x400 + second % 0x400;
            c <= 0x10FFFF && Pair(c, first, second)
  {
    assert first == 0xD800 + first % 0x400 && second == 0xDC00 + second % 0x400;
  }

  /** The literal of a character is written as the UTF-8 of that character. */
  lemma LiteralIsWritten(s: string, codepoint: nat, n: nat)
    requires Scalar(codepoint) && Literal(s, codepoint, n)
    ensures Utf16Escape(s) == Some((Utf8(codepoint), n))
  {
    Hex4Exactly(s, 2);
    if codepoint >= 0x10000 {
      Hex4Exactly(s, 8);
      PairOf(codepoint);
    }
    hide Utf8, ParseHex4, HexAt, FourDigits;
  }

  /**
   * Whatever is written is the UTF-8 of a character; that character's literal was read exactly if the digits are
   * hexadecimal. Any other digits are not refused: what is written for them is NUL.
   */
  lemma WrittenIsLiteral(s: string)
    requires Utf16Escape(s).Some?
    ensures var (bytes, n) := Utf16Escape(s).value;
            var c := Utf8Decode(bytes);
            && c.Some? && Scalar(c.value) && bytes == Utf8(c.value)
            && (Literal(s, c.value, n) <==> HexEscapes(s, n))
            && (!HexEscapes(s, n) ==> n == 6 && bytes == [0 as char])
  {
    Hex4Exactly(s, 2);
    var first := ParseHex4(s[2..]);
    if 0xD800 <= first <= 0xDBFF {
      Hex4Exactly(s, 8);
      var second := ParseHex4(s[8..]);
      PairTo(first, second);
      Utf8RoundTrip(0x10000 + first % 0x400 * 0x400 + second % 0x400);
    } else {
      Utf8RoundTrip(first);
      assert Utf8(0) == [0 as char];
    }
    hide Utf8, Utf8Decode, ParseHex4, HexAt, FourDigits;
  }
}
