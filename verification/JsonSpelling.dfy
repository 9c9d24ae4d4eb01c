/** How a string may be written (section 7 of RFC 8259), from the writer's side; every such spelling is read. */
module JsonSpelling {
  import opened Basics
  import opened Json
  import opened JsonPointer
  import opened JsonText
  import opened JsonString

  /** The eight two-character escapes: the letter behind the backslash, and the character it stands for. */
  predicate TwoCharacter(letter: char, c: char) {
    || (letter == '"' && c == 0x22 as char)
    || (letter == '\\' && c == 0x5C as char)
    || (letter == '/' && c == 0x2F as char)
    || (letter == 'b' && c == 0x08 as char)
    || (letter == 'f' && c == 0x0C as char)
    || (letter == 'n' && c == 0x0A as char)
    || (letter == 'r' && c == 0x0D as char)
    || (letter == 't' && c == 0x09 as char)
  }

  /** A \u escape, or a surrogate pair of them, for a code point; the hexadecimal digits in either case. */
  predicate Coded(p: string, codepoint: nat) {
    |p| > 2 && p[0] == '\\' && p[1] == 'u' && Scalar(codepoint) && Literal(p, codepoint, |p|)
  }

  /**
   * p spells c: a byte as itself, unless it is a quotation mark or a backslash, or an escape. (The standard asks for an
   * escape for control characters, too; the parser does not.)
   */
  ghost predicate Piece(p: string, c: string) {
    || (|p| == 1 && c == p && p[0] != '"' && p[0] != '\\')
    || (|p| == 2 && p[0] == '\\' && |c| == 1 && TwoCharacter(p[1], c[0]))
    || (exists codepoint :: Coded(p, codepoint) && c == Utf8(codepoint))
  }

  /** e spells x, piece by piece. */
  ghost predicate Spelling(e: string, x: string)
    decreases |e|
  {
    if e == [] then x == []
    else
      exists n: nat, m: nat ::
        0 < n <= |e| && m <= |x| && Piece(e[..n], x[..m]) && Spelling(e[n..], x[m..])
  }

  lemma FirstPiece(e: string, x: string) returns (n: nat, m: nat)
    requires Spelling(e, x) && e != []
    ensures 0 < n <= |e| && m <= |x| && Piece(e[..n], x[..m]) && Spelling(e[n..], x[m..])
  {
    hide Piece;
    n, m :| 0 < n <= |e| && m <= |x| && Piece(e[..n], x[..m]) && Spelling(e[n..], x[m..]);
  }

  lemma NothingSpelled(x: string)
    requires Spelling([], x)
    ensures x == []
  {
  }

  // ----- the first scan -----

  lemma HexIsPlain(s: string, at: nat)
    requires HexAt(s, at)
    ensures forall k :: at <= k < at + 4 ==> s[k] != '"' && s[k] != '\\'
  {
  }

  /** The scan passes over ordinary characters one by one. */
  lemma {:induction false} ScanPlain(s: string, at: nat, n: nat)
    requires at + n <= |s| && forall k :: at <= k < at + n ==> s[k] != '"' && s[k] != '\\'
    ensures ScanEnd(s, at) == ScanEnd(s, at + n)
    decreases n
  {
    if n > 0 {
      ScanPlain(s, at + 1, n - 1);
    }
  }

  lemma At(s: string, at: nat, p: string, more: string)
    requires at <= |s| && s[at..] == p + more
    ensures at + |p| <= |s| && s[at + |p|..] == more
    ensures forall k :: 0 <= k < |p| ==> s[at + k] == p[k]
  {
    assert s[at + |p|..] == s[at..][|p|..];
    forall k | 0 <= k < |p|
      ensures s[at + k] == p[k]
    {
      assert s[at + k] == s[at..][k];
    }
  }

  /** A piece is passed over whole. */
  lemma ScanPiece(s: string, at: nat, p: string, c: string, more: string)
    requires at <= |s| && s[at..] == p + more && Piece(p, c)
    ensures ScanEnd(s, at) == ScanEnd(s, at + |p|)
  {
    At(s, at, p, more);
    assert s[at] == p[0];
    if |p| > 1 {
      assert s[at + 1] == p[1];
    }
    if |p| > 2 {
      var codepoint :| Coded(p, codepoint) && c == Utf8(codepoint);
      CodedPlain(p, codepoint);
      hide Coded, Utf8, Piece;
      ScanCoded(s, at, p);
    }
  }

  /** Behind each backslash of the escape, a letter and four ordinary characters. */
  ghost predicate PlainDigits(p: string) {
    && (|p| == 6 || |p| == 12) && p[0] == '\\'
    && (forall k :: 2 <= k < 6 ==> p[k] != '"' && p[k] != '\\')
    && (|p| == 12 ==> p[6] == '\\' && forall k :: 8 <= k < 12 ==> p[k] != '"' && p[k] != '\\')
  }

  lemma CodedPlain(p: string, codepoint: nat)
    requires Coded(p, codepoint)
    ensures PlainDigits(p)
  {
    HexIsPlain(p, 2);
    if |p| == 12 {
      HexIsPlain(p, 8);
    }
    hide HexAt, FourDigits;
  }

  lemma ScanCoded(s: string, at: nat, p: string)
    requires PlainDigits(p) && at + |p| <= |s| && forall k :: 0 <= k < |p| ==> s[at + k] == p[k]
    ensures ScanEnd(s, at) == ScanEnd(s, at + |p|)
  {
    assert s[at] == p[0];
    forall k | at + 2 <= k < at + 6
      ensures s[k] != '"' && s[k] != '\\'
    {
      assert s[at + (k - at)] == p[k - at];
    }
    assert ScanEnd(s, at) == ScanEnd(s, at + 2);
    ScanPlain(s, at + 2, 4);
    if |p| == 12 {
      assert s[at + 6] == p[6];
      forall k | at + 8 <= k < at + 12
        ensures s[k] != '"' && s[k] != '\\'
      {
        assert s[at + (k - at)] == p[k - at];
      }
      assert ScanEnd(s, at + 6) == ScanEnd(s, at + 8);
      ScanPlain(s, at + 8, 4);
    }
  }

  lemma Regroup(a: string, b: string, c: string)
    ensures a + b + c == a + (b + c)
  {
  }

  /** The scan finds the quotation mark behind the spelling. */
  lemma {:induction false} ScanSpelled(s: string, at: nat, e: string, x: string, tail: string)
    requires at <= |s| && s[at..] == e + tail && tail != [] && tail[0] == '"' && Spelling(e, x)
    ensures ScanEnd(s, at) == Some(at + |e|)
    decreases |e|
  {
    if e == [] {
      hide Spelling;
      assert s[at] == s[at..][0];
    } else {
      hide *;
      var n, m := FirstPiece(e, x);
      assert e == e[..n] + e[n..];
      Regroup(e[..n], e[n..], tail);
      ScanPiece(s, at, e[..n], x[..m], e[n..] + tail);
      At(s, at, e[..n], e[n..] + tail);
      ScanSpelled(s, at + n, e[n..], x[m..], tail);
    }
  }

  // ----- the second pass -----

  lemma Inside(s: string, at: nat, end: nat, p: string, more: string)
    requires at <= end < |s| && s[at..end] == p + more
    ensures at + |p| <= end && s[at + |p|..end] == more
    ensures forall k :: 0 <= k < |p| ==> s[at + k] == p[k]
  {
    assert s[at + |p|..end] == s[at..end][|p|..];
    forall k | 0 <= k < |p|
      ensures s[at + k] == p[k]
    {
      assert s[at + k] == s[at..end][k];
    }
  }

  /** A literal is one also with more behind it. */
  lemma LiteralBefore(p: string, codepoint: nat, more: string)
    requires Coded(p, codepoint)
    ensures Literal(p + more, codepoint, |p|)
  {
    var s := p + more;
    assert forall k :: 0 <= k < |p| ==> s[k] == p[k];
    FourBefore(p, s, 2);
    if |p| == 12 {
      FourBefore(p, s, 8);
    }
    hide HexAt, FourDigits;
  }

  lemma FourBefore(p: string, s: string, at: nat)
    requires |p| <= |s| && (forall k :: 0 <= k < |p| ==> s[k] == p[k]) && at + 4 <= |p|
    ensures HexAt(s, at) <==> HexAt(p, at)
    ensures HexAt(p, at) ==> FourDigits(s, at) == FourDigits(p, at)
  {
  }

  /** A piece is unescaped to what it spells. */
  lemma UnescapePiece(s: string, at: nat, end: nat, p: string, c: string, more: string)
    requires at <= end < |s| && s[at..end] == p + more && Piece(p, c)
    ensures Unescape(s, at, end) == Then(c, Unescape(s, at + |p|, end))
  {
    Inside(s, at, end, p, more);
    assert s[at] == p[0];
    if |p| == 1 {
      hide Utf16Escape, Utf8, Literal;
      assert p == [p[0]];
    } else if |p| == 2 {
      assert s[at + 1] == p[1];
      if |c| == 1 && TwoCharacter(p[1], c[0]) {
        ShortRead(p[1], c[0]);
      }
      hide Utf16Escape, Utf8, ShortEscape, TwoCharacter, Literal;
      assert c == [c[0]];
    } else {
      assert s[at + 1] == p[1];
      var codepoint :| Coded(p, codepoint) && c == Utf8(codepoint);
      LiteralBefore(p, codepoint, more);
      LiteralIsWritten(p + more, codepoint, |p|);
      hide Utf16Escape, Literal, Utf8;
    }
  }

  lemma ShortRead(letter: char, c: char)
    requires TwoCharacter(letter, c)
    ensures ShortEscape(letter) == Some(c) && letter != 'u'
  {
  }

  lemma ThenMore(c: string, x: string)
    ensures Then(c, Some(x)) == Some(c + x)
  {
  }

  lemma UnescapeNothing(s: string, end: nat)
    requires end < |s|
    ensures Unescape(s, end, end) == Some([])
  {
  }

  lemma {:induction false} UnescapeSpelled(s: string, at: nat, end: nat, e: string, x: string)
    requires at <= end < |s| && s[at..end] == e && Spelling(e, x)
    ensures Unescape(s, at, end) == Some(x)
    decreases |e|
  {
    hide *;
    if e == [] {
      NothingSpelled(x);
      UnescapeNothing(s, at);
      assert at == end;
    } else {
      var n, m := FirstPiece(e, x);
      assert e == e[..n] + e[n..];
      UnescapePiece(s, at, end, e[..n], x[..m], e[n..]);
      Inside(s, at, end, e[..n], e[n..]);
      UnescapeSpelled(s, at + n, end, e[n..], x[m..]);
      ThenMore(x[..m], x[m..]);
      assert x == x[..m] + x[m..];
    }
  }

  /** Every spelling of a string is read as that string, up to its first NUL, and the parser stops right behind it. */
  lemma SpelledIsRead(e: string, x: string, more: string)
    requires Spelling(e, x)
    ensures ParseString("\"" + e + "\"" + more) == Parsed(CString(x), more)
  {
    hide *;
    var s := "\"" + e + "\"" + more;
    QuotedText(e, more);
    ScanSpelled(s, 1, e, x, "\"" + more);
    UnescapeSpelled(s, 1, 1 + |e|, e, x);
    StringRead(s, 1 + |e|, x);
  }

  lemma QuotedText(e: string, more: string)
    ensures var s, tail := "\"" + e + "\"" + more, "\"" + more;
            && s != [] && s[0] == '"' && tail[0] == '"' && 1 + |e| < |s|
            && s[1..] == e + tail && s[1..1 + |e|] == e && s[1 + |e| + 1..] == more
  {
    var s := "\"" + e + "\"" + more;
    assert s[1..] == e + ("\"" + more);
  }

  lemma StringRead(s: string, end: nat, x: string)
    requires s != [] && s[0] == '"' && end < |s| && ScanEnd(s, 1) == Some(end) && Unescape(s, 1, end) == Some(x)
    ensures ParseString(s) == Parsed(CString(x), s[end + 1..])
  {
    hide ScanEnd, Unescape, CString;
  }

  /** A spelling spells one string only. */
  lemma SpellingUnique(e: string, x: string, y: string)
    requires Spelling(e, x) && Spelling(e, y)
    ensures x == y
  {
    var s := e + "\"";
    assert s[0..|e|] == e;
    hide Spelling, Unescape;
    UnescapeSpelled(s, 0, |e|, e, x);
    UnescapeSpelled(s, 0, |e|, e, y);
  }

  // ----- the printer's choice -----

  lemma HexCharIs(n: nat)
    requires n < 16
    ensures IsHexDigit(HexChar(n)) && DigitValue(HexChar(n)) == n
  {
  }

  /** The printer spells each character its own way. */
  lemma EscapedChar(c: char)
    ensures Piece(EscapeChar(c), [c])
  {
    if c < ' ' && |EscapeChar(c)| == 6 {
      ControlCoded(c);
      assert Coded(EscapeChar(c), c as nat) && [c] == Utf8(c as nat);
    }
  }

  lemma ControlCoded(c: char)
    requires c < ' ' && |EscapeChar(c)| == 6
    ensures Coded(EscapeChar(c), c as nat) && Utf8(c as nat) == [c]
  {
    HexCharIs(c as int / 16);
    HexCharIs(c as int % 16);
    var p := EscapeChar(c);
    assert p[2] == '0' && p[3] == '0' && p[4] == HexChar(c as int / 16) && p[5] == HexChar(c as int % 16);
    hide HexChar;
    assert IsHexDigit('0') && DigitValue('0') == 0;
    hide IsHexDigit, DigitValue;
    assert HexAt(p, 2) && FourDigits(p, 2) == c as nat;
  }

  lemma {:induction false} EscapeSpells(x: string)
    ensures Spelling(Escape(x), x)
  {
    if x != [] {
      var e, n := Escape(x), |EscapeChar(x[0])|;
      EscapedChar(x[0]);
      EscapeSpells(x[1..]);
      hide EscapeChar, Piece;
      assert e[..n] == EscapeChar(x[0]) && e[n..] == Escape(x[1..]);
      assert x[..1] == [x[0]];
    }
  }
}
