/** Which texts write a tree (RFC 8259), from the writer's side, and that every such text is read as that tree. */
module JsonGrammar {
  import opened Basics
  import opened Json
  import opened JsonPointer
  import opened JsonText
  import opened JsonSpelling

  // ----- the grammar -----

  /** Blanks. (The standard names four; the parser takes every control character for one.) */
  predicate Blanks(b: string) {
    forall i :: 0 <= i < |b| ==> b[i] <= ' '
  }

  /** A numeral that the conversion reads whole. */
  predicate Numeral(t: string, n: int, strtod: Conversion) {
    && t != [] && (t[0] == '-' || '0' <= t[0] <= '9') && |t| <= 63
    && (forall i :: 0 <= i < |t| ==> NumberChar(t[i]))
    && strtod(t) == Reading(n, |t|)
  }

  /** A spelling between quotation marks; a C string keeps what is before the first NUL. */
  ghost predicate Quoted(t: string, x: string) {
    && |t| >= 2 && t[0] == '"' && t[|t| - 1] == '"'
    && exists y :: Spelling(t[1..|t| - 1], y) && x == CString(y)
  }

  /** The text t, without anything around it, writes the tree j. */
  ghost predicate Writes(t: string, j: Json, strtod: Conversion)
    decreases j, 1
  {
    match j
    case Invalid => false
    case Null => t == "null"
    case False => t == "false"
    case True => t == "true"
    case Number(n) => Numeral(t, n, strtod)
    case String(x) => Quoted(t, x)
    case Array(items) =>
      && |t| >= 2 && t[0] == '[' && t[|t| - 1] == ']'
      && if items == [] then Blanks(t[1..|t| - 1]) else WritesItems(t[1..|t| - 1], items, strtod)
    case Object(ms, _) =>
      && |t| >= 2 && t[0] == '{' && t[|t| - 1] == '}' && j == Object(ms)
      && if ms == [] then Blanks(t[1..|t| - 1]) else WritesMembers(t[1..|t| - 1], ms, strtod)
  }

  /** The same, with blanks around it. */
  ghost predicate Padded(u: string, j: Json, strtod: Conversion)
    decreases j, 2
  {
    exists b: nat, e: nat :: b <= e <= |u| && Blanks(u[..b]) && Blanks(u[e..]) && Writes(u[b..e], j, strtod)
  }

  /** Elements with commas between them. */
  ghost predicate WritesItems(u: string, items: seq<Json>, strtod: Conversion)
    requires items != []
    decreases items, 0
  {
    if |items| == 1 then Padded(u, items[0], strtod)
    else
      exists k: nat :: k < |u| && u[k] == ',' && Padded(u[..k], items[0], strtod)
                       && WritesItems(u[k + 1..], items[1..], strtod)
  }

  ghost predicate PaddedName(u: string, name: string) {
    exists b: nat, e: nat :: b <= e <= |u| && Blanks(u[..b]) && Blanks(u[e..]) && Quoted(u[b..e], name)
  }

  /** A name, a colon and a value. */
  ghost predicate WritesMember(u: string, m: Member, strtod: Conversion)
    decreases m, 0
  {
    exists k: nat :: k < |u| && u[k] == ':' && PaddedName(u[..k], m.key) && Padded(u[k + 1..], m.value, strtod)
  }

  /** Members with commas between them. */
  ghost predicate WritesMembers(u: string, ms: seq<Member>, strtod: Conversion)
    requires ms != []
    decreases ms, 0
  {
    if |ms| == 1 then WritesMember(u, ms[0], strtod)
    else
      exists k: nat :: k < |u| && u[k] == ',' && WritesMember(u[..k], ms[0], strtod)
                       && WritesMembers(u[k + 1..], ms[1..], strtod)
  }

  // ----- blanks -----

  lemma {:induction false} SkipBlanks(b: string, x: string)
    requires Blanks(b) && x != [] && x[0] > ' '
    ensures Skip(b + x) == x
  {
    if b == [] {
      assert b + x == x;
    } else {
      assert (b + x)[1..] == b[1..] + x;
      SkipBlanks(b[1..], x);
    }
  }

  lemma {:induction false} SkipTwice(s: string)
    ensures Skip(Skip(s)) == Skip(s)
  {
    if |s| > 1 && s[0] <= ' ' {
      SkipTwice(s[1..]);
    }
  }

  lemma SkippedFirst(s: string, depth: nat, strtod: Conversion)
    ensures ParseItems(Skip(s), depth, strtod) == ParseItems(s, depth, strtod)
    ensures ParseMembers(Skip(s), depth, strtod) == ParseMembers(s, depth, strtod)
  {
    SkipTwice(s);
    hide Skip, ParseValue, ParseString;
  }

  // ----- what the parser does -----

  /** What may follow a numeral. */
  predicate Follows(rest: string) {
    rest != [] && !NumberChar(rest[0])
  }

  lemma {:induction false} RunWhole(t: string, rest: string, n: nat)
    requires |t| <= n && (forall i :: 0 <= i < |t| ==> NumberChar(t[i]))
    requires rest != [] && !NumberChar(rest[0])
    ensures NumberRun(t + rest, n) == t
  {
    if t == [] {
      assert t + rest == rest;
    } else {
      assert (t + rest)[1..] == t[1..] + rest;
      RunWhole(t[1..], rest, n - 1);
    }
  }

  lemma NumeralIsRead(t: string, n: int, rest: string, strtod: Conversion)
    requires Numeral(t, n, strtod) && Follows(rest)
    ensures ParseNumber(t + rest, strtod) == Parsed(Number(n), rest)
  {
    RunWhole(t, rest, 63);
    assert (t + rest)[|t|..] == rest;
  }

  lemma QuotedIsRead(t: string, x: string, rest: string)
    requires Quoted(t, x)
    ensures ParseString(t + rest) == Parsed(x, rest)
  {
    var y :| Spelling(t[1..|t| - 1], y) && x == CString(y);
    hide *;
    SpelledIsRead(t[1..|t| - 1], y, rest);
    Unquoted(t, rest);
  }

  lemma Unquoted(t: string, rest: string)
    requires |t| >= 2 && t[0] == '"' && t[|t| - 1] == '"'
    ensures t + rest == "\"" + t[1..|t| - 1] + "\"" + rest
  {
  }

  /** The parser succeeds exactly when it fits. */
  function Outcome<T>(fits: bool, value: T, rest: string): Parsed<T> {
    if fits then Parsed(value, rest) else Failed
  }

  ghost predicate ItemsWithin(items: seq<Json>, n: nat) {
    forall i :: 0 <= i < |items| ==> Within(items[i], n)
  }

  lemma ItemsWithinHead(items: seq<Json>, n: nat)
    requires items != []
    ensures ItemsWithin(items, n) <==> Within(items[0], n) && ItemsWithin(items[1..], n)
    ensures |items| == 1 ==> ItemsWithin(items[1..], n)
  {
    hide Within;
    assert ItemsWithin(items, n) ==> ItemsWithin(items[1..], n) by {
      assert forall i :: 0 <= i < |items[1..]| ==> items[1..][i] == items[i + 1];
    }
    if Within(items[0], n) && ItemsWithin(items[1..], n) {
      assert forall i :: 1 <= i < |items| ==> items[i] == items[1..][i - 1];
    }
  }

  ghost predicate MembersWithin(ms: seq<Member>, n: nat) {
    forall i :: 0 <= i < |ms| ==> Within(ms[i].value, n)
  }

  lemma MembersWithinHead(ms: seq<Member>, n: nat)
    requires ms != []
    ensures MembersWithin(ms, n) <==> Within(ms[0].value, n) && MembersWithin(ms[1..], n)
    ensures |ms| == 1 ==> MembersWithin(ms[1..], n)
  {
    hide Within;
    assert MembersWithin(ms, n) ==> MembersWithin(ms[1..], n) by {
      assert forall i :: 0 <= i < |ms[1..]| ==> ms[1..][i] == ms[i + 1];
    }
    if Within(ms[0].value, n) && MembersWithin(ms[1..], n) {
      assert forall i :: 1 <= i < |ms| ==> ms[i] == ms[1..][i - 1];
    }
  }

  lemma BracketValue(s: string, items: seq<Json>, fits: bool, rest: string, depth: nat, strtod: Conversion)
    requires s != [] && s[0] == '['
    requires var p := Skip(s[1..]);
             p != [] && (if p[0] == ']' then items == [] && rest == p[1..] && fits
                         else depth < NESTING_LIMIT ==> ParseItems(p, depth + 1, strtod) == Outcome(fits, items, rest))
    ensures ParseValue(s, depth, strtod) == Outcome(depth < NESTING_LIMIT && fits, Array(items), rest)
  {
    hide ParseItems, Skip;
  }

  lemma BraceValue(s: string, ms: seq<Member>, fits: bool, rest: string, depth: nat, strtod: Conversion)
    requires s != [] && s[0] == '{'
    requires var p := Skip(s[1..]);
             p != [] && (if p[0] == '}' then ms == [] && rest == p[1..] && fits
                         else depth < NESTING_LIMIT ==> ParseMembers(p, depth + 1, strtod) == Outcome(fits, ms, rest))
    ensures ParseValue(s, depth, strtod) == Outcome(depth < NESTING_LIMIT && fits, Object(ms), rest)
  {
    hide ParseMembers, Skip;
  }

  // ----- what is written is read -----

  /** The first character tells the kind. */
  lemma FirstCharacter(t: string, j: Json, strtod: Conversion)
    requires Writes(t, j, strtod)
    ensures t != [] && t[0] > ' ' && t[0] < 0x80 as char
    ensures t[0] != ']' && t[0] != '}'
    ensures (t[0] == '-' || '0' <= t[0] <= '9' <==> j.Number?) && (t[0] == '"' <==> j.String?)
    ensures (t[0] == '[' <==> j.Array?) && (t[0] == '{' <==> j.Object?)
  {
    hide Blanks, WritesItems, WritesMembers, Spelling;
  }

  lemma PlainIsRead(t: string, j: Json, rest: string, depth: nat, strtod: Conversion)
    requires Writes(t, j, strtod) && !j.Array? && !j.Object? && (j.Number? ==> Follows(rest))
    ensures ParseValue(t + rest, depth, strtod) == Parsed(j, rest)
  {
    FirstCharacter(t, j, strtod);
    var s := t + rest;
    assert s[0] == t[0];
    hide ParseString, ParseNumber;
    match j
    case Number(n) =>
      NumeralIsRead(t, n, rest, strtod);
      hide Numeral;
    case String(x) =>
      QuotedIsRead(t, x, rest);
      hide Quoted;
    case Null => assert s[4..] == rest;
    case False => assert s[5..] == rest;
    case True => assert s[4..] == rest;
  }

  predicate Closes(close: string) {
    close != [] && (close[0] == ',' || close[0] == ']' || close[0] == '}')
  }

  /** The value of a padded text is read, and skipping what follows it leads to what closes it. */
  lemma {:induction false} PaddedIsRead(u: string, j: Json, close: string, depth: nat, strtod: Conversion)
    requires Padded(u, j, strtod) && Closes(close) && depth <= NESTING_LIMIT
    ensures var r := ParseValue(Skip(u + close), depth, strtod);
            && (r.Parsed? <==> Within(j, NESTING_LIMIT - depth))
            && (r.Parsed? ==> r.value == j && Skip(r.rest) == close)
    ensures var p := Skip(u + close); p != [] && p[0] != ']' && p[0] != '}'
    decreases j, 2
  {
    hide *;
    var b, e := PaddedParts(u, j, strtod);
    FirstCharacter(u[b..e], j, strtod);
    SkipPadding(u, b, e, close);
    WrittenIsRead(u[b..e], j, u[e..] + close, depth, strtod);
    OutcomeIs(Within(j, NESTING_LIMIT - depth), j, u[e..] + close);
  }

  lemma OutcomeIs<T>(fits: bool, value: T, rest: string)
    ensures Outcome(fits, value, rest) == if fits then Parsed(value, rest) else Failed
  {
  }

  lemma PaddedParts(u: string, j: Json, strtod: Conversion) returns (b: nat, e: nat)
    requires Padded(u, j, strtod)
    ensures b <= e <= |u| && Blanks(u[..b]) && Blanks(u[e..]) && Writes(u[b..e], j, strtod)
  {
    hide Blanks, Writes;
    b, e :| b <= e <= |u| && Blanks(u[..b]) && Blanks(u[e..]) && Writes(u[b..e], j, strtod);
  }

  lemma SkipPadding(u: string, b: nat, e: nat, close: string)
    requires b < e <= |u| && Blanks(u[..b]) && Blanks(u[e..]) && u[b] > ' ' && Closes(close)
    ensures Skip(u + close) == u[b..e] + (u[e..] + close)
    ensures Skip(u[e..] + close) == close && Follows(u[e..] + close)
  {
    assert close[0] > ' ';
    FollowsPadding(u[e..], close);
    hide *;
    Thirds(u, b, e, close);
    SkipBlanks(u[..b], u[b..e] + (u[e..] + close));
    SkipBlanks(u[e..], close);
  }

  lemma FollowsPadding(b: string, close: string)
    requires Blanks(b) && Closes(close)
    ensures Follows(b + close)
  {
    assert (b + close)[0] == if b == [] then close[0] else b[0];
  }

  lemma Thirds(u: string, b: nat, e: nat, more: string)
    requires b < e <= |u|
    ensures u + more == u[..b] + (u[b..e] + (u[e..] + more))
    ensures (u[b..e] + (u[e..] + more))[0] == u[b]
  {
    assert u == u[..b] + u[b..e] + u[e..];
  }

  lemma {:induction false} WrittenIsRead(t: string, j: Json, rest: string, depth: nat, strtod: Conversion)
    requires Writes(t, j, strtod) && depth <= NESTING_LIMIT && (j.Number? ==> Follows(rest))
    ensures ParseValue(t + rest, depth, strtod) == Outcome(Within(j, NESTING_LIMIT - depth), j, rest)
    decreases j, 1
  {
    if j.Array? {
      hide *;
      ArrayIsRead(t, j, rest, depth, strtod);
    } else if j.Object? {
      hide *;
      ObjectIsRead(t, j, rest, depth, strtod);
    } else {
      assert Within(j, NESTING_LIMIT - depth);
      hide Writes, ParseValue;
      PlainIsRead(t, j, rest, depth, strtod);
    }
  }

  /** A text between brackets or braces, and what follows. */
  lemma Enclosed(t: string, open: char, close: char, rest: string)
    requires |t| >= 2 && t[0] == open && t[|t| - 1] == close
    ensures var s, u := t + rest, t[1..|t| - 1]; s != [] && s[0] == open && s[1..] == u + ([close] + rest)
    ensures ([close] + rest)[0] == close && ([close] + rest)[1..] == rest
  {
    assert t == [open] + t[1..|t| - 1] + [close];
  }

  lemma ArrayParts(t: string, j: Json, n: nat, strtod: Conversion)
    requires j.Array? && Writes(t, j, strtod)
    ensures |t| >= 2 && t[0] == '[' && t[|t| - 1] == ']'
    ensures if j.items == [] then Blanks(t[1..|t| - 1]) else WritesItems(t[1..|t| - 1], j.items, strtod)
    ensures Within(j, n) <==> n > 0 && ItemsWithin(j.items, n - 1)
    ensures j.items == [] && n > 0 ==> ItemsWithin(j.items, n - 1)
  {
    hide Blanks, WritesItems;
  }

  lemma ArrayIsRead(t: string, j: Json, rest: string, depth: nat, strtod: Conversion)
    requires j.Array? && Writes(t, j, strtod) && depth <= NESTING_LIMIT
    ensures ParseValue(t + rest, depth, strtod) == Outcome(Within(j, NESTING_LIMIT - depth), j, rest)
    decreases j, 0
  {
    hide *;
    ArrayParts(t, j, NESTING_LIMIT - depth, strtod);
    Enclosed(t, '[', ']', rest);
    var u, close := t[1..|t| - 1], [']'] + rest;
    if j.items == [] {
      SkipBlanks(u, close);
      BracketValue(t + rest, [], true, rest, depth, strtod);
    } else {
      ItemsAreRead(u, j.items, rest, if depth < NESTING_LIMIT then depth + 1 else depth, strtod);
      SkippedFirst(u + close, depth + 1, strtod);
      BracketValue(t + rest, j.items, depth < NESTING_LIMIT && ItemsWithin(j.items, NESTING_LIMIT - depth - 1), rest,
                   depth, strtod);
    }
  }

  lemma ItemsParts(u: string, items: seq<Json>, strtod: Conversion) returns (k: nat)
    requires items != [] && WritesItems(u, items, strtod)
    ensures |items| == 1 ==> Padded(u, items[0], strtod)
    ensures |items| > 1 ==>
              k < |u| && u[k] == ',' && Padded(u[..k], items[0], strtod) && WritesItems(u[k + 1..], items[1..], strtod)
  {
    hide Padded;
    if |items| == 1 {
      k := 0;
    } else {
      k :| k < |u| && u[k] == ',' && Padded(u[..k], items[0], strtod) && WritesItems(u[k + 1..], items[1..], strtod);
    }
  }

  /** A separator in the middle of a text. */
  lemma Cut(u: string, k: nat, end: string)
    requires k < |u|
    ensures var close := [u[k]] + (u[k + 1..] + end);
            u + end == u[..k] + close && close[0] == u[k] && close[1..] == u[k + 1..] + end
  {
  }

  /** The text of the elements and the closing bracket. */
  lemma {:induction false} ItemsAreRead(u: string, items: seq<Json>, rest: string, depth: nat, strtod: Conversion)
    requires items != [] && WritesItems(u, items, strtod) && depth <= NESTING_LIMIT
    ensures ParseItems(u + ([']'] + rest), depth, strtod)
            == Outcome(ItemsWithin(items, NESTING_LIMIT - depth), items, rest)
    ensures var p := Skip(u + ([']'] + rest)); p != [] && p[0] != ']'
    decreases items, 0
  {
    var end, n := [']'] + rest, NESTING_LIMIT - depth;
    hide *;
    var k := ItemsParts(u, items, strtod);
    ItemsWithinHead(items, n);
    OutcomeIs(ItemsWithin(items, n), items, rest);
    if |items| == 1 {
      BracketCloses(rest);
      PaddedIsRead(u, items[0], end, depth, strtod);
      ItemRead(u + end, items[0], end, depth, strtod);
      assert items == [items[0]];
    } else {
      var close := [u[k]] + (u[k + 1..] + end);
      Cut(u, k, end);
      CommaCloses(close);
      PaddedIsRead(u[..k], items[0], close, depth, strtod);
      ItemRead(u + end, items[0], close, depth, strtod);
      ItemsAreRead(u[k + 1..], items[1..], rest, depth, strtod);
      OutcomeIs(ItemsWithin(items[1..], n), items[1..], rest);
      assert items == [items[0]] + items[1..];
    }
  }

  lemma BracketCloses(rest: string)
    ensures Closes([']'] + rest) && Closes(['}'] + rest)
    ensures ([']'] + rest)[0] == ']' && ([']'] + rest)[1..] == rest
    ensures (['}'] + rest)[0] == '}' && (['}'] + rest)[1..] == rest
  {
  }

  lemma CommaCloses(close: string)
    requires close != [] && close[0] == ','
    ensures Closes(close)
  {
  }

  /** One turn of the parser over an element and what closes it. */
  lemma ItemRead(s: string, item: Json, close: string, depth: nat, strtod: Conversion)
    requires close != [] && (close[0] == ',' || close[0] == ']')
    requires var r := ParseValue(Skip(s), depth, strtod); r.Parsed? ==> r.value == item && Skip(r.rest) == close
    ensures ParseItems(s, depth, strtod)
            == if ParseValue(Skip(s), depth, strtod).Failed? then Failed
               else if close[0] == ']' then Parsed([item], close[1..])
               else
                 var more := ParseItems(close[1..], depth, strtod);
                 if more.Failed? then Failed else Parsed([item] + more.value, more.rest)
  {
    hide ParseValue, Skip;
  }

  lemma ObjectParts(t: string, j: Json, n: nat, strtod: Conversion)
    requires j.Object? && Writes(t, j, strtod)
    ensures |t| >= 2 && t[0] == '{' && t[|t| - 1] == '}' && j == Object(j.members)
    ensures if j.members == [] then Blanks(t[1..|t| - 1]) else WritesMembers(t[1..|t| - 1], j.members, strtod)
    ensures Within(j, n) <==> n > 0 && MembersWithin(j.members, n - 1)
    ensures j.members == [] && n > 0 ==> MembersWithin(j.members, n - 1)
  {
    hide Blanks, WritesMembers;
  }

  lemma ObjectIsRead(t: string, j: Json, rest: string, depth: nat, strtod: Conversion)
    requires j.Object? && Writes(t, j, strtod) && depth <= NESTING_LIMIT
    ensures ParseValue(t + rest, depth, strtod) == Outcome(Within(j, NESTING_LIMIT - depth), j, rest)
    decreases j, 0
  {
    hide *;
    ObjectParts(t, j, NESTING_LIMIT - depth, strtod);
    Enclosed(t, '{', '}', rest);
    var u, close := t[1..|t| - 1], ['}'] + rest;
    if j.members == [] {
      SkipBlanks(u, close);
      BraceValue(t + rest, [], true, rest, depth, strtod);
    } else {
      MembersAreRead(u, j.members, rest, if depth < NESTING_LIMIT then depth + 1 else depth, strtod);
      SkippedFirst(u + close, depth + 1, strtod);
      BraceValue(t + rest, j.members, depth < NESTING_LIMIT
        && MembersWithin(j.members, NESTING_LIMIT - depth - 1), rest,
                 depth, strtod);
    }
  }

  lemma MembersParts(u: string, ms: seq<Member>, strtod: Conversion) returns (k: nat)
    requires ms != [] && WritesMembers(u, ms, strtod)
    ensures |ms| == 1 ==> WritesMember(u, ms[0], strtod)
    ensures |ms| > 1 ==>
              k < |u| && u[k] == ',' && WritesMember(u[..k], ms[0], strtod) && WritesMembers(u[k + 1..], ms[1..], strtod)
  {
    hide WritesMember;
    if |ms| == 1 {
      k := 0;
    } else {
      k :| k < |u| && u[k] == ',' && WritesMember(u[..k], ms[0], strtod) && WritesMembers(u[k + 1..], ms[1..], strtod);
    }
  }

  lemma NameParts(u: string, name: string) returns (b: nat, e: nat)
    requires PaddedName(u, name)
    ensures b < e <= |u| && Blanks(u[..b]) && Blanks(u[e..]) && Quoted(u[b..e], name) && u[b] == '"'
  {
    b, e :| b <= e <= |u| && Blanks(u[..b]) && Blanks(u[e..]) && Quoted(u[b..e], name);
    hide Blanks, Spelling;
  }

  lemma MemberParts(u: string, m: Member, strtod: Conversion) returns (k: nat)
    requires WritesMember(u, m, strtod)
    ensures k < |u| && u[k] == ':' && PaddedName(u[..k], m.key) && Padded(u[k + 1..], m.value, strtod)
  {
    hide PaddedName, Padded;
    k :| k < |u| && u[k] == ':' && PaddedName(u[..k], m.key) && Padded(u[k + 1..], m.value, strtod);
  }

  /** The name in front of a colon is read, and skipping what follows it leads to the colon. */
  lemma NameIsRead(u: string, name: string, colon: string)
    requires PaddedName(u, name) && colon != [] && colon[0] == ':'
    ensures var r := ParseString(Skip(u + colon)); r.Parsed? && r.value == name && Skip(r.rest) == colon
    ensures var p := Skip(u + colon); p != [] && p[0] == '"'
  {
    hide *;
    var b, e := NameParts(u, name);
    Thirds(u, b, e, colon);
    SkipBlanks(u[..b], u[b..e] + (u[e..] + colon));
    SkipBlanks(u[e..], colon);
    QuotedIsRead(u[b..e], name, u[e..] + colon);
  }

  /** One turn of the parser over a member and what closes it. */
  lemma MemberRead(s: string, m: Member, colon: string, close: string, depth: nat, strtod: Conversion)
    requires close != [] && (close[0] == ',' || close[0] == '}') && colon != [] && colon[0] == ':'
    requires var r := ParseString(Skip(s)); r.Parsed? && r.value == m.key && Skip(r.rest) == colon
    requires var r := ParseValue(Skip(colon[1..]), depth, strtod); r.Parsed? ==>
               r.value == m.value && Skip(r.rest) == close
    ensures ParseMembers(s, depth, strtod)
            == if ParseValue(Skip(colon[1..]), depth, strtod).Failed? then Failed
               else if close[0] == '}' then Parsed([m], close[1..])
               else
                 var more := ParseMembers(close[1..], depth, strtod);
                 if more.Failed? then Failed else Parsed([m] + more.value, more.rest)
  {
    hide ParseValue, ParseString, Skip;
  }

  /** A member and what closes it. */
  lemma MemberIsRead(u: string, m: Member, close: string, depth: nat, strtod: Conversion)
    returns (colon: string)
    requires WritesMember(u, m, strtod) && Closes(close) && depth <= NESTING_LIMIT
    ensures colon != [] && colon[0] == ':'
    ensures var r := ParseString(Skip(u + close)); r.Parsed? && r.value == m.key && Skip(r.rest) == colon
    ensures var r := ParseValue(Skip(colon[1..]), depth, strtod);
            && (r.Parsed? <==> Within(m.value, NESTING_LIMIT - depth))
            && (r.Parsed? ==> r.value == m.value && Skip(r.rest) == close)
    ensures var p := Skip(u + close); p != [] && p[0] == '"'
    decreases m, 0
  {
    hide *;
    var k := MemberParts(u, m, strtod);
    colon := [u[k]] + (u[k + 1..] + close);
    Cut(u, k, close);
    NameIsRead(u[..k], m.key, colon);
    PaddedIsRead(u[k + 1..], m.value, close, depth, strtod);
  }

  /** The text of the members and the closing brace. */
  lemma {:induction false} MembersAreRead(u: string, ms: seq<Member>, rest: string, depth: nat, strtod: Conversion)
    requires ms != [] && WritesMembers(u, ms, strtod) && depth <= NESTING_LIMIT
    ensures ParseMembers(u + (['}'] + rest), depth, strtod)
            == Outcome(MembersWithin(ms, NESTING_LIMIT - depth), ms, rest)
    ensures var p := Skip(u + (['}'] + rest)); p != [] && p[0] != '}'
    decreases ms, 0
  {
    var end, n := ['}'] + rest, NESTING_LIMIT - depth;
    hide *;
    var k := MembersParts(u, ms, strtod);
    MembersWithinHead(ms, n);
    OutcomeIs(MembersWithin(ms, n), ms, rest);
    if |ms| == 1 {
      BracketCloses(rest);
      var colon := MemberIsRead(u, ms[0], end, depth, strtod);
      MemberRead(u + end, ms[0], colon, end, depth, strtod);
      assert ms == [ms[0]];
    } else {
      var close := [u[k]] + (u[k + 1..] + end);
      Cut(u, k, end);
      CommaCloses(close);
      var colon := MemberIsRead(u[..k], ms[0], close, depth, strtod);
      MemberRead(u + end, ms[0], colon, close, depth, strtod);
      MembersAreRead(u[k + 1..], ms[1..], rest, depth, strtod);
      OutcomeIs(MembersWithin(ms[1..], n), ms[1..], rest);
      assert ms == [ms[0]] + ms[1..];
    }
  }

  // ----- whole texts -----

  lemma {:induction false} CStringWhole(s: string)
    requires Terminated(s)
    ensures CString(s) == s
  {
    if s != [] {
      CStringWhole(s[1..]);
      assert s == [s[0]] + s[1..];
    }
  }

  /** Skipping ends at the terminating NUL exactly when there are blanks only. */
  lemma {:induction false} SkipToEnd(more: string)
    requires Terminated(more)
    ensures var p := Skip(more + [0 as char]); p != [] && (p[0] == 0 as char <==> Blanks(more))
  {
    var s := more + [0 as char];
    if more == [] {
      assert s == [0 as char];
    } else if more[0] <= ' ' {
      assert s[1..] == more[1..] + [0 as char];
      SkipToEnd(more[1..]);
      assert Blanks(more) <==> Blanks(more[1..]) by {
        if Blanks(more[1..]) {
          assert forall i :: 1 <= i < |more| ==> more[i] == more[1..][i - 1];
        }
      }
    }
  }

  /** A text before which there may be a byte order mark. */
  function Marked(mark: bool, text: string): string {
    if mark then BOM + text else text
  }

  lemma MarkSkipped(mark: bool, text: string, requireEnd: bool, strtod: Conversion)
    requires Terminated(Marked(mark, text)) && text != [] && text[0] < 0x80 as char
    ensures ParseText(Marked(mark, text), requireEnd, strtod)
            == var value := ParseValue(Skip(text + [0 as char]), 0, strtod);
               if value.Failed? then None
               else
                 var end := Skip(value.rest);
                 if requireEnd && (end == [] || end[0] != 0 as char) then None else Some(value.value)
  {
    CStringWhole(Marked(mark, text));
    hide ParseValue, Skip, CString;
    var buffer := Marked(mark, text) + [0 as char];
    if mark {
      assert buffer == BOM + (text + [0 as char]);
      assert buffer[3..] == text + [0 as char];
    } else {
      assert buffer[0] == text[0] && BOM[0] == 0xEF as char;
    }
  }

  /**
   * Every text that writes a tree, behind a byte order mark or not and after any blanks, is read as that tree, unless it
   * is nested deeper than the limit. What follows it may be anything, or, where the end is required, blanks only.
   */
  lemma TextIsRead(mark: bool, b: string, t: string, more: string, j: Json, requireEnd: bool, strtod: Conversion)
    requires Terminated(Marked(mark, b + (t + more))) && Blanks(b) && Writes(t, j, strtod)
    requires j.Number? ==> Follows(more + [0 as char])
    ensures ParseText(Marked(mark, b + (t + more)), requireEnd, strtod)
            == if Within(j, NESTING_LIMIT) && (requireEnd ==> Blanks(more)) then Some(j) else None
  {
    var text, end := b + (t + more), more + [0 as char];
    FirstCharacter(t, j, strtod);
    assert text[0] == if b == [] then t[0] else b[0];
    assert text[0] < 0x80 as char;
    assert text + [0 as char] == b + (t + end);
    TailTerminated(mark, b, t, more);
    hide *;
    MarkSkipped(mark, text, requireEnd, strtod);
    SkipBlanks(b, t + end);
    WrittenIsRead(t, j, end, 0, strtod);
    OutcomeIs(Within(j, NESTING_LIMIT), j, end);
    SkipToEnd(more);
  }

  lemma TailTerminated(mark: bool, b: string, t: string, more: string)
    requires Terminated(Marked(mark, b + (t + more)))
    ensures Terminated(more)
  {
    var text := Marked(mark, b + (t + more));
    assert forall i :: 0 <= i < |more| ==> more[i] == text[|text| - |more| + i];
  }
}
