/** Parsing undoes printing: what the printer writes is one of the texts that write the tree. */
module JsonRoundTrip {
  import opened Basics
  import opened Json
  import opened JsonPointer
  import opened JsonText
  import opened JsonSpelling
  import opened JsonGrammar

  // ----- strings and numbers -----

  lemma PrintedString(x: string)
    requires Terminated(x)
    ensures Quoted(PrintString(x), x)
  {
    EscapeSpells(x);
    CStringWhole(x);
    hide Spelling, Escape;
    assert PrintString(x)[1..|PrintString(x)| - 1] == Escape(x);
  }

  /** A printed string reads back as that string. */
  lemma StringBack(x: string, rest: string)
    requires Terminated(x)
    ensures ParseString(PrintString(x) + rest) == Parsed(x, rest)
  {
    PrintedString(x);
    QuotedIsRead(PrintString(x), x, rest);
  }

  function Tens(k: nat): nat {
    if k == 0 then 1 else 10 * Tens(k - 1)
  }

  lemma {:induction false} DecimalLength(n: nat, k: nat)
    requires k > 0 && n < Tens(k)
    ensures |Decimal(n)| <= k
    decreases k
  {
    if n >= 10 {
      assert k > 1;
      DecimalLength(n / 10, k - 1);
    }
  }

  lemma PrintedNumeral(n: int, strtod: Conversion)
    requires Int32(n) && ReadsIntegers(strtod)
    ensures Numeral(NumberText(n), n, strtod)
  {
    var m := if n < 0 then -n else n;
    assert Tens(10) == 10 * Tens(9) && Tens(9) == 10 * Tens(8) && Tens(8) == 10 * Tens(7) && Tens(7) == 10 * Tens(6)
        && Tens(6) == 10 * Tens(5) && Tens(5) == 10 * Tens(4) && Tens(4) == 10 * Tens(3) && Tens(3) == 10 * Tens(2)
          && Tens(2) == 100;
    DecimalLength(m, 10);
    DecimalDigits(m);
    hide Decimal, Tens;
  }

  /** A printed integer is followed by something that is not part of a number, and reads back. */
  lemma NumberBack(n: int, rest: string, strtod: Conversion)
    requires Int32(n) && ReadsIntegers(strtod) && rest != [] && !NumberChar(rest[0])
    ensures ParseNumber(NumberText(n) + rest, strtod) == Parsed(Number(n), rest)
  {
    PrintedNumeral(n, strtod);
    NumeralIsRead(NumberText(n), n, rest, strtod);
  }

  // ----- the text of a value is one of those that write it -----

  /** Trees the parser can give back as they are. */
  ghost predicate Readable(j: Json) {
    Printable(j) && Intact(j)
  }

  ghost predicate ItemsReadable(items: seq<Json>, whole: Json) {
    forall i :: 0 <= i < |items| ==> items[i] < whole && Readable(items[i])
  }

  ghost predicate MembersReadable(ms: seq<Member>, whole: Json) {
    forall i :: 0 <= i < |ms| ==> ms[i].value < whole && Terminated(ms[i].key) && Readable(ms[i].value)
  }

  lemma PadIs(b: string, t: string, c: string, j: Json, strtod: Conversion)
    requires Blanks(b) && Blanks(c) && Writes(t, j, strtod)
    ensures Padded(b + t + c, j, strtod)
  {
    var u, e := b + t + c, |b| + |t|;
    assert u[..|b|] == b && u[|b|..e] == t && u[e..] == c;
    hide Writes, Blanks;
  }

  lemma MemberIs(b: string, m: Member, tab: string, t: string, c: string, strtod: Conversion)
    requires Blanks(b) && Blanks(tab) && Blanks(c) && Terminated(m.key) && Writes(t, m.value, strtod)
    ensures WritesMember(b + PrintString(m.key) + ":" + (tab + t + c), m, strtod)
  {
    hide *;
    PrintedString(m.key);
    NamePadded(b, PrintString(m.key), m.key);
    PadIs(tab, t, c, m.value, strtod);
    Colon(b + PrintString(m.key), tab + t + c, m, strtod);
  }

  lemma NamePadded(b: string, t: string, name: string)
    requires Blanks(b) && Quoted(t, name)
    ensures PaddedName(b + t, name)
  {
    var u := b + t;
    assert u[..|b|] == b && u[|b|..|u|] == t && u[|u|..] == [];
    hide Quoted;
  }

  lemma Colon(name: string, value: string, m: Member, strtod: Conversion)
    requires PaddedName(name, m.key) && Padded(value, m.value, strtod)
    ensures WritesMember(name + ":" + value, m, strtod)
  {
    hide PaddedName, Padded;
    var u, k := name + ":" + value, |name|;
    assert u[..k] == name && u[k] == ':' && u[k + 1..] == value;
  }

  lemma NoBlanks()
    ensures Blanks([]) && Blanks(" ") && Blanks("\n") && Blanks("\t")
  {
  }

  /** Commas between elements, a space behind them when formatted. */
  lemma {:induction false} ItemsWrite(items: seq<Json>, whole: Json, b: string, tabs: nat, format: bool,
                                      strtod: Conversion)
    requires items != [] && ItemsReadable(items, whole) && Blanks(b) && ReadsIntegers(strtod)
    ensures WritesItems(b + PrintItems(items, tabs, format), items, strtod)
    decreases whole, 0, |items|
  {
    ItemsReadableParts(items, whole);
    ItemsText(items, b, tabs, format);
    var first := Print(items[0], tabs, format);
    hide *;
    NoBlanks();
    PrintWrites(items[0], tabs, format, strtod);
    PadIs(b, first, [], items[0], strtod);
    if |items| == 1 {
      OneItem(b + first + [], items, strtod);
    } else {
      ItemsWrite(items[1..], whole, Space(format), tabs, format, strtod);
      SpaceBlank(format);
      MoreItems(b + first + [], Space(format) + PrintItems(items[1..], tabs, format), items, strtod);
    }
  }

  function Space(format: bool): string {
    if format then " " else ""
  }

  lemma SpaceBlank(format: bool)
    ensures Blanks(Space(format))
  {
  }

  lemma ItemsReadableParts(items: seq<Json>, whole: Json)
    requires items != [] && ItemsReadable(items, whole)
    ensures items[0] < whole && Readable(items[0]) && ItemsReadable(items[1..], whole)
  {
    hide Readable;
  }

  lemma ItemsText(items: seq<Json>, b: string, tabs: nat, format: bool)
    requires items != []
    ensures var first := b + Print(items[0], tabs, format) + [];
            b + PrintItems(items, tabs, format)
            == if |items| == 1 then first else first + "," + (Space(format) + PrintItems(items[1..], tabs, format))
  {
    var first, more := Print(items[0], tabs, format), PrintItems(items[1..], tabs, format);
    var separator := if |items| == 1 then "" else if format then ", " else ",";
    assert PrintItems(items, tabs, format) == first + separator + more;
    assert |items| > 1 ==> separator == "," + Space(format);
    assert |items| == 1 ==> more == [];
    hide *;
    FirstAndMore(b, first, Space(format), more);
    assert |items| == 1 ==> b + (first + "" + []) == b + first + [];
  }

  lemma FirstAndMore(b: string, first: string, space: string, more: string)
    ensures b + (first + ("," + space) + more) == b + first + [] + "," + (space + more)
  {
  }

  lemma OneItem(u: string, items: seq<Json>, strtod: Conversion)
    requires |items| == 1 && Padded(u, items[0], strtod)
    ensures WritesItems(u, items, strtod)
  {
    hide Padded;
  }

  lemma MoreItems(first: string, more: string, items: seq<Json>, strtod: Conversion)
    requires |items| > 1 && Padded(first, items[0], strtod) && WritesItems(more, items[1..], strtod)
    ensures WritesItems(first + "," + more, items, strtod)
  {
    hide Padded;
    var u, k := first + "," + more, |first|;
    assert u[..k] == first && u[k] == ',' && u[k + 1..] == more;
  }

  lemma {:induction false} MembersWrite(ms: seq<Member>, whole: Json, b: string, c: string, tabs: nat, format: bool,
                                        strtod: Conversion)
    requires ms != [] && MembersReadable(ms, whole) && Blanks(b) && Blanks(c) && ReadsIntegers(strtod)
    ensures WritesMembers(b + PrintMembers(ms, tabs, format) + c, ms, strtod)
    decreases whole, 0, |ms|
  {
    MembersReadableParts(ms, whole);
    MembersText(ms, b, c, tabs, format);
    BlanksAround(b, c, tabs, format);
    hide *;
    PrintWrites(ms[0].value, tabs, format, strtod);
    if |ms| == 1 {
      MemberIs(b + Indent(tabs, format), ms[0], Tab(format), Print(ms[0].value, tabs, format), Newline(format) + c,
        strtod);
      OneMember(MemberText(ms[0], b, Newline(format) + c, tabs, format), ms, strtod);
    } else {
      MemberIs(b + Indent(tabs, format), ms[0], Tab(format), Print(ms[0].value, tabs, format), [], strtod);
      MembersWrite(ms[1..], whole, Newline(format), c, tabs, format, strtod);
      MoreMembers(MemberText(ms[0], b, [], tabs, format), Newline(format) + PrintMembers(ms[1..], tabs, format) + c, ms,
                  strtod);
    }
  }

  function Indent(tabs: nat, format: bool): string {
    if format then Tabs(tabs) else ""
  }

  function Newline(format: bool): string {
    if format then "\n" else ""
  }

  function Tab(format: bool): string {
    if format then "\t" else ""
  }

  /** A member between blanks. */
  function MemberText(m: Member, b: string, c: string, tabs: nat, format: bool): string {
    (b + Indent(tabs, format)) + PrintString(m.key) + ":" + (Tab(format) + Print(m.value, tabs, format) + c)
  }

  lemma BlanksAround(b: string, c: string, tabs: nat, format: bool)
    requires Blanks(b) && Blanks(c)
    ensures Blanks(b + Indent(tabs, format)) && Blanks(Newline(format) + c) && Blanks(Newline(format))
    ensures Blanks(Tab(format)) && Blanks([])
  {
  }

  lemma MembersReadableParts(ms: seq<Member>, whole: Json)
    requires ms != [] && MembersReadable(ms, whole)
    ensures ms[0].value < whole && Terminated(ms[0].key) && Readable(ms[0].value) && MembersReadable(ms[1..], whole)
  {
    hide Readable;
  }

  lemma MembersText(ms: seq<Member>, b: string, c: string, tabs: nat, format: bool)
    requires ms != []
    ensures b + PrintMembers(ms, tabs, format) + c
            == if |ms| == 1 then MemberText(ms[0], b, Newline(format) + c, tabs, format)
               else
                 MemberText(ms[0], b, [], tabs, format) + ","
                 + (Newline(format) + PrintMembers(ms[1..], tabs, format) + c)
  {
    var key, value, more := PrintString(ms[0].key), Print(ms[0].value, tabs, format),
      PrintMembers(ms[1..], tabs, format);
    var separator := if |ms| == 1 then "" else ",";
    FirstMember(ms, tabs, format);
    assert |ms| == 1 ==> more == [];
    hide *;
    MemberTextIs(ms[0], b, [], tabs, format);
    MemberTextIs(ms[0], b, Newline(format) + c, tabs, format);
    if |ms| == 1 {
      LastParts(b, Indent(tabs, format), key, Tab(format), value, Newline(format), c);
    } else {
      MoreParts(b, Indent(tabs, format), key, Tab(format), value, Newline(format), more, c);
    }
  }

  lemma MemberTextIs(m: Member, b: string, c: string, tabs: nat, format: bool)
    ensures MemberText(m, b, c, tabs, format)
            == (b + Indent(tabs, format)) + PrintString(m.key) + ":" + (Tab(format) + Print(m.value, tabs, format) + c)
  {
  }

  lemma FirstMember(ms: seq<Member>, tabs: nat, format: bool)
    requires ms != []
    ensures PrintMembers(ms, tabs, format)
            == Indent(tabs, format) + PrintString(ms[0].key) + (":" + Tab(format)) + Print(ms[0].value, tabs, format)
               + (if |ms| == 1 then "" else ",") + Newline(format) + PrintMembers(ms[1..], tabs, format)
  {
    hide Print, PrintString, Tabs;
    assert PrintMembers(ms, tabs, format)
           == PrintMember(ms[0], |ms| == 1, tabs, format) + PrintMembers(ms[1..], tabs, format);
    hide PrintMembers;
    assert (if format then ":\t" else ":") == ":" + Tab(format);
  }

  lemma LastParts(b: string, indent: string, key: string, tab: string, value: string, nl: string, c: string)
    ensures b + (indent + key + (":" + tab) + value + "" + nl + []) + c
            == (b + indent) + key + ":" + (tab + value + (nl + c))
  {
  }

  lemma MoreParts(b: string, indent: string, key: string, tab: string, value: string, nl: string, more: string,
                  c: string)
    ensures b + (indent + key + (":" + tab) + value + "," + nl + more) + c
            == (b + indent) + key + ":" + (tab + value + []) + "," + (nl + more + c)
  {
  }

  lemma OneMember(u: string, ms: seq<Member>, strtod: Conversion)
    requires |ms| == 1 && WritesMember(u, ms[0], strtod)
    ensures WritesMembers(u, ms, strtod)
  {
    hide WritesMember;
  }

  lemma MoreMembers(first: string, more: string, ms: seq<Member>, strtod: Conversion)
    requires |ms| > 1 && WritesMember(first, ms[0], strtod) && WritesMembers(more, ms[1..], strtod)
    ensures WritesMembers(first + "," + more, ms, strtod)
  {
    hide WritesMember;
    var u, k := first + "," + more, |first|;
    assert u[..k] == first && u[k] == ',' && u[k + 1..] == more;
  }

  lemma {:induction false} PrintWrites(j: Json, tabs: nat, format: bool, strtod: Conversion)
    requires Readable(j) && ReadsIntegers(strtod)
    ensures Writes(Print(j, tabs, format), j, strtod)
    decreases j, 1
  {
    match j
    case Number(n) => PrintedNumeral(n, strtod);
    case String(s) => PrintedString(s);
    case Array(items) => ArrayWrites(j, tabs, format, strtod);
    case Object(ms, _) => ObjectWrites(j, tabs, format, strtod);
    case _ =>
  }

  lemma ArrayWrites(j: Json, tabs: nat, format: bool, strtod: Conversion)
    requires j.Array? && Readable(j) && ReadsIntegers(strtod)
    ensures Writes(Print(j, tabs, format), j, strtod)
    decreases j, 0, |j.items| + 1
  {
    hide *;
    ArrayReadable(j);
    ArrayText(j, tabs, format);
    NoBlanks();
    if j.items != [] {
      ItemsWrite(j.items, j, [], tabs + 1, format, strtod);
      assert [] + PrintItems(j.items, tabs + 1, format) == PrintItems(j.items, tabs + 1, format);
    } else {
      EmptyItems(tabs + 1, format);
    }
    BracketsWrite(Print(j, tabs, format), j, strtod);
  }

  lemma EmptyItems(tabs: nat, format: bool)
    ensures PrintItems([], tabs, format) == []
  {
  }

  lemma ArrayReadable(j: Json)
    requires j.Array? && Readable(j)
    ensures ItemsReadable(j.items, j)
  {
  }

  lemma ArrayText(j: Json, tabs: nat, format: bool)
    requires j.Array?
    ensures var t := Print(j, tabs, format);
            && |t| >= 2 && t[0] == '[' && t[|t| - 1] == ']'
            && t[1..|t| - 1] == PrintItems(j.items, tabs + 1, format)
  {
    hide PrintItems;
    var u := PrintItems(j.items, tabs + 1, format);
    assert ("[" + u + "]")[1..|u| + 1] == u;
  }

  lemma BracketsWrite(t: string, j: Json, strtod: Conversion)
    requires j.Array? && |t| >= 2 && t[0] == '[' && t[|t| - 1] == ']'
    requires if j.items == [] then Blanks(t[1..|t| - 1]) else WritesItems(t[1..|t| - 1], j.items, strtod)
    ensures Writes(t, j, strtod)
  {
    hide Blanks, WritesItems;
  }

  lemma ObjectWrites(j: Json, tabs: nat, format: bool, strtod: Conversion)
    requires j.Object? && Readable(j) && ReadsIntegers(strtod)
    ensures Writes(Print(j, tabs, format), j, strtod)
    decreases j, 0, |j.members| + 1
  {
    hide *;
    var t := Print(j, tabs, format);
    var front, u, back := Newline(format), PrintMembers(j.members, tabs + 1, format), Indent(tabs, format);
    ObjectReadable(j);
    ObjectText(j, tabs, format);
    NoBlanks();
    BlanksAround([], [], tabs, format);
    assert [] + back == back;
    if j.members != [] {
      MembersWrite(j.members, j, front, back, tabs + 1, format, strtod);
    } else {
      EmptyMembers(tabs + 1, format);
      BlanksAround(front, [], tabs, format);
      assert front + [] + back == front + back;
    }
    BracesWrite(t, j, strtod);
  }

  lemma EmptyMembers(tabs: nat, format: bool)
    ensures PrintMembers([], tabs, format) == []
  {
  }

  lemma ObjectReadable(j: Json)
    requires j.Object? && Readable(j)
    ensures j == Object(j.members) && MembersReadable(j.members, j)
  {
  }

  lemma BracesWrite(t: string, j: Json, strtod: Conversion)
    requires j.Object? && j == Object(j.members) && |t| >= 2 && t[0] == '{' && t[|t| - 1] == '}'
    requires if j.members == [] then Blanks(t[1..|t| - 1]) else WritesMembers(t[1..|t| - 1], j.members, strtod)
    ensures Writes(t, j, strtod)
  {
    hide Blanks, WritesMembers;
  }

  lemma ObjectText(j: Json, tabs: nat, format: bool)
    requires j.Object?
    ensures var t := Print(j, tabs, format);
            && |t| >= 2 && t[0] == '{' && t[|t| - 1] == '}'
            && t[1..|t| - 1] == Newline(format) + PrintMembers(j.members, tabs + 1, format) + Indent(tabs, format)
  {
    hide PrintMembers, Tabs;
    var u := Newline(format) + PrintMembers(j.members, tabs + 1, format) + Indent(tabs, format);
    assert Print(j, tabs, format) == "{" + u + "}";
    assert ("{" + u + "}")[1..|u| + 1] == u;
  }

  /** Reading the text of a value gives the value back and stops right after it, formatted or not, at any indentation;
      it fails exactly for values nested too deep. */
  lemma ReadBack(j: Json, tabs: nat, format: bool, rest: string, depth: nat, strtod: Conversion)
    requires Printable(j) && Intact(j) && depth <= NESTING_LIMIT && ReadsIntegers(strtod)
    requires j.Number? ==> Follows(rest)
    ensures ParseValue(Print(j, tabs, format) + rest, depth, strtod)
            == Outcome(Within(j, NESTING_LIMIT - depth), j, rest)
  {
    assert Readable(j);
    hide *;
    PrintWrites(j, tabs, format, strtod);
    WrittenIsRead(Print(j, tabs, format), j, rest, depth, strtod);
  }

  // ----- whole texts -----

  lemma {:induction false} EscapeTerminated(s: string)
    requires Terminated(s)
    ensures Terminated(Escape(s))
  {
    if s != [] {
      EscapeTerminated(s[1..]);
      var c := s[0];
      assert c in s;
      assert Terminated(EscapeChar(c)) by {
        EscapeCharTerminated(c);
      }
      hide EscapeChar;
    }
  }

  lemma EscapeCharTerminated(c: char)
    requires c != '\0'
    ensures Terminated(EscapeChar(c))
  {
    if c < ' ' {
      assert HexChar(c as int / 16) != '\0' && HexChar(c as int % 16) != '\0';
      hide HexChar;
    }
  }

  lemma NumberTerminated(n: int)
    ensures Terminated(NumberText(n))
  {
  }

  /** The text of a printable value is a C string. */
  lemma {:induction false} PrintTerminated(j: Json, tabs: nat, format: bool)
    requires Printable(j)
    ensures Terminated(Print(j, tabs, format))
    decreases j, 1, 0
  {
    match j
    case Number(n) => NumberTerminated(n);
    case String(s) => EscapeTerminated(s);
    case Array(items) => ItemsTerminated(items, j, tabs + 1, format);
    case Object(ms, _) =>
      MembersTerminated(ms, j, tabs + 1, format);
      hide PrintMembers;
    case _ =>
  }

  lemma {:induction false} ItemsTerminated(items: seq<Json>, whole: Json, tabs: nat, format: bool)
    requires forall i :: 0 <= i < |items| ==> items[i] < whole && Printable(items[i])
    ensures Terminated(PrintItems(items, tabs, format))
    decreases whole, 0, |items|
  {
    if items != [] {
      PrintTerminated(items[0], tabs, format);
      ItemsTerminated(items[1..], whole, tabs, format);
      hide Print;
    }
  }

  lemma {:induction false} MembersTerminated(ms: seq<Member>, whole: Json, tabs: nat, format: bool)
    requires forall i :: 0 <= i < |ms| ==> ms[i].value < whole && Terminated(ms[i].key) && Printable(ms[i].value)
    ensures Terminated(PrintMembers(ms, tabs, format))
    decreases whole, 0, |ms|
  {
    if ms != [] {
      PrintTerminated(ms[0].value, tabs, format);
      EscapeTerminated(ms[0].key);
      MembersTerminated(ms[1..], whole, tabs, format);
      hide Print, Escape;
    }
  }

  // ----- the hidden pointers of a tree are not printed -----

  lemma {:induction false} PrintCopy(j: Json, tabs: nat, format: bool)
    ensures Print(Duplicate(j), tabs, format) == Print(j, tabs, format)
    ensures Printable(Duplicate(j)) <==> Printable(j)
    decreases j, 1, 0
  {
    match j
    case Array(items) => ItemsCopy(items, j, tabs + 1, format);
    case Object(ms, _) =>
      MembersCopy(ms, j, tabs + 1, format);
      hide PrintMembers, Tabs;
    case _ =>
  }

  lemma {:induction false} ItemsCopy(items: seq<Json>, whole: Json, tabs: nat, format: bool)
    requires forall i :: 0 <= i < |items| ==> items[i] < whole
    ensures PrintItems(DuplicateItems(items), tabs, format) == PrintItems(items, tabs, format)
    ensures forall i :: 0 <= i < |items| ==> (Printable(DuplicateItems(items)[i]) <==> Printable(items[i]))
    decreases whole, 0, |items|
  {
    if items != [] {
      PrintCopy(items[0], tabs, format);
      ItemsCopy(items[1..], whole, tabs, format);
      hide Print, Printable, Duplicate;
      assert DuplicateItems(items)[1..] == DuplicateItems(items[1..]);
      assert forall i :: 0 < i < |items| ==> items[i] == items[1..][i - 1];
    }
  }

  lemma {:induction false} MembersCopy(ms: seq<Member>, whole: Json, tabs: nat, format: bool)
    requires forall i :: 0 <= i < |ms| ==> ms[i].value < whole
    ensures PrintMembers(DuplicateMembers(ms), tabs, format) == PrintMembers(ms, tabs, format)
    ensures forall i :: 0 <= i < |ms| ==> (Printable(DuplicateMembers(ms)[i].value) <==> Printable(ms[i].value))
    decreases whole, 0, |ms|
  {
    if ms != [] {
      PrintCopy(ms[0].value, tabs, format);
      MembersCopy(ms[1..], whole, tabs, format);
      hide Print, Printable, Duplicate, PrintString, Tabs;
      assert DuplicateMembers(ms)[1..] == DuplicateMembers(ms[1..]);
      assert forall i :: 0 < i < |ms| ==> ms[i] == ms[1..][i - 1];
    }
  }

  lemma {:induction false} WithinCopy(j: Json, n: nat)
    ensures Within(Duplicate(j), n) <==> Within(j, n)
    decreases j
  {
    if n > 0 {
      match j
      case Array(items) =>
        forall i | 0 <= i < |items|
          ensures Within(DuplicateItems(items)[i], n - 1) <==> Within(items[i], n - 1)
        {
          WithinCopy(items[i], n - 1);
        }
      case Object(ms, _) =>
        forall i | 0 <= i < |ms|
          ensures Within(DuplicateMembers(ms)[i].value, n - 1) <==> Within(ms[i].value, n - 1)
        {
          WithinCopy(ms[i].value, n - 1);
        }
      case _ =>
    }
  }

  lemma ParsePrintIntact(j: Json, format: bool, requireEnd: bool, strtod: Conversion)
    requires Printable(j) && Intact(j) && ReadsIntegers(strtod)
    ensures ParseText(Print(j, 0, format), requireEnd, strtod) == if Within(j, NESTING_LIMIT) then Some(j) else None
  {
    var t := Print(j, 0, format);
    assert Readable(j) && Follows([] + [0 as char]);
    assert [] + (t + []) == t && Marked(false, t) == t;
    PrintTerminated(j, 0, format);
    hide *;
    NoBlanks();
    PrintWrites(j, 0, format, strtod);
    TextIsRead(false, [], t, [], j, requireEnd, strtod);
  }

  /** Printing a value, formatted or not, and parsing the text gives a copy of the value, member order included: the value
      itself, unless an earlier sort has displaced a hidden pointer. The parser refuses the text exactly when the value is
      nested deeper than its limit. */
  lemma ParsePrint(j: Json, format: bool, requireEnd: bool, strtod: Conversion)
    requires Printable(j) && ReadsIntegers(strtod)
    ensures ParseText(Print(j, 0, format), requireEnd, strtod) == if Within(j, NESTING_LIMIT) then Some(Duplicate(j))
            else None
    ensures Intact(j) ==> Duplicate(j) == j
  {
    PrintCopy(j, 0, format);
    WithinCopy(j, NESTING_LIMIT);
    DuplicateSame(j);
    hide *;
    ParsePrintIntact(Duplicate(j), format, requireEnd, strtod);
  }

  // ----- accepted texts -----

  /** What is asked of the conversion besides: the value stored is a 32-bit integer. */
  ghost predicate YieldsIntegers(strtod: Conversion) {
    forall s :: Int32(strtod(s).value)
  }

  ghost predicate Acceptable(j: Json, n: nat) {
    Printable(j) && Intact(j) && Within(j, n)
  }

  ghost predicate AcceptableItems(items: seq<Json>, n: nat) {
    forall i :: 0 <= i < |items| ==> Acceptable(items[i], n)
  }

  ghost predicate AcceptableMembers(ms: seq<Member>, n: nat) {
    forall i :: 0 <= i < |ms| ==> Terminated(ms[i].key) && Acceptable(ms[i].value, n)
  }

  lemma AcceptableArray(items: seq<Json>, n: nat)
    requires n > 0 && AcceptableItems(items, n - 1)
    ensures Acceptable(Array(items), n)
  {
  }

  lemma AcceptableObject(ms: seq<Member>, n: nat)
    requires n > 0 && AcceptableMembers(ms, n - 1)
    ensures Acceptable(Object(ms), n)
  {
  }

  lemma OneMoreItem(x: Json, items: seq<Json>, n: nat)
    requires Acceptable(x, n)
    ensures AcceptableItems([x], n) && (AcceptableItems(items, n) ==> AcceptableItems([x] + items, n))
  {
    hide Acceptable;
  }

  lemma OneMoreMember(m: Member, ms: seq<Member>, n: nat)
    requires Terminated(m.key) && Acceptable(m.value, n)
    ensures AcceptableMembers([m], n) && (AcceptableMembers(ms, n) ==> AcceptableMembers([m] + ms, n))
  {
    hide Acceptable;
  }

  /** Every tree the parser accepts can be printed and is nested no deeper than the limit. */
  lemma {:induction false} AcceptedValue(s: string, depth: nat, strtod: Conversion)
    requires YieldsIntegers(strtod) && depth <= NESTING_LIMIT
    ensures var r := ParseValue(s, depth, strtod);
            r.Parsed? ==> Acceptable(r.value, NESTING_LIMIT - depth)
    decreases |s|, 3
  {
    hide *;
    if s != [] && s[0] == '[' {
      AcceptedArray(s, depth, strtod);
    } else if s != [] && s[0] == '{' {
      AcceptedObject(s, depth, strtod);
    } else {
      AcceptedPlain(s, depth, strtod);
    }
  }

  lemma AcceptedPlain(s: string, depth: nat, strtod: Conversion)
    requires YieldsIntegers(strtod) && depth <= NESTING_LIMIT && (s == [] || (s[0] != '[' && s[0] != '{'))
    ensures var r := ParseValue(s, depth, strtod);
            r.Parsed? ==> Acceptable(r.value, NESTING_LIMIT - depth)
  {
    NameTerminated(s);
    hide ParseString, NumberRun;
  }

  lemma BracketedParts(s: string, depth: nat, strtod: Conversion)
    requires s != [] && s[0] == '[' && ParseValue(s, depth, strtod).Parsed?
    ensures var j, p := ParseValue(s, depth, strtod).value, Skip(s[1..]);
            && depth < NESTING_LIMIT && |p| < |s|
            && (j == Array([]) || (var r := ParseItems(p, depth + 1, strtod); r.Parsed? && j == Array(r.value)))
  {
    BracketedValue(s, depth, strtod);
    hide Skip, ParseItems, ParseValue;
  }

  lemma AcceptedArray(s: string, depth: nat, strtod: Conversion)
    requires YieldsIntegers(strtod) && depth <= NESTING_LIMIT && s != [] && s[0] == '['
    ensures var r := ParseValue(s, depth, strtod);
            r.Parsed? ==> Acceptable(r.value, NESTING_LIMIT - depth)
    decreases |s|, 2
  {
    hide *;
    if ParseValue(s, depth, strtod).Parsed? {
      BracketedParts(s, depth, strtod);
      var p := Skip(s[1..]);
      NothingRead(NESTING_LIMIT - depth - 1);
      AcceptableArray([], NESTING_LIMIT - depth);
      AcceptedItems(p, depth + 1, strtod);
      var r := ParseItems(p, depth + 1, strtod);
      if r.Parsed? {
        AcceptableArray(r.value, NESTING_LIMIT - depth);
      }
    }
  }

  lemma NothingRead(n: nat)
    ensures AcceptableItems([], n) && AcceptableMembers([], n)
  {
  }

  lemma BracedParts(s: string, depth: nat, strtod: Conversion)
    requires s != [] && s[0] == '{' && ParseValue(s, depth, strtod).Parsed?
    ensures var j, p := ParseValue(s, depth, strtod).value, Skip(s[1..]);
            && depth < NESTING_LIMIT && |p| < |s|
            && (j == Object([]) || (var r := ParseMembers(p, depth + 1, strtod); r.Parsed? && j == Object(r.value)))
  {
    BracedValue(s, depth, strtod);
    hide Skip, ParseMembers, ParseValue;
  }

  lemma AcceptedObject(s: string, depth: nat, strtod: Conversion)
    requires YieldsIntegers(strtod) && depth <= NESTING_LIMIT && s != [] && s[0] == '{'
    ensures var r := ParseValue(s, depth, strtod);
            r.Parsed? ==> Acceptable(r.value, NESTING_LIMIT - depth)
    decreases |s|, 2
  {
    hide *;
    if ParseValue(s, depth, strtod).Parsed? {
      BracedParts(s, depth, strtod);
      var p := Skip(s[1..]);
      NothingRead(NESTING_LIMIT - depth - 1);
      AcceptableObject([], NESTING_LIMIT - depth);
      AcceptedMembers(p, depth + 1, strtod);
      var r := ParseMembers(p, depth + 1, strtod);
      if r.Parsed? {
        AcceptableObject(r.value, NESTING_LIMIT - depth);
      }
    }
  }

  lemma {:induction false} AcceptedItems(s: string, depth: nat, strtod: Conversion)
    requires YieldsIntegers(strtod) && depth <= NESTING_LIMIT
    ensures var r := ParseItems(s, depth, strtod);
            r.Parsed? ==> AcceptableItems(r.value, NESTING_LIMIT - depth)
    decreases |s|, 4
  {
    hide Skip, ParseValue, Acceptable, AcceptableItems, YieldsIntegers;
    AcceptedValue(Skip(s), depth, strtod);
    var first := ParseValue(Skip(s), depth, strtod);
    if first.Parsed? {
      var p := Skip(first.rest);
      if p != [] && p[0] == ',' {
        AcceptedItems(p[1..], depth, strtod);
        var more := ParseItems(p[1..], depth, strtod);
        OneMoreItem(first.value, if more.Parsed? then more.value else [], NESTING_LIMIT - depth);
      } else {
        OneMoreItem(first.value, [], NESTING_LIMIT - depth);
      }
    }
  }

  lemma {:induction false} AcceptedMembers(s: string, depth: nat, strtod: Conversion)
    requires YieldsIntegers(strtod) && depth <= NESTING_LIMIT
    ensures var r := ParseMembers(s, depth, strtod);
            r.Parsed? ==> AcceptableMembers(r.value, NESTING_LIMIT - depth)
    decreases |s|, 4
  {
    hide Skip, ParseValue, ParseString, Acceptable, AcceptableMembers, YieldsIntegers, Terminated;
    var name := ParseString(Skip(s));
    if name.Parsed? {
      NameTerminated(Skip(s));
      var p := Skip(name.rest);
      if p != [] && p[0] == ':' {
        AcceptedValue(Skip(p[1..]), depth, strtod);
        var first := ParseValue(Skip(p[1..]), depth, strtod);
        if first.Parsed? {
          var q := Skip(first.rest);
          var m := Member(name.value, first.value);
          if q != [] && q[0] == ',' {
            AcceptedMembers(q[1..], depth, strtod);
            var more := ParseMembers(q[1..], depth, strtod);
            OneMoreMember(m, if more.Parsed? then more.value else [], NESTING_LIMIT - depth);
          } else {
            OneMoreMember(m, [], NESTING_LIMIT - depth);
          }
        }
      }
    }
  }

  lemma NameTerminated(s: string)
    ensures ParseString(s).Parsed? ==> Terminated(ParseString(s).value)
  {
    hide ScanEnd, Unescape;
  }

  /** Whatever text was accepted: printing what was read, formatted or not, gives a text that reads as the same tree. */
  lemma PrintParseFixed(text: string, requireEnd: bool, format: bool, again: bool, strtod: Conversion)
    requires YieldsIntegers(strtod) && ReadsIntegers(strtod) && ParseText(text, requireEnd, strtod).Some?
    ensures var j := ParseText(text, requireEnd, strtod).value;
            && Printable(j) && Within(j, NESTING_LIMIT)
            && ParseText(Print(j, 0, format), again, strtod) == Some(j)
  {
    hide ParseText, ParseValue, Print, Printable, Intact, Within, YieldsIntegers, ReadsIntegers;
    var s := ReadFrom(text, requireEnd, strtod);
    AcceptedValue(s, 0, strtod);
    ParsePrintIntact(ParseText(text, requireEnd, strtod).value, format, again, strtod);
  }

  /** Where the value of an accepted text is read. */
  lemma ReadFrom(text: string, requireEnd: bool, strtod: Conversion) returns (s: string)
    requires ParseText(text, requireEnd, strtod).Some?
    ensures ParseValue(s, 0, strtod).Parsed?
            && ParseValue(s, 0, strtod).value == ParseText(text, requireEnd, strtod).value
  {
    hide Skip, CString, ParseValue;
    var buffer := CString(text) + [0 as char];
    s := Skip(if |buffer| > 4 && BOM <= buffer then buffer[3..] else buffer);
  }

  /** A conversion that reads integers and nothing else. */
  function ReadInteger(s: string): Reading {
    var digits := if s != [] && s[0] == '-' then s[1..] else s;
    if digits == [] || !Digits(digits) then Reading(0, 0)
    else
      var n: int := if digits == s then Positional(digits) else 0 - Positional(digits) as int;
      if Int32(n) then Reading(n, |s|) else Reading(0, 0)
  }

  /** What is asked of the conversion can be met. */
  lemma ReadIntegerReads()
    ensures ReadsIntegers(ReadInteger) && YieldsIntegers(ReadInteger)
  {
    forall n | Int32(n)
      ensures ReadInteger(NumberText(n)) == Reading(n, |NumberText(n)|)
    {
      if n < 0 {
        DecimalDigits(-n);
        assert NumberText(n)[1..] == Decimal(-n);
      } else {
        DecimalDigits(n);
      }
      hide Decimal;
    }
  }
}
