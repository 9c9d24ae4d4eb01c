/** The printer: text appended to a buffer that grows or is given, with room asked for before every write. */
module JsonPrinter {
  import opened Basics
  import opened Json
  import opened JsonPointer
  import opened JsonText
  import opened JsonRoundTrip
  import opened JsonSpelling

  const INT_MAX := 0x7FFF_FFFF

  class PrintBuffer {
    var buffer: array<char>
    var length: nat
    var offset: nat
    var depth: nat
    const noalloc: bool
    const format: bool

    /** The offset is inside the buffer, unless the buffer is empty. */
    ghost predicate Valid()
      reads this, buffer
    {
      && length <= buffer.Length && length <= INT_MAX
      && (noalloc || length == buffer.Length)
      && (offset < length || (offset == 0 && length == 0))
    }

    /** The text finished so far. */
    ghost function Done(): string
      reads this, buffer
      requires offset <= buffer.Length
    {
      buffer[..offset]
    }

    /** The size the buffer can have at most. */
    ghost function Limit(): nat
      reads this`length
    {
      if noalloc then length else INT_MAX
    }

    /** What no step of the printer changes: a given buffer is kept, and nothing behind its length is written. */
    twostate predicate Kept()
      reads this, buffer
    {
      && (buffer == old(buffer) || (fresh(buffer) && !noalloc))
      && (noalloc ==> buffer == old(buffer) && length == old(length) && length <= buffer.Length
                      && buffer[length..] == old(buffer[length..]))
    }

    constructor (buffer: array<char>, length: nat, noalloc: bool, format: bool)
      requires length <= buffer.Length && length <= INT_MAX && (noalloc || length == buffer.Length)
      ensures Valid() && this.buffer == buffer && this.length == length && offset == 0 && depth == 0
      ensures this.noalloc == noalloc && this.format == format
    {
      this.buffer, this.length, this.noalloc, this.format := buffer, length, noalloc, format;
      offset, depth := 0, 0;
    }

    /** Room for `needed` more characters and one: there, made by growing to twice the size, or refused. */
    method Ensure(needed: nat) returns (ok: bool)
      requires Valid()
      modifies this`buffer, this`length
      ensures Valid() && Kept() && offset == old(offset) && Limit() == old(Limit())
      ensures ok <==> offset + needed + 1 <= Limit()
      ensures ok ==> offset + needed + 1 <= length && Done() == old(Done())
    {
      if (length > 0 && offset >= length) || needed > INT_MAX {
        return false;
      }
      var size := needed + offset + 1;
      if size <= length {
        return true;
      }
      if noalloc || size > INT_MAX {
        return false;
      }
      var newSize := if size > INT_MAX / 2 then INT_MAX else size * 2;
      var grown := new char[newSize];
      var kept := if length == 0 then 0 else offset + 1;
      var i := 0;
      while i < kept
        invariant i <= kept <= grown.Length && buffer == old(buffer) && length == old(length)
        invariant grown[..i] == old(buffer[..i])
      {
        grown[i] := buffer[i];
        i := i + 1;
      }
      buffer, length := grown, newSize;
      ok := true;
    }

    /** Writes a text at a position and perhaps a NUL behind it. */
    method Put(at: nat, s: string, nul: bool)
      requires Valid() && at + |s| + (if nul then 1 else 0) <= length
      modifies buffer
      ensures Valid() && Kept() && buffer[..at + |s|] == old(buffer[..at]) + s && (nul ==> buffer[at + |s|] == '\0')
    {
      var i := 0;
      while i < |s|
        invariant i <= |s| && (forall k :: 0 <= k < i ==> buffer[at + k] == s[k])
        invariant buffer[..at] == old(buffer[..at]) && buffer[length..] == old(buffer[length..])
      {
        buffer[at + i] := s[i];
        i := i + 1;
      }
      if nul {
        buffer[at + |s|] := '\0';
      }
      assert buffer[at..at + |s|] == s;
      assert buffer[..at + |s|] == buffer[..at] + buffer[at..at + |s|];
    }

    /** The buffer holds this text and its NUL, with one character to spare, from before the offset on. */
    ghost predicate Holds(text: string)
      reads this`buffer, this`length, this`offset, buffer
    {
      && |text| + 2 <= length <= buffer.Length && offset <= |text|
      && buffer[..|text|] == text && buffer[|text|] == '\0'
    }

    /** Asks for room, writes, and moves on. */
    method Emit(needed: nat, s: string, nul: bool, advance: bool) returns (ok: bool)
      requires Valid() && |s| + (if nul then 1 else 0) <= needed + 1 && (advance ==> |s| <= needed)
      modifies this`buffer, this`length, this`offset, buffer
      ensures Valid() && Kept() && Limit() == old(Limit())
      ensures ok <==> old(offset) + needed + 1 <= Limit()
      ensures ok ==> offset == old(offset) + (if advance then |s| else 0)
      ensures ok && advance ==> Done() == old(Done()) + s
      ensures ok && nul && |s| < needed ==> Holds(old(Done()) + s)
    {
      ok := Ensure(needed);
      if ok {
        Put(offset, s, nul);
        if advance {
          offset := offset + |s|;
        }
      }
    }

    /** Moves the offset to the NUL of the text just written. */
    method UpdateOffset(ghost end: nat)
      requires Valid() && offset <= end < length && buffer[end] == '\0' && (forall k :: offset <= k < end ==> buffer[k] != '\0')
      modifies this`offset
      ensures Valid() && offset == end
    {
      while buffer[offset] != '\0'
        invariant Valid() && old(offset) <= offset <= end
        decreases end - offset
      {
        offset := offset + 1;
      }
    }

    // ----- strings -----

    /** The first loop counts the characters escaping adds. */
    static method CountEscapes(s: string) returns (extra: nat)
      ensures |s| + extra == |Escape(s)|
    {
      extra := 0;
      var i := 0;
      while i < |s|
        invariant i <= |s| && i + extra + |Escape(s[i..])| == |Escape(s)|
      {
        var c := s[i];
        if c == '"' || c == '\\' || c == 8 as char || c == 12 as char || c == '\n' || c == '\r' || c == '\t' {
          extra := extra + 1;
        } else if c < ' ' {
          extra := extra + 5;
        }
        assert s[i..][0] == c && s[i..][1..] == s[i + 1..];
        i := i + 1;
      }
    }

    /** The second loop writes the string between its quotes, escaped, exactly into the room counted. */
    method WriteEscaped(s: string, at: nat)
      requires Valid() && at + |Escape(s)| < length
      modifies buffer
      ensures Valid() && Kept() && buffer[..at + |Escape(s)|] == old(buffer[..at]) + Escape(s)
    {
      hide EscapeChar;
      ghost var start := buffer[..at];
      var q, i := at, 0;
      while i < |s|
        invariant i <= |s| && at <= q && q + |Escape(s[i..])| == at + |Escape(s)|
        invariant Valid() && Kept() && EscapedUpTo(start, s, i, buffer[..q])
      {
        EscapeHead(s, i);
        EscapedStep(start, s, i, buffer[..q]);
        Put(q, EscapeChar(s[i]), |EscapeChar(s[i])| == 6);
        q := q + |EscapeChar(s[i])|;
        i := i + 1;
      }
      assert buffer[..q] + [] == buffer[..q];
    }

    /** The quotes and what is between them, with the NUL. */
    method WriteQuoted(s: string, outputLength: nat)
      requires Valid() && outputLength == |Escape(s)| && offset + outputLength + 3 <= length
      modifies buffer
      ensures Valid() && Kept()
      ensures buffer[..offset + outputLength + 2] == old(Done()) + JsonText.PrintString(s)
      ensures buffer[offset + outputLength + 2] == '\0'
    {
      hide Escape;
      ghost var done := Done();
      Put(offset, "\"", false);
      WriteEscaped(s, offset + 1);
      Put(offset + outputLength + 1, "\"", true);
      Quoted(done, Escape(s));
    }

    method PrintString(s: string) returns (ok: bool)
      requires Valid()
      modifies this`buffer, this`length, this`offset, buffer
      ensures Valid() && Kept() && Limit() == old(Limit()) && offset == old(offset)
      ensures ok <==> offset + |JsonText.PrintString(s)| + 2 <= Limit()
      ensures ok ==> Holds(old(Done()) + JsonText.PrintString(s))
    {
      var extra := CountEscapes(s);
      PrintedLength(s);
      hide Escape, JsonText.PrintString;
      ok := Ensure(|s| + extra + 3);
      if ok {
        if extra == 0 {
          WritePlain(s);
        } else {
          WriteQuoted(s, |s| + extra);
        }
      }
    }

    /** A string without anything to escape is copied. */
    method WritePlain(s: string)
      requires Valid() && |s| == |Escape(s)| && offset + |s| + 3 <= length
      modifies buffer
      ensures Valid() && Kept()
      ensures buffer[..offset + |s| + 2] == old(Done()) + JsonText.PrintString(s)
      ensures buffer[offset + |s| + 2] == '\0'
    {
      NothingEscaped(s);
      hide Escape;
      Put(offset, "\"" + s + "\"", true);
    }

    // ----- values -----

    /** A value at the offset; the offset may stay in front of it or inside it. Printing succeeds exactly for printable
        values whose text leaves one character to spare behind its NUL. */
    method PrintValue(item: Json) returns (ok: bool)
      requires Valid() && Representable(item)
      modifies this`buffer, this`length, this`offset, this`depth, buffer
      ensures Valid() && Kept() && Limit() == old(Limit())
      ensures ok <==> Printable(item) && old(offset) + |Print(item, old(depth), format)| + 2 <= Limit()
      ensures ok ==>
                offset >= old(offset) && depth == old(depth) && Holds(old(Done()) + Print(item, old(depth), format))
      decreases item, 3
    {
      PrintLeaf(item, depth, format);
      hide Print, Printable, Representable, NumberText, JsonText.PrintString, Holds, Escape;
      match item
      case Null => ok := Emit(5, "null", true, false);
      case False => ok := Emit(6, "false", true, false);
      case True => ok := Emit(5, "true", true, false);
      case Number(n) => ok := Emit(|NumberText(n)| + 1, NumberText(n), true, true);
      case String(s) => ok := PrintString(s);
      case Array(_) => ok := PrintArray(item);
      case Object(_, _) => ok := PrintObject(item);
      case Invalid => ok := false;
    }

    /** A value and the offset behind it. */
    method PrintWhole(item: Json) returns (ok: bool)
      requires Valid() && Representable(item)
      modifies this`buffer, this`length, this`offset, this`depth, buffer
      ensures Valid() && Kept() && Limit() == old(Limit())
      ensures ok <==> Printable(item) && old(offset) + |Print(item, old(depth), format)| + 2 <= Limit()
      ensures ok ==>
                depth == old(depth) && Done() == old(Done()) + Print(item, old(depth), format) && offset + 2 <= length
      decreases item, 4
    {
      hide Print, Printable, Representable, Escape;
      ghost var whole := Done() + Print(item, depth, format);
      ok := PrintValue(item);
      if ok {
        PrintTerminated(item, old(depth), format);
        assert buffer[offset..|whole|] == Print(item, old(depth), format)[offset - old(offset)..];
        UpdateOffset(|whole|);
      }
    }

    method PrintArray(item: Json) returns (ok: bool)
      requires Valid() && Representable(item) && item.Array?
      modifies this`buffer, this`length, this`offset, this`depth, buffer
      ensures Valid() && Kept() && Limit() == old(Limit())
      ensures ok <==> Printable(item) && old(offset) + |Print(item, old(depth), format)| + 2 <= Limit()
      ensures ok ==>
                offset >= old(offset) && depth == old(depth) && Holds(old(Done()) + Print(item, old(depth), format))
      decreases item, 2
    {
      hide Print, Printable, Representable, Holds, PrintItems;
      ArrayParts(Done(), item, depth, format);
      ok := Emit(1, "[", false, true);
      if !ok {
        return;
      }
      depth := depth + 1;
      ok := PrintElements(item);
      if !ok {
        return;
      }
      ok := Emit(2, "]", true, false);
      depth := depth - 1;
    }

    /** The loop over the elements. */
    method PrintElements(item: Json) returns (ok: bool)
      requires Valid() && Representable(item) && item.Array?
      modifies this`buffer, this`length, this`offset, this`depth, buffer
      ensures Valid() && Kept() && Limit() == old(Limit())
      ensures ok ==>
                Printable(item) && depth == old(depth)
                && Done() == old(Done()) + PrintItems(item.items, old(depth), format)
      ensures !ok ==> !Printable(item) || old(offset) + |PrintItems(item.items, old(depth), format)| + 2 > Limit()
      decreases item, 1
    {
      hide Print, Printable, Representable, PrintItems, ElementText;
      ghost var start, done, all := offset, Done(), PrintItems(item.items, depth, format);
      var i := 0;
      NoItems(done, item.items, depth, format);
      while i < |item.items|
        invariant i <= |item.items| && Valid() && Kept() && Limit() == old(Limit()) && offset <= buffer.Length
        invariant depth == old(depth) && done + all == Done() + PrintItems(item.items[i..], depth, format)
        invariant offset + |PrintItems(item.items[i..], depth, format)| == start + |all|
        invariant forall k :: 0 <= k < i ==> Printable(item.items[k])
      {
        ItemsParts(Done(), item.items, i, depth, format);
        ItemOf(item, i);
        ok := PrintElement(item.items[i], i + 1 == |item.items|);
        if !ok {
          return;
        }
        i := i + 1;
      }
      NoItems(Done(), item.items, depth, format);
      AllItems(item);
      ok := true;
    }

    /** An element and the separator behind it. */
    method PrintElement(item: Json, last: bool) returns (ok: bool)
      requires Valid() && Representable(item)
      modifies this`buffer, this`length, this`offset, this`depth, buffer
      ensures Valid() && Kept() && Limit() == old(Limit())
      ensures ok <==> Printable(item) && old(offset) + |ElementText(item, last, old(depth), format)| + 2 <= Limit()
      ensures ok ==>
                depth == old(depth) && Done() == old(Done()) + ElementText(item, last, old(depth), format)
                && offset + 2 <= length
      decreases item, 5
    {
      hide Print, Printable, Representable, Holds;
      ok := PrintWhole(item);
      if ok && !last {
        var separator := if format then ", " else ",";
        Regroup(old(Done()), Print(item, old(depth), format), separator);
        ok := Emit(|separator| + 1, separator, true, true);
      }
    }

    method PrintObject(item: Json) returns (ok: bool)
      requires Valid() && Representable(item) && item.Object?
      modifies this`buffer, this`length, this`offset, this`depth, buffer
      ensures Valid() && Kept() && Limit() == old(Limit())
      ensures ok <==> Printable(item) && old(offset) + |Print(item, old(depth), format)| + 2 <= Limit()
      ensures ok ==>
                offset >= old(offset) && depth == old(depth) && Holds(old(Done()) + Print(item, old(depth), format))
      decreases item, 2
    {
      hide Print, Printable, Representable, Holds, PrintMembers, Tabs;
      ObjectParts(Done(), item, depth, format);
      var open := if format then "{\n" else "{";
      ok := Emit(|open|, open, false, true);
      if !ok {
        return;
      }
      depth := depth + 1;
      ok := PrintMemberList(item);
      if !ok {
        return;
      }
      ok := CloseBrace();
      depth := depth - 1;
    }

    /** The closing brace, indented one level less. */
    method CloseBrace() returns (ok: bool)
      requires Valid() && depth > 0
      modifies this`buffer, this`length, this`offset, buffer
      ensures Valid() && Kept() && Limit() == old(Limit())
      ensures ok <==> old(offset) + (if format then depth - 1 else 0) + 3 <= Limit()
      ensures ok ==> offset == old(offset) && Holds(old(Done()) + (if format then Tabs(depth - 1) else "") + "}")
    {
      hide Holds;
      var close := (if format then Tabs(depth - 1) else "") + "}";
      Regroup(Done(), if format then Tabs(depth - 1) else "", "}");
      ok := Emit(if format then depth + 1 else 2, close, true, false);
    }

    /** The loop over the members. */
    method PrintMemberList(item: Json) returns (ok: bool)
      requires Valid() && Representable(item) && item.Object?
      modifies this`buffer, this`length, this`offset, this`depth, buffer
      ensures Valid() && Kept() && Limit() == old(Limit())
      ensures ok ==>
                Printable(item) && depth == old(depth)
                && Done() == old(Done()) + PrintMembers(item.members, old(depth), format)
      ensures !ok ==> !Printable(item) || old(offset) + |PrintMembers(item.members, old(depth), format)| + 2 > Limit()
      decreases item, 1
    {
      hide Print, Printable, Representable, PrintMembers, JsonText.PrintMember;
      ghost var start, done, all := offset, Done(), PrintMembers(item.members, depth, format);
      var i := 0;
      NoMembers(done, item.members, depth, format);
      while i < |item.members|
        invariant i <= |item.members| && Valid() && Kept() && Limit() == old(Limit()) && offset <= buffer.Length
        invariant depth == old(depth) && done + all == Done() + PrintMembers(item.members[i..], depth, format)
        invariant offset + |PrintMembers(item.members[i..], depth, format)| == start + |all|
        invariant forall k :: 0 <= k < i ==> Printable(item.members[k].value)
      {
        MembersParts(Done(), item.members, i, depth, format);
        MemberOf(item, i);
        ok := PrintMember(item.members[i], i + 1 == |item.members|);
        if !ok {
          return;
        }
        i := i + 1;
      }
      NoMembers(Done(), item.members, depth, format);
      AllMembers(item);
      ok := true;
    }

    /** Indentation, name, colon, value, separator. */
    method PrintMember(m: Member, last: bool) returns (ok: bool)
      requires Valid() && Representable(m.value) && Terminated(m.key)
      modifies this`buffer, this`length, this`offset, this`depth, buffer
      ensures Valid() && Kept() && Limit() == old(Limit())
      ensures ok <==> Printable(m.value)
                      && old(offset) + |JsonText.PrintMember(m, last, old(depth), format)| + 2 <= Limit()
      ensures ok ==> depth == old(depth) && Done() == old(Done()) + JsonText.PrintMember(m, last, old(depth), format)
      decreases m.value, 5
    {
      hide Print, Printable, Representable, Holds, JsonText.PrintString, Label;
      MemberPieces(Done(), m, last, depth, format);
      ok := PrintLabel(m.key);
      if !ok {
        return;
      }
      ok := PrintWhole(m.value);
      if !ok {
        return;
      }
      var separator := (if last then "" else ",") + (if format then "\n" else "");
      ok := Emit(|separator| + 1, separator, true, true);
    }

    /** What stands in front of the value of a member. */
    method PrintLabel(key: string) returns (ok: bool)
      requires Valid() && Terminated(key)
      modifies this`buffer, this`length, this`offset, buffer
      ensures Valid() && Kept() && Limit() == old(Limit())
      ensures ok ==> Done() == old(Done()) + Label(key, depth, format)
      ensures !ok ==> old(offset) + |Label(key, depth, format)| + 2 > Limit()
    {
      hide Holds, JsonText.PrintString, Tabs;
      LabelPieces(Done(), key, depth, format);
      if format {
        ok := Emit(depth, Tabs(depth), false, true);
        if !ok {
          return;
        }
      }
      ok := PrintName(key);
      if !ok {
        return;
      }
      var colon := if format then ":\t" else ":";
      ok := Emit(|colon|, colon, false, true);
    }

    /** A name and the offset behind it. */
    method PrintName(s: string) returns (ok: bool)
      requires Valid() && Terminated(s)
      modifies this`buffer, this`length, this`offset, buffer
      ensures Valid() && Kept() && Limit() == old(Limit())
      ensures ok <==> old(offset) + |JsonText.PrintString(s)| + 2 <= Limit()
      ensures ok ==> Done() == old(Done()) + JsonText.PrintString(s) && offset + 2 <= length
    {
      ghost var whole := Done() + JsonText.PrintString(s);
      ok := PrintString(s);
      if ok {
        EscapeTerminated(s);
        assert '\0' !in JsonText.PrintString(s);
        hide JsonText.PrintString, Escape;
        assert buffer[offset..|whole|] == JsonText.PrintString(s);
        UpdateOffset(|whole|);
      }
    }
  }

  /** The text of an element with its separator. */
  function ElementText(item: Json, last: bool, depth: nat, format: bool): string {
    Print(item, depth, format) + if last then "" else if format then ", " else ","
  }

  lemma ArrayParts(done: string, item: Json, depth: nat, format: bool)
    requires item.Array?
    ensures done + Print(item, depth, format) == done + "[" + PrintItems(item.items, depth + 1, format) + "]"
  {
    hide PrintItems;
  }

  lemma AllItems(item: Json)
    requires item.Array?
    ensures Printable(item) <==> forall k :: 0 <= k < |item.items| ==> Printable(item.items[k])
  {
  }

  lemma ItemOf(item: Json, i: nat)
    requires item.Array? && i < |item.items| && Representable(item)
    ensures Representable(item.items[i]) && item.items[i] < item
    ensures !Printable(item.items[i]) ==> !Printable(item)
  {
  }

  lemma ItemsParts(done: string, items: seq<Json>, i: nat, depth: nat, format: bool)
    requires i < |items|
    ensures var element, more := ElementText(items[i], i + 1 == |items|, depth, format),
            PrintItems(items[i + 1..], depth, format);
            && done + PrintItems(items[i..], depth, format) == done + element + more
            && |PrintItems(items[i..], depth, format)| == |element| + |more|
  {
    hide Print;
    assert items[i..][0] == items[i] && items[i..][1..] == items[i + 1..];
    assert PrintItems(items[i..], depth, format)
        == ElementText(items[i], i + 1 == |items|, depth, format) + PrintItems(items[i + 1..], depth, format);
    hide PrintItems, ElementText;
    Regroup(done, ElementText(items[i], i + 1 == |items|, depth, format), PrintItems(items[i + 1..], depth, format));
  }

  lemma NoItems(done: string, items: seq<Json>, depth: nat, format: bool)
    ensures items[0..] == items
    ensures PrintItems(items[|items|..], depth, format) == []
            && done + PrintItems(items[|items|..], depth, format) == done
  {
  }

  lemma ObjectParts(done: string, item: Json, depth: nat, format: bool)
    requires item.Object?
    ensures done + Print(item, depth, format)
            == done + (if format then "{\n" else "{") + PrintMembers(item.members, depth + 1, format)
               + (if format then Tabs(depth) else "") + "}"
  {
    hide PrintMembers, Tabs;
  }

  lemma AllMembers(item: Json)
    requires item.Object? && Representable(item)
    ensures Printable(item) <==> forall k :: 0 <= k < |item.members| ==> Printable(item.members[k].value)
  {
  }

  lemma MemberOf(item: Json, i: nat)
    requires item.Object? && i < |item.members| && Representable(item)
    ensures Representable(item.members[i].value) && Terminated(item.members[i].key) && item.members[i].value < item
    ensures !Printable(item.members[i].value) ==> !Printable(item)
  {
  }

  lemma MembersParts(done: string, ms: seq<Member>, i: nat, depth: nat, format: bool)
    requires i < |ms|
    ensures var member, more := PrintMember(ms[i], i + 1 == |ms|, depth, format),
            PrintMembers(ms[i + 1..], depth, format);
            && done + PrintMembers(ms[i..], depth, format) == done + member + more
            && |PrintMembers(ms[i..], depth, format)| == |member| + |more|
  {
    hide PrintMember;
    assert ms[i..][0] == ms[i] && ms[i..][1..] == ms[i + 1..];
    assert PrintMembers(ms[i..], depth, format)
        == PrintMember(ms[i], i + 1 == |ms|, depth, format) + PrintMembers(ms[i + 1..], depth, format);
    hide PrintMembers;
    Regroup(done, PrintMember(ms[i], i + 1 == |ms|, depth, format), PrintMembers(ms[i + 1..], depth, format));
  }

  lemma NoMembers(done: string, ms: seq<Member>, depth: nat, format: bool)
    ensures ms[0..] == ms
    ensures PrintMembers(ms[|ms|..], depth, format) == [] && done + PrintMembers(ms[|ms|..], depth, format) == done
  {
  }

  /** Indentation, name and colon. */
  function Label(key: string, depth: nat, format: bool): string {
    (if format then Tabs(depth) else "") + PrintString(key) + (if format then ":\t" else ":")
  }

  lemma LabelPieces(done: string, key: string, depth: nat, format: bool)
    ensures done + Label(key, depth, format)
            == done + (if format then Tabs(depth) else "") + PrintString(key) + (if format then ":\t" else ":")
    ensures !format ==> done + (if format then Tabs(depth) else "") == done
  {
    hide PrintString, Tabs;
  }

  lemma MemberPieces(done: string, m: Member, last: bool, depth: nat, format: bool)
    ensures done + PrintMember(m, last, depth, format)
            == done + Label(m.key, depth, format) + Print(m.value, depth, format)
               + ((if last then "" else ",") + (if format then "\n" else ""))
    ensures |PrintMember(m, last, depth, format)|
            == |Label(m.key, depth, format)| + |Print(m.value, depth, format)| + (if last then 0 else 1)
               + (if format then 1 else 0)
  {
    hide Print, PrintString, Tabs;
  }

  lemma PrintedLength(s: string)
    ensures |JsonText.PrintString(s)| == |Escape(s)| + 2
  {
  }

  /** The escaped form of the first i characters is written behind the start. */
  ghost predicate EscapedUpTo(start: string, s: string, i: nat, written: string)
    requires i <= |s|
  {
    written + Escape(s[i..]) == start + Escape(s)
  }

  lemma EscapedStep(start: string, s: string, i: nat, written: string)
    requires i < |s| && EscapedUpTo(start, s, i, written)
    ensures EscapedUpTo(start, s, i + 1, written + EscapeChar(s[i]))
  {
    EscapeHead(s, i);
    Regroup(written, EscapeChar(s[i]), Escape(s[i + 1..]));
  }

  lemma Quoted(done: string, escaped: string)
    ensures done + "\"" + escaped + "\"" == done + ("\"" + escaped + "\"")
  {
  }

  lemma EscapeHead(s: string, i: nat)
    requires i < |s|
    ensures Escape(s[i..]) == EscapeChar(s[i]) + Escape(s[i + 1..])
  {
    assert s[i..][0] == s[i] && s[i..][1..] == s[i + 1..];
  }

  lemma {:induction false} NothingEscaped(s: string)
    requires |Escape(s)| == |s|
    ensures Escape(s) == s
  {
    EscapedLonger(s);
    if s != [] {
      EscapedLonger(s[1..]);
      NothingEscaped(s[1..]);
      assert s == [s[0]] + s[1..];
    }
  }

  lemma {:induction false} EscapedLonger(s: string)
    ensures |Escape(s)| >= |s|
  {
    if s != [] {
      EscapedLonger(s[1..]);
    }
  }

  /** Trees as the library can hold them: C strings and 32-bit integers, invalid values included. */
  predicate Representable(j: Json)
    decreases j
  {
    match j
    case Number(n) => Int32(n)
    case String(s) => Terminated(s)
    case Array(items) => forall i :: 0 <= i < |items| ==> Representable(items[i])
    case Object(ms, _) => forall i :: 0 <= i < |ms| ==> Terminated(ms[i].key) && Representable(ms[i].value)
    case _ => true
  }

  lemma PrintLeaf(j: Json, tabs: nat, format: bool)
    requires Representable(j)
    ensures !j.Array? && !j.Object? ==>
              && (Printable(j) <==> !j.Invalid?)
              && Print(j, tabs, format) == match j
                                           case Null => "null"
                                           case False => "false"
                                           case True => "true"
                                           case Number(n) => NumberText(n)
                                           case String(s) => JsonText.PrintString(s)
                                           case _ => []
  {
  }

  // ----- printing a whole value -----

  /** Printing into a given buffer succeeds exactly when the text, its NUL and one character more fit; then the buffer
      holds the text and its NUL. Nothing at or behind `length` is written, and nothing is allocated, in any case. */
  method PrintPreallocated(item: Json, buffer: array<char>, length: int, format: bool) returns (ok: bool)
    requires Representable(item) && length <= buffer.Length && length <= INT_MAX
    modifies buffer
    ensures ok <==> Printable(item) && |Print(item, 0, format)| + 2 <= length
    ensures ok ==> buffer[..|Print(item, 0, format)|] == Print(item, 0, format) && buffer[|Print(item, 0, format)|] == '\0'
    ensures length >= 0 ==> buffer[length..] == old(buffer[length..])
  {
    hide Print, Printable, Representable;
    if length < 0 {
      return false;
    }
    var p := new PrintBuffer(buffer, length, true, format);
    assert [] + Print(item, 0, format) == Print(item, 0, format);
    ok := p.PrintValue(item);
  }

  /** Printing into a buffer that grows gives the text, up to the largest size an int can hold. */
  method PrintText(item: Json, format: bool) returns (text: Option<string>)
    requires Representable(item)
    ensures text == if Printable(item) && |Print(item, 0, format)| + 2 <= INT_MAX then Some(Print(item, 0, format))
            else None
  {
    hide Print, Printable, Representable;
    var buffer := new char[256];
    var p := new PrintBuffer(buffer, 256, false, format);
    assert [] + Print(item, 0, format) == Print(item, 0, format);
    var ok := p.PrintWhole(item);
    if !ok {
      return None;
    }
    return Some(p.buffer[..p.offset]);
  }
}
