/** The recursive-descent parser: an offset and a nesting depth moved over one buffer. */
module JsonParser {
  import opened Basics
  import opened Json
  import opened JsonPointer
  import opened JsonText
  import opened JsonString

  /** What was read before, in front of what is read from here. */
  function Joined<T>(done: seq<T>, more: Parsed<seq<T>>): Parsed<seq<T>> {
    if more.Failed? then Failed else Parsed(done + more.value, more.rest)
  }

  // ----- the specification, one turn at a time -----

  /** Where a list goes on after one element: at the separator, at its end, or nowhere. */
  function GoOn<T>(done: seq<T>, left: string, separator: char, close: char,
                   more: string -> Parsed<seq<T>>): Parsed<seq<T>> {
    if left != [] && left[0] == separator then Joined(done, more(left[1..]))
    else if left != [] && left[0] == close then Parsed(done, left[1..])
    else Failed
  }

  lemma JoinNothing<T>(more: Parsed<seq<T>>)
    ensures Joined([], more) == more
  {
    if more.Parsed? {
      assert [] + more.value == more.value;
    }
  }

  lemma ItemsTurn(done: seq<Json>, s: string, depth: nat, strtod: Conversion)
    ensures var first := ParseValue(Skip(s), depth, strtod);
            && (first.Failed? ==> Joined(done, ParseItems(s, depth, strtod)).Failed?)
            && (first.Parsed? ==> Joined(done, ParseItems(s, depth, strtod))
                                  == GoOn(done + [first.value], Skip(first.rest), ',', ']', t => ParseItems(t, depth, strtod)))
  {
    hide ParseValue, Skip;
    var first := ParseValue(Skip(s), depth, strtod);
    if first.Parsed? {
      var p := Skip(first.rest);
      if p != [] && p[0] == ',' {
        var more := ParseItems(p[1..], depth, strtod);
        if more.Parsed? {
          assert done + ([first.value] + more.value) == done + [first.value] + more.value;
        }
      }
    }
  }

  /** The name of a member, up to behind its colon. */
  function NameAndColon(s: string): (r: Parsed<string>)
    ensures r.Parsed? ==> |r.rest| < |s|
  {
    var name := ParseString(Skip(s));
    if name.Failed? then Failed
    else
      var p := Skip(name.rest);
      if p == [] || p[0] != ':' then Failed else Parsed(name.value, p[1..])
  }

  function OneMember(s: string, depth: nat, strtod: Conversion): (r: Parsed<Member>)
    ensures r.Parsed? ==> |r.rest| < |s|
  {
    var name := NameAndColon(s);
    if name.Failed? then Failed
    else
      var first := ParseValue(Skip(name.rest), depth, strtod);
      if first.Failed? then Failed else Parsed(Member(name.value, first.value), first.rest)
  }

  lemma MembersTurn(done: seq<Member>, s: string, depth: nat, strtod: Conversion)
    ensures var first := OneMember(s, depth, strtod);
            && (first.Failed? ==> Joined(done, ParseMembers(s, depth, strtod)).Failed?)
            && (first.Parsed? ==> Joined(done, ParseMembers(s, depth, strtod))
                                  == GoOn(done + [first.value], Skip(first.rest), ',', '}', t => ParseMembers(t, depth, strtod)))
  {
    hide ParseValue, ParseString, Skip;
    var first := OneMember(s, depth, strtod);
    if first.Parsed? {
      var p := Skip(first.rest);
      if p != [] && p[0] == ',' {
        var more := ParseMembers(p[1..], depth, strtod);
        if more.Parsed? {
          assert done + ([first.value] + more.value) == done + [first.value] + more.value;
        }
      }
    }
  }

  lemma RunTurn(run: string, content: string, at: nat, n: nat)
    requires at < |content| && n > 0 && NumberChar(content[at])
    ensures run + NumberRun(content[at..], n) == run + [content[at]] + NumberRun(content[at + 1..], n - 1)
  {
    assert content[at..][0] == content[at] && content[at..][1..] == content[at + 1..];
    var more := NumberRun(content[at + 1..], n - 1);
    assert NumberRun(content[at..], n) == [content[at]] + more;
    hide NumberRun;
    assert run + ([content[at]] + more) == run + [content[at]] + more;
  }

  lemma RunEnd(run: string, content: string, at: nat, n: nat)
    requires at <= |content| && (n == 0 || at == |content| || !NumberChar(content[at]))
    ensures run + NumberRun(content[at..], n) == run
  {
    assert at < |content| ==> content[at..][0] == content[at];
    assert NumberRun(content[at..], n) == [];
  }

  class ParseBuffer {
    const content: string
    const strtod: Conversion
    var offset: nat
    var depth: nat

    /** The buffer ends in the NUL of the C string, and the offset is in it or right behind. */
    ghost predicate Valid()
      reads this`offset
    {
      content != [] && content[|content| - 1] == '\0' && offset <= |content|
    }

    function Left(): string
      requires offset <= |content|
      reads this`offset
    {
      content[offset..]
    }

    constructor (text: string, strtod: Conversion)
      ensures Valid() && offset == 0 && depth == 0 && content == CString(text) + [0 as char] && this.strtod == strtod
    {
      content := CString(text) + [0 as char];
      this.strtod := strtod;
      offset, depth := 0, 0;
    }

    /** Skips blanks; at the end of the buffer it steps back onto the last character. */
    method SkipWhitespace()
      requires Valid()
      modifies this`offset
      ensures Valid() && Left() == Skip(old(Left())) && offset >= old(offset)
      ensures old(offset) < |content| ==> offset < |content|
    {
      if offset >= |content| {
        return;
      }
      ghost var start := Left();
      while offset < |content| && content[offset] <= ' '
        invariant old(offset) <= offset <= |content|
        invariant offset < |content| ==> Skip(content[offset..]) == Skip(start)
        invariant offset == |content| ==> Skip(start) == content[|content| - 1..] && old(offset) < |content|
        decreases |content| - offset
      {
        assert content[offset..][1..] == content[offset + 1..];
        offset := offset + 1;
      }
      if offset == |content| {
        offset := offset - 1;
      }
    }

    /** Copies the characters of a number, 63 at most. */
    method CopyNumber() returns (run: string)
      requires Valid()
      ensures run == NumberRun(Left(), 63)
    {
      hide NumberRun, NumberChar;
      var i := 0;
      run := [];
      while i < 63 && offset + i < |content| && NumberChar(content[offset + i])
        invariant 0 <= i <= 63 && offset + i <= |content|
        invariant run + NumberRun(content[offset + i..], 63 - i) == NumberRun(Left(), 63)
        decreases 63 - i
      {
        RunTurn(run, content, offset + i, 63 - i);
        run := run + [content[offset + i]];
        i := i + 1;
      }
      RunEnd(run, content, offset + i, 63 - i);
    }

    /** Converts what was copied, and moves over what the conversion used. */
    method ParseNumber() returns (ok: bool, item: Json)
      requires Valid()
      modifies this`offset
      ensures Valid()
      ensures ok <==> JsonText.ParseNumber(old(Left()), strtod).Parsed?
      ensures ok ==> JsonText.ParseNumber(old(Left()), strtod) == Parsed(item, Left())
    {
      hide NumberRun;
      var run := CopyNumber();
      var number := strtod(run);
      item := Number(number.value);
      ok := 0 < number.used <= |run|;
      if ok {
        assert Left()[number.used..] == content[offset + number.used..];
        offset := offset + number.used;
      }
    }

    /** A word of the language at the offset. */
    method Word(word: string) returns (found: bool)
      requires Valid()
      modifies this`offset
      ensures Valid() && (found <==> Starts(old(Left()), word))
      ensures if found then |word| <= |old(Left())| && Left() == old(Left())[|word|..] else offset == old(offset)
    {
      found := offset + |word| <= |content| && content[offset..offset + |word|] == word;
      if found {
        assert word == content[offset..][..|word|];
        offset := offset + |word|;
      }
    }

    method ParseString() returns (ok: bool, value: string)
      requires Valid() && offset < |content|
      modifies this`offset
      ensures Valid()
      ensures ok <==> JsonText.ParseString(old(Left())).Parsed?
      ensures ok ==> JsonText.ParseString(old(Left())) == Parsed(value, Left())
    {
      var next;
      ok, value, next := ParseStringInto(content[offset..]);
      assert content[offset..][next..] == content[offset + next..];
      offset := offset + next;
    }

    /** The kind of value is told by its first characters. */
    method ParseValue() returns (ok: bool, item: Json)
      requires Valid()
      modifies this
      ensures Valid()
      ensures ok <==> JsonText.ParseValue(old(Left()), old(depth), strtod).Parsed?
      ensures ok ==> JsonText.ParseValue(old(Left()), old(depth), strtod) == Parsed(item, Left()) && depth == old(depth)
      decreases |content| - offset, 3
    {
      item := Invalid;
      ok := Word("null");
      if ok {
        return true, Null;
      }
      ok := Word("false");
      if ok {
        return true, False;
      }
      ok := Word("true");
      if ok {
        return true, True;
      }
      if offset >= |content| {
        return false, Invalid;
      }
      var c := content[offset];
      if c == '"' {
        var value;
        ok, value := ParseString();
        item := String(value);
      } else if c == '-' || '0' <= c <= '9' {
        ok, item := ParseNumber();
      } else if c == '[' {
        ok, item := ParseArray();
      } else if c == '{' {
        ok, item := ParseObject();
      } else {
        ok := false;
      }
    }

    /** Past the opening bracket or brace: at the closing one, or in front of the first element, or at the end of the buffer. */
    method Enter(close: char) returns (ok: bool, empty: bool)
      requires Valid() && offset < |content|
      modifies this`offset
      ensures Valid() && offset >= old(offset)
      ensures var p := Skip(old(Left())[1..]);
              && (ok <==> p != [])
              && (ok ==> (empty <==> p[0] == close))
              && (ok && empty ==> offset < |content| && Left() == p)
              && (ok && !empty ==> offset + 1 < |content| && content[offset + 1..] == p)
    {
      hide Skip;
      assert Left()[1..] == content[offset + 1..];
      offset := offset + 1;
      SkipWhitespace();
      if offset < |content| && content[offset] == close {
        return true, true;
      }
      if offset >= |content| {
        offset := offset - 1;
        return false, false;
      }
      offset := offset - 1;
      return true, false;
    }

    /** Past the closing bracket or brace. */
    method Leave()
      requires Valid() && offset < |content| && depth > 0
      modifies this
      ensures Valid() && offset == old(offset) + 1 && depth == old(depth) - 1 && Left() == old(Left())[1..]
    {
      depth := depth - 1;
      offset := offset + 1;
    }

    method ParseArray() returns (ok: bool, item: Json)
      requires Valid() && offset < |content| && content[offset] == '['
      modifies this
      ensures Valid()
      ensures ok <==> JsonText.ParseValue(old(Left()), old(depth), strtod).Parsed?
      ensures ok ==> JsonText.ParseValue(old(Left()), old(depth), strtod) == Parsed(item, Left()) && depth == old(depth)
      decreases |content| - offset, 2, 1
    {
      BracketedValue(Left(), depth, strtod);
      if depth >= NESTING_LIMIT {
        return false, Invalid;
      }
      hide *;
      depth := depth + 1;
      ok, item := ParseBracketed();
    }

    method ParseBracketed() returns (ok: bool, item: Json)
      requires Valid() && offset < |content| && depth > 0
      modifies this
      ensures Valid()
      ensures ok <==> Bracketed(old(Left()), old(depth), strtod).Parsed?
      ensures ok ==> Bracketed(old(Left()), old(depth), strtod) == Parsed(item, Left()) && depth == old(depth) - 1
      decreases |content| - offset, 2, 0
    {
      hide Skip, ParseItems;
      item := Invalid;
      var empty;
      ok, empty := Enter(']');
      if ok && empty {
        Leave();
        item := Array([]);
      } else if ok {
        var items;
        ok, items := ParseElements();
        item := Array(items);
      }
    }

    /** The loop over the elements, from the character in front of the first one. */
    method ParseElements() returns (ok: bool, items: seq<Json>)
      requires Valid() && offset + 1 < |content| && depth > 0
      modifies this
      ensures Valid()
      ensures ok <==> ParseItems(old(content[offset + 1..]), old(depth), strtod).Parsed?
      ensures ok ==>
                ParseItems(old(content[offset + 1..]), old(depth), strtod) == Parsed(items, Left())
                && depth == old(depth) - 1
      decreases |content| - offset, 1
    {
      hide JsonText.ParseValue, Skip, ParseItems;
      ghost var goal, n := ParseItems(content[offset + 1..], depth, strtod), depth;
      items := [];
      JoinNothing(goal);
      var more := true;
      while more
        invariant Valid() && offset >= old(offset) && depth == n
        invariant more ==> offset + 1 < |content| && goal == Joined(items, ParseItems(content[offset + 1..], n, strtod))
        invariant !more ==> goal == if offset < |content| && content[offset] == ']' then Parsed(items, content[offset + 1..]) else Failed
        decreases |content| - offset, more
      {
        ItemsTurn(items, content[offset + 1..], n, strtod);
        offset := offset + 1;
        SkipWhitespace();
        var parsed, item := ParseValue();
        if !parsed {
          return false, items;
        }
        items := items + [item];
        SkipWhitespace();
        more := offset < |content| && content[offset] == ',';
      }
      if offset >= |content| || content[offset] != ']' {
        return false, items;
      }
      Leave();
      ok := true;
    }

    method ParseObject() returns (ok: bool, item: Json)
      requires Valid() && offset < |content| && content[offset] == '{'
      modifies this
      ensures Valid()
      ensures ok <==> JsonText.ParseValue(old(Left()), old(depth), strtod).Parsed?
      ensures ok ==> JsonText.ParseValue(old(Left()), old(depth), strtod) == Parsed(item, Left()) && depth == old(depth)
      decreases |content| - offset, 2, 1
    {
      BracedValue(Left(), depth, strtod);
      if depth >= NESTING_LIMIT {
        return false, Invalid;
      }
      hide *;
      depth := depth + 1;
      ok, item := ParseBraced();
    }

    method ParseBraced() returns (ok: bool, item: Json)
      requires Valid() && offset < |content| && depth > 0
      modifies this
      ensures Valid()
      ensures ok <==> Braced(old(Left()), old(depth), strtod).Parsed?
      ensures ok ==> Braced(old(Left()), old(depth), strtod) == Parsed(item, Left()) && depth == old(depth) - 1
      decreases |content| - offset, 2, 0
    {
      hide Skip, ParseMembers;
      item := Invalid;
      var empty;
      ok, empty := Enter('}');
      if ok && empty {
        Leave();
        item := Object([]);
      } else if ok {
        var members;
        ok, members := ParseMemberList();
        item := Object(members);
      }
    }

    /** The loop over the members, from the character in front of the first one. The NUL at the end keeps it in the buffer. */
    method ParseMemberList() returns (ok: bool, members: seq<Member>)
      requires Valid() && offset + 1 < |content| && depth > 0
      modifies this
      ensures Valid()
      ensures ok <==> ParseMembers(old(content[offset + 1..]), old(depth), strtod).Parsed?
      ensures ok ==>
                ParseMembers(old(content[offset + 1..]), old(depth), strtod) == Parsed(members, Left())
                && depth == old(depth) - 1
      decreases |content| - offset, 1
    {
      hide JsonText.ParseValue, Skip, ParseMembers, JsonText.ParseString;
      ghost var goal, n := ParseMembers(content[offset + 1..], depth, strtod), depth;
      members := [];
      JoinNothing(goal);
      var more := true;
      while more
        invariant Valid() && offset >= old(offset) && depth == n
        invariant more ==>
                    offset + 1 < |content| && goal == Joined(members, ParseMembers(content[offset + 1..], n, strtod))
        invariant !more ==> goal == if offset < |content| && content[offset] == '}' then Parsed(members, content[offset + 1..]) else Failed
        decreases |content| - offset, more
      {
        MembersTurn(members, content[offset + 1..], n, strtod);
        var parsed, member := ParseMember();
        if !parsed {
          return false, members;
        }
        members := members + [member];
        SkipWhitespace();
        more := offset < |content| && content[offset] == ',';
      }
      if offset >= |content| || content[offset] != '}' {
        return false, members;
      }
      Leave();
      ok := true;
    }

    /** A name and a colon. */
    method ParseName() returns (ok: bool, name: string)
      requires Valid() && offset < |content|
      modifies this`offset
      ensures Valid()
      ensures ok <==> NameAndColon(old(Left())).Parsed?
      ensures ok ==> NameAndColon(old(Left())) == Parsed(name, Left())
    {
      hide Skip, JsonText.ParseString;
      SkipWhitespace();
      ok, name := ParseString();
      if !ok {
        return;
      }
      SkipWhitespace();
      if offset >= |content| || content[offset] != ':' {
        return false, name;
      }
      assert Left()[1..] == content[offset + 1..];
      offset := offset + 1;
    }

    /** A name, a colon and a value, from the character in front of them. */
    method ParseMember() returns (ok: bool, member: Member)
      requires Valid() && offset + 1 < |content|
      modifies this
      ensures Valid()
      ensures ok <==> OneMember(old(content[offset + 1..]), old(depth), strtod).Parsed?
      ensures ok ==>
                OneMember(old(content[offset + 1..]), old(depth), strtod) == Parsed(member, Left())
                && depth == old(depth)
      ensures ok ==> offset > old(offset)
      decreases |content| - offset, 0
    {
      hide JsonText.ParseValue, Skip, NameAndColon;
      member := Member("", Invalid);
      offset := offset + 1;
      var name;
      ok, name := ParseName();
      if !ok {
        return;
      }
      SkipWhitespace();
      var item;
      ok, item := ParseValue();
      member := Member(name, item);
    }
  }

  /** Parses a C string: the byte order mark and blanks are skipped, and nothing but blanks may follow if the end is required. */
  method ParseWithOpts(text: string, requireEnd: bool, strtod: Conversion) returns (item: Option<Json>)
    ensures item == ParseText(text, requireEnd, strtod)
  {
    hide ParseValue, Skip;
    var buffer := new ParseBuffer(text, strtod);
    assert buffer.Left() == buffer.content;
    if |buffer.content| > 4 && buffer.content[..3] == BOM {
      assert BOM <= buffer.content;
      buffer.offset := 3;
    }
    buffer.SkipWhitespace();
    var ok, value := buffer.ParseValue();
    if !ok {
      return None;
    }
    if requireEnd {
      buffer.SkipWhitespace();
      if buffer.offset >= |buffer.content| || buffer.content[buffer.offset] != '\0' {
        return None;
      }
    }
    return Some(value);
  }
}
