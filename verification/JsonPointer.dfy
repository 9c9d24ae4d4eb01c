/** JSON pointers (RFC 6901) as the library follows them, and what they mean on values. */
module JsonPointer {
  import opened Basics
  import opened Json
  import opened JsonToken
  import opened Words

  // ----- following a pointer -----

  /** Whether a member's name is the next token of a pointer. */
  predicate ComparePointers(name: string, p: string, caseSensitive: bool) {
    if name == [] || p == [] || p[0] == '/' then (p != [] && p[0] != '/') == (name != [])
    else if p[0] == '~' then
      |p| > 1 && ((p[1] == '0' && name[0] == '~') || (p[1] == '1' && name[0] == '/'))
      && ComparePointers(name[1..], p[2..], caseSensitive)
    else
      (if caseSensitive then name[0] == p[0] else Lower(name[0]) == Lower(p[0]))
      && ComparePointers(name[1..], p[1..], caseSensitive)
  }

  function SkipToken(p: string): (r: string)
    ensures |r| <= |p| && (r == [] || r[0] == '/')
  {
    if p == [] || p[0] == '/' then p else SkipToken(p[1..])
  }

  /** One more digit, in a word of 32 bits. */
  function Shift(parsed: nat, c: char): nat
    requires c >= '0'
  {
    (10 * parsed + (c as int - '0' as int)) % TWO_TO_THE_32
  }

  /** The digits loop: it tests the first character of the token, not the current one, against '9'. */
  function ParseDigits(p: string, first: char, parsed: nat): (r: (nat, string))
    decreases p
  {
    if p != [] && p[0] >= '0' && first <= '9' then ParseDigits(p[1..], first, Shift(parsed, p[0])) else (parsed, p)
  }

  function DecodeIndex(p: string): Option<nat> {
    if |p| > 1 && p[0] == '0' && p[1] != '/' then None
    else
      var (parsed, rest) := ParseDigits(p, if p == [] then '\0' else p[0], 0);
      if rest != [] && rest[0] != '/' then None else Some(parsed)
  }

  /** The first member the token names, or the number of members. */
  function FindToken(ms: seq<Member>, p: string, caseSensitive: bool): (i: nat)
    ensures i <= |ms|
    ensures i < |ms| ==> ComparePointers(ms[i].key, p, caseSensitive)
    ensures forall k :: 0 <= k < i ==> !ComparePointers(ms[k].key, p, caseSensitive)
  {
    if ms == [] || ComparePointers(ms[0].key, p, caseSensitive) then 0 else 1 + FindToken(ms[1..], p, caseSensitive)
  }

  /** Where a pointer leads, as child positions from the root. */
  function Resolve(j: Json, pointer: string, caseSensitive: bool): (r: Option<seq<nat>>)
    ensures r.Some? ==> Reaches(j, r.value)
    decreases |pointer|
  {
    if pointer == [] || pointer[0] != '/' then Some([])
    else
      var p := pointer[1..];
      var rest := SkipToken(p);
      match j
      case Array(items) =>
        var index := DecodeIndex(p);
        if index.None? || index.value >= |items| then None
          else Under(index.value, Resolve(items[index.value], rest, caseSensitive))
      case Object(ms, _) =>
        var i := FindToken(ms, p, caseSensitive);
        if i == |ms| then None else Under(i, Resolve(ms[i].value, rest, caseSensitive))
      case _ => None
  }

  function Under(i: nat, path: Option<seq<nat>>): Option<seq<nat>> {
    if path.None? then None else Some([i] + path.value)
  }

  predicate Reaches(j: Json, path: seq<nat>)
    decreases path
  {
    path == [] ||
    match j
    case Array(items) => path[0] < |items| && Reaches(items[path[0]], path[1..])
    case Object(ms, _) => path[0] < |ms| && Reaches(ms[path[0]].value, path[1..])
    case _ => false
  }

  function Get(j: Json, path: seq<nat>): Json
    requires Reaches(j, path)
    decreases path
  {
    if path == [] then j
    else if j.Array? then Get(j.items[path[0]], path[1..])
    else Get(j.members[path[0]].value, path[1..])
  }

  /** The tree with one node overwritten in place; its member name stays. */
  function Put(j: Json, path: seq<nat>, x: Json): Json
    requires Reaches(j, path)
    decreases path
  {
    if path == [] then x
    else if j.Array? then Array(j.items[path[0] := Put(j.items[path[0]], path[1..], x)])
    else
      var m := j.members[path[0]];
      Object(j.members[path[0] := Member(m.key, Put(m.value, path[1..], x))], j.tail)
  }

  /** The walk down the pointer, one token a turn. */
  method GetItem(j: Json, pointer: string, caseSensitive: bool) returns (found: bool, item: Json)
    ensures found <==> Resolve(j, pointer, caseSensitive).Some?
    ensures found ==> item == Get(j, Resolve(j, pointer, caseSensitive).value)
  {
    item := j;
    var p := pointer;
    found := true;
    while p != [] && p[0] == '/'
      invariant found && Same(j, pointer, item, p, caseSensitive)
      decreases |p|
    {
      ghost var before, at := item, p;
      p := p[1..];
      match item
      case Array(items) =>
        var index := DecodeIndex(p);
        if index.None? || index.value >= |items| {
          return false, item;
        }
        item := items[index.value];
        p := SkipToken(p);
        OneDown(before, index.value, Resolve(item, p, caseSensitive));
      case Object(ms, _) =>
        var i := FindToken(ms, p, caseSensitive);
        if i == |ms| {
          return false, item;
        }
        item := ms[i].value;
        p := SkipToken(p);
        OneDown(before, i, Resolve(item, p, caseSensitive));
      case _ =>
        return false, item;
    }
  }

  /** Both pointers lead to the same node, or both nowhere. */
  ghost predicate Same(j: Json, pointer: string, item: Json, p: string, caseSensitive: bool) {
    var r, s := Resolve(j, pointer, caseSensitive), Resolve(item, p, caseSensitive);
    (r.Some? <==> s.Some?) && (r.Some? ==> Get(j, r.value) == Get(item, s.value))
  }

  lemma OneDown(j: Json, i: nat, path: Option<seq<nat>>)
    requires j.Array? || j.Object?
    requires if j.Array? then i < |j.items| && (path.Some? ==> Reaches(j.items[i], path.value))
             else i < |j.members| && (path.Some? ==> Reaches(j.members[i].value, path.value))
    ensures path.Some? ==> Reaches(j, Under(i, path).value)
    ensures path.Some? ==>
              Get(j, Under(i, path).value) == Get(if j.Array? then j.items[i] else j.members[i].value, path.value)
  {
    if path.Some? {
      assert ([i] + path.value)[1..] == path.value;
    }
  }

  // ----- rendering -----

  function Decimal(n: nat): (s: string)
    ensures s != [] && forall i :: 0 <= i < |s| ==> '0' <= s[i] <= '9'
    ensures n > 0 ==> s[0] != '0'
    ensures n == 0 ==> s == "0"
  {
    if n < 10 then [(n + '0' as int) as char] else Decimal(n / 10) + [(n % 10 + '0' as int) as char]
  }

  function Render(tokens: seq<string>): (p: string)
    ensures tokens != [] ==> p != [] && p[0] == '/'
  {
    if tokens == [] then [] else "/" + EncodeToken(tokens[0]) + Render(tokens[1..])
  }

  lemma {:induction false} RenderAppend(tokens: seq<string>, t: string)
    ensures Render(tokens + [t]) == Render(tokens) + "/" + EncodeToken(t)
  {
    if tokens == [] {
      assert [t][1..] == [];
    } else {
      RenderAppend(tokens[1..], t);
      assert (tokens + [t])[1..] == tokens[1..] + [t];
    }
  }

  /** The end of a token: the end of the pointer or the next separator. */
  predicate TokenEnd(rest: string) {
    rest == [] || rest[0] == '/'
  }

  lemma {:induction false} SkipWhole(t: string, rest: string)
    requires '/' !in t && TokenEnd(rest)
    ensures SkipToken(t + rest) == rest
  {
    if t == [] {
      assert t + rest == rest;
    } else {
      assert (t + rest)[1..] == t[1..] + rest;
      SkipWhole(t[1..], rest);
    }
  }

  lemma FoldHead(a: string, b: string)
    requires a != [] && b != []
    ensures Fold(a) == Fold(b) <==> Lower(a[0]) == Lower(b[0]) && Fold(a[1..]) == Fold(b[1..])
    ensures a == b <==> a[0] == b[0] && a[1..] == b[1..]
  {
    assert a == [a[0]] + a[1..] && b == [b[0]] + b[1..];
    assert Fold(a) == [Lower(a[0])] + Fold(a[1..]) && Fold(b) == [Lower(b[0])] + Fold(b[1..]);
    if Fold(a) == Fold(b) {
      assert Fold(a)[0] == Fold(b)[0] && Fold(a)[1..] == Fold(b)[1..];
    }
  }

  /** The first character of a name in its escaped form. */
  lemma TokenHead(name: string, t: string, rest: string, caseSensitive: bool)
    requires t != [] && name != []
    ensures ComparePointers(name, EncodeToken(t) + rest, caseSensitive)
            <==> (if caseSensitive then name[0] == t[0] else Lower(name[0]) == Lower(t[0]))
                 && ComparePointers(name[1..], EncodeToken(t[1..]) + rest, caseSensitive)
  {
    var p, more := EncodeToken(t) + rest, EncodeToken(t[1..]) + rest;
    assert p == if t[0] == '/' then "~1" + more else if t[0] == '~' then "~0" + more else [t[0]] + more;
    assert if t[0] == '/' || t[0] == '~' then p[2..] == more else p[1..] == more;
  }

  /** A token names exactly the members of that name, up to case if that is asked. */
  lemma {:induction false} CompareToken(name: string, t: string, rest: string, caseSensitive: bool)
    requires TokenEnd(rest)
    ensures ComparePointers(name, EncodeToken(t) + rest, caseSensitive)
            <==> if caseSensitive then name == t else Fold(name) == Fold(t)
  {
    if t == [] {
      assert EncodeToken(t) + rest == rest;
      assert |Fold(name)| == |name|;
    } else if name == [] {
      assert |Fold(t)| == |t|;
      EncodedForm(t);
      assert (EncodeToken(t) + rest)[0] == EncodeToken(t)[0];
    } else {
      TokenHead(name, t, rest, caseSensitive);
      FoldHead(name, t);
      hide *;
      CompareToken(name[1..], t[1..], rest, caseSensitive);
    }
  }

  // ----- indices -----

  predicate Digits(t: string) {
    forall i :: 0 <= i < |t| ==> '0' <= t[i] <= '9'
  }

  /** Every character is '0' or behind it: what the digits loop goes through. */
  predicate FromZero(t: string) {
    forall i :: 0 <= i < |t| ==> t[i] >= '0'
  }

  /** The positional value; a character behind '9' counts for its distance from '0'. */
  function Positional(t: string): nat
    requires FromZero(t)
  {
    if t == [] then 0 else 10 * Positional(t[..|t| - 1]) + (t[|t| - 1] as int - '0' as int)
  }

  /** An array index as section 4 of RFC 6901 has it: digits, no leading zero. */
  function Index(t: string): Option<nat> {
    if t != [] && Digits(t) && (t[0] == '0' ==> |t| == 1) then Some(Positional(t)) else None
  }

  lemma {:induction false} ParseDigitsSnoc(t: string, c: char, first: char, parsed: nat)
    requires first <= '9' && c >= '0' && FromZero(t)
    ensures ParseDigits(t + [c], first, parsed) == (Shift(ParseDigits(t, first, parsed).0, c), [])
    decreases |t|
  {
    hide Shift;
    if t == [] {
      assert t + [c] == [c] && [c][1..] == [];
      assert ParseDigits([], first, Shift(parsed, c)) == (Shift(parsed, c), []);
    } else {
      assert (t + [c])[1..] == t[1..] + [c];
      ParseDigitsSnoc(t[1..], c, first, Shift(parsed, t[0]));
    }
  }

  /** A word that has lost its carry goes on like the number itself. */
  lemma ShiftWraps(n: nat, c: char)
    requires c >= '0'
    ensures Shift(n % TWO_TO_THE_32, c) == Shift(n, c)
  {
    var q, d := n / TWO_TO_THE_32, c as int - '0' as int;
    assert 10 * n + d == TWO_TO_THE_32 * (10 * q) + (10 * (n % TWO_TO_THE_32) + d);
    Wrapped(10 * (n % TWO_TO_THE_32) + d, 10 * q);
  }

  lemma Wrapped(x: nat, k: nat)
    ensures (TWO_TO_THE_32 * k + x) % TWO_TO_THE_32 == x % TWO_TO_THE_32
  {
  }

  /** The loop computes the positional value, modulo the word. */
  lemma {:induction false} ParseDigitsAll(t: string, first: char)
    requires first <= '9' && FromZero(t)
    ensures ParseDigits(t, first, 0) == (Positional(t) % TWO_TO_THE_32, [])
    decreases |t|
  {
    if t != [] {
      var front, c := t[..|t| - 1], t[|t| - 1];
      ParseDigitsAll(front, first);
      ParseDigitsSnoc(front, c, first, 0);
      ShiftWraps(Positional(front), c);
      assert t == front + [c];
    }
  }

  /** Where the loop stops: at the first character below '0', or at once. */
  lemma {:induction false} ParseDigitsStop(t: string, first: char, parsed: nat)
    requires '/' !in t
    ensures var rest := ParseDigits(t, first, parsed).1;
            '/' !in rest && (rest == [] <==> t == [] || (first <= '9' && FromZero(t)))
    decreases |t|
  {
    hide Shift;
    if t != [] && t[0] >= '0' && first <= '9' {
      ParseDigitsStop(t[1..], first, Shift(parsed, t[0]));
      assert t == [t[0]] + t[1..];
    }
  }

  /** The tokens the library reads as an index. */
  predicate Readable(t: string) {
    t == [] || ('0' <= t[0] <= '9' && (t[0] == '0' ==> |t| == 1) && FromZero(t))
  }

  /** Those it reads as an index they are not: empty, with a character above '9' behind the first one, or past the word. */
  predicate Lax(t: string) {
    Readable(t) && (t == [] || !Digits(t) || Positional(t) >= TWO_TO_THE_32)
  }

  lemma DecodesRead(t: string)
    requires '/' !in t
    ensures DecodeIndex(t) == if Readable(t) then Some(Positional(t) % TWO_TO_THE_32) else None
  {
    if t != [] {
      ParseDigitsStop(t, t[0], 0);
      if t[0] <= '9' && FromZero(t) {
        ParseDigitsAll(t, t[0]);
      }
      assert t[0] in t;
      assert |t| > 1 ==> t[1] in t;
      hide ParseDigits, Positional;
    }
  }

  /** Exactly which tokens the library reads as which index, and exactly where it agrees with RFC 6901. */
  lemma IndexDecoded(t: string)
    requires '/' !in t
    ensures DecodeIndex(t) == if Readable(t) then Some(Positional(t) % TWO_TO_THE_32) else None
    ensures DecodeIndex(t) == Index(t) <==> !Lax(t)
  {
    DecodesRead(t);
    hide DecodeIndex, Positional;
    assert t != [] && Digits(t) ==> (Readable(t) <==> Index(t).Some?);
  }

  lemma {:induction false} DecimalDigits(n: nat)
    ensures Digits(Decimal(n)) && Positional(Decimal(n)) == n
    decreases n
  {
    if n >= 10 {
      DecimalDigits(n / 10);
      assert Decimal(n)[..|Decimal(n)| - 1] == Decimal(n / 10);
    } else {
      assert Decimal(n)[..0] == [];
    }
  }

  /** An index written in decimal is an index, and read back if it fits the word. */
  lemma DecodeDecimal(n: nat, rest: string)
    requires TokenEnd(rest)
    ensures Index(Decimal(n)) == Some(n) && DecodeIndex(Decimal(n) + rest) == Some(n % TWO_TO_THE_32)
    ensures Lax(Decimal(n)) <==> n >= TWO_TO_THE_32
  {
    DecimalDigits(n);
    DecimalIsPlain(n);
    DecimalHead(n);
    assert '0' <= Decimal(n)[0] <= '9';
    DecodeToEnd(Decimal(n), rest);
    IndexDecoded(Decimal(n));
    hide Decimal, DecodeIndex, Positional;
  }

  /** Letters count as digits behind a first digit, an empty token is the first element, and so is the one past the word. */
  lemma IndexDefects()
    ensures DecodeIndex("1a") == Some(59) && Index("1a") == None
    ensures DecodeIndex("") == Some(0) && Index("") == None
    ensures var t := Decimal(TWO_TO_THE_32); DecodeIndex(t) == Some(0) && Index(t) == Some(TWO_TO_THE_32)
  {
    LetterDigit();
    EmptyIndex();
    PastTheWord(Decimal(TWO_TO_THE_32));
  }

  lemma LetterDigit()
    ensures DecodeIndex("1a") == Some(59) && Index("1a") == None
  {
    var t := "1a";
    assert t[1] == 'a' && t[1..] == "a" && "a"[1..] == "";
    assert ParseDigits("", '1', 59) == (59, "");
    assert ParseDigits("a", '1', 1) == (59, "");
    assert ParseDigits(t, '1', 0) == (59, "");
    hide ParseDigits, Positional;
  }

  lemma EmptyIndex()
    ensures DecodeIndex("") == Some(0) && Index("") == None
  {
    hide Positional;
    assert ParseDigits("", '\0', 0) == (0, "");
  }

  lemma PastTheWord(t: string)
    requires t == Decimal(TWO_TO_THE_32)
    ensures DecodeIndex(t) == Some(0) && Index(t) == Some(TWO_TO_THE_32)
  {
    DecodeDecimal(TWO_TO_THE_32, "");
    hide Decimal, DecodeIndex, Index;
    assert t + "" == t;
  }

  lemma {:induction false} DecimalHead(n: nat)
    ensures Decimal(n)[0] == '0' ==> |Decimal(n)| == 1
  {
  }

  lemma DecimalIsPlain(n: nat)
    ensures PlainToken(Decimal(n)) && Decimal(n) != "-"
  {
  }

  // ----- pointers on values -----

  /** What a pointer leads to (section 4 of RFC 6901). */
  function VGet(v: Value, tokens: seq<string>): Option<Value>
    decreases |tokens|
  {
    if tokens == [] then Some(v)
    else
      match v
      case VArray(items) =>
        var index := Index(tokens[0]);
        if index.None? || index.value >= |items| then None else VGet(items[index.value], tokens[1..])
      case VObject(m) => if tokens[0] in m then VGet(m[tokens[0]], tokens[1..]) else None
      case _ => None
  }

  function VSet(v: Value, tokens: seq<string>, x: Value): Value
    requires VGet(v, tokens).Some?
    decreases |tokens|
  {
    if tokens == [] then x
    else if v.VArray? then
      var i := Index(tokens[0]).value;
      VArray(v.items[i := VSet(v.items[i], tokens[1..], x)])
    else VObject(v.members[tokens[0] := VSet(v.members[tokens[0]], tokens[1..], x)])
  }

  lemma {:induction false} VGetSet(v: Value, tokens: seq<string>, x: Value)
    requires VGet(v, tokens).Some?
    ensures VGet(VSet(v, tokens, x), tokens) == Some(x)
    decreases |tokens|
  {
    hide Index;
    if tokens == [] {
    } else if v.VArray? {
      VGetSet(v.items[Index(tokens[0]).value], tokens[1..], x);
    } else {
      VGetSet(v.members[tokens[0]], tokens[1..], x);
    }
  }

  lemma {:induction false} VSetSet(v: Value, tokens: seq<string>, x: Value, y: Value)
    requires VGet(v, tokens).Some?
    ensures VGet(VSet(v, tokens, x), tokens).Some? && VSet(VSet(v, tokens, x), tokens, y) == VSet(v, tokens, y)
    decreases |tokens|
  {
    VGetSet(v, tokens, x);
    if tokens == [] {
    } else if v.VArray? {
      var i := Index(tokens[0]).value;
      var inner := VSet(v.items[i], tokens[1..], x);
      assert VSet(v, tokens, x) == VArray(v.items[i := inner]);
      VSetSet(v.items[i], tokens[1..], x, y);
      hide Index;
      assert v.items[i := inner][i := VSet(inner, tokens[1..], y)] == v.items[i := VSet(inner, tokens[1..], y)];
    } else {
      var inner := VSet(v.members[tokens[0]], tokens[1..], x);
      assert VSet(v, tokens, x) == VObject(v.members[tokens[0] := inner]);
      VSetSet(v.members[tokens[0]], tokens[1..], x, y);
      hide Index;
    }
  }

  lemma {:induction false} VSetGet(v: Value, tokens: seq<string>)
    requires VGet(v, tokens).Some?
    ensures VSet(v, tokens, VGet(v, tokens).value) == v
    decreases |tokens|
  {
    hide Index;
    if tokens == [] {
    } else if v.VArray? {
      VSetGet(v.items[Index(tokens[0]).value], tokens[1..]);
    } else {
      VSetGet(v.members[tokens[0]], tokens[1..]);
    }
  }

  /** Setting a child is setting its parent to a changed parent. */
  lemma {:induction false} VSetChild(v: Value, tokens: seq<string>, t: string, x: Value)
    requires VGet(v, tokens + [t]).Some?
    ensures VGet(v, tokens).Some? && VGet(VGet(v, tokens).value, [t]).Some?
    ensures VGet(v, tokens + [t]) == VGet(VGet(v, tokens).value, [t])
    ensures VSet(v, tokens + [t], x) == VSet(v, tokens, VSet(VGet(v, tokens).value, [t], x))
    decreases |tokens|
  {
    hide Index;
    if tokens == [] {
      assert tokens + [t] == [t];
    } else {
      assert (tokens + [t])[1..] == tokens[1..] + [t];
      if v.VArray? {
        VSetChild(v.items[Index(tokens[0]).value], tokens[1..], t, x);
      } else {
        VSetChild(v.members[tokens[0]], tokens[1..], t, x);
      }
    }
  }

  lemma {:induction false} VGetChild(v: Value, tokens: seq<string>, t: string)
    requires VGet(v, tokens).Some?
    ensures VGet(v, tokens + [t]) == VGet(VGet(v, tokens).value, [t])
    decreases |tokens|
  {
    hide Index;
    if tokens == [] {
      assert tokens + [t] == [t];
    } else {
      assert (tokens + [t])[1..] == tokens[1..] + [t];
      if v.VArray? {
        VGetChild(v.items[Index(tokens[0]).value], tokens[1..], t);
      } else {
        VGetChild(v.members[tokens[0]], tokens[1..], t);
      }
    }
  }

  // ----- the library's pointers do on trees what pointers mean on values -----

  /** Tokens a pointer in a C string can carry. */
  predicate TokensOf(tokens: seq<string>) {
    forall i :: 0 <= i < |tokens| ==> Terminated(tokens[i])
  }

  /** No name is the token in another spelling. */
  predicate Spells(names: set<string>, t: string) {
    forall k :: k in names && Fold(k) == Fold(t) ==> k == t
  }

  /** On its way the pointer meets no name in another spelling, and in arrays no token the library reads as another index. */
  ghost predicate Understood(v: Value, tokens: seq<string>, caseSensitive: bool)
    decreases |tokens|
  {
    tokens == [] ||
    match v
    case VArray(items) =>
      var index := Index(tokens[0]);
      && !Lax(EncodeToken(tokens[0]))
      && (index.Some? && index.value < |items| ==> Understood(items[index.value], tokens[1..], caseSensitive))
    case VObject(m) =>
      && (caseSensitive || Spells(m.Keys, tokens[0]))
      && (tokens[0] in m ==> Understood(m[tokens[0]], tokens[1..], caseSensitive))
    case _ => true
  }

  /** Every array is short enough for a word to count its elements. */
  ghost predicate Addressable(v: Value)
    decreases v
  {
    match v
    case VArray(items) => |items| < TWO_TO_THE_32 && forall i :: 0 <= i < |items| ==> Addressable(items[i])
    case VObject(m) => forall k :: k in m ==> Addressable(m[k])
    case _ => true
  }

  lemma {:induction false} AddressableGet(v: Value, tokens: seq<string>)
    requires Addressable(v) && VGet(v, tokens).Some?
    ensures Addressable(VGet(v, tokens).value)
    decreases |tokens|
  {
    hide Index;
    if tokens != [] {
      match v
      case VArray(items) => AddressableGet(items[Index(tokens[0]).value], tokens[1..]);
      case VObject(m) => AddressableGet(m[tokens[0]], tokens[1..]);
    }
  }

  lemma {:induction false} AddressableSet(v: Value, tokens: seq<string>, x: Value)
    requires Addressable(v) && VGet(v, tokens).Some? && Addressable(x)
    ensures Addressable(VSet(v, tokens, x))
    decreases |tokens|
  {
    hide Index;
    if tokens != [] {
      match v
      case VArray(items) => AddressableSet(items[Index(tokens[0]).value], tokens[1..], x);
      case VObject(m) => AddressableSet(m[tokens[0]], tokens[1..], x);
    }
  }

  /** What is an index is its own escaped form. */
  lemma IndexEncoded(t: string)
    ensures Index(EncodeToken(t)) == Index(t)
    ensures Index(t).Some? ==> EncodeToken(t) == t
  {
    EncodeSame(t);
    assert Digits(t) ==> '~' !in t && '/' !in t;
    hide Positional, EncodeToken;
  }

  /** A pointer that leads somewhere is understood. */
  lemma {:induction false} FoundIsUnderstood(v: Value, tokens: seq<string>, caseSensitive: bool)
    requires Proper(v) && Addressable(v) && VGet(v, tokens).Some?
    ensures Understood(v, tokens, caseSensitive)
    decreases |tokens|
  {
    if tokens != [] {
      hide Positional, EncodeToken;
      match v
      case VArray(items) =>
        IndexEncoded(tokens[0]);
        FoundIsUnderstood(items[Index(tokens[0]).value], tokens[1..], caseSensitive);
      case VObject(m) => FoundIsUnderstood(m[tokens[0]], tokens[1..], caseSensitive);
      case _ =>
    }
  }

  lemma {:induction false} UnderstoodMore(v: Value, tokens: seq<string>, t: string, caseSensitive: bool)
    requires Understood(v, tokens + [t], caseSensitive)
    ensures Understood(v, tokens, caseSensitive)
    ensures VGet(v, tokens).Some? ==> Understood(VGet(v, tokens).value, [t], caseSensitive)
    decreases |tokens|
  {
    hide Positional, Lax;
    if tokens == [] {
      assert tokens + [t] == [t];
    } else {
      assert (tokens + [t])[1..] == tokens[1..] + [t];
      match v
      case VArray(items) =>
        if Index(tokens[0]).Some? && Index(tokens[0]).value < |items| {
          UnderstoodMore(items[Index(tokens[0]).value], tokens[1..], t, caseSensitive);
        }
      case VObject(m) =>
        if tokens[0] in m {
          UnderstoodMore(m[tokens[0]], tokens[1..], t, caseSensitive);
        }
      case _ =>
    }
  }

  lemma {:induction false} ParseDigitsEnds(t: string, rest: string, first: char, parsed: nat)
    requires '/' !in t && TokenEnd(rest)
    ensures ParseDigits(t + rest, first, parsed).0 == ParseDigits(t, first, parsed).0
    ensures ParseDigits(t + rest, first, parsed).1 == ParseDigits(t, first, parsed).1 + rest
    decreases t
  {
    hide Shift;
    if t == [] {
      assert t + rest == rest;
    } else {
      assert (t + rest)[1..] == t[1..] + rest;
      if t[0] >= '0' && first <= '9' {
        ParseDigitsEnds(t[1..], rest, first, Shift(parsed, t[0]));
      }
    }
  }

  /** What follows a token does not change the index it denotes. */
  lemma DecodeToEnd(t: string, rest: string)
    requires '/' !in t && TokenEnd(rest)
    ensures DecodeIndex(t + rest) == DecodeIndex(t)
  {
    if t == [] {
      assert t + rest == rest;
    } else {
      ParseDigitsEnds(t, rest, t[0], 0);
      ParseDigitsStop(t, t[0], 0);
      assert |t| == 1 && |t + rest| > 1 ==> (t + rest)[1] == '/';
      assert |t| > 1 ==> t[1] in t;
    }
  }

  lemma FindWholeToken(ms: seq<Member>, t: string, rest: string, caseSensitive: bool)
    requires GoodMembers(ms) && TokenEnd(rest) && (caseSensitive || Spells(MapOf(ms).Keys, t))
    ensures var i := FindToken(ms, EncodeToken(t) + rest, caseSensitive);
            (i < |ms| <==> t in MapOf(ms)) && (i < |ms| ==> ms[i].key == t)
  {
    var i := FindToken(ms, EncodeToken(t) + rest, caseSensitive);
    MapKeys(ms);
    forall k | 0 <= k < |ms|
      ensures ComparePointers(ms[k].key, EncodeToken(t) + rest, caseSensitive) <==> ms[k].key == t
    {
      CompareToken(ms[k].key, t, rest, caseSensitive);
      assert ms[k].key in Keys(ms);
    }
    hide MapOf, Good, FindToken, ComparePointers;
    if t in MapOf(ms) {
      var k :| 0 <= k < |ms| && ms[k].key == t;
    }
  }

  lemma ResolveHead(tokens: seq<string>)
    requires tokens != []
    ensures Render(tokens)[1..] == EncodeToken(tokens[0]) + Render(tokens[1..])
    ensures SkipToken(Render(tokens)[1..]) == Render(tokens[1..])
    ensures DecodeIndex(Render(tokens)[1..]) == DecodeIndex(EncodeToken(tokens[0]))
  {
    var rest, e := Render(tokens[1..]), EncodeToken(tokens[0]);
    assert Render(tokens) == "/" + (e + rest);
    EncodedForm(tokens[0]);
    SkipWhole(e, rest);
    DecodeToEnd(e, rest);
  }

  /** The first turn of the walk, in an object. */
  lemma ResolveInObject(j: Json, tokens: seq<string>, caseSensitive: bool)
    requires j.Object? && Good(j) && tokens != []
    requires caseSensitive || Spells(MapOf(j.members).Keys, tokens[0])
    ensures var ms, i := j.members, FindToken(j.members, Render(tokens)[1..], caseSensitive);
            && (i < |ms| <==> tokens[0] in MapOf(ms))
            && (i < |ms| ==> ms[i].key == tokens[0] && MapOf(ms)[tokens[0]] == ValueOf(ms[i].value))
            && Resolve(j, Render(tokens), caseSensitive)
               == if i == |ms| then None else Under(i, Resolve(ms[i].value, Render(tokens[1..]), caseSensitive))
  {
    var ms := j.members;
    GoodObject(j);
    ResolveHead(tokens);
    hide SkipToken, DecodeIndex, Render, ValueOf, Good, EncodeToken;
    FindWholeToken(ms, tokens[0], Render(tokens[1..]), caseSensitive);
    var i := FindToken(ms, Render(tokens)[1..], caseSensitive);
    if i < |ms| {
      MapAt(ms, i);
    }
  }

  lemma ResolveInArray(items: seq<Json>, tokens: seq<string>, caseSensitive: bool)
    requires tokens != [] && !Lax(EncodeToken(tokens[0]))
    ensures var index := Index(tokens[0]);
            Resolve(Array(items), Render(tokens), caseSensitive)
            == if index.None? || index.value >= |items| then None
               else Under(index.value, Resolve(items[index.value], Render(tokens[1..]), caseSensitive))
  {
    ResolveHead(tokens);
    EncodedForm(tokens[0]);
    IndexDecoded(EncodeToken(tokens[0]));
    IndexEncoded(tokens[0]);
    hide SkipToken, DecodeIndex, Render, Lax, Positional, EncodeToken, Readable;
  }

  /** A lax token leads into an array, though RFC 6901 gives it no element, exactly if the array reaches that far. */
  lemma LaxResolves(items: seq<Json>, t: string, caseSensitive: bool)
    requires Lax(EncodeToken(t)) && |items| < TWO_TO_THE_32
    ensures VGet(ValueOf(Array(items)), [t]).None?
    ensures var i := Positional(EncodeToken(t)) % TWO_TO_THE_32;
            Resolve(Array(items), Render([t]), caseSensitive) == if i < |items| then Some([i]) else None
  {
    EncodedForm(t);
    IndexDecoded(EncodeToken(t));
    IndexEncoded(t);
    ResolveHead([t]);
    Arrays(items);
    hide SkipToken, DecodeIndex, Positional, ValueOf, EncodeToken;
    assert [t][1..] == [];
    var i := Positional(EncodeToken(t)) % TWO_TO_THE_32;
    if i < |items| {
      assert Resolve(items[i], Render([]), caseSensitive) == Some([]);
      assert [i] + [] == [i];
    }
  }

  lemma Arrays(items: seq<Json>)
    ensures ValueOf(Array(items)) == VArray(ValuesOf(items))
  {
  }

  /** A pointer that is understood leads somewhere in a tree exactly when it does in its value, and to the same value. */
  lemma {:induction false} ResolveRefines(j: Json, tokens: seq<string>, caseSensitive: bool)
    requires Good(j) && TokensOf(tokens) && Understood(ValueOf(j), tokens, caseSensitive)
    ensures var r := Resolve(j, Render(tokens), caseSensitive);
            && (r.Some? <==> VGet(ValueOf(j), tokens).Some?)
            && (r.Some? ==> Good(Get(j, r.value)) && VGet(ValueOf(j), tokens) == Some(ValueOf(Get(j, r.value))))
            && (r.Some? && Intact(j) ==> Intact(Get(j, r.value)))
    decreases |tokens|
  {
    if tokens != [] {
      match j
      case Array(items) =>
        hide Lax, Positional;
        ResolveInArray(items, tokens, caseSensitive);
        var index := Index(tokens[0]);
        if index.Some? && index.value < |items| {
          GoodItem(items, index.value);
          ArrayValueAt(items, tokens, caseSensitive);
          hide *;
          ResolveRefines(items[index.value], tokens[1..], caseSensitive);
          UnderSome(j, index.value, Resolve(items[index.value], Render(tokens[1..]), caseSensitive));
        } else {
          hide Render, Resolve, Understood;
        }
      case Object(ms, _) =>
        ResolveInObject(j, tokens, caseSensitive);
        var i := FindToken(ms, Render(tokens)[1..], caseSensitive);
        if i < |ms| {
          GoodMember(j, i);
          ObjectValueAt(j, tokens, caseSensitive);
          hide *;
          ResolveRefines(ms[i].value, tokens[1..], caseSensitive);
          UnderSome(j, i, Resolve(ms[i].value, Render(tokens[1..]), caseSensitive));
        } else {
          hide DecodeIndex, Render, Resolve, MapOf, FindToken, Understood;
        }
      case _ =>
    }
  }

  lemma UnderSome(j: Json, i: nat, path: Option<seq<nat>>)
    requires j.Array? || j.Object?
    requires if j.Array? then i < |j.items| && (path.Some? ==> Reaches(j.items[i], path.value))
             else i < |j.members| && (path.Some? ==> Reaches(j.members[i].value, path.value))
    ensures Under(i, path).Some? <==> path.Some?
    ensures path.Some? ==> Reaches(j, Under(i, path).value)
    ensures path.Some? ==>
              Get(j, Under(i, path).value) == Get(if j.Array? then j.items[i] else j.members[i].value, path.value)
  {
    OneDown(j, i, path);
  }

  lemma GoodItem(items: seq<Json>, i: nat)
    requires Good(Array(items)) && i < |items|
    ensures Good(items[i]) && (Intact(Array(items)) ==> Intact(items[i]))
  {
  }

  lemma GoodMember(j: Json, i: nat)
    requires Good(j) && j.Object? && i < |j.members|
    ensures Good(j.members[i].value) && (Intact(j) ==> Intact(j.members[i].value))
  {
  }

  lemma ArrayValueAt(items: seq<Json>, tokens: seq<string>, caseSensitive: bool)
    requires tokens != [] && Index(tokens[0]).Some? && Index(tokens[0]).value < |items|
    ensures VGet(ValueOf(Array(items)), tokens) == VGet(ValueOf(items[Index(tokens[0]).value]), tokens[1..])
    ensures Understood(ValueOf(Array(items)), tokens, caseSensitive) ==>
              Understood(ValueOf(items[Index(tokens[0]).value]), tokens[1..], caseSensitive)
  {
    hide Lax, Positional;
  }

  lemma ObjectValueAt(j: Json, tokens: seq<string>, caseSensitive: bool)
    requires j.Object? && tokens != [] && tokens[0] in MapOf(j.members)
    ensures VGet(ValueOf(j), tokens) == VGet(MapOf(j.members)[tokens[0]], tokens[1..])
    ensures Understood(ValueOf(j), tokens, caseSensitive) ==>
              Understood(MapOf(j.members)[tokens[0]], tokens[1..], caseSensitive)
  {
    hide MapOf;
  }

  lemma PutUnder(j: Json, i: nat, path: seq<nat>, x: Json)
    requires if j.Array? then i < |j.items| && Reaches(j.items[i], path)
             else j.Object? && i < |j.members| && Reaches(j.members[i].value, path)
    ensures Reaches(j, [i] + path)
    ensures j.Array? ==> Put(j, [i] + path, x) == Array(j.items[i := Put(j.items[i], path, x)])
    ensures j.Object? ==> Put(j, [i] + path, x)
                          == Object(j.members[i := Member(j.members[i].key, Put(j.members[i].value, path, x))], j.tail)
  {
    assert ([i] + path)[1..] == path;
  }

  lemma ArrayPut(items: seq<Json>, i: nat, y: Json)
    requires Good(Array(items)) && Good(y) && i < |items|
    ensures Good(Array(items[i := y])) && ValueOf(Array(items[i := y])) == VArray(ValuesOf(items)[i := ValueOf(y)])
    ensures Intact(Array(items)) && Intact(y) ==> Intact(Array(items[i := y]))
  {
    assert ValuesOf(items[i := y]) == ValuesOf(items)[i := ValueOf(y)];
  }

  lemma ObjectPut(j: Json, i: nat, y: Json)
    requires j.Object? && Good(j) && Good(y) && i < |j.members|
    ensures var r := Object(j.members[i := Member(j.members[i].key, y)], j.tail);
            && Good(r) && (Intact(j) && Intact(y) ==> Intact(r))
            && ValueOf(r) == VObject(MapOf(j.members)[j.members[i].key := ValueOf(y)])
  {
    MapReplace(j.members, i, y);
    var changed := j.members[i := Member(j.members[i].key, y)];
    assert Keys(changed) == Keys(j.members) by {
      assert forall k :: 0 <= k < |changed| ==> changed[k].key == j.members[k].key;
    }
  }

  /** Overwriting the node a pointer leads to sets the value there and nothing else. */
  lemma {:induction false} PutRefines(j: Json, tokens: seq<string>, caseSensitive: bool, x: Json)
    requires Good(j) && TokensOf(tokens) && Understood(ValueOf(j), tokens, caseSensitive) && Good(x)
    requires Resolve(j, Render(tokens), caseSensitive).Some?
    ensures VGet(ValueOf(j), tokens).Some?
    ensures var path := Resolve(j, Render(tokens), caseSensitive).value;
            && Good(Put(j, path, x)) && ValueOf(Put(j, path, x)) == VSet(ValueOf(j), tokens, ValueOf(x))
            && (Intact(j) && Intact(x) ==> Intact(Put(j, path, x)))
    decreases |tokens|
  {
    ResolveRefines(j, tokens, caseSensitive);
    if tokens != [] {
      if j.Array? {
        hide Lax, Positional;
        ResolveInArray(j.items, tokens, caseSensitive);
        var i := Index(tokens[0]).value;
        ArrayValueAt(j.items, tokens, caseSensitive);
        hide Render, Resolve, Put, Good, Intact, Understood;
        GoodItem(j.items, i);
        var path := Resolve(j.items[i], Render(tokens[1..]), caseSensitive).value;
        PutRefines(j.items[i], tokens[1..], caseSensitive, x);
        PutUnder(j, i, path, x);
        ArrayPut(j.items, i, Put(j.items[i], path, x));
      } else {
        ResolveInObject(j, tokens, caseSensitive);
        ObjectValueAt(j, tokens, caseSensitive);
        hide DecodeIndex, Render, Resolve, MapOf, FindToken, Put, Good, Intact, Understood;
        var i := FindToken(j.members, Render(tokens)[1..], caseSensitive);
        GoodMember(j, i);
        var path := Resolve(j.members[i].value, Render(tokens[1..]), caseSensitive).value;
        PutRefines(j.members[i].value, tokens[1..], caseSensitive, x);
        PutUnder(j, i, path, x);
        ObjectPut(j, i, Put(j.members[i].value, path, x));
      }
    }
  }
}
