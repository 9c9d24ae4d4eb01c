/** JSON values as the library holds them, C string comparison, and the value of a tree without member order. */
module Json {
  datatype Member = Member(key: string, value: Json)

  /**
   * Where the hidden pointer of an object's first child leads: to the last child, as appending needs it, to nothing, to
   * another child, or to a node that is no child of this object any more.
   */
  datatype Tail = Kept | Missing | Inside(k: nat) | Astray

  /** A tree; an object keeps its members in order. Invalid is what removing the root leaves. */
  datatype Json =
    | Invalid
    | Null
    | False
    | True
    | Number(n: int)
    | String(s: string)
    | Array(items: seq<Json>)
    | Object(members: seq<Member>, tail: Tail := Kept)

  /** The type tag two values are compared by. */
  function Tag(j: Json): nat {
    match j
    case Invalid => 0 case Null => 4 case False => 1 case True => 2
    case Number(_) => 8 case String(_) => 16 case Array(_) => 32 case Object(_, _) => 64
  }

  // ----- C strings -----

  function Lower(c: char): char {
    if 'A' <= c <= 'Z' then ((c as int) + 32) as char else c
  }

  function Fold(s: string): (r: string)
    ensures |r| == |s|
    ensures forall i :: 0 <= i < |s| ==> r[i] == Lower(s[i])
  {
    seq(|s|, i requires 0 <= i < |s| => Lower(s[i]))
  }

  /** The sign and value of a byte-wise comparison; the end of a string compares as 0. */
  function StrCmp(a: string, b: string): int {
    if a == [] then (if b == [] then 0 else -(b[0] as int))
    else if b == [] then a[0] as int
    else if a[0] == b[0] then StrCmp(a[1..], b[1..])
    else a[0] as int - b[0] as int
  }

  function CompareStrings(a: string, b: string, caseSensitive: bool): int {
    if caseSensitive then StrCmp(a, b) else StrCmp(Fold(a), Fold(b))
  }

  predicate Terminated(s: string) {
    '\0' !in s
  }

  /** No two of the names differ in case only. */
  predicate OneSpelling(names: set<string>) {
    forall a, b :: a in names && b in names && Fold(a) == Fold(b) ==> a == b
  }

  lemma {:induction false} StrCmpZero(a: string, b: string)
    requires Terminated(a) && Terminated(b)
    ensures StrCmp(a, b) == 0 <==> a == b
  {
    if a != [] && b != [] && a[0] == b[0] {
      StrCmpZero(a[1..], b[1..]);
      assert a == [a[0]] + a[1..] && b == [b[0]] + b[1..];
    }
  }

  lemma {:induction false} StrCmpAntisymmetric(a: string, b: string)
    ensures StrCmp(a, b) == -StrCmp(b, a)
  {
    if a != [] && b != [] && a[0] == b[0] {
      StrCmpAntisymmetric(a[1..], b[1..]);
    }
  }

  lemma {:induction false} StrCmpTransitive(a: string, b: string, c: string)
    requires Terminated(a) && Terminated(b) && Terminated(c)
    requires StrCmp(a, b) < 0 && StrCmp(b, c) < 0
    ensures StrCmp(a, c) < 0
  {
    if a != [] && b != [] && c != [] && a[0] == b[0] == c[0] {
      StrCmpTransitive(a[1..], b[1..], c[1..]);
    }
  }

  lemma FoldTerminated(s: string)
    ensures Terminated(s) <==> Terminated(Fold(s))
  {
    if '\0' in s {
      var i :| 0 <= i < |s| && s[i] == '\0';
      assert Fold(s)[i] == '\0';
    }
  }

  /** Comparing finds equality, up to case if that is asked. */
  lemma CompareZero(a: string, b: string, caseSensitive: bool)
    requires Terminated(a) && Terminated(b)
    ensures CompareStrings(a, b, caseSensitive) == 0 <==> if caseSensitive then a == b else Fold(a) == Fold(b)
  {
    FoldTerminated(a);
    FoldTerminated(b);
    StrCmpZero(a, b);
    StrCmpZero(Fold(a), Fold(b));
  }

  // ----- well-formed trees -----

  predicate DistinctKeys(ms: seq<Member>) {
    forall i, j :: 0 <= i < j < |ms| ==> ms[i].key != ms[j].key
  }

  function Keys(ms: seq<Member>): set<string> {
    set i | 0 <= i < |ms| :: ms[i].key
  }

  /** Every object of the tree has keys distinct up to case, and every string is a C string. */
  predicate Good(j: Json)
    decreases j
  {
    match j
    case Invalid => false
    case Null => true
    case False => true
    case True => true
    case Number(_) => true
    case String(s) => Terminated(s)
    case Array(items) => forall i :: 0 <= i < |items| ==> Good(items[i])
    case Object(ms, _) =>
      DistinctKeys(ms) && OneSpelling(Keys(ms))
        && (forall i :: 0 <= i < |ms| ==> Terminated(ms[i].key) && Good(ms[i].value))
  }

  predicate GoodMembers(ms: seq<Member>) {
    DistinctKeys(ms) && OneSpelling(Keys(ms))
      && (forall i :: 0 <= i < |ms| ==> Terminated(ms[i].key) && Good(ms[i].value))
  }

  /** Every object of the tree has distinct keys, and every string is a C string. */
  predicate Sound(j: Json)
    decreases j
  {
    match j
    case Invalid => false
    case String(s) => Terminated(s)
    case Array(items) => forall i :: 0 <= i < |items| ==> Sound(items[i])
    case Object(ms, _) =>
      DistinctKeys(ms) && forall i :: 0 <= i < |ms| ==> Terminated(ms[i].key) && Sound(ms[i].value)
    case _ => true
  }

  predicate SoundMembers(ms: seq<Member>) {
    DistinctKeys(ms) && forall i :: 0 <= i < |ms| ==> Terminated(ms[i].key) && Sound(ms[i].value)
  }

  /** Every object of the tree can be appended to. */
  predicate Intact(j: Json)
    decreases j
  {
    match j
    case Array(items) => forall i :: 0 <= i < |items| ==> Intact(items[i])
    case Object(ms, tail) => tail == Kept && forall i :: 0 <= i < |ms| ==> Intact(ms[i].value)
    case _ => true
  }

  /** A deep copy: the same tree, every hidden pointer in order. */
  function Duplicate(j: Json): (r: Json)
    ensures Tag(r) == Tag(j)
    decreases j, 1
  {
    match j
    case Array(items) => Array(DuplicateItems(items))
    case Object(ms, _) => Object(DuplicateMembers(ms))
    case _ => j
  }

  function DuplicateItems(items: seq<Json>): (r: seq<Json>)
    ensures |r| == |items| && forall i :: 0 <= i < |items| ==> r[i] == Duplicate(items[i])
    decreases items, 0
  {
    seq(|items|, i requires 0 <= i < |items| => Duplicate(items[i]))
  }

  function DuplicateMembers(ms: seq<Member>): (r: seq<Member>)
    ensures |r| == |ms| && forall i :: 0 <= i < |ms| ==> r[i] == Member(ms[i].key, Duplicate(ms[i].value))
    decreases ms, 0
  {
    seq(|ms|, i requires 0 <= i < |ms| => Member(ms[i].key, Duplicate(ms[i].value)))
  }

  // ----- children of an object -----

  function Without(ms: seq<Member>, i: nat): seq<Member>
    requires i < |ms|
  {
    ms[..i] + ms[i + 1..]
  }

  /** Where the hidden pointer leads once child i of n is gone. */
  function TailWithout(n: nat, tail: Tail, i: nat): Tail
    requires i < n
  {
    if i == n - 1 then Kept
    else
      match tail
      case Inside(k) => if k == i then Astray else Inside(if i < k then k - 1 else k)
      case _ => tail
  }

  function DetachMember(j: Json, i: nat): Json
    requires j.Object? && i < |j.members|
  {
    Object(Without(j.members, i), TailWithout(|j.members|, j.tail, i))
  }

  function TailAt(n: nat, k: nat): Tail {
    if k + 1 == n then Kept else Inside(k)
  }

  /** Appending goes where the hidden pointer leads: nowhere if there is none, and over the children behind another one. */
  function AppendMember(j: Json, m: Member): (r: Json)
    requires j.Object?
    ensures r.Object?
  {
    if j.members == [] || j.tail == Kept then Object(j.members + [m])
    else if j.tail.Inside? && j.tail.k < |j.members| then Object(j.members[..j.tail.k + 1] + [m])
    else j
  }

  // ----- the value of a tree, member order forgotten -----

  datatype Value =
    | VInvalid
    | VNull
    | VBool(b: bool)
    | VNumber(n: int)
    | VString(s: string)
    | VArray(items: seq<Value>)
    | VObject(members: map<string, Value>)

  function ValueOf(j: Json): Value
    decreases j, 1
  {
    match j
    case Invalid => VInvalid
    case Null => VNull
    case False => VBool(false)
    case True => VBool(true)
    case Number(n) => VNumber(n)
    case String(s) => VString(s)
    case Array(items) => VArray(ValuesOf(items))
    case Object(ms, _) => VObject(MapOf(ms))
  }

  function ValuesOf(items: seq<Json>): (r: seq<Value>)
    ensures |r| == |items|
    ensures forall i :: 0 <= i < |items| ==> r[i] == ValueOf(items[i])
    decreases items, 0
  {
    seq(|items|, i requires 0 <= i < |items| => ValueOf(items[i]))
  }

  function MapOf(ms: seq<Member>): map<string, Value>
    decreases ms, 0
  {
    if ms == [] then map[]
    else MapOf(ms[..|ms| - 1])[ms[|ms| - 1].key := ValueOf(ms[|ms| - 1].value)]
  }

  lemma {:induction false} MapKeys(ms: seq<Member>)
    ensures MapOf(ms).Keys == Keys(ms)
  {
    if ms != [] {
      var n := |ms| - 1;
      MapKeys(ms[..n]);
      assert ms == ms[..n] + [ms[n]];
    }
  }

  lemma {:induction false} MapAt(ms: seq<Member>, i: nat)
    requires DistinctKeys(ms) && i < |ms|
    ensures ms[i].key in MapOf(ms) && MapOf(ms)[ms[i].key] == ValueOf(ms[i].value)
  {
    if i < |ms| - 1 {
      MapAt(ms[..|ms| - 1], i);
    }
  }

  lemma {:induction false} MapAppend(a: seq<Member>, b: seq<Member>)
    ensures MapOf(a + b) == MapOf(a) + MapOf(b)
  {
    if b == [] {
      assert a + b == a;
    } else {
      var n := |b| - 1;
      MapAppend(a, b[..n]);
      assert (a + b)[..|a| + n] == a + b[..n];
    }
  }

  lemma MapOne(m: Member)
    ensures MapOf([m]) == map[m.key := ValueOf(m.value)]
  {
    assert [m][..0] == [];
  }

  lemma KeysApart(ms: seq<Member>, i: nat)
    requires DistinctKeys(ms) && i < |ms|
    ensures ms[i].key !in MapOf(ms[..i]) && ms[i].key !in MapOf(ms[i + 1..])
  {
    MapKeys(ms[..i]);
    MapKeys(ms[i + 1..]);
  }

  /** A member in the middle contributes its own binding and nothing else. */
  lemma MapSplit(ms: seq<Member>, i: nat)
    requires DistinctKeys(ms) && i < |ms|
    ensures MapOf(ms) == MapOf(Without(ms, i))[ms[i].key := ValueOf(ms[i].value)]
    ensures ms[i].key !in MapOf(Without(ms, i))
    ensures MapOf(Without(ms, i)) == MapOf(ms) - {ms[i].key}
  {
    hide MapOf, ValueOf;
    KeysApart(ms, i);
    MapAppend(ms[..i], ms[i + 1..]);
    MapAppend(ms[..i], [ms[i]]);
    MapOne(ms[i]);
    assert ms == ms[..i] + [ms[i]] + ms[i + 1..];
    MapAppend(ms[..i] + [ms[i]], ms[i + 1..]);
    MiddleBinding(MapOf(ms[..i]), MapOf(ms[i + 1..]), ms[i].key, ValueOf(ms[i].value));
  }

  lemma MiddleBinding<K, V>(a: map<K, V>, b: map<K, V>, k: K, v: V)
    requires k !in a && k !in b
    ensures a + map[k := v] + b == (a + b)[k := v]
    ensures a + b == (a + map[k := v] + b) - {k}
  {
  }

  lemma MapReplace(ms: seq<Member>, i: nat, value: Json)
    requires DistinctKeys(ms) && i < |ms|
    ensures MapOf(ms[i := Member(ms[i].key, value)]) == MapOf(ms)[ms[i].key := ValueOf(value)]
  {
    var changed := ms[i := Member(ms[i].key, value)];
    MapSplit(ms, i);
    MapSplit(changed, i);
    assert Without(changed, i) == Without(ms, i);
  }

  /** Member order does not matter to the value. */
  lemma MapPermuted(a: seq<Member>, b: seq<Member>)
    requires DistinctKeys(a) && DistinctKeys(b) && multiset(a) == multiset(b)
    ensures MapOf(a) == MapOf(b)
  {
    MapWithin(a, b);
    MapWithin(b, a);
    hide MapOf;
  }

  lemma MapWithin(a: seq<Member>, b: seq<Member>)
    requires DistinctKeys(a) && DistinctKeys(b) && multiset(a) == multiset(b)
    ensures forall k :: k in MapOf(a) ==> k in MapOf(b) && MapOf(a)[k] == MapOf(b)[k]
  {
    hide MapOf, ValueOf;
    MapKeys(a);
    MembersPermuted(a, b);
    forall k | k in MapOf(a)
      ensures k in MapOf(b) && MapOf(a)[k] == MapOf(b)[k]
    {
      assert k in Keys(a);
      var i :| 0 <= i < |a| && a[i].key == k;
      MapAt(a, i);
      var j :| 0 <= j < |b| && b[j] == a[i];
      MapAt(b, j);
    }
  }

  lemma MembersPermuted(a: seq<Member>, b: seq<Member>)
    requires multiset(a) == multiset(b)
    ensures forall i :: 0 <= i < |a| ==> a[i] in b
  {
    forall i | 0 <= i < |a|
      ensures a[i] in b
    {
      assert a[i] in multiset(a);
      assert a[i] in multiset(b);
    }
  }

  lemma DistinctWithout(ms: seq<Member>, i: nat)
    requires GoodMembers(ms) && i < |ms|
    ensures GoodMembers(Without(ms, i))
  {
    assert Keys(Without(ms, i)) <= Keys(ms);
  }

  lemma MapHead(ms: seq<Member>)
    requires ms != [] && GoodMembers(ms)
    ensures var k := ms[0].key;
            && GoodMembers(ms[1..]) && Terminated(k) && Good(ms[0].value)
            && k !in MapOf(ms[1..]) && MapOf(ms) == MapOf(ms[1..])[k := ValueOf(ms[0].value)]
  {
    MapSplit(ms, 0);
    DistinctWithout(ms, 0);
    assert Without(ms, 0) == ms[1..];
    hide MapOf;
  }

  lemma {:induction false} GoodIsSound(j: Json)
    requires Good(j)
    ensures Sound(j)
    decreases j
  {
    match j
    case Array(items) =>
      forall i | 0 <= i < |items|
        ensures Sound(items[i])
      {
        GoodIsSound(items[i]);
      }
    case Object(ms, _) =>
      forall i | 0 <= i < |ms|
        ensures Sound(ms[i].value)
      {
        GoodIsSound(ms[i].value);
      }
    case _ =>
  }

  lemma SoundHead(ms: seq<Member>)
    requires ms != [] && SoundMembers(ms)
    ensures SoundMembers(ms[1..]) && Terminated(ms[0].key) && Sound(ms[0].value)
  {
  }

  /** The first member is one binding more. */
  lemma FirstBinding(ms: seq<Member>)
    requires ms != [] && DistinctKeys(ms)
    ensures ms[0].key !in MapOf(ms[1..]) && MapOf(ms) == MapOf(ms[1..])[ms[0].key := ValueOf(ms[0].value)]
  {
    MapSplit(ms, 0);
    assert Without(ms, 0) == ms[1..];
    hide MapOf;
  }

  /** Names that are spelled alike compare equal exactly when they are the same. */
  lemma SameKey(a: string, b: string, caseSensitive: bool)
    requires Terminated(a) && Terminated(b) && (caseSensitive || OneSpelling({a, b}))
    ensures CompareStrings(a, b, caseSensitive) == 0 <==> a == b
  {
    CompareZero(a, b, caseSensitive);
  }

  lemma GoodTail(items: seq<Json>)
    requires items != [] && Good(Array(items))
    ensures Good(items[0]) && Good(Array(items[1..]))
    ensures ValuesOf(items) == [ValueOf(items[0])] + ValuesOf(items[1..])
  {
  }

  lemma GoodObject(j: Json)
    requires Good(j) && j.Object?
    ensures GoodMembers(j.members)
  {
  }

  // ----- values -----

  /** No object of the value has two names that differ in case only. */
  ghost predicate Proper(v: Value)
    decreases v
  {
    match v
    case VArray(items) => forall i :: 0 <= i < |items| ==> Proper(items[i])
    case VObject(m) => OneSpelling(m.Keys) && forall k :: k in m ==> Proper(m[k])
    case _ => true
  }

  /** Where both values have an object, no name of one is a name of the other in another spelling. */
  ghost predicate Aligned(v: Value, w: Value)
    decreases v
  {
    && (v.VArray? && w.VArray? ==> forall i :: 0 <= i < |v.items| && i < |w.items| ==> Aligned(v.items[i], w.items[i]))
    && (v.VObject? && w.VObject? ==>
          && OneSpelling(v.members.Keys + w.members.Keys)
          && forall k :: k in v.members && k in w.members ==> Aligned(v.members[k], w.members[k]))
  }

  /** Names of aligned objects are spelled alike, and what is left without their first members is aligned. */
  lemma AlignedHead(a: seq<Member>, b: seq<Member>)
    requires a != [] && b != [] && GoodMembers(a) && GoodMembers(b) && Aligned(VObject(MapOf(a)), VObject(MapOf(b)))
    ensures OneSpelling({a[0].key, b[0].key})
    ensures a[0].key == b[0].key ==> Aligned(ValueOf(a[0].value), ValueOf(b[0].value))
    ensures Aligned(VObject(MapOf(a[1..])), VObject(MapOf(b[1..])))
    ensures Aligned(VObject(MapOf(a[1..])), VObject(MapOf(b))) && Aligned(VObject(MapOf(a)), VObject(MapOf(b[1..])))
  {
    hide Good;
    AlignedFirst(a, b);
  }

  lemma AlignedFirst(a: seq<Member>, b: seq<Member>)
    requires a != [] && b != [] && DistinctKeys(a) && DistinctKeys(b) && Aligned(VObject(MapOf(a)), VObject(MapOf(b)))
    ensures OneSpelling({a[0].key, b[0].key})
    ensures a[0].key == b[0].key ==> Aligned(ValueOf(a[0].value), ValueOf(b[0].value))
    ensures Aligned(VObject(MapOf(a[1..])), VObject(MapOf(b[1..])))
    ensures Aligned(VObject(MapOf(a[1..])), VObject(MapOf(b))) && Aligned(VObject(MapOf(a)), VObject(MapOf(b[1..])))
  {
    FirstBinding(a);
    FirstBinding(b);
    hide MapOf, ValueOf;
    var m, n := MapOf(a), MapOf(b);
    assert a[0].key in m && b[0].key in n;
    hide Aligned;
    AlignedWithin(m, n, m, n);
    AlignedWithin(m, n, MapOf(a[1..]), MapOf(b[1..]));
    AlignedWithin(m, n, MapOf(a[1..]), n);
    AlignedWithin(m, n, m, MapOf(b[1..]));
  }

  /** Parts of aligned objects are aligned. */
  lemma AlignedWithin(m: map<string, Value>, n: map<string, Value>, p: map<string, Value>, q: map<string, Value>)
    requires Aligned(VObject(m), VObject(n))
    requires p.Keys <= m.Keys && (forall k :: k in p ==> p[k] == m[k])
    requires q.Keys <= n.Keys && (forall k :: k in q ==> q[k] == n[k])
    ensures Aligned(VObject(p), VObject(q))
    ensures OneSpelling(m.Keys + n.Keys) && forall k :: k in m && k in n ==> Aligned(m[k], n[k])
  {
  }

  lemma AlignedTails(from: seq<Member>, to: seq<Member>)
    requires GoodMembers(from) && GoodMembers(to) && Aligned(VObject(MapOf(from)), VObject(MapOf(to)))
    ensures from != [] ==> Aligned(VObject(MapOf(from[1..])), VObject(MapOf(to)))
    ensures to != [] ==> Aligned(VObject(MapOf(from)), VObject(MapOf(to[1..])))
  {
    if from != [] {
      MapHead(from);
    }
    if to != [] {
      MapHead(to);
    }
    var m, n := MapOf(from), MapOf(to);
    hide MapOf, Good, GoodMembers, ValueOf, Aligned;
    AlignedWithin(m, n, if from == [] then m else MapOf(from[1..]), n);
    AlignedWithin(m, n, m, if to == [] then n else MapOf(to[1..]));
  }

  lemma {:induction false} GoodIsProper(j: Json)
    requires Good(j)
    ensures Proper(ValueOf(j))
    decreases j
  {
    match j
    case Array(items) =>
      forall i | 0 <= i < |items|
        ensures Proper(ValuesOf(items)[i])
      {
        GoodIsProper(items[i]);
      }
    case Object(ms, _) =>
      MapKeys(ms);
      forall k | k in MapOf(ms)
        ensures Proper(MapOf(ms)[k])
      {
        assert k in Keys(ms);
        var i :| 0 <= i < |ms| && ms[i].key == k;
        MapAt(ms, i);
        GoodIsProper(ms[i].value);
      }
    case _ =>
  }

  /** A copy has the value of what was copied, and can be appended to everywhere. */
  lemma {:induction false} DuplicateSame(j: Json)
    ensures ValueOf(Duplicate(j)) == ValueOf(j) && Intact(Duplicate(j)) && (Good(j) <==> Good(Duplicate(j)))
    ensures Intact(j) ==> Duplicate(j) == j
    decreases j, 1
  {
    match j
    case Array(items) =>
      var copies := DuplicateItems(items);
      forall i | 0 <= i < |items|
        ensures ValueOf(copies[i]) == ValueOf(items[i]) && Intact(copies[i]) && (Good(items[i]) <==> Good(copies[i]))
        ensures Intact(items[i]) ==> copies[i] == items[i]
      {
        DuplicateSame(items[i]);
      }
      assert ValuesOf(copies) == ValuesOf(items);
    case Object(ms, _) => MembersSame(ms, j);
    case _ =>
  }

  lemma MembersSame(ms: seq<Member>, j: Json)
    requires j.Object? && ms == j.members
    ensures ValueOf(Duplicate(j)) == ValueOf(j) && Intact(Duplicate(j)) && (Good(j) <==> Good(Duplicate(j)))
    ensures Intact(j) ==> Duplicate(j) == j
    decreases j, 0
  {
    var copies := DuplicateMembers(ms);
    forall i | 0 <= i < |ms|
      ensures ValueOf(copies[i].value) == ValueOf(ms[i].value) && Intact(copies[i].value)
      ensures Good(ms[i].value) <==> Good(copies[i].value)
      ensures Intact(ms[i].value) ==> copies[i].value == ms[i].value
    {
      DuplicateSame(ms[i].value);
    }
    MapSame(ms, copies);
    assert Keys(copies) == Keys(ms);
    if Intact(j) {
      assert copies == ms;
    }
  }

  lemma {:induction false} MapSame(a: seq<Member>, b: seq<Member>)
    requires |a| == |b|
    requires forall i :: 0 <= i < |a| ==> a[i].key == b[i].key && ValueOf(a[i].value) == ValueOf(b[i].value)
    ensures MapOf(a) == MapOf(b)
  {
    if a != [] {
      MapSame(a[..|a| - 1], b[..|b| - 1]);
    }
  }
}
