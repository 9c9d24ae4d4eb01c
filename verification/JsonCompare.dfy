/** Comparing trees decides equality of their values. */
module JsonCompare {
  import opened Json
  import opened JsonSort
  import opened JsonPatch

  /** Trees compare equal exactly when they have the same value: member order does not matter, element order does. Where
      case is not heeded, names must be spelled alike. */
  lemma {:induction false} CompareDecides(a: Json, b: Json, caseSensitive: bool)
    requires Sound(a) && Sound(b) && (caseSensitive || Aligned(ValueOf(a), ValueOf(b)))
    ensures CompareJson(a, b, caseSensitive) <==> ValueOf(a) == ValueOf(b)
    decreases a, 1, 0
  {
    hide CompareItems, CompareMembers, MapOf;
    if Tag(a) == Tag(b) {
      match a
      case String(s) => StrCmpZero(s, b.s);
      case Array(items) => ItemsDecide(items, b.items, caseSensitive, a);
      case Object(ms, _) => ObjectDecides(a, b, caseSensitive);
      case _ =>
    }
  }

  lemma ObjectDecides(a: Json, b: Json, caseSensitive: bool)
    requires Sound(a) && Sound(b) && a.Object? && b.Object? && (caseSensitive || Aligned(ValueOf(a), ValueOf(b)))
    ensures CompareJson(a, b, caseSensitive) <==> MapOf(a.members) == MapOf(b.members)
    decreases a, 0, |a.members| + 1
  {
    var s, t := Sort(a.members, caseSensitive), Sort(b.members, caseSensitive);
    assert |multiset(s)| == |multiset(a.members)|;
    SortedChildren(a, caseSensitive);
    SortSound(a.members, caseSensitive);
    SortSound(b.members, caseSensitive);
    hide Sound, SoundMembers, Sort, MapOf, CompareMembers, Sorted;
    MembersDecide(s, t, caseSensitive, a);
  }

  lemma SortSound(ms: seq<Member>, caseSensitive: bool)
    requires SoundMembers(ms)
    ensures var r := Sort(ms, caseSensitive);
            SoundMembers(r) && MapOf(r) == MapOf(ms) && Sorted(r, caseSensitive)
  {
    hide Sound, Sort, Sorted, MapOf;
    SortKeeps(ms, caseSensitive);
  }

  lemma {:induction false} ItemsDecide(a: seq<Json>, b: seq<Json>, caseSensitive: bool, whole: Json)
    requires Sound(Array(a)) && Sound(Array(b)) && (forall i :: 0 <= i < |a| ==> a[i] < whole)
    requires caseSensitive || forall i :: 0 <= i < |a| && i < |b| ==> Aligned(ValueOf(a[i]), ValueOf(b[i]))
    ensures CompareItems(a, b, caseSensitive, whole) <==> ValuesOf(a) == ValuesOf(b)
    decreases whole, 0, |a|
  {
    if a != [] && b != [] {
      assert ValuesOf(a) == [ValueOf(a[0])] + ValuesOf(a[1..]) && ValuesOf(b) == [ValueOf(b[0])] + ValuesOf(b[1..]);
      hide ValueOf, ValuesOf, CompareJson;
      CompareDecides(a[0], b[0], caseSensitive);
      ItemsDecide(a[1..], b[1..], caseSensitive, whole);
      ConsEqual(ValueOf(a[0]), ValuesOf(a[1..]), ValueOf(b[0]), ValuesOf(b[1..]));
    }
  }

  lemma ConsEqual<T>(x: T, s: seq<T>, y: T, t: seq<T>)
    ensures [x] + s == [y] + t <==> x == y && s == t
  {
    if [x] + s == [y] + t {
      assert ([x] + s)[0] == x && ([y] + t)[0] == y;
      assert ([x] + s)[1..] == s && ([y] + t)[1..] == t;
    }
  }

  lemma {:induction false} MembersDecide(a: seq<Member>, b: seq<Member>, caseSensitive: bool, whole: Json)
    requires SoundMembers(a) && SoundMembers(b) && Sorted(a, caseSensitive) && Sorted(b, caseSensitive)
    requires caseSensitive || Aligned(VObject(MapOf(a)), VObject(MapOf(b)))
    requires forall i :: 0 <= i < |a| ==> a[i].value < whole
    ensures CompareMembers(a, b, caseSensitive, whole) <==> MapOf(a) == MapOf(b)
    decreases whole, 0, |a|
  {
    hide Sound, ValueOf, CompareStrings, CompareJson, StrCmp;
    if a != [] {
      SoundHead(a);
      FirstBinding(a);
      SortedTail(a, caseSensitive);
    }
    if b != [] {
      SoundHead(b);
      FirstBinding(b);
      SortedTail(b, caseSensitive);
    }
    if a != [] && b != [] && !caseSensitive {
      AlignedFirst(a, b);
    }
    hide SoundMembers, Sorted, Aligned, OneSpelling;
    if a != [] && b != [] {
      SameKey(a[0].key, b[0].key, caseSensitive);
      if a[0].key == b[0].key {
        hide MapOf;
        CompareDecides(a[0].value, b[0].value, caseSensitive);
        MembersDecide(a[1..], b[1..], caseSensitive, whole);
        BindingEqual(a[0].key, ValueOf(a[0].value), MapOf(a[1..]), ValueOf(b[0].value), MapOf(b[1..]));
      } else {
        hide MapOf;
        LeastKey(a, b, caseSensitive);
      }
    } else {
      assert a != [] ==> a[0].key in MapOf(a);
      assert b != [] ==> b[0].key in MapOf(b);
      assert MapOf([]) == map[];
    }
  }

  /** Sorted objects with different first keys have different keys. */
  lemma LeastKey(a: seq<Member>, b: seq<Member>, caseSensitive: bool)
    requires Sorted(a, caseSensitive) && Sorted(b, caseSensitive) && a != [] && b != []
    requires Terminated(a[0].key) && Terminated(b[0].key)
    requires a[0].key != b[0].key && (caseSensitive || OneSpelling({a[0].key, b[0].key}))
    ensures MapOf(a) != MapOf(b)
  {
    MapKeys(a);
    MapKeys(b);
    SameKey(a[0].key, b[0].key, caseSensitive);
    CompareAntisymmetric(a[0].key, b[0].key, caseSensitive);
    assert a[0].key in Keys(a) && b[0].key in Keys(b);
    hide MapOf, CompareStrings;
    if CompareStrings(a[0].key, b[0].key, caseSensitive) < 0 {
      BelowFirst(b, a[0].key, caseSensitive);
    } else {
      BelowFirst(a, b[0].key, caseSensitive);
    }
  }

  lemma BindingEqual<K, V>(k: K, x: V, m: map<K, V>, y: V, n: map<K, V>)
    requires k !in m && k !in n
    ensures m[k := x] == n[k := y] <==> x == y && m == n
  {
    if m[k := x] == n[k := y] {
      assert m[k := x][k] == x && n[k := y][k] == y;
      assert m == m[k := x] - {k} && n == n[k := y] - {k};
    }
  }

  /** In particular for trees whose names are distinct up to case. */
  lemma GoodDecides(a: Json, b: Json, caseSensitive: bool)
    requires Good(a) && Good(b) && (caseSensitive || Aligned(ValueOf(a), ValueOf(b)))
    ensures CompareJson(a, b, caseSensitive) <==> ValueOf(a) == ValueOf(b)
  {
    GoodIsSound(a);
    GoodIsSound(b);
    hide Good, Sound, CompareJson, Aligned, ValueOf;
    CompareDecides(a, b, caseSensitive);
  }
}
