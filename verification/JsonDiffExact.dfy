/** How much a generated JSON Patch holds: one operation for each difference, each at a place where the trees differ. */
module JsonDiffExact {
  import opened Basics
  import opened Json
  import opened JsonToken
  import opened JsonPointer
  import opened JsonSort
  import opened JsonPatch
  import opened JsonPatchMeaning
  import opened JsonDiff

  // ----- the differences of two values -----

  /** Two scalars or kinds that differ count once, and so does an element or a member that only one has. */
  ghost function Differences(v: Value, w: Value): nat
    decreases v, 1
  {
    if v.VArray? && w.VArray? then ItemDifferences(v, w, 0)
    else if v.VObject? && w.VObject? then MemberDifferences(v.members.Keys + w.members.Keys, v, w)
    else if v == w then 0
    else 1
  }

  ghost function ItemDifferences(v: Value, w: Value, i: nat): nat
    requires v.VArray? && w.VArray?
    decreases v, 0, |v.items| - i
  {
    if i < |v.items| && i < |w.items| then Differences(v.items[i], w.items[i]) + ItemDifferences(v, w, i + 1)
    else (if i < |v.items| then |v.items| - i else 0) + (if i < |w.items| then |w.items| - i else 0)
  }

  ghost function MemberDifferences(names: set<string>, v: Value, w: Value): nat
    requires v.VObject? && w.VObject?
    decreases v, 0, |names|
  {
    if names == {} then 0
    else
      var k :| k in names;
      (if k in v.members && k in w.members then Differences(v.members[k], w.members[k]) else 1)
      + MemberDifferences(names - {k}, v, w)
  }

  ghost function MemberDifference(k: string, v: Value, w: Value): nat
    requires v.VObject? && w.VObject?
  {
    if k in v.members && k in w.members then Differences(v.members[k], w.members[k]) else 1
  }

  /** The names may be counted in any order. */
  lemma {:induction false} AnyName(names: set<string>, k: string, v: Value, w: Value)
    requires v.VObject? && w.VObject? && k in names
    ensures MemberDifferences(names, v, w) == MemberDifference(k, v, w) + MemberDifferences(names - {k}, v, w)
    decreases |names|
  {
    hide Differences;
    var first :| first in names
      && MemberDifferences(names, v, w) == MemberDifference(first, v, w) + MemberDifferences(names - {first}, v, w);
    if first != k {
      AnyName(names - {first}, k, v, w);
      AnyName(names - {k}, first, v, w);
      assert names - {first} - {k} == names - {k} - {first};
    }
  }

  /** There is no difference exactly between equal values. */
  lemma {:induction false} NoDifferences(v: Value, w: Value)
    ensures Differences(v, w) == 0 <==> v == w
    decreases v, 1
  {
    if v.VArray? && w.VArray? {
      NoItemDifferences(v, w, 0);
    } else if v.VObject? && w.VObject? {
      NoMemberDifferences(v.members.Keys + w.members.Keys, v, w);
      SameMembers(v.members, w.members);
    }
  }

  lemma SameMembers(m: map<string, Value>, n: map<string, Value>)
    ensures m == n <==> forall k :: k in m.Keys + n.Keys ==> k in m && k in n && m[k] == n[k]
  {
    if forall k :: k in m.Keys + n.Keys ==> k in m && k in n && m[k] == n[k] {
      assert m.Keys == n.Keys;
    }
  }

  lemma {:induction false} NoItemDifferences(v: Value, w: Value, i: nat)
    requires v.VArray? && w.VArray? && i <= |v.items| && i <= |w.items|
    ensures ItemDifferences(v, w, i) == 0 <==> v.items[i..] == w.items[i..]
    decreases v, 0, |v.items| - i
  {
    if i < |v.items| && i < |w.items| {
      NoDifferences(v.items[i], w.items[i]);
      NoItemDifferences(v, w, i + 1);
      assert v.items[i..] == [v.items[i]] + v.items[i + 1..];
      assert w.items[i..] == [w.items[i]] + w.items[i + 1..];
    }
  }

  lemma {:induction false} NoMemberDifferences(names: set<string>, v: Value, w: Value)
    requires v.VObject? && w.VObject?
    ensures MemberDifferences(names, v, w) == 0
            <==> forall k :: k in names ==> k in v.members && k in w.members && v.members[k] == w.members[k]
    decreases v, 0, |names|
  {
    if names != {} {
      var k :| k in names;
      AnyName(names, k, v, w);
      hide MemberDifferences;
      if k in v.members && k in w.members {
        NoDifferences(v.members[k], w.members[k]);
      }
      hide Differences;
      NoMemberDifferences(names - {k}, v, w);
    }
  }

  // ----- the places of the operations -----

  /** Neither here nor anywhere above do the two values have the same. */
  ghost predicate Differ(v: Value, w: Value, tokens: seq<string>) {
    forall n :: 0 <= n <= |tokens| ==> !Agree(v, w, tokens[..n])
  }

  predicate Agree(v: Value, w: Value, tokens: seq<string>) {
    VGet(v, tokens).Some? && VGet(v, tokens) == VGet(w, tokens)
  }

  /** The path of the operation leads from the base to a place where the two values differ. */
  ghost predicate Needed(patch: Json, base: seq<string>, v: Value, w: Value) {
    exists tokens ::
      Lookup(patch, "path", true) == Some(String(Render(base + tokens))) && Differ(v, w, tokens)
  }

  ghost predicate Exact(patches: seq<Json>, count: nat, base: seq<string>, v: Value, w: Value) {
    |patches| == count && forall i :: 0 <= i < |patches| ==> Needed(patches[i], base, v, w)
  }

  lemma ExactJoin(a: seq<Json>, m: nat, b: seq<Json>, n: nat, base: seq<string>, v: Value, w: Value)
    requires Exact(a, m, base, v, w) && Exact(b, n, base, v, w)
    ensures Exact(a + b, m + n, base, v, w)
  {
    hide Needed;
  }

  lemma NothingExact(base: seq<string>, v: Value, w: Value)
    ensures Exact([], 0, base, v, w)
  {
  }

  lemma OneExact(op: string, x: Option<Json>, base: seq<string>, tokens: seq<string>, v: Value, w: Value)
    requires Differ(v, w, tokens)
    ensures Exact([Compose(op, Render(base + tokens), x)], 1, base, v, w)
  {
    LookupComposed(op, Render(base + tokens), x, true);
    hide Compose, Lookup, Differ, Render;
  }

  lemma ReplaceExact(x: Option<Json>, base: seq<string>, v: Value, w: Value)
    requires v != w
    ensures Exact([Compose("replace", Render(base), x)], 1, base, v, w)
  {
    assert base + [] == base;
    assert Differ(v, w, []);
    OneExact("replace", x, base, [], v, w);
  }

  lemma ChildExact(op: string, x: Option<Json>, base: seq<string>, t: string, v: Value, w: Value)
    requires v != w && (VGet(v, [t]).None? || VGet(w, [t]).None?)
    ensures Exact([Compose(op, Child(Render(base), t), x)], 1, base, v, w)
  {
    ChildPath(base, t);
    assert Differ(v, w, [t]) by {
      forall n | 0 <= n <= |[t]|
        ensures !Agree(v, w, [t][..n])
      {
        assert [t][..n] == if n == 0 then [] else [t];
      }
    }
    hide Compose, VGet, Child, Differ;
    OneExact(op, x, base, [t], v, w);
  }

  /** What is needed in a child is needed in the parent. */
  lemma BelowExact(patches: seq<Json>, count: nat, base: seq<string>, t: string, v: Value, w: Value, x: Value, y: Value)
    requires VGet(v, [t]) == Some(x) && VGet(w, [t]) == Some(y)
    requires Exact(patches, count, base + [t], x, y)
    ensures Exact(patches, count, base, v, w)
  {
    hide VGet, Lookup, Differ;
    forall i | 0 <= i < |patches|
      ensures Needed(patches[i], base, v, w)
    {
      assert Needed(patches[i], base + [t], x, y);
      var tokens :|
        Lookup(patches[i], "path", true) == Some(String(Render(base + [t] + tokens))) && Differ(x, y, tokens);
      assert base + [t] + tokens == base + ([t] + tokens);
      DifferBelow(tokens, t, v, w, x, y);
    }
  }

  lemma DifferBelow(tokens: seq<string>, t: string, v: Value, w: Value, x: Value, y: Value)
    requires VGet(v, [t]) == Some(x) && VGet(w, [t]) == Some(y) && Differ(x, y, tokens)
    ensures Differ(v, w, [t] + tokens)
  {
    var all := [t] + tokens;
    forall n | 0 <= n <= |all|
      ensures !Agree(v, w, all[..n])
    {
      if n == 0 {
        assert tokens[..0] == [];
        assert !Agree(x, y, []);
      } else {
        assert all[..n] == [t] + tokens[..n - 1];
        GetBelow(v, t, tokens[..n - 1], x);
        GetBelow(w, t, tokens[..n - 1], y);
        assert !Agree(x, y, tokens[..n - 1]);
      }
    }
  }

  lemma GetBelow(v: Value, t: string, tokens: seq<string>, x: Value)
    requires VGet(v, [t]) == Some(x)
    ensures VGet(v, [t] + tokens) == VGet(x, tokens)
  {
    hide Index;
    assert ([t] + tokens)[1..] == tokens && [t][1..] == [];
  }

  // ----- the walks -----

  ghost predicate Mates(from: Json, to: Json) {
    Good(from) && Good(to) && Aligned(ValueOf(from), ValueOf(to))
  }

  /** One operation for each difference, where it is. */
  lemma {:induction false} PatchesExact(base: seq<string>, from: Json, to: Json, genCase: bool)
    requires Mates(from, to)
    ensures Exact(CreatePatches(Render(base), from, to, genCase), Differences(ValueOf(from), ValueOf(to)), base,
                  ValueOf(from), ValueOf(to))
    decreases from, 1
  {
    hide Exact, Compose, Render, CreateItems, CreateMembers, ItemDifferences, MemberDifferences, Aligned;
    NothingExact(base, ValueOf(from), ValueOf(to));
    if ValueOf(from) != ValueOf(to) {
      ReplaceExact(Some(to), base, ValueOf(from), ValueOf(to));
    }
    if Tag(from) == Tag(to) {
      match from
      case String(s) => StrCmpZero(s, to.s);
      case Array(items) =>
        ArrayExact(base, from, to, genCase);
      case Object(ms, _) =>
        ObjectExact(base, from, to, genCase);
      case _ =>
    }
  }

  lemma ArrayExact(base: seq<string>, from: Json, to: Json, genCase: bool)
    requires Mates(from, to) && from.Array? && to.Array?
    ensures Exact(CreatePatches(Render(base), from, to, genCase), Differences(ValueOf(from), ValueOf(to)), base,
                  ValueOf(from), ValueOf(to))
    decreases from, 0, |from.items| + |to.items|, 1
  {
    var v, w := ValueOf(from), ValueOf(to);
    assert from.items == [] || to.items == [] ==> ItemDifferences(v, w, 0) == |from.items| + |to.items|;
    hide Exact, Render, CreateItems, ItemDifferences;
    assert v.items[0..] == v.items && w.items[0..] == w.items;
    forall i | 0 <= i < |from.items| && i < |to.items|
      ensures Mates(from.items[i], to.items[i])
    {
      assert Aligned(v.items[i], w.items[i]);
    }
    ItemsExact(base, 0, from.items, to.items, genCase, from, v, w);
  }

  /** What is left of two arrays, from an index on: the elements, or nothing of the shorter one. */
  ghost predicate ItemsLeft(index: nat, from: seq<Json>, to: seq<Json>, v: Value, w: Value) {
    && v.VArray? && w.VArray?
    && (from != [] && to != [] ==>
          && index <= |v.items| && index <= |w.items|
          && ValuesOf(from) == v.items[index..] && ValuesOf(to) == w.items[index..])
    && (from != [] && to == [] ==> |w.items| <= index && |w.items| < |v.items|)
    && (from == [] && to != [] ==> |v.items| < |w.items|)
  }

  lemma {:induction false} ItemsExact(base: seq<string>, index: nat, from: seq<Json>, to: seq<Json>, genCase: bool,
                                      whole: Json, v: Value, w: Value)
    requires ItemsLeft(index, from, to, v, w) && (forall i :: 0 <= i < |from| ==> from[i] < whole)
    requires forall i :: 0 <= i < |from| && i < |to| ==> Mates(from[i], to[i])
    ensures Exact(CreateItems(Render(base), index, from, to, genCase, whole),
                  if from != [] && to != [] then ItemDifferences(v, w, index) else |from| + |to|, base, v, w)
    decreases whole, 0, |from| + |to|, 0
  {
    hide Exact, CreatePatches, Compose, Render, Decimal, Child, Differences, ValueOf, ValuesOf, Mates;
    if from != [] && to != [] {
      SameElement(base, index, from, to, genCase, whole, v, w);
      ItemsLeftOn(index, from, to, v, w);
      ItemsExact(base, index + 1, from[1..], to[1..], genCase, whole, v, w);
      ExactJoin(CreatePatches(Render(base) + "/" + Decimal(index), from[0], to[0], genCase),
                Differences(v.items[index], w.items[index]),
                CreateItems(Render(base), index + 1, from[1..], to[1..], genCase, whole),
                if from[1..] != [] && to[1..] != [] then ItemDifferences(v, w, index + 1) else |from[1..]| + |to[1..]|,
                base, v, w);
    } else if from != [] {
      DecodeDecimal(index, "");
      assert Decimal(index) + "" == Decimal(index);
      NoElement(w, Decimal(index), index);
      ChildExact("remove", None, base, Decimal(index), v, w);
      ItemsExact(base, index, from[1..], to, genCase, whole, v, w);
      ExactJoin([Compose("remove", Child(Render(base), Decimal(index)), None)], 1,
                CreateItems(Render(base), index, from[1..], to, genCase, whole), |from[1..]| + |to|, base, v, w);
    } else if to != [] {
      NoDash(v);
      ChildExact("add", Some(to[0]), base, "-", v, w);
      ItemsExact(base, index + 1, from, to[1..], genCase, whole, v, w);
      ExactJoin([Compose("add", Child(Render(base), "-"), Some(to[0]))], 1,
                CreateItems(Render(base), index + 1, from, to[1..], genCase, whole), |from| + |to[1..]|, base, v, w);
    } else {
      NothingExact(base, v, w);
    }
  }

  lemma NoElement(w: Value, t: string, index: nat)
    requires w.VArray? && Index(t) == Some(index) && |w.items| <= index
    ensures VGet(w, [t]) == None
  {
    hide Index;
  }

  lemma NoDash(v: Value)
    requires v.VArray?
    ensures VGet(v, ["-"]) == None
  {
    DashIsNoIndex();
    hide Index;
  }

  /** What is left after the first of both. */
  lemma ItemsLeftOn(index: nat, from: seq<Json>, to: seq<Json>, v: Value, w: Value)
    requires ItemsLeft(index, from, to, v, w) && from != [] && to != []
    ensures ItemsLeft(index + 1, from[1..], to[1..], v, w)
    ensures from[1..] == [] || to[1..] == [] ==> ItemDifferences(v, w, index + 1) == |from[1..]| + |to[1..]|
    ensures index < |v.items| && index < |w.items|
  {
    hide Differences;
    ValuesHead(from);
    ValuesHead(to);
    hide ValueOf, ValuesOf;
    assert v.items[index..][1..] == v.items[index + 1..] && w.items[index..][1..] == w.items[index + 1..];
    assert ValuesOf(from)[1..] == ValuesOf(from[1..]) && ValuesOf(to)[1..] == ValuesOf(to[1..]);
  }

  lemma SameElement(base: seq<string>, index: nat, from: seq<Json>, to: seq<Json>, genCase: bool, whole: Json, v: Value,
                    w: Value)
    requires ItemsLeft(index, from, to, v, w) && from != [] && to != [] && from[0] < whole && Mates(from[0], to[0])
    ensures index < |v.items| && index < |w.items|
    ensures Exact(CreatePatches(Render(base) + "/" + Decimal(index), from[0], to[0], genCase),
                  Differences(v.items[index], w.items[index]), base, v, w)
    decreases whole, 0, 0
  {
    ValuesHead(from);
    ValuesHead(to);
    hide Exact, CreatePatches, Render, Decimal, Child, Differences, ValueOf, ValuesOf, Mates, Index;
    assert v.items[index] == v.items[index..][0] == ValueOf(from[0]);
    assert w.items[index] == w.items[index..][0] == ValueOf(to[0]);
    IndexPath(base, index);
    DecodeDecimal(index, "");
    assert Decimal(index) + "" == Decimal(index);
    PatchesExact(base + [Decimal(index)], from[0], to[0], genCase);
    assert [Decimal(index)][1..] == [];
    BelowExact(CreatePatches(Render(base + [Decimal(index)]), from[0], to[0], genCase),
               Differences(v.items[index], w.items[index]), base, Decimal(index), v, w, v.items[index], w.items[index]);
  }

  /** What is left of two objects: members they have, each still left in both or in one only from the start. */
  ghost predicate MembersLeft(from: seq<Member>, to: seq<Member>, v: Value, w: Value) {
    && v.VObject? && w.VObject?
    && Within(MapOf(from), MapOf(to), v.members, w.members) && Within(MapOf(to), MapOf(from), w.members, v.members)
  }

  ghost predicate Within(m: map<string, Value>, other: map<string, Value>, v: map<string, Value>, w: map<string,
                         Value>) {
    forall k :: k in m ==> k in v && v[k] == m[k] && (k in w ==> k in other)
  }

  ghost predicate MemberMates(from: seq<Member>, to: seq<Member>, genCase: bool) {
    && GoodMembers(from) && GoodMembers(to) && Aligned(VObject(MapOf(from)), VObject(MapOf(to)))
    && Sorted(from, genCase) && Sorted(to, genCase)
  }

  lemma ObjectExact(base: seq<string>, from: Json, to: Json, genCase: bool)
    requires Mates(from, to) && from.Object? && to.Object?
    ensures Exact(CreatePatches(Render(base), from, to, genCase), Differences(ValueOf(from), ValueOf(to)), base,
                  ValueOf(from), ValueOf(to))
    decreases from, 0, |from.members| + |to.members|, 2
  {
    var s, t := Sort(from.members, genCase), Sort(to.members, genCase);
    SortedMates(from, to, genCase);
    SameLength(from.members, genCase);
    SameLength(to.members, genCase);
    Patches(Render(base), from, to, genCase);
    hide *;
    MembersExact(base, s, t, genCase, from, ValueOf(from), ValueOf(to));
    CountedWhole(CreateMembers(Render(base), s, t, genCase, from), base, s, t, ValueOf(from), ValueOf(to));
  }

  lemma SortedMates(from: Json, to: Json, genCase: bool)
    requires Mates(from, to) && from.Object? && to.Object?
    ensures var s, t := Sort(from.members, genCase), Sort(to.members, genCase);
            && MemberMates(s, t, genCase) && MembersLeft(s, t, ValueOf(from), ValueOf(to))
            && ValueOf(from) == VObject(MapOf(s)) && ValueOf(to) == VObject(MapOf(t))
  {
    GoodObject(from);
    GoodObject(to);
    hide Good, GoodMembers, Sort, Sorted, MapOf, Aligned;
    SortGood(from.members, genCase);
    SortGood(to.members, genCase);
  }

  lemma CountedWhole(patches: seq<Json>, base: seq<string>, from: seq<Member>, to: seq<Member>, v: Value, w: Value)
    requires v.VObject? && w.VObject? && Counted(patches, base, from, to, v, w)
    requires v == VObject(MapOf(from)) && w == VObject(MapOf(to))
    ensures Exact(patches, Differences(v, w), base, v, w)
  {
    hide Exact, MapOf, MemberDifferences;
  }

  lemma {:induction false} MembersExact(base: seq<string>, from: seq<Member>, to: seq<Member>, genCase: bool,
                                        whole: Json,
                                        v: Value, w: Value)
    requires MemberMates(from, to, genCase) && MembersLeft(from, to, v, w)
    requires forall i :: 0 <= i < |from| ==> from[i].value < whole
    ensures v.VObject? && w.VObject? && Counted(CreateMembers(Render(base), from, to, genCase, whole), base, from, to,
            v, w)
    decreases whole, 0, |from| + |to|, 1
  {
    hide Exact, CreateMembers, Render, MapOf, CompareStrings, MemberMates, Counted;
    if from == [] && to == [] {
      MembersEnd(Render(base), genCase, whole);
      NothingCounted(base, v, w);
    } else {
      var diff := if from == [] then 1 else if to == [] then -1 else CompareStrings(from[0].key, to[0].key, genCase);
      if diff == 0 {
        BothExact(base, from, to, genCase, whole, v, w);
      } else if diff < 0 {
        GoneExact(base, from, to, genCase, whole, v, w);
      } else {
        NewExact(base, from, to, genCase, whole, v, w);
      }
    }
  }

  lemma MembersWalk(path: string, f: seq<Member>, t: seq<Member>, genCase: bool, whole: Json)
    requires (f != [] || t != []) && (forall i :: 0 <= i < |f| ==> f[i].value < whole)
    ensures var diff := if f == [] then 1 else if t == [] then -1 else CompareStrings(f[0].key, t[0].key, genCase);
            CreateMembers(path, f, t, genCase, whole)
            == if diff == 0 then
                 CreatePatches(Child(path, f[0].key), f[0].value, t[0].value, genCase)
                 + CreateMembers(path, f[1..], t[1..], genCase, whole)
               else if diff < 0 then
                 [Compose("remove", Child(path, f[0].key), None)] + CreateMembers(path, f[1..], t, genCase, whole)
               else
                 [Compose("add", Child(path, t[0].key), Some(t[0].value))] + CreateMembers(path, f, t[1..], genCase, whole)
  {
    hide CreatePatches, Compose, Child, CompareStrings;
  }

  lemma BothExact(base: seq<string>, from: seq<Member>, to: seq<Member>, genCase: bool, whole: Json, v: Value, w: Value)
    requires MemberMates(from, to, genCase) && MembersLeft(from, to, v, w) && from != [] && to != []
    requires CompareStrings(from[0].key, to[0].key, genCase) == 0
    requires forall i :: 0 <= i < |from| ==> from[i].value < whole
    ensures v.VObject? && w.VObject? && Counted(CreateMembers(Render(base), from, to, genCase, whole), base, from, to,
            v, w)
    decreases whole, 0, |from| + |to|, 0
  {
    hide *;
    var path := Render(base);
    MembersWalk(path, from, to, genCase, whole);
    KeyBoth(from, to, genCase, v, w);
    LeftMeans(from, to, v, w);
    SameMember(base, from[0], to[0], genCase, whole, v, w);
    MembersExact(base, from[1..], to[1..], genCase, whole, v, w);
    TurnBoth(CreateMembers(path, from[1..], to[1..], genCase, whole), base, from, to, genCase, v, w);
  }

  lemma GoneExact(base: seq<string>, from: seq<Member>, to: seq<Member>, genCase: bool, whole: Json, v: Value, w: Value)
    requires MemberMates(from, to, genCase) && MembersLeft(from, to, v, w) && from != []
    requires to != [] ==> CompareStrings(from[0].key, to[0].key, genCase) < 0
    requires forall i :: 0 <= i < |from| ==> from[i].value < whole
    ensures v.VObject? && w.VObject? && Counted(CreateMembers(Render(base), from, to, genCase, whole), base, from, to,
            v, w)
    decreases whole, 0, |from| + |to|, 0
  {
    hide *;
    var path := Render(base);
    MembersWalk(path, from, to, genCase, whole);
    KeyGone(from, to, genCase, v, w);
    LeftMeans(from, to, v, w);
    MembersExact(base, from[1..], to, genCase, whole, v, w);
    TurnGone(CreateMembers(path, from[1..], to, genCase, whole), base, from, to, genCase, v, w);
  }

  lemma NewExact(base: seq<string>, from: seq<Member>, to: seq<Member>, genCase: bool, whole: Json, v: Value, w: Value)
    requires MemberMates(from, to, genCase) && MembersLeft(from, to, v, w) && to != []
    requires from != [] ==> CompareStrings(from[0].key, to[0].key, genCase) > 0
    requires forall i :: 0 <= i < |from| ==> from[i].value < whole
    ensures v.VObject? && w.VObject? && Counted(CreateMembers(Render(base), from, to, genCase, whole), base, from, to,
            v, w)
    decreases whole, 0, |from| + |to|, 0
  {
    hide *;
    var path := Render(base);
    MembersWalk(path, from, to, genCase, whole);
    KeyNew(from, to, genCase, v, w);
    LeftMeans(from, to, v, w);
    MembersExact(base, from, to[1..], genCase, whole, v, w);
    TurnNew(CreateMembers(path, from, to[1..], genCase, whole), base, from, to, genCase, v, w);
  }

  ghost predicate Counted(rest: seq<Json>, base: seq<string>, from: seq<Member>, to: seq<Member>, v: Value, w: Value)
    requires v.VObject? && w.VObject?
  {
    Exact(rest, MemberDifferences(MapOf(from).Keys + MapOf(to).Keys, v, w), base, v, w)
  }

  lemma TurnBoth(rest: seq<Json>, base: seq<string>, from: seq<Member>, to: seq<Member>, genCase: bool, v: Value,
                 w: Value)
    requires MemberMates(from, to, genCase) && MembersLeft(from, to, v, w) && from != [] && to != []
    requires CompareStrings(from[0].key, to[0].key, genCase) == 0
    requires var first := CreatePatches(Child(Render(base), from[0].key), from[0].value, to[0].value, genCase);
             Exact(first, MemberDifference(from[0].key, v, w), base, v, w)
    requires Counted(rest, base, from[1..], to[1..], v, w)
    ensures var first := CreatePatches(Child(Render(base), from[0].key), from[0].value, to[0].value, genCase);
            Counted(first + rest, base, from, to, v, w)
  {
    hide Exact, CreatePatches, Render, Child, MapOf, CompareStrings, MemberMates, MemberDifferences, MemberDifference;
    KeyBoth(from, to, genCase, v, w);
    hide MembersLeft;
    ExactJoin(CreatePatches(Child(Render(base), from[0].key), from[0].value, to[0].value, genCase),
              MemberDifference(from[0].key, v, w),
              rest, MemberDifferences(MapOf(from[1..]).Keys + MapOf(to[1..]).Keys, v, w), base, v, w);
  }

  lemma TurnGone(rest: seq<Json>, base: seq<string>, from: seq<Member>, to: seq<Member>, genCase: bool, v: Value,
                 w: Value)
    requires MemberMates(from, to, genCase) && MembersLeft(from, to, v, w) && from != []
    requires to != [] ==> CompareStrings(from[0].key, to[0].key, genCase) < 0
    requires Counted(rest, base, from[1..], to, v, w)
    ensures Counted([Compose("remove", Child(Render(base), from[0].key), None)] + rest, base, from, to, v, w)
  {
    hide Exact, Compose, Render, Child, MapOf, CompareStrings, MemberMates, MemberDifferences, VGet;
    KeyGone(from, to, genCase, v, w);
    hide MembersLeft;
    ChildExact("remove", None, base, from[0].key, v, w);
    ExactJoin([Compose("remove", Child(Render(base), from[0].key), None)], 1,
              rest, MemberDifferences(MapOf(from[1..]).Keys + MapOf(to).Keys, v, w), base, v, w);
  }

  lemma TurnNew(rest: seq<Json>, base: seq<string>, from: seq<Member>, to: seq<Member>, genCase: bool, v: Value,
                w: Value)
    requires MemberMates(from, to, genCase) && MembersLeft(from, to, v, w) && to != []
    requires from != [] ==> CompareStrings(from[0].key, to[0].key, genCase) > 0
    requires Counted(rest, base, from, to[1..], v, w)
    ensures Counted([Compose("add", Child(Render(base), to[0].key), Some(to[0].value))] + rest, base, from, to, v, w)
  {
    hide Exact, Compose, Render, Child, MapOf, CompareStrings, MemberMates, MemberDifferences, VGet;
    KeyNew(from, to, genCase, v, w);
    hide MembersLeft;
    ChildExact("add", Some(to[0].value), base, to[0].key, v, w);
    ExactJoin([Compose("add", Child(Render(base), to[0].key), Some(to[0].value))], 1,
              rest, MemberDifferences(MapOf(from).Keys + MapOf(to[1..]).Keys, v, w), base, v, w);
  }

  lemma NothingCounted(base: seq<string>, v: Value, w: Value)
    requires v.VObject? && w.VObject?
    ensures Counted([], base, [], [], v, w)
  {
    assert MapOf([]).Keys + MapOf([]).Keys == {};
    NothingExact(base, v, w);
  }

  lemma SameMember(base: seq<string>, from: Member, to: Member, genCase: bool, whole: Json, v: Value, w: Value)
    requires v.VObject? && w.VObject? && from.value < whole && Mates(from.value, to.value)
    requires from.key in v.members && v.members[from.key] == ValueOf(from.value)
    requires from.key in w.members && w.members[from.key] == ValueOf(to.value)
    ensures Exact(CreatePatches(Child(Render(base), from.key), from.value, to.value, genCase),
                  MemberDifference(from.key, v, w), base, v, w)
    decreases whole, 0, 0
  {
    hide Exact, CreatePatches, Render, Child, Differences, ValueOf, Mates;
    ChildPath(base, from.key);
    PatchesExact(base + [from.key], from.value, to.value, genCase);
    assert [from.key][1..] == [];
    BelowExact(CreatePatches(Render(base + [from.key]), from.value, to.value, genCase),
      MemberDifference(from.key, v, w),
               base, from.key, v, w, ValueOf(from.value), ValueOf(to.value));
  }

  lemma MatesOn(from: seq<Member>, to: seq<Member>, genCase: bool)
    requires MemberMates(from, to, genCase)
    ensures from != [] ==> MemberMates(from[1..], to, genCase)
    ensures to != [] ==> MemberMates(from, to[1..], genCase)
    ensures from != [] && to != [] ==> MemberMates(from[1..], to[1..], genCase) && OneSpelling({from[0].key, to[0].key})
    ensures from != [] && to != [] && from[0].key == to[0].key ==> Mates(from[0].value, to[0].value)
  {
    if from != [] {
      MapHead(from);
    }
    if to != [] {
      MapHead(to);
    }
    hide MapOf, GoodMembers, Aligned, ValueOf, CompareStrings;
    AlignedTails(from, to);
    if from != [] && to != [] {
      AlignedHead(from, to);
    }
  }

  /** One name less to count. */
  lemma NameLess(m: map<string, Value>, n: map<string, Value>, k: string, v: Value, w: Value)
    requires v.VObject? && w.VObject? && k in m.Keys + n.Keys
    requires Within(m, n, v.members, w.members) && Within(n, m, w.members, v.members)
    ensures Within(m - {k}, n - {k}, v.members, w.members) && Within(n - {k}, m - {k}, w.members, v.members)
    ensures k !in m ==> m - {k} == m && k !in v.members && v != w && VGet(v, [k]).None?
    ensures k !in n ==> n - {k} == n && k !in w.members && v != w && VGet(w, [k]).None?
    ensures k in m ==> k in v.members && v.members[k] == m[k]
    ensures k in n ==> k in w.members && w.members[k] == n[k]
    ensures MemberDifferences(m.Keys + n.Keys, v, w)
            == MemberDifference(k, v, w) + MemberDifferences((m - {k}).Keys + (n - {k}).Keys, v, w)
  {
    hide MemberDifferences, MemberDifference;
    AnyName(m.Keys + n.Keys, k, v, w);
    assert m.Keys + n.Keys - {k} == (m - {k}).Keys + (n - {k}).Keys;
  }

  lemma MapTail(ms: seq<Member>)
    requires GoodMembers(ms) && ms != []
    ensures ms[0].key in MapOf(ms) && MapOf(ms)[ms[0].key] == ValueOf(ms[0].value)
    ensures MapOf(ms[1..]) == MapOf(ms) - {ms[0].key}
  {
    MapHead(ms);
    hide MapOf, ValueOf;
  }

  lemma SameNames(from: seq<Member>, to: seq<Member>, genCase: bool)
    requires MemberMates(from, to, genCase) && from != [] && to != []
    requires CompareStrings(from[0].key, to[0].key, genCase) == 0
    ensures from[0].key == to[0].key
  {
    MatesOn(from, to, genCase);
    assert Terminated(from[0].key) && Terminated(to[0].key);
    hide *;
    SameKey(from[0].key, to[0].key, genCase);
  }

  lemma LeftMeans(from: seq<Member>, to: seq<Member>, v: Value, w: Value)
    requires MembersLeft(from, to, v, w)
    ensures v.VObject? && w.VObject?
    ensures Within(MapOf(from), MapOf(to), v.members, w.members) && Within(MapOf(to), MapOf(from), w.members, v.members)
  {
  }

  lemma MeansLeft(from: seq<Member>, to: seq<Member>, v: Value, w: Value)
    requires v.VObject? && w.VObject?
    requires Within(MapOf(from), MapOf(to), v.members, w.members)
             && Within(MapOf(to), MapOf(from), w.members, v.members)
    ensures MembersLeft(from, to, v, w)
  {
  }

  lemma OneSided(k: string, v: Value, w: Value)
    requires v.VObject? && w.VObject? && (k !in v.members || k !in w.members)
    ensures MemberDifference(k, v, w) == 1
  {
  }

  /** A name both have left. */
  lemma KeyBoth(from: seq<Member>, to: seq<Member>, genCase: bool, v: Value, w: Value)
    requires MemberMates(from, to, genCase) && MembersLeft(from, to, v, w) && from != [] && to != []
    requires CompareStrings(from[0].key, to[0].key, genCase) == 0
    ensures MemberMates(from[1..], to[1..], genCase) && MembersLeft(from[1..], to[1..], v, w)
    ensures var k := from[0].key;
            && k in v.members && k in w.members && Mates(from[0].value, to[0].value)
            && v.members[k] == ValueOf(from[0].value) && w.members[k] == ValueOf(to[0].value)
            && MemberDifferences(MapOf(from).Keys + MapOf(to).Keys, v, w)
               == MemberDifference(k, v, w) + MemberDifferences(MapOf(from[1..]).Keys + MapOf(to[1..]).Keys, v, w)
  {
    MatesOn(from, to, genCase);
    SameNames(from, to, genCase);
    MapTail(from);
    MapTail(to);
    hide *;
    LeftMeans(from, to, v, w);
    NameLess(MapOf(from), MapOf(to), from[0].key, v, w);
    MeansLeft(from[1..], to[1..], v, w);
  }

  /** A name only the first has left. */
  lemma KeyGone(from: seq<Member>, to: seq<Member>, genCase: bool, v: Value, w: Value)
    requires MemberMates(from, to, genCase) && MembersLeft(from, to, v, w) && from != []
    requires to != [] ==> CompareStrings(from[0].key, to[0].key, genCase) < 0
    ensures MemberMates(from[1..], to, genCase) && MembersLeft(from[1..], to, v, w)
    ensures v != w && VGet(w, [from[0].key]).None?
    ensures MemberDifferences(MapOf(from).Keys + MapOf(to).Keys, v, w)
            == 1 + MemberDifferences(MapOf(from[1..]).Keys + MapOf(to).Keys, v, w)
  {
    MatesOn(from, to, genCase);
    MapTail(from);
    BelowFirst(to, from[0].key, genCase);
    hide *;
    LeftMeans(from, to, v, w);
    NameLess(MapOf(from), MapOf(to), from[0].key, v, w);
    OneSided(from[0].key, v, w);
    MeansLeft(from[1..], to, v, w);
  }

  /** A name only the second has left. */
  lemma KeyNew(from: seq<Member>, to: seq<Member>, genCase: bool, v: Value, w: Value)
    requires MemberMates(from, to, genCase) && MembersLeft(from, to, v, w) && to != []
    requires from != [] ==> CompareStrings(from[0].key, to[0].key, genCase) > 0
    ensures MemberMates(from, to[1..], genCase) && MembersLeft(from, to[1..], v, w)
    ensures v != w && VGet(v, [to[0].key]).None?
    ensures MemberDifferences(MapOf(from).Keys + MapOf(to).Keys, v, w)
            == 1 + MemberDifferences(MapOf(from).Keys + MapOf(to[1..]).Keys, v, w)
  {
    MatesOn(from, to, genCase);
    MapTail(to);
    if from != [] {
      CompareAntisymmetric(from[0].key, to[0].key, genCase);
    }
    BelowFirst(from, to[0].key, genCase);
    hide *;
    LeftMeans(from, to, v, w);
    NameLess(MapOf(from), MapOf(to), to[0].key, v, w);
    OneSided(to[0].key, v, w);
    MeansLeft(from, to[1..], v, w);
  }

  // ----- the generated patch -----

  /** One operation for each difference, none where the trees agree; so there is none exactly between equal trees. */
  lemma GeneratedExactly(from: Json, to: Json, genCase: bool)
    requires Good(from) && Good(to) && Aligned(ValueOf(from), ValueOf(to))
    ensures var v, w, patches := ValueOf(from), ValueOf(to), CreatePatches("", from, to, genCase);
            && |patches| == Differences(v, w)
            && (patches == [] <==> v == w)
            && forall i :: 0 <= i < |patches| ==> Needed(patches[i], [], v, w)
  {
    hide CreatePatches, Good, Aligned, ValueOf, Differences, Needed;
    PatchesExact([], from, to, genCase);
    NoDifferences(ValueOf(from), ValueOf(to));
    assert Render([]) == "";
  }
}
