/** Generating a JSON Patch from two trees, and the round trip: applied to the first it gives the second. */
module JsonDiff {
  import opened Basics
  import opened Json
  import opened JsonToken
  import opened JsonPointer
  import opened JsonSort
  import opened JsonPatch
  import opened JsonPatchMeaning
  import opened Words

  function Child(path: string, name: string): string {
    path + "/" + EncodeToken(name)
  }

  /** The operations that turn one tree into another, objects walked in sorted order. */
  function CreatePatches(path: string, from: Json, to: Json, caseSensitive: bool): seq<Json>
    decreases from, 1, 0
  {
    if Tag(from) != Tag(to) then [Compose("replace", path, Some(to))]
    else
      match from
      case Number(n) => if n != to.n then [Compose("replace", path, Some(to))] else []
      case String(s) => if StrCmp(s, to.s) != 0 then [Compose("replace", path, Some(to))] else []
      case Array(items) => CreateItems(path, 0, items, to.items, caseSensitive, from)
      case Object(ms, _) =>
        SortedChildren(from, caseSensitive);
        CreateMembers(path, Sort(ms, caseSensitive), Sort(to.members, caseSensitive), caseSensitive, from)
      case _ => []
  }

  function CreateItems(path: string, index: nat, from: seq<Json>, to: seq<Json>, caseSensitive: bool,
                       ghost whole: Json): seq<Json>
    requires forall i :: 0 <= i < |from| ==> from[i] < whole
    decreases whole, 0, |from| + |to|
  {
    if from != [] && to != [] then
      CreatePatches(path + "/" + Decimal(index), from[0], to[0], caseSensitive)
      + CreateItems(path, index + 1, from[1..], to[1..], caseSensitive, whole)
    else if from != [] then
      [Compose("remove", Child(path, Decimal(index)), None)] + CreateItems(path, index, from[1..], to, caseSensitive, whole)
    else if to != [] then
      [Compose("add", Child(path, "-"), Some(to[0]))] + CreateItems(path, index + 1, from, to[1..], caseSensitive, whole)
    else []
  }

  /** The walk over both sorted objects at once. */
  function CreateMembers(path: string, from: seq<Member>, to: seq<Member>, caseSensitive: bool,
                         ghost whole: Json): seq<Json>
    requires forall i :: 0 <= i < |from| ==> from[i].value < whole
    decreases whole, 0, |from| + |to|
  {
    if from == [] && to == [] then []
    else
      var diff := if from == [] then 1 else if to == [] then -1
        else CompareStrings(from[0].key, to[0].key, caseSensitive);
      if diff == 0 then
        CreatePatches(Child(path, from[0].key), from[0].value, to[0].value, caseSensitive)
        + CreateMembers(path, from[1..], to[1..], caseSensitive, whole)
      else if diff < 0 then
        [Compose("remove", Child(path, from[0].key), None)] + CreateMembers(path, from[1..], to, caseSensitive, whole)
      else
        [Compose("add", Child(path, to[0].key), Some(to[0].value))] + CreateMembers(path, from, to[1..], caseSensitive, whole)
  }

  // ----- the same by loops that append to the patches found so far -----

  method Generate(patches: seq<Json>, path: string, from: Json, to: Json, caseSensitive: bool) returns (all: seq<Json>)
    ensures all == patches + CreatePatches(path, from, to, caseSensitive)
    decreases from, 1
  {
    if Tag(from) != Tag(to) {
      return patches + [Compose("replace", path, Some(to))];
    }
    match from
    case Number(n) =>
      all := if n != to.n then patches + [Compose("replace", path, Some(to))] else patches;
    case String(s) =>
      all := if StrCmp(s, to.s) != 0 then patches + [Compose("replace", path, Some(to))] else patches;
    case Array(_) =>
      all := GenerateItems(patches, path, from, to, caseSensitive);
    case Object(_, _) =>
      all := GenerateMembers(patches, path, from, to, caseSensitive);
    case _ =>
      all := patches;
  }

  /** First the elements both have, then those left over, then those missing. */
  method GenerateItems(patches: seq<Json>, path: string, from: Json, to: Json, caseSensitive: bool)
    returns (all: seq<Json>)
    requires from.Array? && to.Array?
    ensures all == patches + CreateItems(path, 0, from.items, to.items, caseSensitive, from)
    decreases from, 0
  {
    hide CreatePatches, Compose, Child, Decimal, CreateItems;
    all := patches;
    var f, t, index := from.items, to.items, 0;
    ghost var goal := patches + CreateItems(path, 0, f, t, caseSensitive, from);
    while f != [] && t != []
      invariant forall i :: 0 <= i < |f| ==> f[i] < from
      invariant goal == all + CreateItems(path, index, f, t, caseSensitive, from)
      decreases |f|
    {
      ItemsTurn(all, path, index, f, t, caseSensitive, from);
      all := Generate(all, path + "/" + Decimal(index), f[0], t[0], caseSensitive);
      f, t, index := f[1..], t[1..], index + 1;
    }
    while f != []
      invariant forall i :: 0 <= i < |f| ==> f[i] < from
      invariant f != [] ==> t == []
      invariant goal == all + CreateItems(path, index, f, t, caseSensitive, from)
      decreases |f|
    {
      ItemsTurn(all, path, index, f, t, caseSensitive, from);
      all := all + [Compose("remove", Child(path, Decimal(index)), None)];
      f := f[1..];
    }
    while t != []
      invariant f == [] && goal == all + CreateItems(path, index, f, t, caseSensitive, from)
      decreases |t|
    {
      ItemsTurn(all, path, index, f, t, caseSensitive, from);
      all := all + [Compose("add", Child(path, "-"), Some(t[0]))];
      t, index := t[1..], index + 1;
    }
    ItemsEnd(path, index, caseSensitive, from);
  }

  /** What one turn of the loops moves from the rest of the operations to those found. */
  lemma ItemsTurn(all: seq<Json>, path: string, index: nat, f: seq<Json>, t: seq<Json>, caseSensitive: bool,
                  whole: Json)
    requires (f != [] || t != []) && (forall i :: 0 <= i < |f| ==> f[i] < whole)
    ensures all + CreateItems(path, index, f, t, caseSensitive, whole)
            == if f != [] && t != [] then
                 all + CreatePatches(path + "/" + Decimal(index), f[0], t[0], caseSensitive)
                 + CreateItems(path, index + 1, f[1..], t[1..], caseSensitive, whole)
               else if f != [] then
                 all + [Compose("remove", Child(path, Decimal(index)), None)]
                 + CreateItems(path, index, f[1..], t, caseSensitive, whole)
               else
                 all + [Compose("add", Child(path, "-"), Some(t[0]))]
                 + CreateItems(path, index + 1, f, t[1..], caseSensitive, whole)
  {
    hide CreatePatches, Compose, Child, Decimal;
  }

  lemma ItemsEnd(path: string, index: nat, caseSensitive: bool, whole: Json)
    ensures CreateItems(path, index, [], [], caseSensitive, whole) == []
  {
  }

  /** Both objects are sorted, then walked at once. */
  method GenerateMembers(patches: seq<Json>, path: string, from: Json, to: Json, caseSensitive: bool)
    returns (all: seq<Json>)
    requires from.Object? && to.Object?
    ensures all == patches + CreatePatches(path, from, to, caseSensitive)
    decreases from, 0
  {
    Patches(path, from, to, caseSensitive);
    hide CreatePatches, Compose, Child, Sort, CompareStrings, CreateMembers;
    all := patches;
    var f, t := Sort(from.members, caseSensitive), Sort(to.members, caseSensitive);
    ghost var goal := patches + CreateMembers(path, f, t, caseSensitive, from);
    while f != [] || t != []
      invariant forall i :: 0 <= i < |f| ==> f[i].value < from
      invariant goal == all + CreateMembers(path, f, t, caseSensitive, from)
      decreases |f| + |t|
    {
      MembersTurn(all, path, f, t, caseSensitive, from);
      var diff := if f == [] then 1 else if t == [] then -1 else CompareStrings(f[0].key, t[0].key, caseSensitive);
      if diff == 0 {
        all := Generate(all, Child(path, f[0].key), f[0].value, t[0].value, caseSensitive);
        f, t := f[1..], t[1..];
      } else if diff < 0 {
        all := all + [Compose("remove", Child(path, f[0].key), None)];
        f := f[1..];
      } else {
        all := all + [Compose("add", Child(path, t[0].key), Some(t[0].value))];
        t := t[1..];
      }
    }
    MembersEnd(path, caseSensitive, from);
  }

  lemma MembersEnd(path: string, caseSensitive: bool, whole: Json)
    ensures CreateMembers(path, [], [], caseSensitive, whole) == []
  {
  }

  /** What one turn of the walk moves from the rest of the operations to those found. */
  lemma MembersTurn(all: seq<Json>, path: string, f: seq<Member>, t: seq<Member>, caseSensitive: bool, whole: Json)
    requires (f != [] || t != []) && (forall i :: 0 <= i < |f| ==> f[i].value < whole)
    ensures var diff := if f == [] then 1 else if t == [] then -1
            else CompareStrings(f[0].key, t[0].key, caseSensitive);
            all + CreateMembers(path, f, t, caseSensitive, whole)
            == if diff == 0 then
                 all + CreatePatches(Child(path, f[0].key), f[0].value, t[0].value, caseSensitive)
                 + CreateMembers(path, f[1..], t[1..], caseSensitive, whole)
               else if diff < 0 then
                 all + [Compose("remove", Child(path, f[0].key), None)] + CreateMembers(path, f[1..], t, caseSensitive, whole)
               else
                 all + [Compose("add", Child(path, t[0].key), Some(t[0].value))] + CreateMembers(path, f, t[1..], caseSensitive, whole)
  {
    hide CreatePatches, Compose, Child, CompareStrings;
  }

  lemma ChildPath(tokens: seq<string>, t: string)
    ensures Child(Render(tokens), t) == PathTo(tokens, t) == Render(tokens + [t])
  {
    RenderAppend(tokens, t);
  }

  lemma IndexPath(tokens: seq<string>, index: nat)
    ensures var t := Decimal(index);
            Carried(t) && Render(tokens) + "/" + t == Render(tokens + [t]) && Child(Render(tokens), t) == Render(tokens + [t])
  {
    DecimalIsPlain(index);
    PlainDecodable(Decimal(index));
    hide Decimal;
    RenderAppend(tokens, Decimal(index));
  }

  lemma {:induction false} ApplyAppend(root: Json, a: seq<Json>, b: seq<Json>, caseSensitive: bool)
    requires ApplyAll(root, a, caseSensitive).0 == 0
    ensures ApplyAll(root, a + b, caseSensitive) == ApplyAll(ApplyAll(root, a, caseSensitive).1, b, caseSensitive)
    decreases |a|
  {
    hide ApplyPatch;
    if a == [] {
      assert a + b == b;
    } else {
      assert (a + b)[1..] == a[1..] + b;
      ApplyAppend(ApplyPatch(root, a[0], caseSensitive).1, a[1..], b, caseSensitive);
    }
  }

  /** A tree to be patched: well-formed, every object can be appended to, and words count the elements of arrays. */
  ghost predicate Ready(root: Json) {
    Good(root) && Intact(root) && Addressable(ValueOf(root))
  }

  /** Every name of the tree comes back from a path it ends. */
  predicate CarriedKeys(j: Json)
    decreases j
  {
    match j
    case Array(items) => forall i :: 0 <= i < |items| ==> CarriedKeys(items[i])
    case Object(ms, _) => forall i :: 0 <= i < |ms| ==> Carried(ms[i].key) && CarriedKeys(ms[i].value)
    case _ => true
  }

  /** What the round trip asks of two trees: names a path carries, spelled alike where both have an object. */
  ghost predicate Pair(from: Json, to: Json) {
    && Good(from) && Good(to) && CarriedKeys(from) && CarriedKeys(to)
    && Aligned(ValueOf(from), ValueOf(to)) && Addressable(ValueOf(to))
  }

  ghost predicate ItemPairs(from: seq<Json>, to: seq<Json>) {
    && Good(Array(from)) && Good(Array(to)) && CarriedKeys(Array(from)) && CarriedKeys(Array(to))
    && Addressable(ValueOf(Array(to)))
    && forall i :: 0 <= i < |from| && i < |to| ==> Aligned(ValueOf(from[i]), ValueOf(to[i]))
  }

  predicate CarriedMembers(ms: seq<Member>) {
    forall i :: 0 <= i < |ms| ==> Carried(ms[i].key) && CarriedKeys(ms[i].value)
  }

  ghost predicate MemberPairs(from: seq<Member>, to: seq<Member>) {
    && GoodMembers(from) && GoodMembers(to) && CarriedMembers(from) && CarriedMembers(to)
    && Aligned(VObject(MapOf(from)), VObject(MapOf(to))) && Addressable(VObject(MapOf(to)))
  }

  lemma ItemPairsTail(from: seq<Json>, to: seq<Json>)
    requires ItemPairs(from, to)
    ensures from != [] ==> ItemPairs(from[1..], if to == [] then [] else to[1..])
    ensures from == [] && to != [] ==> ItemPairs(from, to[1..])
    ensures from != [] && to != [] ==> Pair(from[0], to[0])
    ensures to != [] ==> Addressable(ValueOf(to[0])) && |to| < TWO_TO_THE_32
  {
    AddressableTail(to);
    hide Aligned, ValueOf, Addressable;
  }

  lemma AddressableTail(items: seq<Json>)
    requires Addressable(ValueOf(Array(items)))
    ensures |items| < TWO_TO_THE_32
    ensures items != [] ==> Addressable(ValueOf(items[0])) && Addressable(ValueOf(Array(items[1..])))
  {
    Arrays(items);
    if items != [] {
      ValuesHead(items);
      Arrays(items[1..]);
      assert ValuesOf(items)[0] == ValueOf(items[0]) && ValuesOf(items)[1..] == ValuesOf(items[1..]);
      hide ValueOf, ValuesOf;
    }
  }

  lemma MemberPairsTail(from: seq<Member>, to: seq<Member>)
    requires MemberPairs(from, to)
    ensures from != [] ==> MemberPairs(from[1..], to)
    ensures to != [] ==> MemberPairs(from, to[1..]) && Addressable(ValueOf(to[0].value))
    ensures from != [] && to != [] ==>
              MemberPairs(from[1..], to[1..]) && OneSpelling({from[0].key, to[0].key})
              && (from[0].key == to[0].key ==> Pair(from[0].value, to[0].value))
  {
    hide *;
    PairParts(from, to);
    if from != [] && to != [] {
      AlignedHead(from, to);
    }
    AlignedTails(from, to);
    AddressableNames(to);
    PairsFrom(from, to);
  }

  lemma PairParts(from: seq<Member>, to: seq<Member>)
    requires MemberPairs(from, to)
    ensures GoodMembers(from) && GoodMembers(to) && Aligned(VObject(MapOf(from)), VObject(MapOf(to)))
    ensures Addressable(VObject(MapOf(to)))
  {
  }

  lemma PairsFrom(from: seq<Member>, to: seq<Member>)
    requires MemberPairs(from, to)
    requires from != [] ==> Aligned(VObject(MapOf(from[1..])), VObject(MapOf(to)))
    requires to != [] ==>
               && Aligned(VObject(MapOf(from)), VObject(MapOf(to[1..])))
               && Addressable(ValueOf(to[0].value)) && Addressable(VObject(MapOf(to[1..])))
    requires from != [] && to != [] ==> Aligned(VObject(MapOf(from[1..])), VObject(MapOf(to[1..])))
    ensures from != [] ==> MemberPairs(from[1..], to)
    ensures to != [] ==> MemberPairs(from, to[1..])
    ensures from != [] && to != [] ==> MemberPairs(from[1..], to[1..])
    ensures from != [] && to != [] && Aligned(ValueOf(from[0].value), ValueOf(to[0].value)) ==>
              Pair(from[0].value, to[0].value)
  {
    if from != [] {
      MapHead(from);
    }
    if to != [] {
      MapHead(to);
    }
    hide MapOf, Good, GoodMembers, ValueOf, CarriedKeys, Carried, Aligned, Addressable;
  }

  lemma AddressableNames(ms: seq<Member>)
    requires GoodMembers(ms) && Addressable(VObject(MapOf(ms)))
    ensures ms != [] ==> Addressable(ValueOf(ms[0].value)) && Addressable(VObject(MapOf(ms[1..])))
  {
    if ms != [] {
      MapHead(ms);
      hide MapOf, ValueOf, Good, GoodMembers;
      assert ms[0].key in MapOf(ms) && MapOf(ms)[ms[0].key] == ValueOf(ms[0].value);
      forall k | k in MapOf(ms[1..])
        ensures Addressable(MapOf(ms[1..])[k])
      {
        assert k in MapOf(ms) && MapOf(ms)[k] == MapOf(ms[1..])[k];
      }
    }
  }

  /** Applying these operations succeeds and sets the value at the pointer, and nothing else. */
  ghost predicate Sets(root: Json, patches: seq<Json>, tokens: seq<string>, v: Value, caseSensitive: bool) {
    var (status, r) := ApplyAll(root, patches, caseSensitive);
    && VGet(ValueOf(root), tokens).Some?
    && status == 0 && Ready(r) && ValueOf(r) == VSet(ValueOf(root), tokens, v)
  }

  /** Two runs of operations at the same place: the last value stays. */
  lemma SetsTwice(root: Json, a: seq<Json>, b: seq<Json>, tokens: seq<string>, v: Value, w: Value, caseSensitive: bool)
    requires Sets(root, a, tokens, v, caseSensitive)
    requires Sets(ApplyAll(root, a, caseSensitive).1, b, tokens, w, caseSensitive)
    ensures Sets(root, a + b, tokens, w, caseSensitive)
  {
    ApplyAppend(root, a, b, caseSensitive);
    VSetSet(ValueOf(root), tokens, v, w);
    hide ApplyAll, VSet, VGet, Good;
  }

  lemma SetsOne(root: Json, patch: Json, tokens: seq<string>, v: Value, caseSensitive: bool)
    requires VGet(ValueOf(root), tokens).Some?
    requires var (status, r) := ApplyPatch(root, patch, caseSensitive);
             status == 0 && Ready(r) && ValueOf(r) == VSet(ValueOf(root), tokens, v)
    ensures Sets(root, [patch], tokens, v, caseSensitive)
  {
    hide ApplyPatch, VSet, VGet, Good;
    var next := ApplyPatch(root, patch, caseSensitive).1;
    assert [patch][1..] == [];
    assert ApplyAll(next, [], caseSensitive) == (0, next);
  }

  lemma SetsNothing(root: Json, tokens: seq<string>, v: Value, caseSensitive: bool)
    requires Ready(root) && VGet(ValueOf(root), tokens) == Some(v)
    ensures Sets(root, [], tokens, v, caseSensitive)
  {
    VSetGet(ValueOf(root), tokens);
  }

  /** After setting, the value is there. */
  lemma SetsGet(root: Json, patches: seq<Json>, tokens: seq<string>, v: Value, caseSensitive: bool)
    requires Sets(root, patches, tokens, v, caseSensitive)
    ensures var r := ApplyAll(root, patches, caseSensitive).1;
            Ready(r) && VGet(ValueOf(r), tokens) == Some(v)
  {
    VGetSet(ValueOf(root), tokens, v);
  }

  /** Setting a child sets the parent to the parent with that child. */
  lemma SetsChild(root: Json, patches: seq<Json>, tokens: seq<string>, t: string, v: Value, caseSensitive: bool)
    requires Sets(root, patches, tokens + [t], v, caseSensitive)
    ensures VGet(ValueOf(root), tokens).Some? && VGet(VGet(ValueOf(root), tokens).value, [t]).Some?
    ensures Sets(root, patches, tokens, VSet(VGet(ValueOf(root), tokens).value, [t], v), caseSensitive)
  {
    VSetChild(ValueOf(root), tokens, t, v);
    hide ApplyAll, VSet, VGet, Good;
  }

  lemma SetsRemove(root: Json, tokens: seq<string>, t: string, v: Value, caseSensitive: bool)
    requires Ready(root) && TokensOf(tokens) && Carried(t)
    requires var parent := VGet(ValueOf(root), tokens); parent.Some? && VRemove(parent.value, t) == Some(v)
    ensures Sets(root, [Compose("remove", Child(Render(tokens), t), None)], tokens, v, caseSensitive)
  {
    var patch := Compose("remove", PathTo(tokens, t), None);
    hide *;
    ReadyParts(root);
    ChildPath(tokens, t);
    RemovesFound(ValueOf(root), tokens, t);
    VRemoveStep(ValueOf(root), tokens, t);
    FoundAt(ValueOf(root), tokens, t, caseSensitive);
    ApplyRemove(root, tokens, t, caseSensitive);
    AddressableGet(ValueOf(root), tokens);
    RemovedAddressable(VGet(ValueOf(root), tokens).value, t);
    StaysReady(root, tokens, v, ApplyPatch(root, patch, caseSensitive).1);
    SetsOne(root, patch, tokens, v, caseSensitive);
  }

  lemma RemovedAddressable(parent: Value, t: string)
    requires Addressable(parent) && VRemove(parent, t).Some?
    ensures Addressable(VRemove(parent, t).value)
  {
    hide Index;
  }

  lemma StaysReady(root: Json, tokens: seq<string>, v: Value, r: Json)
    requires Ready(root) && VGet(ValueOf(root), tokens).Some? && Addressable(v)
    requires Good(r) && Intact(r) && ValueOf(r) == VSet(ValueOf(root), tokens, v)
    ensures Ready(r)
  {
    AddressableSet(ValueOf(root), tokens, v);
  }

  lemma SetsAdd(root: Json, tokens: seq<string>, t: string, x: Json, v: Value, caseSensitive: bool)
    requires Ready(root) && TokensOf(tokens) && Carried(t) && Good(x) && Addressable(v)
    requires var parent := VGet(ValueOf(root), tokens);
             parent.Some? && Meant(parent.value, t) && VAdd(parent.value, t, ValueOf(x)) == Some(v)
    ensures Sets(root, [Compose("add", Child(Render(tokens), t), Some(x))], tokens, v, caseSensitive)
  {
    var patch := Compose("add", PathTo(tokens, t), Some(x));
    hide *;
    ReadyParts(root);
    ChildPath(tokens, t);
    FoundIsUnderstood(ValueOf(root), tokens, caseSensitive);
    UnderstoodWhole(ValueOf(root), tokens, t, caseSensitive);
    VAddStep(ValueOf(root), tokens, t, ValueOf(x));
    ApplyAdd(root, tokens, t, x, caseSensitive);
    StaysReady(root, tokens, v, ApplyPatch(root, patch, caseSensitive).1);
    SetsOne(root, patch, tokens, v, caseSensitive);
  }

  // ----- one step of a walk, on values -----

  lemma ItemStep(done: seq<Value>, was: Value, rest: seq<Value>, x: Value)
    ensures var v, t := VArray(done + ([was] + rest)), Decimal(|done|);
            && Carried(t)
            && VGet(v, [t]) == Some(was)
            && VSet(v, [t], x) == VArray(done + [x] + rest)
            && VRemove(v, t) == Some(VArray(done + rest))
  {
    var t := Decimal(|done|);
    var items := done + ([was] + rest);
    DecodeDecimal(|done|, "");
    IndexPath([], |done|);
    assert t + "" == t;
    assert [t][1..] == [];
    assert items[|done|] == was;
    assert items[..|done|] + items[|done| + 1..] == done + rest;
    assert items[|done| := x] == done + [x] + rest;
    hide DecodeIndex, Decimal, Positional, EncodeToken;
  }

  /** The members walk keeps the members dealt with apart from those to come. */
  ghost predicate Apart(done: map<string, Value>, ms: seq<Member>) {
    done.Keys !! MapOf(ms).Keys
  }

  /** No name dealt with or to come is met in another spelling. */
  ghost predicate AllSpelled(done: map<string, Value>, from: seq<Member>, to: seq<Member>) {
    OneSpelling(done.Keys + MapOf(from).Keys + MapOf(to).Keys)
  }

  lemma MemberStep(done: map<string, Value>, k: string, was: Value, rest: map<string, Value>, x: Value)
    requires k !in done && k !in rest
    ensures var v := VObject(done + rest[k := was]);
            && VGet(v, [k]) == Some(was)
            && VSet(v, [k], x) == VObject(done[k := x] + rest)
            && VRemove(v, k) == Some(VObject(done + rest))
    ensures VAdd(VObject(done + rest), k, x) == Some(VObject(done[k := x] + rest))
    ensures done[k := x] + rest == done + rest[k := x]
  {
    RebindBoth(done, k, was, rest, x);
    RebindOne(done, k, was, rest, x);
    assert [k][1..] == [];
  }

  lemma RebindBoth(done: map<string, Value>, k: string, was: Value, rest: map<string, Value>, x: Value)
    requires k !in done && k !in rest
    ensures k in done + rest[k := was] && (done + rest[k := was])[k] == was
    ensures (done + rest[k := was])[k := x] == done[k := x] + rest
    ensures (done + rest[k := was]) - {k} == done + rest
  {
  }

  lemma RebindOne(done: map<string, Value>, k: string, was: Value, rest: map<string, Value>, x: Value)
    requires k !in done && k !in rest
    ensures (done + rest)[k := x] == done[k := x] + rest == done + rest[k := x]
  {
  }

  // ----- the walks -----

  /** Array positions; `done` holds the elements already dealt with. */
  lemma {:induction false} ItemsAt(root: Json, tokens: seq<string>, from: seq<Json>, to: seq<Json>,
                                   genCase: bool, whole: Json, done: seq<Value>, caseSensitive: bool)
    requires TokensOf(tokens) && Ready(root)
    requires ItemPairs(from, to) && (forall i :: 0 <= i < |from| ==> from[i] < whole) && |done| + |to| < TWO_TO_THE_32
    requires VGet(ValueOf(root), tokens) == Some(VArray(done + ValuesOf(from)))
    ensures Sets(root, CreateItems(Render(tokens), |done|, from, to, genCase, whole), tokens,
            VArray(done + ValuesOf(to)), caseSensitive)
    decreases whole, 0, |from| + |to|, 0
  {
    hide Good, Ready, Pair, CarriedKeys, Aligned, VGet, ValueOf, ValuesOf, Render, Sets, ApplyAll, Decimal,
         CreatePatches,
         Child, Compose, TokensOf, Addressable;
    if from != [] && to != [] {
      ItemPairsTail(from, to);
      FirstItem(root, tokens, from, to, genCase, whole, done, caseSensitive);
      ItemsRest(root, CreatePatches(Render(tokens) + "/" + Decimal(|done|), from[0], to[0], genCase), tokens,
                from[1..], to[1..], genCase, whole, done + [ValueOf(to[0])], caseSensitive);
    } else if from != [] {
      ItemPairsTail(from, to);
      ItemGone(root, tokens, from, done, caseSensitive);
      ItemsRest(root, [Compose("remove", Child(Render(tokens), Decimal(|done|)), None)], tokens,
                from[1..], to, genCase, whole, done, caseSensitive);
    } else if to != [] {
      ItemPairsTail(from, to);
      NoValues(done);
      NoValues(done + [ValueOf(to[0])]);
      ItemNew(root, tokens, to, done, caseSensitive);
      MoreValues(done, to);
      ItemsRest(root, [Compose("add", Child(Render(tokens), "-"), Some(to[0]))], tokens,
                from, to[1..], genCase, whole, done + [ValueOf(to[0])], caseSensitive);
    } else {
      SetsNothing(root, tokens, VArray(done + ValuesOf(to)), caseSensitive);
    }
  }

  /** Elements left over are removed, always at the same index. */
  lemma ItemGone(root: Json, tokens: seq<string>, from: seq<Json>, done: seq<Value>, caseSensitive: bool)
    requires TokensOf(tokens) && Ready(root) && from != [] && Good(Array(from))
    requires VGet(ValueOf(root), tokens) == Some(VArray(done + ValuesOf(from)))
    ensures Sets(root, [Compose("remove", Child(Render(tokens), Decimal(|done|)), None)], tokens,
                 VArray(done + ValuesOf(from[1..])), caseSensitive)
  {
    GoodTail(from);
    hide Good, VGet, ValueOf, Render, Sets, VSet, VRemove, Decimal, Child, Compose;
    ItemStep(done, ValueOf(from[0]), ValuesOf(from[1..]), VNull);
    SetsRemove(root, tokens, Decimal(|done|), VArray(done + ValuesOf(from[1..])), caseSensitive);
  }

  /** Missing elements are appended. */
  lemma ItemNew(root: Json, tokens: seq<string>, to: seq<Json>, done: seq<Value>, caseSensitive: bool)
    requires TokensOf(tokens) && Ready(root) && to != [] && Good(Array(to))
    requires Addressable(ValueOf(to[0])) && |done| + 1 < TWO_TO_THE_32
    requires VGet(ValueOf(root), tokens) == Some(VArray(done))
    ensures Sets(root, [Compose("add", Child(Render(tokens), "-"), Some(to[0]))], tokens,
                 VArray(done + [ValueOf(to[0])]), caseSensitive)
  {
    AddDash(done, ValueOf(to[0]));
    assert Good(to[0]);
    hide *;
    ReadyParts(root);
    AddressableGet(ValueOf(root), tokens);
    OneMore(done, ValueOf(to[0]));
    SetsAdd(root, tokens, "-", to[0], VArray(done + [ValueOf(to[0])]), caseSensitive);
  }

  lemma OneMore(done: seq<Value>, x: Value)
    requires Addressable(VArray(done)) && Addressable(x) && |done| + 1 < TWO_TO_THE_32
    ensures Addressable(VArray(done + [x]))
  {
  }

  lemma MoreValues(done: seq<Value>, to: seq<Json>)
    requires to != []
    ensures done + [ValueOf(to[0])] + ValuesOf(to[1..]) == done + ValuesOf(to)
  {
    ValuesHead(to);
    hide *;
    Appended(done, ValueOf(to[0]), ValuesOf(to[1..]));
  }

  lemma ValuesHead(items: seq<Json>)
    requires items != []
    ensures ValuesOf(items) == [ValueOf(items[0])] + ValuesOf(items[1..])
  {
    hide ValueOf;
    forall i | 0 <= i < |items|
      ensures ValuesOf(items)[i] == ([ValueOf(items[0])] + ValuesOf(items[1..]))[i]
    {
      assert i > 0 ==> items[1..][i - 1] == items[i];
    }
  }

  lemma Appended<T>(a: seq<T>, x: T, b: seq<T>)
    ensures a + [x] + b == a + ([x] + b)
  {
  }

  lemma NoValues(done: seq<Value>)
    ensures done + ValuesOf([]) == done
  {
  }

  lemma AddDash(done: seq<Value>, x: Value)
    ensures Carried("-") && VAdd(VArray(done), "-", x) == Some(VArray(done + [x])) && Meant(VArray(done), "-")
  {
    DashIsNoIndex();
    PlainDecodable("-");
    assert "-"[0] == '-';
  }

  /** The element both arrays have is changed in place. */
  lemma FirstItem(root: Json, tokens: seq<string>, from: seq<Json>, to: seq<Json>,
                  genCase: bool, whole: Json, done: seq<Value>, caseSensitive: bool)
    requires TokensOf(tokens) && Ready(root) && from != [] && to != [] && ItemPairs(from, to) && from[0] < whole
    requires VGet(ValueOf(root), tokens) == Some(VArray(done + ValuesOf(from)))
    ensures Sets(root, CreatePatches(Render(tokens) + "/" + Decimal(|done|), from[0], to[0], genCase), tokens,
                 VArray(done + [ValueOf(to[0])] + ValuesOf(from[1..])), caseSensitive)
    ensures done + [ValueOf(to[0])] + ValuesOf(to[1..]) == done + ValuesOf(to)
    decreases whole, 0, 0
  {
    hide *;
    var t := Decimal(|done|);
    ItemPairsTail(from, to);
    ItemPairsGood(from, to);
    IndexPath(tokens, |done|);
    MoreTokens(tokens, t);
    MoreValues(done, to);
    ItemStep(done, ValueOf(from[0]), ValuesOf(from[1..]), ValueOf(to[0]));
    VGetChild(ValueOf(root), tokens, t);
    RoundTripAt(root, tokens + [t], from[0], to[0], genCase, caseSensitive);
    SetsChild(root, CreatePatches(Render(tokens + [t]), from[0], to[0], genCase), tokens, t, ValueOf(to[0]),
      caseSensitive);
  }

  lemma ItemPairsGood(from: seq<Json>, to: seq<Json>)
    requires from != [] && to != [] && ItemPairs(from, to)
    ensures Good(from[0]) && Good(to[0])
    ensures ValuesOf(from) == [ValueOf(from[0])] + ValuesOf(from[1..])
            && ValuesOf(to) == [ValueOf(to[0])] + ValuesOf(to[1..])
  {
    ValuesHead(from);
    ValuesHead(to);
  }

  lemma MoreTokens(tokens: seq<string>, t: string)
    requires TokensOf(tokens) && Carried(t)
    ensures TokensOf(tokens + [t])
  {
  }

  lemma ItemsRest(root: Json, first: seq<Json>, tokens: seq<string>, from: seq<Json>, to: seq<Json>,
                  genCase: bool, whole: Json, done: seq<Value>, caseSensitive: bool)
    requires TokensOf(tokens)
    requires ItemPairs(from, to) && (forall i :: 0 <= i < |from| ==> from[i] < whole) && |done| + |to| < TWO_TO_THE_32
    requires Sets(root, first, tokens, VArray(done + ValuesOf(from)), caseSensitive)
    ensures Sets(root, first + CreateItems(Render(tokens), |done|, from, to, genCase, whole), tokens,
                 VArray(done + ValuesOf(to)), caseSensitive)
    decreases whole, 0, |from| + |to|, 1
  {
    hide Good, VGet, ValueOf, Render, Sets, ApplyAll, CreateItems;
    SetsGet(root, first, tokens, VArray(done + ValuesOf(from)), caseSensitive);
    var next := ApplyAll(root, first, caseSensitive).1;
    ItemsAt(next, tokens, from, to, genCase, whole, done, caseSensitive);
    SetsTwice(root, first, CreateItems(Render(tokens), |done|, from, to, genCase, whole), tokens,
              VArray(done + ValuesOf(from)), VArray(done + ValuesOf(to)), caseSensitive);
  }

  /** Members in sorted order; `done` holds the members already dealt with. */
  lemma {:induction false} MembersAt(root: Json, tokens: seq<string>, from: seq<Member>, to: seq<Member>,
                                     genCase: bool, whole: Json, done: map<string, Value>, caseSensitive: bool)
    requires TokensOf(tokens) && Ready(root)
    requires MemberPairs(from, to) && Sorted(from, genCase) && Sorted(to, genCase)
    requires forall i :: 0 <= i < |from| ==> from[i].value < whole
    requires Apart(done, from) && Apart(done, to) && AllSpelled(done, from, to)
    requires VGet(ValueOf(root), tokens) == Some(VObject(done + MapOf(from)))
    ensures Sets(root, CreateMembers(Render(tokens), from, to, genCase, whole), tokens, VObject(done + MapOf(to)),
            caseSensitive)
    decreases whole, 0, |from| + |to|, 0
  {
    hide Good, VGet, ValueOf, MapOf, Render, Sets, ApplyAll, VSet, VRemove, VAdd, CreatePatches, Child, Compose,
         CompareStrings, Aligned, CarriedMembers;
    if from == [] && to == [] {
      SetsNothing(root, tokens, VObject(done + MapOf(to)), caseSensitive);
    } else {
      var diff := if from == [] then 1 else if to == [] then -1 else CompareStrings(from[0].key, to[0].key, genCase);
      if diff == 0 {
        BothHave(root, tokens, from, to, genCase, whole, done, caseSensitive);
        MembersRest(root, CreatePatches(Child(Render(tokens), from[0].key), from[0].value, to[0].value, genCase),
          tokens,
                    from[1..], to[1..], genCase, whole, done[to[0].key := ValueOf(to[0].value)], caseSensitive);
      } else if diff < 0 {
        OnlyFrom(root, tokens, from, to, genCase, done, caseSensitive);
        MembersRest(root, [Compose("remove", Child(Render(tokens), from[0].key), None)], tokens,
                    from[1..], to, genCase, whole, done, caseSensitive);
      } else {
        OnlyTo(root, tokens, from, to, genCase, done, caseSensitive);
        MembersRest(root, [Compose("add", Child(Render(tokens), to[0].key), Some(to[0].value))], tokens,
                    from, to[1..], genCase, whole, done[to[0].key := ValueOf(to[0].value)], caseSensitive);
      }
    }
  }

  lemma MembersRest(root: Json, first: seq<Json>, tokens: seq<string>, from: seq<Member>, to: seq<Member>,
                    genCase: bool, whole: Json, done: map<string, Value>, caseSensitive: bool)
    requires TokensOf(tokens)
    requires MemberPairs(from, to) && Sorted(from, genCase) && Sorted(to, genCase)
    requires forall i :: 0 <= i < |from| ==> from[i].value < whole
    requires Apart(done, from) && Apart(done, to) && AllSpelled(done, from, to)
    requires Sets(root, first, tokens, VObject(done + MapOf(from)), caseSensitive)
    ensures Sets(root, first + CreateMembers(Render(tokens), from, to, genCase, whole), tokens,
                 VObject(done + MapOf(to)), caseSensitive)
    decreases whole, 0, |from| + |to|, 1
  {
    hide Good, GoodMembers, VGet, ValueOf, MapOf, Render, Sets, ApplyAll, CreateMembers, Sorted, Apart;
    SetsGet(root, first, tokens, VObject(done + MapOf(from)), caseSensitive);
    var next := ApplyAll(root, first, caseSensitive).1;
    MembersAt(next, tokens, from, to, genCase, whole, done, caseSensitive);
    SetsTwice(root, first, CreateMembers(Render(tokens), from, to, genCase, whole), tokens,
              VObject(done + MapOf(from)), VObject(done + MapOf(to)), caseSensitive);
  }

  /** A key both objects have: its value is changed in place. */
  lemma BothHave(root: Json, tokens: seq<string>, from: seq<Member>, to: seq<Member>,
                 genCase: bool, whole: Json, done: map<string, Value>, caseSensitive: bool)
    requires TokensOf(tokens) && Ready(root) && from != [] && to != []
    requires MemberPairs(from, to) && from[0].value < whole && AllSpelled(done, from, to)
    requires Apart(done, from) && Apart(done, to) && CompareStrings(from[0].key, to[0].key, genCase) == 0
    requires VGet(ValueOf(root), tokens) == Some(VObject(done + MapOf(from)))
    ensures var next := done[to[0].key := ValueOf(to[0].value)];
            && MemberPairs(from[1..], to[1..]) && AllSpelled(next, from[1..], to[1..])
            && Apart(next, from[1..]) && Apart(next, to[1..])
            && next + MapOf(to[1..]) == done + MapOf(to)
            && Sets(root, CreatePatches(Child(Render(tokens), from[0].key), from[0].value, to[0].value, genCase),
              tokens,
                    VObject(next + MapOf(from[1..])), caseSensitive)
    decreases whole, 0, 0
  {
    var k := from[0].key;
    MapHead(from);
    MapHead(to);
    MemberPairsTail(from, to);
    SameKey(k, to[0].key, genCase);
    assert Carried(k);
    hide Good, VGet, ValueOf, MapOf, Render, Sets, VSet, VRemove, VAdd, CreatePatches, Child, CompareStrings,
         GoodMembers,
      TokensOf, Carried, MemberPairs, Pair, Ready;
    MemberStep(done, k, ValueOf(from[0].value), MapOf(from[1..]), ValueOf(to[0].value));
    MemberStep(done, k, ValueOf(to[0].value), MapOf(to[1..]), ValueOf(to[0].value));
    SpelledOn(done, from, to, k, ValueOf(to[0].value), MapOf(from[1..]), MapOf(to[1..]));
    ChangeMember(root, tokens, k, from[0].value, to[0].value, genCase, caseSensitive);
  }

  /** The names of what is left are among those there were. */
  lemma SpelledOn(done: map<string, Value>, from: seq<Member>, to: seq<Member>, k: string, x: Value,
                  m: map<string, Value>, n: map<string, Value>)
    requires AllSpelled(done, from, to) && k in MapOf(from).Keys + MapOf(to).Keys
    requires m.Keys <= MapOf(from).Keys && n.Keys <= MapOf(to).Keys
    ensures OneSpelling(done[k := x].Keys + m.Keys + n.Keys) && OneSpelling(done.Keys + m.Keys + n.Keys)
    ensures Spells(done.Keys + m.Keys, k) && Spells((done + m).Keys, k)
  {
    hide MapOf;
  }

  lemma ChangeMember(root: Json, tokens: seq<string>, k: string, from: Json, to: Json, genCase: bool,
                     caseSensitive: bool)
    requires TokensOf(tokens) && Carried(k) && Ready(root) && Pair(from, to)
    requires VGet(ValueOf(root), tokens).Some? && VGet(VGet(ValueOf(root), tokens).value, [k]) == Some(ValueOf(from))
    ensures Sets(root, CreatePatches(Child(Render(tokens), k), from, to, genCase), tokens,
                 VSet(VGet(ValueOf(root), tokens).value, [k], ValueOf(to)), caseSensitive)
    decreases from, 2
  {
    hide Good, VGet, ValueOf, Render, Sets, VSet, CreatePatches, Child, Pair, Ready;
    VGetChild(ValueOf(root), tokens, k);
    MoreTokens(tokens, k);
    ChildPath(tokens, k);
    RoundTripAt(root, tokens + [k], from, to, genCase, caseSensitive);
    SetsChild(root, CreatePatches(Render(tokens + [k]), from, to, genCase), tokens, k, ValueOf(to), caseSensitive);
  }

  /** A key only the first object has is removed. */
  lemma OnlyFrom(root: Json, tokens: seq<string>, from: seq<Member>, to: seq<Member>,
                 genCase: bool, done: map<string, Value>, caseSensitive: bool)
    requires TokensOf(tokens) && Ready(root) && from != []
    requires MemberPairs(from, to) && Apart(done, from) && AllSpelled(done, from, to)
    requires VGet(ValueOf(root), tokens) == Some(VObject(done + MapOf(from)))
    ensures && MemberPairs(from[1..], to) && Apart(done, from[1..]) && AllSpelled(done, from[1..], to)
            && Sets(root, [Compose("remove", Child(Render(tokens), from[0].key), None)], tokens,
                    VObject(done + MapOf(from[1..])), caseSensitive)
  {
    MapHead(from);
    MemberPairsTail(from, to);
    assert Carried(from[0].key);
    hide Good, VGet, ValueOf, MapOf, Render, Sets, VSet, VRemove, VAdd, Child, Compose, GoodMembers, TokensOf,
         Carried,
      MemberPairs, Ready;
    MemberStep(done, from[0].key, ValueOf(from[0].value), MapOf(from[1..]), VNull);
    SpelledOn(done, from, to, from[0].key, VNull, MapOf(from[1..]), MapOf(to));
    SetsRemove(root, tokens, from[0].key, VObject(done + MapOf(from[1..])), caseSensitive);
  }

  /** A key only the second object has is added. */
  lemma OnlyTo(root: Json, tokens: seq<string>, from: seq<Member>, to: seq<Member>,
               genCase: bool, done: map<string, Value>, caseSensitive: bool)
    requires TokensOf(tokens) && Ready(root) && to != []
    requires MemberPairs(from, to) && Sorted(from, genCase) && AllSpelled(done, from, to)
    requires Apart(done, from) && Apart(done, to)
    requires from != [] ==> CompareStrings(from[0].key, to[0].key, genCase) > 0
    requires VGet(ValueOf(root), tokens) == Some(VObject(done + MapOf(from)))
    ensures var next := done[to[0].key := ValueOf(to[0].value)];
            && MemberPairs(from, to[1..]) && Apart(next, from) && Apart(next, to[1..])
              && AllSpelled(next, from, to[1..])
            && next + MapOf(to[1..]) == done + MapOf(to)
            && Sets(root, [Compose("add", Child(Render(tokens), to[0].key), Some(to[0].value))], tokens,
                    VObject(next + MapOf(from)), caseSensitive)
  {
    var k := to[0].key;
    MapHead(to);
    MemberPairsTail(from, to);
    PairParts(from, to);
    assert Carried(k) && k in MapOf(to) && k !in done;
    if from != [] {
      CompareAntisymmetric(from[0].key, k, genCase);
    }
    hide *;
    BelowFirst(from, k, genCase);
    OnlyToAdded(root, tokens, from, to, done, caseSensitive);
    OnlyToRest(from, to, done);
  }

  lemma OnlyToAdded(root: Json, tokens: seq<string>, from: seq<Member>, to: seq<Member>, done: map<string, Value>,
                    caseSensitive: bool)
    requires TokensOf(tokens) && Ready(root) && to != [] && MemberPairs(from, to) && AllSpelled(done, from, to)
    requires Carried(to[0].key) && Good(to[0].value) && Addressable(ValueOf(to[0].value))
    requires to[0].key !in done && to[0].key !in MapOf(from) && to[0].key in MapOf(to)
    requires VGet(ValueOf(root), tokens) == Some(VObject(done + MapOf(from)))
    ensures Sets(root, [Compose("add", Child(Render(tokens), to[0].key), Some(to[0].value))], tokens,
                 VObject(done[to[0].key := ValueOf(to[0].value)] + MapOf(from)), caseSensitive)
  {
    var k, x := to[0].key, ValueOf(to[0].value);
    hide *;
    MemberStep(done, k, VNull, MapOf(from), x);
    SpelledOn(done, from, to, k, x, MapOf(from), map[]);
    ReadyParts(root);
    AddressableGet(ValueOf(root), tokens);
    MemberMeant(done + MapOf(from), k, x);
    SetsAdd(root, tokens, k, to[0].value, VObject(done[k := x] + MapOf(from)), caseSensitive);
  }

  lemma MemberMeant(m: map<string, Value>, k: string, x: Value)
    requires Spells(m.Keys, k) && Addressable(VObject(m)) && Addressable(x)
    ensures Meant(VObject(m), k) && VAdd(VObject(m), k, x).Some? && Addressable(VAdd(VObject(m), k, x).value)
  {
  }

  lemma OnlyToRest(from: seq<Member>, to: seq<Member>, done: map<string, Value>)
    requires to != [] && GoodMembers(to) && AllSpelled(done, from, to) && Apart(done, from) && Apart(done, to)
    requires to[0].key !in MapOf(from) && to[0].key !in done
    ensures var next := done[to[0].key := ValueOf(to[0].value)];
            && Apart(next, from) && Apart(next, to[1..]) && AllSpelled(next, from, to[1..])
            && next + MapOf(to[1..]) == done + MapOf(to)
  {
    var k := to[0].key;
    MapHead(to);
    hide ValueOf, MapOf, Good, GoodMembers;
    MemberStep(done, k, VNull, MapOf(to[1..]), ValueOf(to[0].value));
    SpelledOn(done, from, to, k, ValueOf(to[0].value), MapOf(from), MapOf(to[1..]));
  }

  // ----- the round trip -----

  /** At any place of a tree that holds `from`, the generated operations put `to` there and change nothing else. */
  lemma {:induction false} RoundTripAt(root: Json, tokens: seq<string>, from: Json, to: Json, genCase: bool,
                                       caseSensitive: bool)
    requires TokensOf(tokens) && Ready(root) && Pair(from, to)
    requires VGet(ValueOf(root), tokens) == Some(ValueOf(from)) && (tokens != [] ==> Carried(tokens[|tokens| - 1]))
    ensures Sets(root, CreatePatches(Render(tokens), from, to, genCase), tokens, ValueOf(to), caseSensitive)
    decreases from, 1
  {
    assert Good(to) && Good(from);
    hide VGet, Render, Sets, Compose, ApplyPatch, CreateItems, CreateMembers, Aligned, CarriedKeys, Ready;
    if ValueOf(from) == ValueOf(to) {
      SetsNothing(root, tokens, ValueOf(to), caseSensitive);
    }
    Replacing(root, tokens, to, caseSensitive);
    if Tag(from) == Tag(to) {
      match from
      case String(s) => StrCmpZero(s, to.s);
      case Array(items) => ArrayRoundTrip(root, tokens, from, to, genCase, caseSensitive);
      case Object(ms, _) => ObjectRoundTrip(root, tokens, from, to, genCase, caseSensitive);
      case _ =>
    }
  }

  lemma Replacing(root: Json, tokens: seq<string>, to: Json, caseSensitive: bool)
    requires TokensOf(tokens) && Ready(root) && Good(to) && VGet(ValueOf(root), tokens).Some?
             && Addressable(ValueOf(to))
    requires tokens != [] ==> Carried(tokens[|tokens| - 1])
    ensures Sets(root, [Compose("replace", Render(tokens), Some(to))], tokens, ValueOf(to), caseSensitive)
  {
    var patch := Compose("replace", Render(tokens), Some(to));
    ReadyParts(root);
    hide *;
    if tokens != [] {
      FrontOf(tokens);
      FoundAt(ValueOf(root), tokens[..|tokens| - 1], tokens[|tokens| - 1], caseSensitive);
    }
    ApplyReplace(root, tokens, to, caseSensitive);
    StaysReady(root, tokens, ValueOf(to), ApplyPatch(root, patch, caseSensitive).1);
    SetsOne(root, patch, tokens, ValueOf(to), caseSensitive);
  }

  lemma ReadyParts(root: Json)
    requires Ready(root)
    ensures Good(root) && Intact(root) && Proper(ValueOf(root)) && Addressable(ValueOf(root))
  {
    GoodIsProper(root);
  }

  lemma ArrayRoundTrip(root: Json, tokens: seq<string>, from: Json, to: Json, genCase: bool, caseSensitive: bool)
    requires TokensOf(tokens) && Ready(root) && Pair(from, to) && from.Array? && to.Array?
    requires VGet(ValueOf(root), tokens) == Some(ValueOf(from))
    ensures Sets(root, CreatePatches(Render(tokens), from, to, genCase), tokens, ValueOf(to), caseSensitive)
    decreases from, 0, |from.items| + |to.items|, 1
  {
    ArrayPairs(from, to);
    hide VGet, Render, Sets, CreateItems, Good, CarriedKeys, Aligned, Ready, ItemPairs;
    assert [] + ValuesOf(from.items) == ValuesOf(from.items) && [] + ValuesOf(to.items) == ValuesOf(to.items);
    ItemsAt(root, tokens, from.items, to.items, genCase, from, [], caseSensitive);
  }

  lemma ArrayPairs(from: Json, to: Json)
    requires Pair(from, to) && from.Array? && to.Array?
    ensures ItemPairs(from.items, to.items)
  {
    assert ValueOf(from).items == ValuesOf(from.items) && ValueOf(to).items == ValuesOf(to.items);
    forall i | 0 <= i < |from.items| && i < |to.items|
      ensures Aligned(ValueOf(from.items[i]), ValueOf(to.items[i]))
    {
      assert Aligned(ValueOf(from).items[i], ValueOf(to).items[i]);
    }
  }

  lemma ObjectRoundTrip(root: Json, tokens: seq<string>, from: Json, to: Json, genCase: bool, caseSensitive: bool)
    requires TokensOf(tokens) && Ready(root) && Pair(from, to) && from.Object? && to.Object?
    requires VGet(ValueOf(root), tokens) == Some(ValueOf(from))
    ensures Sets(root, CreatePatches(Render(tokens), from, to, genCase), tokens, ValueOf(to), caseSensitive)
    decreases from, 0, |from.members| + |to.members|, 1
  {
    hide *;
    var s, t := Sort(from.members, genCase), Sort(to.members, genCase);
    SameLength(from.members, genCase);
    SameLength(to.members, genCase);
    SortedPairs(from, to, genCase);
    Patches(Render(tokens), from, to, genCase);
    NothingDone(from, s);
    NothingDone(to, t);
    NothingSpelled(s, t);
    MembersAt(root, tokens, s, t, genCase, from, map[], caseSensitive);
  }

  lemma SortedPairs(from: Json, to: Json, genCase: bool)
    requires Pair(from, to) && from.Object? && to.Object?
    ensures var s, t := Sort(from.members, genCase), Sort(to.members, genCase);
            && MemberPairs(s, t) && Sorted(s, genCase) && Sorted(t, genCase)
            && MapOf(s) == MapOf(from.members) && MapOf(t) == MapOf(to.members)
  {
    var s, t := Sort(from.members, genCase), Sort(to.members, genCase);
    GoodObject(from);
    GoodObject(to);
    CarriedSorted(from, genCase);
    CarriedSorted(to, genCase);
    hide Sort, Good, GoodMembers, MapOf, Aligned, CarriedKeys, CarriedMembers, Sorted;
    SortGood(from.members, genCase);
    SortGood(to.members, genCase);
  }

  lemma CarriedSorted(j: Json, genCase: bool)
    requires j.Object? && CarriedKeys(j)
    ensures CarriedMembers(Sort(j.members, genCase))
  {
    var s := Sort(j.members, genCase);
    hide Sort, Carried;
    MembersPermuted(s, j.members);
    assert CarriedMembers(j.members);
    forall i | 0 <= i < |s|
      ensures Carried(s[i].key) && CarriedKeys(s[i].value)
    {
      var k :| 0 <= k < |j.members| && j.members[k] == s[i];
    }
  }

  lemma NothingSpelled(s: seq<Member>, t: seq<Member>)
    requires MemberPairs(s, t)
    ensures AllSpelled(map[], s, t)
  {
    hide MapOf;
    var none: map<string, Value> := map[];
    assert none.Keys + MapOf(s).Keys + MapOf(t).Keys == MapOf(s).Keys + MapOf(t).Keys;
  }

  lemma NothingDone(j: Json, sorted: seq<Member>)
    requires j.Object? && MapOf(sorted) == MapOf(j.members)
    ensures ValueOf(j) == VObject(map[] + MapOf(sorted)) && Apart(map[], sorted)
  {
    hide MapOf;
    assert map[] + MapOf(sorted) == MapOf(sorted);
  }

  lemma SameLength(ms: seq<Member>, genCase: bool)
    ensures |Sort(ms, genCase)| == |ms|
  {
    assert |multiset(Sort(ms, genCase))| == |multiset(ms)|;
  }

  lemma Patches(path: string, from: Json, to: Json, genCase: bool)
    requires from.Object? && to.Object?
    ensures forall i :: 0 <= i < |Sort(from.members, genCase)| ==> Sort(from.members, genCase)[i].value < from
    ensures CreatePatches(path, from, to, genCase)
            == CreateMembers(path, Sort(from.members, genCase), Sort(to.members, genCase), genCase, from)
  {
    SortedChildren(from, genCase);
  }

  /** Applying the patch generated from two trees to any copy of the first succeeds and gives the second, up to member order. */
  lemma PatchRoundTrip(copy: Json, from: Json, to: Json, genCase: bool, caseSensitive: bool)
    requires Ready(copy) && Pair(from, to) && ValueOf(copy) == ValueOf(from)
    ensures var (status, r) := ApplyAll(copy, CreatePatches("", from, to, genCase), caseSensitive);
            status == 0 && Ready(r) && ValueOf(r) == ValueOf(to)
  {
    RoundTripAt(copy, [], from, to, genCase, caseSensitive);
  }

  // ----- keys outside the round trip -----

  /** One member added to an empty object: the round trip holds exactly for the keys that survive. */
  lemma AddedMemberRoundTrip(k: string, x: Json, genCase: bool, caseSensitive: bool)
    requires Terminated(k) && Intact(x)
    ensures var to := Object([Member(k, x)]);
            ApplyAll(Object([]), CreatePatches("", Object([]), to, genCase), caseSensitive) == (0, to) <==> Decodable(k)
  {
    TokenSurvives(k);
    AddedMemberPatch(k, x, genCase);
    AddedMemberApplied(k, x, caseSensitive);
    hide DecodeLoop, EncodeToken, Decodable, ApplyPatch, Compose, CreatePatches, DecodeToken;
    var patch := Compose("add", "/" + EncodeToken(k), Some(x));
    var r := Object([Member(DecodeToken(EncodeToken(k)), x)]);
    assert [patch][1..] == [];
    assert ApplyAll(r, [], caseSensitive) == (0, r);
    assert r.members[0].key == DecodeToken(EncodeToken(k));
  }

  lemma AddedMemberPatch(k: string, x: Json, genCase: bool)
    ensures CreatePatches("", Object([]), Object([Member(k, x)]), genCase) == [Compose("add", "/" + EncodeToken(k), Some(x))]
  {
    hide EncodeToken, Compose;
    var to := [Member(k, x)];
    assert to[1..] == [];
    assert CreateMembers("", [], [], genCase, Object([])) == [];
    assert Child("", k) == "/" + EncodeToken(k);
  }

  lemma AddedMemberApplied(k: string, x: Json, caseSensitive: bool)
    requires Intact(x)
    ensures ApplyPatch(Object([]), Compose("add", "/" + EncodeToken(k), Some(x)), caseSensitive)
            == (0, Object([Member(DecodeToken(EncodeToken(k)), x)]))
  {
    var path := "/" + EncodeToken(k);
    assert path != [];
    hide *;
    EncodedForm(k);
    AddAtRoot(EncodeToken(k), x, caseSensitive);
    LookupComposed("add", path, Some(x), caseSensitive);
    OperationComposed(path, Some(x), caseSensitive);
    DuplicateSame(x);
    AddStep(Object([]), Compose("add", path, Some(x)), path, x, caseSensitive);
  }

  lemma AddAtRoot(t: string, x: Json, caseSensitive: bool)
    requires '/' !in t
    ensures AddAt(Object([]), "/" + t, x, caseSensitive) == (0, Object([Member(DecodeToken(t), x)]))
  {
    LastSlashFirst(t);
    hide DecodeToken, LastSlash;
    var path := "/" + t;
    assert path[..0] == [] && path[1..] == t;
    assert [] + [Member(DecodeToken(t), x)] == [Member(DecodeToken(t), x)];
    assert AddChild(Object([]), DecodeToken(t), x, caseSensitive) == (0, Object([Member(DecodeToken(t), x)]));
  }

  lemma {:induction false} LastSlashFirst(t: string)
    requires '/' !in t
    ensures LastSlash("/" + t) == Some(0)
  {
    var p := "/" + t;
    if t != [] {
      assert p[..|p| - 1] == "/" + t[..|t| - 1];
      LastSlashFirst(t[..|t| - 1]);
    }
  }

  /** Removing a member takes that member out exactly when no earlier one has its name up to case. */
  lemma RemovesExactly(ms: seq<Member>, i: nat)
    requires i < |ms| && Terminated(ms[i].key) && DistinctKeys(ms)
    requires forall j :: 0 <= j < |ms| ==> Terminated(ms[j].key)
    ensures DetachChild(Object(ms), ms[i].key) == Detached(ms[i].value, Object(Without(ms, i)))
            <==> forall j :: 0 <= j < i ==> Fold(ms[j].key) != Fold(ms[i].key)
  {
    var k := FindMember(ms, ms[i].key, false);
    hide FindMember, StrCmp;
    forall j | 0 <= j < |ms|
      ensures CompareStrings(ms[i].key, ms[j].key, false) == 0 <==> Fold(ms[j].key) == Fold(ms[i].key)
    {
      FoldTerminated(ms[i].key);
      FoldTerminated(ms[j].key);
      StrCmpZero(Fold(ms[i].key), Fold(ms[j].key));
    }
    assert CompareStrings(ms[i].key, ms[i].key, false) == 0;
    assert k <= i;
    if k < i {
      assert Fold(ms[k].key) == Fold(ms[i].key);
      assert Without(ms, k)[i - 1] == ms[i];
      assert Without(ms, i)[i - 1].key != ms[i].key;
      assert Without(ms, k) != Without(ms, i);
      assert DetachChild(Object(ms), ms[i].key) == Detached(ms[k].value, Object(Without(ms, k)));
      assert DetachChild(Object(ms), ms[i].key) != Detached(ms[i].value, Object(Without(ms, i)));
    } else {
      assert k == i;
      assert DetachChild(Object(ms), ms[i].key) == Detached(ms[i].value, Object(Without(ms, i)));

      forall j | 0 <= j < i
        ensures Fold(ms[j].key) != Fold(ms[i].key)
      {
        assert CompareStrings(ms[i].key, ms[j].key, false) != 0;
      }
    }
  }
}
