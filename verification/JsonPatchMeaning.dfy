/** What the operations do to the value of a tree: they remove, add or replace at a pointer, and nothing else. */
module JsonPatchMeaning {
  import opened Basics
  import opened Json
  import opened JsonToken
  import opened JsonPointer
  import opened JsonSort
  import opened JsonPatch
  import opened JsonCompare
  import opened Words

  // ----- the operations on values (section 4 of RFC 6902) -----

  function VRemove(v: Value, t: string): Option<Value> {
    match v
    case VArray(items) =>
      var index := Index(t);
      if index.None? || index.value >= |items| then None
        else Some(VArray(items[..index.value] + items[index.value + 1..]))
    case VObject(m) => if t in m then Some(VObject(m - {t})) else None
    case _ => None
  }

  function VAdd(v: Value, t: string, x: Value): Option<Value> {
    match v
    case VArray(items) =>
      if t == "-" then Some(VArray(items + [x]))
      else
        var index := Index(t);
        if index.None? || index.value > |items| then None
          else Some(VArray(items[..index.value] + [x] + items[index.value..]))
    case VObject(m) => Some(VObject(m[t := x]))
    case _ => None
  }

  /** At a pointer: the parent must exist and take the change. */
  function VRemoveAt(v: Value, tokens: seq<string>, t: string): Option<Value> {
    var parent := VGet(v, tokens);
    if parent.None? then None
    else
      var changed := VRemove(parent.value, t);
      if changed.None? then None else Some(VSet(v, tokens, changed.value))
  }

  function VAddAt(v: Value, tokens: seq<string>, t: string, x: Value): Option<Value> {
    var parent := VGet(v, tokens);
    if parent.None? then None
    else
      var changed := VAdd(parent.value, t, x);
      if changed.None? then None else Some(VSet(v, tokens, changed.value))
  }

  /** A token, unescaped, means the same child to RFC 6901 and to the library, which heeds no case when it removes. */
  ghost predicate Meant(parent: Value, t: string) {
    match parent
    case VArray(_) => !Lax(t)
    case VObject(m) => Spells(m.Keys, t)
    case _ => true
  }

  /** The parent is found as section 4 of RFC 6901 says, and the last token means the same to it and to the library. */
  ghost predicate UnderstoodAt(v: Value, tokens: seq<string>, t: string, caseSensitive: bool) {
    && Understood(v, tokens, caseSensitive)
    && (VGet(v, tokens).Some? ==> Meant(VGet(v, tokens).value, t))
  }

  /** A pointer that leads to an item is understood, whatever case is heeded. */
  lemma FoundAt(v: Value, tokens: seq<string>, t: string, caseSensitive: bool)
    requires Proper(v) && Addressable(v) && VGet(v, tokens + [t]).Some?
    ensures UnderstoodAt(v, tokens, t, caseSensitive)
  {
    hide *;
    FoundIsUnderstood(v, tokens + [t], caseSensitive);
    FoundIsUnderstood(v, tokens + [t], false);
    UnderstoodMore(v, tokens, t, caseSensitive);
    UnderstoodMore(v, tokens, t, false);
    if VGet(v, tokens).Some? {
      VGetChild(v, tokens, t);
      FoundIsMeant(VGet(v, tokens).value, t);
    }
    UnderstoodWhole(v, tokens, t, caseSensitive);
  }

  lemma FoundIsMeant(parent: Value, t: string)
    requires Understood(parent, [t], false) && VGet(parent, [t]).Some?
    ensures Meant(parent, t)
  {
    IndexEncoded(t);
    hide Positional, EncodeToken;
  }

  lemma UnderstoodWhole(v: Value, tokens: seq<string>, t: string, caseSensitive: bool)
    requires Understood(v, tokens, caseSensitive) && (VGet(v, tokens).Some? ==> Meant(VGet(v, tokens).value, t))
    ensures UnderstoodAt(v, tokens, t, caseSensitive)
  {
  }

  // ----- tokens and paths -----

  function PathTo(tokens: seq<string>, t: string): string {
    Render(tokens) + "/" + EncodeToken(t)
  }

  lemma {:induction false} LastSlashBefore(prefix: string, t: string)
    requires '/' !in t
    ensures LastSlash(prefix + "/" + t) == Some(|prefix|)
  {
    var p := prefix + "/" + t;
    if t != [] {
      assert p[..|p| - 1] == prefix + "/" + t[..|t| - 1];
      LastSlashBefore(prefix, t[..|t| - 1]);
    }
  }

  /** A path is split where it was put together. */
  lemma SplitPath(tokens: seq<string>, t: string)
    requires Carried(t)
    ensures var p := PathTo(tokens, t);
            && p != [] && LastSlash(p) == Some(|Render(tokens)|)
            && p[..|Render(tokens)|] == Render(tokens) && DecodeToken(p[|Render(tokens)| + 1..]) == t
  {
    EncodedForm(t);
    LastSlashBefore(Render(tokens), EncodeToken(t));
    TokenSurvives(t);
    hide DecodeToken, EncodeToken, Render;
  }

  lemma FindNamedMember(ms: seq<Member>, t: string, caseSensitive: bool)
    requires GoodMembers(ms) && Terminated(t) && (caseSensitive || Spells(MapOf(ms).Keys, t))
    ensures var i := FindMember(ms, t, caseSensitive);
            (i < |ms| <==> t in MapOf(ms)) && (i < |ms| ==> ms[i].key == t)
  {
    var i := FindMember(ms, t, caseSensitive);
    MapKeys(ms);
    forall k | 0 <= k < |ms|
      ensures CompareStrings(t, ms[k].key, caseSensitive) == 0 <==> ms[k].key == t
    {
      CompareZero(t, ms[k].key, caseSensitive);
      assert ms[k].key in Keys(ms);
    }
    hide MapOf, Good, FindMember, CompareStrings;
    if t in MapOf(ms) {
      var k :| 0 <= k < |ms| && ms[k].key == t;
    }
  }

  // ----- removing -----

  lemma RemovedAt<T>(s: seq<T>, i: nat, k: nat)
    requires i < |s| && k < |s| - 1
    ensures Removed(s, i)[k] == s[if k < i then k else k + 1]
  {
  }

  lemma GoodRemoved(items: seq<Json>, i: nat)
    requires Good(Array(items)) && i < |items|
    ensures Good(Array(Removed(items, i)))
  {
    hide Removed;
    forall k | 0 <= k < |items| - 1
      ensures Good(Removed(items, i)[k])
    {
      RemovedAt(items, i, k);
    }
  }

  lemma ValuesRemoved(items: seq<Json>, i: nat)
    requires i < |items|
    ensures ValuesOf(Removed(items, i)) == Removed(ValuesOf(items), i)
  {
    hide Removed, ValueOf;
    forall k | 0 <= k < |items| - 1
      ensures ValuesOf(Removed(items, i))[k] == Removed(ValuesOf(items), i)[k]
    {
      RemovedAt(items, i, k);
      RemovedAt(ValuesOf(items), i, k);
    }
  }

  lemma IntactRemoved(items: seq<Json>, i: nat)
    requires Intact(Array(items)) && i < |items|
    ensures Intact(Array(Removed(items, i)))
  {
    hide Removed;
    forall k | 0 <= k < |items| - 1
      ensures Intact(Removed(items, i)[k])
    {
      RemovedAt(items, i, k);
    }
  }

  lemma RemoveFromArray(items: seq<Json>, i: nat)
    requires Good(Array(items)) && i < |items|
    ensures var r := Array(items[..i] + items[i + 1..]);
            && Good(r) && ValueOf(r) == VArray(ValuesOf(items)[..i] + ValuesOf(items)[i + 1..])
            && (Intact(Array(items)) ==> Intact(r))
  {
    GoodRemoved(items, i);
    ValuesRemoved(items, i);
    if Intact(Array(items)) {
      IntactRemoved(items, i);
    }
    hide Good, ValuesOf, Intact;
  }

  lemma RemoveFromObject(j: Json, i: nat)
    requires j.Object? && Good(j) && i < |j.members|
    ensures var r := DetachMember(j, i);
            && Good(r) && ValueOf(r) == VObject(MapOf(j.members) - {j.members[i].key})
            && (Intact(j) ==> Intact(r))
  {
    DistinctWithout(j.members, i);
    MapSplit(j.members, i);
  }

  lemma DetachChildRefines(node: Json, t: string)
    requires Good(node) && Carried(t) && Meant(ValueOf(node), t)
    ensures var d, v := DetachChild(node, t), VRemove(ValueOf(node), t);
            && (d.Detached? <==> v.Some?)
            && (d.Detached? ==> Good(d.rest) && ValueOf(d.rest) == v.value)
            && (d.Detached? ==> Good(d.item) && VGet(ValueOf(node), [t]) == Some(ValueOf(d.item)))
            && (d.Detached? && Intact(node) ==> Intact(d.rest) && Intact(d.item))
  {
    assert [t][1..] == [];
    if node.Array? {
      IndexDecoded(t);
      var index := Index(t);
      if index.Some? && index.value < |node.items| {
        RemoveFromArray(node.items, index.value);
        GoodItem(node.items, index.value);
      }
      hide Good, Intact, DecodeIndex, Lax, Positional;
    } else if node.Object? {
      GoodObject(node);
      FindNamedMember(node.members, t, false);
      var i := FindMember(node.members, t, false);
      if i < |node.members| {
        RemoveFromObject(node, i);
        GoodMember(node, i);
        MapAt(node.members, i);
      }
      hide Good, GoodMembers, Intact, FindMember, MapOf, DetachMember;
    }
  }

  /** Detaching succeeds exactly when the pointer has an item, takes that item, and removes it from the value. */
  lemma DetachRefines(root: Json, tokens: seq<string>, t: string, caseSensitive: bool)
    requires Good(root) && TokensOf(tokens) && Carried(t) && UnderstoodAt(ValueOf(root), tokens, t, caseSensitive)
    ensures var d := DetachPath(root, PathTo(tokens, t), caseSensitive);
            var v := VRemoveAt(ValueOf(root), tokens, t);
            && (d.Detached? <==> v.Some?)
            && (d.Detached? ==> Good(d.rest) && ValueOf(d.rest) == v.value)
            && (d.Detached? ==> Good(d.item) && VGet(ValueOf(root), tokens + [t]) == Some(ValueOf(d.item)))
            && (d.Detached? && Intact(root) ==> Intact(d.rest) && Intact(d.item))
  {
    hide *;
    UnderstoodParts(ValueOf(root), tokens, t, caseSensitive);
    ResolveRefines(root, tokens, caseSensitive);
    DetachStep(root, tokens, t, caseSensitive);
    VRemoveStep(ValueOf(root), tokens, t);
    var parent := Resolve(root, Render(tokens), caseSensitive);
    if parent.Some? {
      var node := Get(root, parent.value);
      DetachChildRefines(node, t);
      VGetChild(ValueOf(root), tokens, t);
      if DetachChild(node, t).Detached? {
        PutRefines(root, tokens, caseSensitive, DetachChild(node, t).rest);
      }
    }
  }

  lemma UnderstoodParts(v: Value, tokens: seq<string>, t: string, caseSensitive: bool)
    requires UnderstoodAt(v, tokens, t, caseSensitive)
    ensures Understood(v, tokens, caseSensitive)
    ensures VGet(v, tokens).Some? ==> Meant(VGet(v, tokens).value, t)
  {
  }

  /** What detaching at a path comes to. */
  lemma DetachStep(root: Json, tokens: seq<string>, t: string, caseSensitive: bool)
    requires Carried(t)
    ensures var parent := Resolve(root, Render(tokens), caseSensitive);
            DetachPath(root, PathTo(tokens, t), caseSensitive)
            == if parent.None? then NotFound
               else
                 var d := DetachChild(Get(root, parent.value), t);
                 if d.NotFound? then NotFound else Detached(d.item, Put(root, parent.value, d.rest))
  {
    SplitPath(tokens, t);
    hide PathTo, Render, Resolve, DecodeToken, DetachChild, LastSlash;
  }

  lemma VRemoveStep(v: Value, tokens: seq<string>, t: string)
    ensures VRemoveAt(v, tokens, t)
            == if VGet(v, tokens).None? || VRemove(VGet(v, tokens).value, t).None? then None
               else Some(VSet(v, tokens, VRemove(VGet(v, tokens).value, t).value))
  {
    hide VGet, VRemove, VSet;
  }

  // ----- adding -----

  lemma InsertInArray(items: seq<Json>, i: nat, x: Json)
    requires Good(Array(items)) && Good(x) && i <= |items|
    ensures var r := Array(items[..i] + [x] + items[i..]);
            && Good(r) && ValueOf(r) == VArray(ValuesOf(items)[..i] + [ValueOf(x)] + ValuesOf(items)[i..])
            && (Intact(Array(items)) && Intact(x) ==> Intact(r))
  {
    assert ValuesOf(items[..i] + [x] + items[i..]) == ValuesOf(items)[..i] + [ValueOf(x)] + ValuesOf(items)[i..];
  }

  lemma AppendToArray(items: seq<Json>, x: Json)
    requires Good(Array(items)) && Good(x)
    ensures Good(Array(items + [x])) && ValueOf(Array(items + [x])) == VArray(ValuesOf(items) + [ValueOf(x)])
    ensures Intact(Array(items)) && Intact(x) ==> Intact(Array(items + [x]))
  {
    assert ValuesOf(items + [x]) == ValuesOf(items) + [ValueOf(x)];
  }

  /** An append finds the end of the list. */
  predicate CanAppend(j: Json) {
    j.Object? && (j.members == [] || j.tail == Kept)
  }

  lemma AppendToObject(j: Json, t: string, x: Json)
    requires Good(j) && CanAppend(j) && Good(x) && Terminated(t) && t !in MapOf(j.members)
    requires OneSpelling(MapOf(j.members).Keys + {t})
    ensures var r := AppendMember(j, Member(t, x));
            && Good(r) && ValueOf(r) == VObject(MapOf(j.members)[t := ValueOf(x)])
            && (Intact(j) && Intact(x) ==> Intact(r))
  {
    var ms := j.members;
    MapKeys(ms);
    var all := ms + [Member(t, x)];
    assert all[..|ms|] == ms;
    assert Keys(all) == Keys(ms) + {t} by {
      assert all[|ms|].key == t;
      assert forall i :: 0 <= i < |ms| ==> all[i].key == ms[i].key;
    }
    forall i, j | 0 <= i < j < |all|
      ensures all[i].key != all[j].key
    {
      if j == |ms| {
        assert ms[i].key in Keys(ms);
      }
    }
  }

  lemma ClearedRefines(j: Json, t: string, caseSensitive: bool)
    requires j.Object? && Good(j) && Terminated(t) && Spells(MapOf(j.members).Keys, t)
    ensures var c := Cleared(j, t, caseSensitive);
            && c.Object? && Good(c) && MapOf(c.members) == MapOf(j.members) - {t}
            && OneSpelling(MapOf(c.members).Keys + {t})
            && (Intact(j) ==> Intact(c) && CanAppend(c))
  {
    GoodObject(j);
    FindNamedMember(j.members, t, caseSensitive);
    MapKeys(j.members);
    var i := FindMember(j.members, t, caseSensitive);
    if i < |j.members| {
      RemoveFromObject(j, i);
    } else {
      assert MapOf(j.members) - {t} == MapOf(j.members);
    }
    hide FindMember, MapOf, Good;
  }

  lemma AddChildRefines(node: Json, t: string, x: Json, caseSensitive: bool)
    requires Good(node) && Intact(node) && Carried(t) && Good(x) && Intact(x)
             && Meant(ValueOf(node), t)
    ensures var (status, r) := AddChild(node, t, x, caseSensitive);
            var v := VAdd(ValueOf(node), t, ValueOf(x));
            && (status == 0 <==> v.Some?)
            && (status == 0 ==> Good(r) && Intact(r) && ValueOf(r) == v.value)
  {
    if node.Array? {
      AddItemRefines(node, t, x, caseSensitive);
    } else if node.Object? {
      AddMemberRefines(node, t, x, caseSensitive);
    }
  }

  lemma AddItemRefines(node: Json, t: string, x: Json, caseSensitive: bool)
    requires node.Array? && Good(node) && Intact(node) && Good(x) && Intact(x) && Carried(t) && !Lax(t)
    ensures var (status, r) := AddChild(node, t, x, caseSensitive);
            var v := VAdd(ValueOf(node), t, ValueOf(x));
            && (status == 0 <==> v.Some?)
            && (status == 0 ==> Good(r) && Intact(r) && ValueOf(r) == v.value)
  {
    AppendToArray(node.items, x);
    IndexDecoded(t);
    var index := Index(t);
    if index.Some? && index.value <= |node.items| {
      InsertInArray(node.items, index.value, x);
    }
    hide Good, Intact, DecodeIndex, ValuesOf, Lax, Positional;
  }

  lemma AddMemberRefines(node: Json, t: string, x: Json, caseSensitive: bool)
    requires node.Object? && Good(node) && Intact(node) && Good(x) && Intact(x)
    requires Terminated(t) && Spells(MapOf(node.members).Keys, t)
    ensures var (status, r) := AddChild(node, t, x, caseSensitive);
            status == 0 && Good(r) && Intact(r) && Some(ValueOf(r)) == VAdd(ValueOf(node), t, ValueOf(x))
  {
    hide *;
    ClearedRefines(node, t, caseSensitive);
    AddMemberStep(node, t, x, caseSensitive);
    AbsentWithout(MapOf(node.members), t);
    AppendToObject(Cleared(node, t, caseSensitive), t, x);
  }

  lemma AbsentWithout<K, V>(m: map<K, V>, k: K)
    ensures k !in m - {k}
  {
  }

  lemma AddMemberStep(node: Json, t: string, x: Json, caseSensitive: bool)
    requires node.Object?
    ensures AddChild(node, t, x, caseSensitive) == (0, AppendMember(Cleared(node, t, caseSensitive), Member(t, x)))
    ensures VAdd(ValueOf(node), t, ValueOf(x)) == Some(VObject((MapOf(node.members) - {t})[t := ValueOf(x)]))
  {
    hide FindMember, MapOf, DetachMember, AppendMember;
    Rebound(MapOf(node.members), t, ValueOf(x));
  }

  lemma Rebound<K, V>(m: map<K, V>, k: K, v: V)
    ensures (m - {k})[k := v] == m[k := v]
  {
  }

  /** The status is 0 in any case, but the member is added, and no other one lost, exactly when the append finds the end. */
  lemma AddsMemberExactly(node: Json, t: string, x: Json, caseSensitive: bool)
    requires node.Object? && Good(node) && Good(x) && Terminated(t) && Spells(MapOf(node.members).Keys, t)
    requires var c := Cleared(node, t, caseSensitive); c.tail.Inside? ==> c.tail.k + 1 < |c.members|
    ensures var (status, r) := AddChild(node, t, x, caseSensitive);
            && status == 0
            && (Some(ValueOf(r)) == VAdd(ValueOf(node), t, ValueOf(x)) <==> CanAppend(Cleared(node, t, caseSensitive)))
  {
    hide *;
    ClearedRefines(node, t, caseSensitive);
    AddMemberStep(node, t, x, caseSensitive);
    AbsentWithout(MapOf(node.members), t);
    var c := Cleared(node, t, caseSensitive);
    if CanAppend(c) {
      AppendToObject(c, t, x);
    } else {
      AppendLoses(c, t, x);
    }
  }

  lemma AppendLoses(c: Json, t: string, x: Json)
    requires c.Object? && Good(c) && !CanAppend(c) && t !in MapOf(c.members)
             && (c.tail.Inside? ==> c.tail.k + 1 < |c.members|)
    ensures ValueOf(AppendMember(c, Member(t, x))) != VObject(MapOf(c.members)[t := ValueOf(x)])
  {
    var ms, r := c.members, AppendMember(c, Member(t, x));
    var n := |ms| - 1;
    GoodObject(c);
    MapAt(ms, n);
    if c.tail.Inside? {
      MapKeys(r.members);
      assert ms[n].key !in Keys(r.members) by {
        assert ms[n].key != t;
      }
      hide MapOf, Good;
      assert ms[n].key in MapOf(ms)[t := ValueOf(x)];
    }
  }

  /** Adding succeeds exactly when the parent exists and takes the child, and adds it to the value. */
  lemma AddRefines(root: Json, tokens: seq<string>, t: string, x: Json, caseSensitive: bool)
    requires Good(root) && Intact(root) && Good(x) && Intact(x)
    requires TokensOf(tokens) && Carried(t) && UnderstoodAt(ValueOf(root), tokens, t, caseSensitive)
    ensures var (status, r) := AddAt(root, PathTo(tokens, t), x, caseSensitive);
            var v := VAddAt(ValueOf(root), tokens, t, ValueOf(x));
            && (status == 0 <==> v.Some?)
            && (status == 0 ==> Good(r) && Intact(r) && ValueOf(r) == v.value)
  {
    hide *;
    UnderstoodParts(ValueOf(root), tokens, t, caseSensitive);
    ResolveRefines(root, tokens, caseSensitive);
    AddAtStep(root, tokens, t, x, caseSensitive);
    VAddStep(ValueOf(root), tokens, t, ValueOf(x));
    var parent := Resolve(root, Render(tokens), caseSensitive);
    if parent.Some? {
      var node := Get(root, parent.value);
      AddChildRefines(node, t, x, caseSensitive);
      var (status, r) := AddChild(node, t, x, caseSensitive);
      if status == 0 {
        PutRefines(root, tokens, caseSensitive, r);
      }
    }
  }

  /** What adding at a path comes to. */
  lemma AddAtStep(root: Json, tokens: seq<string>, t: string, x: Json, caseSensitive: bool)
    requires Carried(t)
    ensures var parent := Resolve(root, Render(tokens), caseSensitive);
            AddAt(root, PathTo(tokens, t), x, caseSensitive)
            == if parent.None? then (9, root)
               else
                 var (status, node) := AddChild(Get(root, parent.value), t, x, caseSensitive);
                 if status != 0 then (status, root) else (0, Put(root, parent.value, node))
  {
    SplitPath(tokens, t);
    hide PathTo, Render, Resolve, DecodeToken, AddChild, LastSlash;
  }

  lemma VAddStep(v: Value, tokens: seq<string>, t: string, x: Value)
    ensures VAddAt(v, tokens, t, x)
            == if VGet(v, tokens).None? || VAdd(VGet(v, tokens).value, t, x).None? then None
               else Some(VSet(v, tokens, VAdd(VGet(v, tokens).value, t, x).value))
  {
    hide VGet, VAdd, VSet;
  }

  // ----- whole operations -----

  /** An operation as a patch document holds it, with a copy of the value. */
  function Compose(operation: string, path: string, value: Option<Json>): Json {
    Object([Member("op", String(operation)), Member("path", String(path))]
           + if value.None? then [] else [Member("value", Duplicate(value.value))])
  }

  lemma LookupComposed(operation: string, path: string, value: Option<Json>, caseSensitive: bool)
    ensures var p := Compose(operation, path, value);
            && Lookup(p, "op", caseSensitive) == Some(String(operation))
            && Lookup(p, "path", caseSensitive) == Some(String(path))
            && Lookup(p, "value", caseSensitive) == if value.None? then None else Some(Duplicate(value.value))
  {
    var ms := Compose(operation, path, value).members;
    NameFound("op", "op", caseSensitive);
    NameFound("path", "op", caseSensitive);
    NameFound("path", "path", caseSensitive);
    NameFound("value", "op", caseSensitive);
    NameFound("value", "path", caseSensitive);
    NameFound("value", "value", caseSensitive);
    hide CompareStrings;
    assert ms[1..][0] == ms[1];
    assert value.Some? ==> ms[1..][1..] == [ms[2]];
    assert value.None? ==> ms[1..][1..] == [];
  }

  lemma NameFound(a: string, b: string, caseSensitive: bool)
    requires a in ["op", "path", "value"] && b in ["op", "path", "value"]
    ensures CompareStrings(a, b, caseSensitive) == 0 <==> a == b
  {
    CompareZero(a, b, caseSensitive);
    LowerCase(a);
    LowerCase(b);
  }

  lemma LowerCase(a: string)
    requires a in ["op", "path", "value"]
    ensures Fold(a) == a
  {
  }

  /** The operation named is the operation done. */
  lemma OperationComposed(path: string, value: Option<Json>, caseSensitive: bool)
    ensures DecodeOperation(Compose("add", path, value), caseSensitive) == Add
    ensures DecodeOperation(Compose("remove", path, value), caseSensitive) == Remove
    ensures DecodeOperation(Compose("replace", path, value), caseSensitive) == Replace
    ensures DecodeOperation(Compose("test", path, value), caseSensitive) == Test
  {
    hide *;
    NamedOperation("add", path, value, caseSensitive);
    NamedOperation("remove", path, value, caseSensitive);
    NamedOperation("replace", path, value, caseSensitive);
    NamedOperation("test", path, value, caseSensitive);
  }

  lemma NamedOperation(op: string, path: string, value: Option<Json>, caseSensitive: bool)
    requires op in ["add", "remove", "replace", "test"]
    ensures DecodeOperation(Compose(op, path, value), caseSensitive)
            == if op == "add" then Add else if op == "remove" then Remove else if op == "replace" then Replace else Test
  {
    LookupComposed(op, path, value, caseSensitive);
    OnlyWord(op);
    hide Lookup, Compose, OperationOf;
  }

  /** The comparisons of an operation name one after the other. */
  lemma OnlyWord(op: string)
    requires op in ["add", "remove", "replace", "test"]
    ensures OperationOf(op)
            == if op == "add" then Add else if op == "remove" then Remove else if op == "replace" then Replace else Test
  {
    StrCmpZero(op, "add");
    StrCmpZero(op, "remove");
    StrCmpZero(op, "replace");
    StrCmpZero(op, "move");
    StrCmpZero(op, "copy");
    StrCmpZero(op, "test");
    hide StrCmp;
  }

  lemma ApplyRemove(root: Json, tokens: seq<string>, t: string, caseSensitive: bool)
    requires Good(root) && TokensOf(tokens) && Carried(t) && UnderstoodAt(ValueOf(root), tokens, t, caseSensitive)
    ensures var (status, r) := ApplyPatch(root, Compose("remove", PathTo(tokens, t), None), caseSensitive);
            var v := VRemoveAt(ValueOf(root), tokens, t);
            && (status == 0 <==> v.Some?)
            && (status == 0 ==> Good(r) && ValueOf(r) == v.value && (Intact(root) ==> Intact(r)))
  {
    var p := PathTo(tokens, t);
    hide *;
    SplitPath(tokens, t);
    LookupComposed("remove", p, None, caseSensitive);
    OperationComposed(p, None, caseSensitive);
    DetachRefines(root, tokens, t, caseSensitive);
    RemoveStep(root, Compose("remove", p, None), p, caseSensitive);
  }

  /** What applying a removal comes to. */
  lemma RemoveStep(root: Json, patch: Json, p: string, caseSensitive: bool)
    requires Lookup(patch, "path", caseSensitive) == Some(String(p)) && p != [] && DecodeOperation(patch, caseSensitive) == Remove
    ensures var d := DetachPath(root, p, caseSensitive);
            ApplyPatch(root, patch, caseSensitive) == if d.NotFound? then (13, root) else (0, d.rest)
  {
    hide Lookup, DecodeOperation, DetachPath;
  }

  /** A removal at the top of an array by a token read too leniently: an element goes, though RFC 6901 gives none. */
  lemma LaxRemoves(items: seq<Json>, t: string, caseSensitive: bool)
    requires Carried(t) && Lax(t) && |items| < TWO_TO_THE_32
    ensures VRemoveAt(ValueOf(Array(items)), [], t).None?
    ensures var i := Positional(t) % TWO_TO_THE_32;
            ApplyPatch(Array(items), Compose("remove", PathTo([], t), None), caseSensitive)
            == if i < |items| then (0, Array(Removed(items, i))) else (13, Array(items))
  {
    var root, p := Array(items), PathTo([], t);
    LaxDetaches(items, t);
    hide *;
    SplitPath([], t);
    LookupComposed("remove", p, None, caseSensitive);
    OperationComposed(p, None, caseSensitive);
    RemoveStep(root, Compose("remove", p, None), p, caseSensitive);
    DetachStep(root, [], t, caseSensitive);
    VRemoveStep(ValueOf(root), [], t);
    NoTokens(ValueOf(root), ValueOf(root));
    var d := DetachChild(root, t);
    NoPath(root, if d.Detached? then d.rest else root, caseSensitive);
  }

  lemma LaxDetaches(items: seq<Json>, t: string)
    requires Carried(t) && Lax(t) && |items| < TWO_TO_THE_32
    ensures VRemove(ValueOf(Array(items)), t).None? && VGet(ValueOf(Array(items)), []) == Some(ValueOf(Array(items)))
    ensures var i := Positional(t) % TWO_TO_THE_32;
            DetachChild(Array(items), t) == if i < |items| then Detached(items[i], Array(Removed(items, i)))
              else NotFound
  {
    IndexDecoded(t);
    Arrays(items);
    hide DecodeIndex, Positional, ValueOf;
  }

  /** What applying an addition comes to. */
  lemma AddStep(root: Json, patch: Json, p: string, x: Json, caseSensitive: bool)
    requires Lookup(patch, "path", caseSensitive) == Some(String(p)) && p != [] && DecodeOperation(patch, caseSensitive) == Add
    requires Lookup(patch, "value", caseSensitive) == Some(x)
    ensures ApplyPatch(root, patch, caseSensitive) == AddAt(root, p, Duplicate(x), caseSensitive)
  {
    hide Lookup, DecodeOperation, AddAt;
  }

  /** What applying a replacement comes to. */
  lemma ReplaceStep(root: Json, patch: Json, p: string, x: Json, caseSensitive: bool)
    requires Lookup(patch, "path", caseSensitive) == Some(String(p)) && DecodeOperation(patch, caseSensitive) == Replace
    requires Lookup(patch, "value", caseSensitive) == Some(x)
    ensures p == [] ==> ApplyPatch(root, patch, caseSensitive) == (0, Duplicate(x))
    ensures p != [] ==> var d := DetachPath(root, p, caseSensitive);
                        ApplyPatch(root, patch, caseSensitive)
                        == if d.NotFound? then (13, root) else AddAt(d.rest, p, Duplicate(x), caseSensitive)
  {
    hide Lookup, DecodeOperation, DetachPath, AddAt;
  }

  /** A copy of a copy is that copy. */
  lemma CopiedTwice(x: Json)
    ensures var y := Duplicate(Duplicate(x));
            y == Duplicate(x) && ValueOf(y) == ValueOf(x) && Intact(y) && (Good(x) ==> Good(y))
  {
    DuplicateSame(x);
    DuplicateSame(Duplicate(x));
  }

  lemma ApplyAdd(root: Json, tokens: seq<string>, t: string, x: Json, caseSensitive: bool)
    requires Good(root) && Intact(root) && Good(x)
    requires TokensOf(tokens) && Carried(t) && UnderstoodAt(ValueOf(root), tokens, t, caseSensitive)
    ensures var (status, r) := ApplyPatch(root, Compose("add", PathTo(tokens, t), Some(x)), caseSensitive);
            var v := VAddAt(ValueOf(root), tokens, t, ValueOf(x));
            && (status == 0 <==> v.Some?)
            && (status == 0 ==> Good(r) && Intact(r) && ValueOf(r) == v.value)
  {
    var p := PathTo(tokens, t);
    hide *;
    CopiedTwice(x);
    SplitPath(tokens, t);
    LookupComposed("add", p, Some(x), caseSensitive);
    OperationComposed(p, Some(x), caseSensitive);
    AddRefines(root, tokens, t, Duplicate(x), caseSensitive);
    AddStep(root, Compose("add", p, Some(x)), p, Duplicate(x), caseSensitive);
  }

  /** Replacing a child is removing it and adding the new one in its place. */
  lemma VReplaceChild(parent: Value, t: string, x: Value)
    requires VGet(parent, [t]).Some?
    ensures VRemove(parent, t).Some? && VAdd(VRemove(parent, t).value, t, x).Some?
    ensures VAdd(VRemove(parent, t).value, t, x).value == VSet(parent, [t], x)
  {
    assert [t][1..] == [];
    if parent.VObject? {
      assert (parent.members - {t})[t := x] == parent.members[t := x];
    } else {
      DashIsNoIndex();
      var i := Index(t).value;
      var left := parent.items[..i] + parent.items[i + 1..];
      assert left[..i] + [x] + left[i..] == parent.items[i := x];
    }
  }

  lemma DashIsNoIndex()
    ensures Index("-") == None
  {
    assert "-"[0] == '-';
  }

  /** Replacing sets the value at the pointer, the root included, exactly when there is one. */
  lemma ApplyReplace(root: Json, tokens: seq<string>, x: Json, caseSensitive: bool)
    requires Good(root) && Intact(root) && Good(x) && TokensOf(tokens)
    requires tokens != [] ==>
               var t := tokens[|tokens| - 1];
               Carried(t) && UnderstoodAt(ValueOf(root), tokens[..|tokens| - 1], t, caseSensitive)
    ensures var (status, r) := ApplyPatch(root, Compose("replace", Render(tokens), Some(x)), caseSensitive);
            && (status == 0 <==> VGet(ValueOf(root), tokens).Some?)
            && (status == 0 ==> Good(r) && Intact(r) && ValueOf(r) == VSet(ValueOf(root), tokens, ValueOf(x)))
  {
    hide *;
    CopiedTwice(x);
    LookupComposed("replace", Render(tokens), Some(x), caseSensitive);
    OperationComposed(Render(tokens), Some(x), caseSensitive);
    ReplaceStep(root, Compose("replace", Render(tokens), Some(x)), Render(tokens), Duplicate(x), caseSensitive);
    if tokens == [] {
      NoTokens(ValueOf(root), ValueOf(x));
    } else {
      FrontOf(tokens);
      SplitPath(tokens[..|tokens| - 1], tokens[|tokens| - 1]);
      ReplaceBelow(root, tokens[..|tokens| - 1], tokens[|tokens| - 1], Duplicate(x), caseSensitive);
    }
  }

  lemma NoTokens(v: Value, x: Value)
    ensures Render([]) == [] && VGet(v, []).Some? && VSet(v, [], x) == x
  {
  }

  lemma FrontOf(tokens: seq<string>)
    requires tokens != [] && TokensOf(tokens)
    ensures var front, t := tokens[..|tokens| - 1], tokens[|tokens| - 1];
            && tokens == front + [t] && TokensOf(front)
            && PathTo(front, t) == Render(tokens)
  {
    var front, t := tokens[..|tokens| - 1], tokens[|tokens| - 1];
    assert tokens == front + [t];
    RenderAppend(front, t);
    hide Render;
  }

  lemma ReplaceBelow(root: Json, tokens: seq<string>, t: string, x: Json, caseSensitive: bool)
    requires Good(root) && Intact(root) && Good(x) && Intact(x)
    requires TokensOf(tokens) && Carried(t) && UnderstoodAt(ValueOf(root), tokens, t, caseSensitive)
    ensures var p := PathTo(tokens, t);
            var d := DetachPath(root, p, caseSensitive);
            && (d.Detached? <==> VGet(ValueOf(root), tokens + [t]).Some?)
            && (d.Detached? ==>
                  var (status, r) := AddAt(d.rest, p, x, caseSensitive);
                  status == 0 && Good(r) && Intact(r) && ValueOf(r) == VSet(ValueOf(root), tokens + [t], ValueOf(x)))
  {
    hide *;
    DetachRefines(root, tokens, t, caseSensitive);
    RemovesFound(ValueOf(root), tokens, t);
    if VGet(ValueOf(root), tokens + [t]).Some? {
      var rest := DetachPath(root, PathTo(tokens, t), caseSensitive).rest;
      ReplaceOnValues(ValueOf(root), tokens, t, ValueOf(x), caseSensitive);
      AddRefines(rest, tokens, t, x, caseSensitive);
    }
  }

  /** What can be removed is what is there. */
  lemma RemovesFound(v: Value, tokens: seq<string>, t: string)
    ensures VRemoveAt(v, tokens, t).Some? <==> VGet(v, tokens + [t]).Some?
  {
    if VGet(v, tokens).Some? {
      VGetChild(v, tokens, t);
      assert [t][1..] == [];
      hide VSet, Positional;
    } else {
      NotBelow(v, tokens, t);
    }
  }

  lemma {:induction false} NotBelow(v: Value, tokens: seq<string>, t: string)
    requires VGet(v, tokens).None?
    ensures VGet(v, tokens + [t]).None?
    decreases |tokens|
  {
    hide Positional;
    assert (tokens + [t])[1..] == tokens[1..] + [t];
    match v
    case VArray(items) =>
      if Index(tokens[0]).Some? && Index(tokens[0]).value < |items| {
        NotBelow(items[Index(tokens[0]).value], tokens[1..], t);
      }
    case VObject(m) =>
      if tokens[0] in m {
        NotBelow(m[tokens[0]], tokens[1..], t);
      }
    case _ =>
  }

  lemma ReplaceOnValues(v: Value, tokens: seq<string>, t: string, x: Value, caseSensitive: bool)
    requires VGet(v, tokens + [t]).Some? && UnderstoodAt(v, tokens, t, caseSensitive)
    ensures VRemoveAt(v, tokens, t).Some?
    ensures var w := VRemoveAt(v, tokens, t).value;
            UnderstoodAt(w, tokens, t, caseSensitive) && VAddAt(w, tokens, t, x) == Some(VSet(v, tokens + [t], x))
  {
    VSetChild(v, tokens, t, x);
    var parent := VGet(v, tokens).value;
    VReplaceChild(parent, t, x);
    var removed := VRemove(parent, t).value;
    RemovedMeant(parent, t);
    hide VRemove, VAdd, VGet, VSet, Understood, Meant;
    UnderstoodSet(v, tokens, removed, caseSensitive);
    VGetSet(v, tokens, removed);
    VSetSet(v, tokens, removed, VAdd(removed, t, x).value);
  }

  lemma RemovedMeant(parent: Value, t: string)
    requires VRemove(parent, t).Some? && Meant(parent, t)
    ensures Meant(VRemove(parent, t).value, t)
  {
    hide Lax, Positional;
    if parent.VObject? {
      assert (parent.members - {t}).Keys <= parent.members.Keys;
    }
  }

  /** A pointer is still understood when only what it leads to has changed. */
  lemma {:induction false} UnderstoodSet(v: Value, tokens: seq<string>, x: Value, caseSensitive: bool)
    requires VGet(v, tokens).Some? && Understood(v, tokens, caseSensitive)
    ensures Understood(VSet(v, tokens, x), tokens, caseSensitive)
    decreases |tokens|
  {
    hide Lax, Positional;
    if tokens != [] {
      if v.VArray? {
        UnderstoodSet(v.items[Index(tokens[0]).value], tokens[1..], x, caseSensitive);
      } else {
        UnderstoodSet(v.members[tokens[0]], tokens[1..], x, caseSensitive);
        assert VSet(v, tokens, x).members.Keys == v.members.Keys;
      }
    }
  }

  // ----- moving and copying -----

  /** Moving takes the item out and adds it where the path leads afterwards; nothing less, nothing more. */
  lemma ApplyMove(root: Json, patch: Json, source: seq<string>, s: string, tokens: seq<string>, t: string,
                  caseSensitive: bool)
    requires Lookup(patch, "path", caseSensitive) == Some(String(PathTo(tokens, t)))
    requires Lookup(patch, "from", caseSensitive) == Some(String(PathTo(source, s))) && DecodeOperation(patch, caseSensitive) == Move
    requires Good(root) && Intact(root) && TokensOf(source) && Carried(s) && TokensOf(tokens) && Carried(t)
    requires UnderstoodAt(ValueOf(root), source, s, caseSensitive)
    requires VRemoveAt(ValueOf(root), source, s).Some? ==>
               UnderstoodAt(VRemoveAt(ValueOf(root), source, s).value, tokens, t, caseSensitive)
    ensures var (status, r) := ApplyPatch(root, patch, caseSensitive);
            var item, rest := VGet(ValueOf(root), source + [s]), VRemoveAt(ValueOf(root), source, s);
            && (item.Some? <==> rest.Some?)
            && (status == 0 <==> rest.Some? && VAddAt(rest.value, tokens, t, item.value).Some?)
            && (status == 0 ==> Good(r) && Intact(r) && Some(ValueOf(r)) == VAddAt(rest.value, tokens, t, item.value))
  {
    hide *;
    RemovesFound(ValueOf(root), source, s);
    DetachRefines(root, source, s, caseSensitive);
    MoveStep(root, patch, PathTo(source, s), PathTo(tokens, t), caseSensitive);
    PathNotEmpty(tokens, t);
    var d := DetachPath(root, PathTo(source, s), caseSensitive);
    if d.Detached? {
      AddRefines(d.rest, tokens, t, d.item, caseSensitive);
    }
  }

  lemma PathNotEmpty(tokens: seq<string>, t: string)
    ensures PathTo(tokens, t) != []
  {
  }

  lemma MoveStep(root: Json, patch: Json, from: string, p: string, caseSensitive: bool)
    requires Lookup(patch, "path", caseSensitive) == Some(String(p)) && DecodeOperation(patch, caseSensitive) == Move
    requires Lookup(patch, "from", caseSensitive) == Some(String(from))
    ensures var d := DetachPath(root, from, caseSensitive);
            ApplyPatch(root, patch, caseSensitive)
            == if d.NotFound? then (5, root) else AddAt(d.rest, p, d.item, caseSensitive)
  {
    hide Lookup, DecodeOperation, DetachPath, AddAt;
  }

  /** Copying adds a copy of what the other pointer leads to. */
  lemma ApplyCopy(root: Json, patch: Json, source: seq<string>, tokens: seq<string>, t: string, caseSensitive: bool)
    requires Lookup(patch, "path", caseSensitive) == Some(String(PathTo(tokens, t)))
    requires Lookup(patch, "from", caseSensitive) == Some(String(Render(source))) && DecodeOperation(patch, caseSensitive) == Copy
    requires Good(root) && Intact(root) && TokensOf(source) && TokensOf(tokens) && Carried(t)
    requires Understood(ValueOf(root), source, caseSensitive) && UnderstoodAt(ValueOf(root), tokens, t, caseSensitive)
    ensures var (status, r) := ApplyPatch(root, patch, caseSensitive);
            var item := VGet(ValueOf(root), source);
            && (status == 0 <==> item.Some? && VAddAt(ValueOf(root), tokens, t, item.value).Some?)
            && (status == 0 ==>
                  Good(r) && Intact(r) && Some(ValueOf(r)) == VAddAt(ValueOf(root), tokens, t, item.value))
  {
    hide *;
    ResolveRefines(root, source, caseSensitive);
    CopyStep(root, patch, Render(source), PathTo(tokens, t), caseSensitive);
    PathNotEmpty(tokens, t);
    var path := Resolve(root, Render(source), caseSensitive);
    if path.Some? {
      DuplicateSame(Get(root, path.value));
      AddRefines(root, tokens, t, Duplicate(Get(root, path.value)), caseSensitive);
    }
  }

  lemma CopyStep(root: Json, patch: Json, from: string, p: string, caseSensitive: bool)
    requires Lookup(patch, "path", caseSensitive) == Some(String(p)) && DecodeOperation(patch, caseSensitive) == Copy
    requires Lookup(patch, "from", caseSensitive) == Some(String(from))
    ensures var path := Resolve(root, from, caseSensitive);
            ApplyPatch(root, patch, caseSensitive)
            == if path.None? then (5, root) else AddAt(root, p, Duplicate(Get(root, path.value)), caseSensitive)
  {
    hide Lookup, DecodeOperation, Resolve, AddAt;
  }

  /** Moving or copying to the root never succeeds; a move has taken the item out by then. */
  lemma RootIsNoTarget(root: Json, patch: Json, from: string, caseSensitive: bool)
    requires Lookup(patch, "path", caseSensitive) == Some(String("")) && Lookup(patch, "from", caseSensitive) == Some(String(from))
    requires DecodeOperation(patch, caseSensitive) in {Move, Copy}
    ensures ApplyPatch(root, patch, caseSensitive).0 in {5, 9}
    ensures DecodeOperation(patch, caseSensitive) == Move && DetachPath(root, from, caseSensitive).Detached? ==>
              ApplyPatch(root, patch, caseSensitive) == (9, DetachPath(root, from, caseSensitive).rest)
  {
    hide Lookup, DecodeOperation, DetachPath, Resolve;
  }

  // ----- testing -----

  /** Comparing sorts the target in place, which changes neither its value nor that it is well-formed. */
  lemma {:induction false} ComparedSame(a: Json, b: Json, caseSensitive: bool)
    requires Good(a)
    ensures var r := Compared(a, b, caseSensitive);
            Tag(r) == Tag(a) && Good(r) && ValueOf(r) == ValueOf(a)
    decreases a, 1, 0
  {
    hide ComparedItems, ComparedMembers, CompareJson;
    if Tag(a) == Tag(b) {
      match a
      case Array(items) => ComparedItemsSame(items, b.items, caseSensitive, a);
      case Object(ms, tail) => ComparedObjectSame(a, b, caseSensitive);
      case _ =>
    }
  }

  lemma {:induction false} ComparedItemsSame(a: seq<Json>, b: seq<Json>, caseSensitive: bool, whole: Json)
    requires Good(Array(a)) && (forall i :: 0 <= i < |a| ==> a[i] < whole)
    ensures var r := ComparedItems(a, b, caseSensitive, whole);
            Good(Array(r)) && ValuesOf(r) == ValuesOf(a)
    decreases whole, 0, |a|
  {
    hide Compared, CompareJson;
    if a != [] && b != [] {
      GoodTail(a);
      ComparedSame(a[0], b[0], caseSensitive);
      var x := Compared(a[0], b[0], caseSensitive);
      if CompareJson(a[0], b[0], caseSensitive) {
        ComparedItemsSame(a[1..], b[1..], caseSensitive, whole);
        ItemInFront(x, ComparedItems(a[1..], b[1..], caseSensitive, whole));
      } else {
        ItemInFront(x, a[1..]);
      }
    }
  }

  lemma ItemInFront(x: Json, items: seq<Json>)
    requires Good(x) && Good(Array(items))
    ensures Good(Array([x] + items)) && ValuesOf([x] + items) == [ValueOf(x)] + ValuesOf(items)
  {
  }

  lemma ComparedObjectSame(a: Json, b: Json, caseSensitive: bool)
    requires Good(a) && a.Object? && b.Object?
    ensures var r := Compared(a, b, caseSensitive);
            Tag(r) == Tag(a) && Good(r) && ValueOf(r) == ValueOf(a)
    decreases a, 0, |a.members| + 1
  {
    var s := Sort(a.members, caseSensitive);
    assert |multiset(s)| == |multiset(a.members)|;
    SortedChildren(a, caseSensitive);
    GoodObject(a);
    hide ComparedMembers, Sort, MapOf, Good, GoodMembers, Sorted, SortTail;
    SortGood(a.members, caseSensitive);
    ComparedMembersSame(s, Sort(b.members, caseSensitive), caseSensitive, a);
    GoodWhatever(ComparedMembers(s, Sort(b.members, caseSensitive), caseSensitive, a),
      SortTail(a.members, a.tail, caseSensitive));
  }

  lemma GoodWhatever(ms: seq<Member>, tail: Tail)
    requires GoodMembers(ms)
    ensures Good(Object(ms, tail))
  {
  }

  lemma {:induction false} ComparedMembersSame(a: seq<Member>, b: seq<Member>, caseSensitive: bool, whole: Json)
    requires GoodMembers(a) && (forall i :: 0 <= i < |a| ==> a[i].value < whole)
    ensures var r := ComparedMembers(a, b, caseSensitive, whole);
            && |r| == |a| && (forall i :: 0 <= i < |a| ==>
                r[i].key == a[i].key && ValueOf(r[i].value) == ValueOf(a[i].value))
            && (forall i :: 0 <= i < |a| ==> Good(r[i].value))
            && GoodMembers(r) && MapOf(r) == MapOf(a)
    decreases whole, 0, |a|
  {
    hide Compared, CompareJson, CompareStrings, MapOf;
    if a != [] && b != [] && CompareStrings(a[0].key, b[0].key, caseSensitive) == 0 {
      ComparedSame(a[0].value, b[0].value, caseSensitive);
      MapHead(a);
      if CompareJson(a[0].value, b[0].value, caseSensitive) {
        ComparedMembersSame(a[1..], b[1..], caseSensitive, whole);
      }
    }
    var r := ComparedMembers(a, b, caseSensitive, whole);
    assert forall i :: 0 < i < |a| ==> a[i] == a[1..][i - 1];
    MapSame(a, r);
    SameNames(a, r);
  }

  lemma SameNames(a: seq<Member>, r: seq<Member>)
    requires GoodMembers(a) && |r| == |a| && (forall i :: 0 <= i < |a| ==> r[i].key == a[i].key && Good(r[i].value))
    ensures GoodMembers(r)
  {
    assert Keys(r) == Keys(a);
  }

  /** A test succeeds exactly when the pointer leads to that value, and changes no value. */
  lemma ApplyTest(root: Json, patch: Json, tokens: seq<string>, x: Json, caseSensitive: bool)
    requires Lookup(patch, "path", caseSensitive) == Some(String(Render(tokens)))
    requires Lookup(patch, "value", caseSensitive) == Some(x) && DecodeOperation(patch, caseSensitive) == Test
    requires Good(root) && Good(x) && TokensOf(tokens) && Understood(ValueOf(root), tokens, caseSensitive)
    requires caseSensitive || (VGet(ValueOf(root), tokens).Some? ==>
               Aligned(VGet(ValueOf(root), tokens).value, ValueOf(x)))
    ensures var (status, r) := ApplyPatch(root, patch, caseSensitive);
            && (status == 0 <==> VGet(ValueOf(root), tokens) == Some(ValueOf(x)))
            && Good(r) && ValueOf(r) == ValueOf(root)
  {
    hide *;
    ResolveRefines(root, tokens, caseSensitive);
    TestStep(root, patch, Render(tokens), x, caseSensitive);
    var path := Resolve(root, Render(tokens), caseSensitive);
    if path.Some? {
      var target := Get(root, path.value);
      GoodDecides(target, x, caseSensitive);
      ComparedSame(target, x, caseSensitive);
      PutRefines(root, tokens, caseSensitive, Compared(target, x, caseSensitive));
      VSetGet(ValueOf(root), tokens);
    }
  }

  lemma TestStep(root: Json, patch: Json, p: string, x: Json, caseSensitive: bool)
    requires Lookup(patch, "path", caseSensitive) == Some(String(p)) && DecodeOperation(patch, caseSensitive) == Test
    requires Lookup(patch, "value", caseSensitive) == Some(x)
    ensures var path := Resolve(root, p, caseSensitive);
            ApplyPatch(root, patch, caseSensitive)
            == if path.None? then (1, root)
               else (if CompareJson(Get(root, path.value), x, caseSensitive) then 0 else 1,
                     Put(root, path.value, Compared(Get(root, path.value), x, caseSensitive)))
  {
    hide Lookup, DecodeOperation, Resolve, CompareJson, Compared;
  }

  // ----- what a test spoils -----

  /** Every object of the tree is sorted already. */
  predicate AllSorted(j: Json, caseSensitive: bool)
    decreases j
  {
    match j
    case Array(items) => forall i :: 0 <= i < |items| ==> AllSorted(items[i], caseSensitive)
    case Object(ms, _) =>
      StrictlySorted(ms, caseSensitive) && forall i :: 0 <= i < |ms| ==> AllSorted(ms[i].value, caseSensitive)
    case _ => true
  }

  /** Comparing leaves a sorted tree as it is, and so one that can still be appended to. */
  lemma {:induction false} SortedStays(a: Json, b: Json, caseSensitive: bool)
    requires Good(a) && Intact(a) && AllSorted(a, caseSensitive)
    ensures Compared(a, b, caseSensitive) == a
    decreases a, 1, 0
  {
    hide ComparedItems, ComparedMembers, CompareJson, StrictlySorted;
    if Tag(a) == Tag(b) {
      match a
      case Array(items) => SortedItemsStay(items, b.items, caseSensitive, a);
      case Object(ms, tail) =>
        GoodTerminatedObject(a);
        SortedTailKept(ms, caseSensitive);
        SortOfSorted(ms, caseSensitive);
        SortedChildren(a, caseSensitive);
        SortedMembersStay(ms, Sort(b.members, caseSensitive), caseSensitive, a);
      case _ =>
    }
  }

  lemma GoodTerminatedObject(a: Json)
    requires Good(a) && a.Object?
    ensures TerminatedKeys(a.members)
  {
    GoodObject(a);
    GoodTerminated(a.members);
  }

  lemma SortOfSorted(ms: seq<Member>, caseSensitive: bool)
    requires StrictlySorted(ms, caseSensitive)
    ensures Sort(ms, caseSensitive) == ms
  {
  }

  lemma {:induction false} SortedItemsStay(a: seq<Json>, b: seq<Json>, caseSensitive: bool, whole: Json)
    requires forall i :: 0 <= i < |a| ==> a[i] < whole && Good(a[i]) && Intact(a[i]) && AllSorted(a[i], caseSensitive)
    ensures ComparedItems(a, b, caseSensitive, whole) == a
    decreases whole, 0, |a|
  {
    hide Compared, CompareJson, Good, Intact, AllSorted;
    if a != [] && b != [] {
      SortedStays(a[0], b[0], caseSensitive);
      SortedItemsStay(a[1..], b[1..], caseSensitive, whole);
    }
  }

  lemma {:induction false} SortedMembersStay(a: seq<Member>, b: seq<Member>, caseSensitive: bool, whole: Json)
    requires forall i :: 0 <= i < |a| ==>
               a[i].value < whole && Good(a[i].value) && Intact(a[i].value) && AllSorted(a[i].value, caseSensitive)
    ensures ComparedMembers(a, b, caseSensitive, whole) == a
    decreases whole, 0, |a|
  {
    hide Compared, CompareJson, Good, Intact, AllSorted, CompareStrings;
    if a != [] && b != [] {
      SortedStays(a[0].value, b[0].value, caseSensitive);
      SortedMembersStay(a[1..], b[1..], caseSensitive, whole);
    }
  }

  lemma {:induction false} AlignedSelf(v: Value)
    requires Proper(v)
    ensures Aligned(v, v)
    decreases v
  {
    match v
    case VArray(items) =>
      forall i | 0 <= i < |items|
        ensures Aligned(items[i], items[i])
      {
        AlignedSelf(items[i]);
      }
    case VObject(m) =>
      assert m.Keys + m.Keys == m.Keys;
      forall k | k in m
        ensures Aligned(m[k], m[k])
      {
        AlignedSelf(m[k]);
      }
    case _ =>
  }

  /** A tree tested against a copy of itself: equal, and sorted in place. */
  lemma TestedSelf(root: Json, caseSensitive: bool)
    requires root.Object? && Good(root) && Intact(root)
    ensures var (status, r) := ApplyPatch(root, Compose("test", "", Some(root)), caseSensitive);
            && status == 0 && r.Object? && Good(r) && ValueOf(r) == ValueOf(root)
            && |r.members| == |root.members| && r.tail == SortTail(root.members, Kept, caseSensitive)
  {
    var patch, b := Compose("test", "", Some(root)), Duplicate(root);
    hide *;
    DuplicateSame(root);
    LookupComposed("test", "", Some(root), caseSensitive);
    OperationComposed("", Some(root), caseSensitive);
    TestStep(root, patch, "", b, caseSensitive);
    NoPath(root, Compared(root, b, caseSensitive), caseSensitive);
    GoodIsProper(root);
    AlignedSelf(ValueOf(root));
    GoodDecides(root, b, caseSensitive);
    ComparedSame(root, b, caseSensitive);
    ComparedTail(root, b, caseSensitive);
  }

  lemma NoPath(root: Json, x: Json, caseSensitive: bool)
    ensures Resolve(root, "", caseSensitive) == Some([]) && Get(root, []) == root && Put(root, [], x) == x
  {
  }

  lemma ComparedTail(root: Json, b: Json, caseSensitive: bool)
    requires root.Object? && Intact(root) && Tag(b) == Tag(root) && Good(root)
    ensures var r := Compared(root, b, caseSensitive);
            r.Object? && |r.members| == |root.members| && r.tail == SortTail(root.members, Kept, caseSensitive)
  {
    var s := Sort(root.members, caseSensitive);
    assert |multiset(s)| == |multiset(root.members)|;
    SortedChildren(root, caseSensitive);
    GoodObject(root);
    hide ComparedMembers, Sort, Good, GoodMembers, SortTail;
    SortGood(root.members, caseSensitive);
    ComparedMembersSame(s, Sort(b.members, caseSensitive), caseSensitive, root);
  }

  /**
   * A test followed by an addition to the tested object: both report success, but the member is added exactly when the
   * test left the first and the last member where they were.
   */
  lemma TestThenAdd(root: Json, t: string, x: Json, caseSensitive: bool)
    requires root.Object? && Good(root) && Intact(root) && Good(x)
    requires Carried(t) && Spells(MapOf(root.members).Keys, t) && t !in MapOf(root.members)
    ensures var patches := [Compose("test", "", Some(root)), Compose("add", "/" + EncodeToken(t), Some(x))];
            var (status, r) := ApplyAll(root, patches, caseSensitive);
            && status == 0
            && (ValueOf(r) == VObject(MapOf(root.members)[t := ValueOf(x)])
              <==> EndsInPlace(root.members, caseSensitive))
  {
    var test, add := Compose("test", "", Some(root)), Compose("add", "/" + EncodeToken(t), Some(x));
    var tested := ApplyPatch(root, test, caseSensitive).1;
    hide *;
    TestedSelf(root, caseSensitive);
    TwoSteps(root, test, add, caseSensitive);
    SpoiledAdd(root, tested, t, x, caseSensitive);
  }

  lemma TwoSteps(root: Json, a: Json, b: Json, caseSensitive: bool)
    requires ApplyPatch(root, a, caseSensitive).0 == 0
    ensures ApplyAll(root, [a, b], caseSensitive) == ApplyPatch(ApplyPatch(root, a, caseSensitive).1, b, caseSensitive)
  {
    hide ApplyPatch;
    assert [a, b][1..] == [b] && [b][1..] == [];
    var next := ApplyPatch(root, a, caseSensitive).1;
    assert ApplyAll(ApplyPatch(next, b, caseSensitive).1, [], caseSensitive)
           == (0, ApplyPatch(next, b, caseSensitive).1);
  }

  lemma SpoiledAdd(root: Json, tested: Json, t: string, x: Json, caseSensitive: bool)
    requires root.Object? && tested.Object? && Good(tested) && ValueOf(tested) == ValueOf(root) && Good(x)
    requires |tested.members| == |root.members| && tested.tail == SortTail(root.members, Kept, caseSensitive)
    requires Carried(t) && Spells(MapOf(root.members).Keys, t) && t !in MapOf(root.members)
    ensures var (status, r) := ApplyPatch(tested, Compose("add", "/" + EncodeToken(t), Some(x)), caseSensitive);
            && status == 0
            && (ValueOf(r) == VObject(MapOf(root.members)[t := ValueOf(x)])
              <==> EndsInPlace(root.members, caseSensitive))
  {
    SameMaps(root, tested);
    hide *;
    var p, y := "/" + EncodeToken(t), Duplicate(Duplicate(x));
    CopiedTwice(x);
    LookupComposed("add", p, Some(x), caseSensitive);
    OperationComposed(p, Some(x), caseSensitive);
    AddStep(tested, Compose("add", p, Some(x)), p, Duplicate(x), caseSensitive);
    AddAtTop(tested, t, y, caseSensitive);
    EndsStay(root.members, caseSensitive);
    TailInside(root.members, caseSensitive);
    ClearsNothing(tested, t, caseSensitive);
    AddsMemberExactly(tested, t, y, caseSensitive);
    AddedValue(tested, t, y);
    AppendWhere(tested, root.members, caseSensitive);
  }

  lemma SameMaps(a: Json, b: Json)
    requires a.Object? && b.Object? && ValueOf(a) == ValueOf(b)
    ensures MapOf(a.members) == MapOf(b.members)
  {
  }

  lemma AddedValue(node: Json, t: string, x: Json)
    requires node.Object?
    ensures VAdd(ValueOf(node), t, ValueOf(x)) == Some(VObject(MapOf(node.members)[t := ValueOf(x)]))
  {
  }

  lemma AppendWhere(tested: Json, ms: seq<Member>, caseSensitive: bool)
    requires tested.Object? && |tested.members| == |ms| && tested.tail == SortTail(ms, Kept, caseSensitive)
    ensures CanAppend(tested) <==> SortTail(ms, Kept, caseSensitive) == Kept
  {
  }

  lemma TailInside(ms: seq<Member>, caseSensitive: bool)
    ensures var tail := SortTail(ms, Kept, caseSensitive);
            tail.Inside? ==> tail.k + 1 < |ms|
  {
    hide Count;
  }

  lemma ClearsNothing(j: Json, t: string, caseSensitive: bool)
    requires j.Object? && Good(j) && Terminated(t) && Spells(MapOf(j.members).Keys, t) && t !in MapOf(j.members)
    ensures Cleared(j, t, caseSensitive) == j
  {
    GoodObject(j);
    FindNamedMember(j.members, t, caseSensitive);
  }

  lemma AddAtTop(node: Json, t: string, x: Json, caseSensitive: bool)
    requires Carried(t) && node.Object?
    ensures var p := "/" + EncodeToken(t);
            p != [] && AddAt(node, p, x, caseSensitive) == AddChild(node, t, x, caseSensitive)
  {
    SplitPath([], t);
    var p := "/" + EncodeToken(t);
    assert Render([]) == "" && PathTo([], t) == p;
    hide PathTo, LastSlash, DecodeToken, AddChild, EncodeToken;
    NoPath(node, AddChild(node, t, x, caseSensitive).1, caseSensitive);
    assert p[..0] == [];
    AddChildObject(node, t, x, caseSensitive);
  }

  lemma AddChildObject(node: Json, t: string, x: Json, caseSensitive: bool)
    requires node.Object?
    ensures AddChild(node, t, x, caseSensitive).0 == 0
  {
  }

  /** {"b":1,"a":1}, tested against itself, loses an added "c" although every status is 0. */
  lemma TestLosesAddition(caseSensitive: bool)
    ensures var root := Object([Member("b", Number(1)), Member("a", Number(1))]);
            var patches := [Compose("test", "", Some(root)), Compose("add", "/c", Some(Number(1)))];
            var (status, r) := ApplyAll(root, patches, caseSensitive);
            status == 0 && ValueOf(r) != VObject(map["a" := VNumber(1), "b" := VNumber(1), "c" := VNumber(1)])
  {
    var b, a := Member("b", Number(1)), Member("a", Number(1));
    var root := Object([b, a]);
    UnsortedPair(b, a, caseSensitive);
    hide *;
    PlainLetter();
    One(b, a);
    TestThenAdd(root, "c", Number(1), caseSensitive);
    assert MapOf([b, a])["c" := VNumber(1)] == map["a" := VNumber(1), "b" := VNumber(1), "c" := VNumber(1)];
  }

  lemma PlainLetter()
    ensures Carried("c") && "/" + EncodeToken("c") == "/c"
  {
    PlainDecodable("c");
    hide EncodeToken, Carried;
  }

  lemma One(b: Member, a: Member)
    requires b == Member("b", Number(1)) && a == Member("a", Number(1))
    ensures Good(Number(1)) && ValueOf(Number(1)) == VNumber(1) && Intact(Object([b, a]))
  {
  }

  lemma UnsortedPair(b: Member, a: Member, caseSensitive: bool)
    requires b == Member("b", Number(1)) && a == Member("a", Number(1))
    ensures !EndsInPlace([b, a], caseSensitive)
    ensures MapOf([b, a]) == map["a" := VNumber(1), "b" := VNumber(1)]
    ensures Good(Object([b, a])) && Spells(MapOf([b, a]).Keys, "c")
  {
    assert Fold("a") == "a" && Fold("b") == "b" && Fold("c") == "c";
    assert CompareStrings("b", "a", caseSensitive) > 0;
    hide CompareStrings;
    assert [b, a][1..] == [a] && a in [a];
    assert [b, a][..1] == [b];
    assert MapOf([b]) == map["b" := VNumber(1)] by {
      MapOne(b);
    }
    assert Keys([b, a]) == {"a", "b"};
  }
}
