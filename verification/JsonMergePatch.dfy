/** JSON Merge Patch (RFC 7396): applying and generating, and exactly when generating then applying gives the target. */
module JsonMergePatch {
  import opened Basics
  import opened Json
  import opened JsonPointer
  import opened JsonSort
  import opened JsonPatch
  import opened JsonPatchMeaning
  import opened JsonCompare

  // ----- applying -----

  function Found(j: Json, k: string, caseSensitive: bool): Option<Json>
    requires j.Object?
  {
    var i := FindMember(j.members, k, caseSensitive);
    if i == |j.members| then None else Some(j.members[i].value)
  }

  /** What the members of the patch are merged into. */
  function Start(target: Option<Json>): (j: Json)
    ensures j.Object?
  {
    if target.Some? && target.value.Object? then target.value else Object([])
  }

  function MergePatch(target: Option<Json>, patch: Json, caseSensitive: bool): Json
    decreases patch, 1, 0
  {
    if !patch.Object? then Duplicate(patch) else MergeMembers(Start(target), patch.members, caseSensitive, patch)
  }

  function MergeMembers(j: Json, ps: seq<Member>, caseSensitive: bool, ghost whole: Json): (r: Json)
    requires j.Object? && forall i :: 0 <= i < |ps| ==> ps[i].value < whole
    ensures r.Object?
    decreases whole, 0, |ps|
  {
    if ps == [] then j
    else MergeMembers(MergeMember(j, ps[0], caseSensitive, whole), ps[1..], caseSensitive, whole)
  }

  /** One member of the patch: null removes, anything else merges into the member of that name and moves it to the end. */
  function MergeMember(j: Json, p: Member, caseSensitive: bool, ghost whole: Json): (r: Json)
    requires j.Object? && p.value < whole
    ensures r.Object?
    decreases whole, 0, 0
  {
    var kept := Cleared(j, p.key, caseSensitive);
    if p.value.Null? then kept
    else AppendMember(kept, Member(p.key, MergePatch(Found(j, p.key, caseSensitive), p.value, caseSensitive)))
  }

  /** The loop over the members of the patch. */
  method ApplyMergePatch(target: Option<Json>, patch: Json, caseSensitive: bool) returns (result: Json)
    ensures result == MergePatch(target, patch, caseSensitive)
    decreases patch
  {
    if !patch.Object? {
      return Duplicate(patch);
    }
    result := Start(target);
    ghost var start := result;
    hide MergeMembers, FindMember, MergePatch, AppendMember, DetachMember;
    assert patch.members[0..] == patch.members;
    var i := 0;
    while i < |patch.members|
      invariant i <= |patch.members| && result.Object?
      invariant MergeMembers(start, patch.members, caseSensitive, patch)
                == MergeMembers(result, patch.members[i..], caseSensitive, patch)
    {
      var p := patch.members[i];
      ghost var before := result;
      var at := FindMember(result.members, p.key, caseSensitive);
      var replaceMe := None;
      if at < |result.members| {
        replaceMe := Some(result.members[at].value);
        result := DetachMember(result, at);
      }
      if !p.value.Null? {
        var replacement := ApplyMergePatch(replaceMe, p.value, caseSensitive);
        result := AppendMember(result, Member(p.key, replacement));
      }
      assert result == MergeMember(before, p, caseSensitive, patch);
      MergeTurn(before, patch, i, caseSensitive);
      i := i + 1;
    }
    MergeEnd(result, patch, caseSensitive);
    MergeIs(target, patch, caseSensitive);
  }

  lemma MergeTurn(j: Json, patch: Json, i: nat, caseSensitive: bool)
    requires j.Object? && patch.Object? && i < |patch.members|
    ensures MergeMembers(j, patch.members[i..], caseSensitive, patch)
            == MergeMembers(MergeMember(j, patch.members[i], caseSensitive, patch), patch.members[i + 1..],
              caseSensitive, patch)
  {
    hide MergeMember;
    assert patch.members[i..][1..] == patch.members[i + 1..];
  }

  lemma MergeEnd(j: Json, patch: Json, caseSensitive: bool)
    requires j.Object? && patch.Object?
    ensures MergeMembers(j, patch.members[|patch.members|..], caseSensitive, patch) == j
  {
  }

  lemma MergeIs(target: Option<Json>, patch: Json, caseSensitive: bool)
    requires patch.Object?
    ensures MergePatch(target, patch, caseSensitive) == MergeMembers(Start(target), patch.members, caseSensitive, patch)
  {
  }

  // ----- generating -----

  /** No patch at all for objects without a difference. Below the top, names are matched without case. */
  function GenerateMergePatch(from: Json, to: Json, caseSensitive: bool): Option<Json>
    decreases from, 1, 0
  {
    if !to.Object? || !from.Object? then Some(Duplicate(to))
    else
      SortedChildren(from, caseSensitive);
      var ms := GenerateMembers(Sort(from.members, caseSensitive), Sort(to.members, caseSensitive), caseSensitive,
        from);
      if ms == [] then None else Some(Object(ms))
  }

  /** How the walk goes on: with the member of the first object only, of the second only, or of both. */
  function Turn(from: seq<Member>, to: seq<Member>): (turn: int)
    requires from != [] || to != []
    ensures (turn <= 0 ==> from != []) && (turn >= 0 ==> to != [])
  {
    if from == [] then 1 else if to == [] then -1 else StrCmp(from[0].key, to[0].key)
  }

  function GenerateMembers(from: seq<Member>, to: seq<Member>, caseSensitive: bool, ghost whole: Json): seq<Member>
    requires forall i :: 0 <= i < |from| ==> from[i].value < whole
    decreases whole, 0, |from| + |to|
  {
    if from == [] && to == [] then []
    else if Turn(from, to) < 0 then [Member(from[0].key, Null)] + GenerateMembers(from[1..], to, caseSensitive, whole)
    else if Turn(from, to) > 0 then
      [Member(to[0].key, Duplicate(to[0].value))] + GenerateMembers(from, to[1..], caseSensitive, whole)
    else
      var nested := if CompareJson(from[0].value, to[0].value, caseSensitive) then None
                    else GenerateMergePatch(from[0].value, to[0].value, false);
      (if nested.None? then [] else [Member(to[0].key, nested.value)])
      + GenerateMembers(from[1..], to[1..], caseSensitive, whole)
  }

  // ----- the same on values -----

  function VMerge(target: Option<Value>, patch: Value): Value
    decreases patch
  {
    if !patch.VObject? then patch
    else
      var m := if target.Some? && target.value.VObject? then target.value.members else map[];
      VObject(map k | k in m.Keys + patch.members.Keys && !(k in patch.members && patch.members[k] == VNull) ::
                if k in patch.members then VMerge(At(m, k), patch.members[k]) else m[k])
  }

  function At<K, V>(m: map<K, V>, k: K): Option<V> {
    if k in m then Some(m[k]) else None
  }

  function VDiff(from: Value, to: Value): Value
    decreases from
  {
    if !from.VObject? || !to.VObject? then to
    else
      var f, t := from.members, to.members;
      VObject(map k | k in f.Keys + t.Keys && !(k in f && k in t && f[k] == t[k]) ::
                if k !in t then VNull else if k !in f then t[k] else VDiff(f[k], t[k]))
  }

  // ----- the library's merge is the merge of RFC 7396 on values -----

  /** r is m with every member of p merged in. */
  ghost predicate Merged(r: map<string, Value>, m: map<string, Value>, p: map<string, Value>) {
    forall k :: (k in r <==> (k in m || k in p) && At(p, k) != Some(VNull))
                && (k in r ==> r[k] == if k in p then VMerge(At(m, k), p[k]) else m[k])
  }

  /** The change one member of the patch makes. */
  function Change(m: map<string, Value>, k: string, v: Value): map<string, Value> {
    if v == VNull then m - {k} else m[k := VMerge(At(m, k), v)]
  }

  lemma MergedStep(r: map<string, Value>, m: map<string, Value>, p: map<string, Value>, k: string, v: Value)
    requires k !in p && Merged(r, Change(m, k, v), p)
    ensures Merged(r, m, p[k := v])
  {
    hide VMerge;
  }

  lemma MergedUnique(r: map<string, Value>, m: map<string, Value>, p: map<string, Value>)
    requires Merged(r, m, p)
    ensures VMerge(Some(VObject(m)), VObject(p)) == VObject(r)
  {
    var q := VMerge(Some(VObject(m)), VObject(p)).members;
    assert forall k :: k in q <==> k in r;
    assert forall k :: k in q ==> q[k] == r[k];
    assert q == r;
  }

  function ValueOrNone(j: Option<Json>): Option<Value> {
    if j.None? then None else Some(ValueOf(j.value))
  }

  /** Merging trees whose names are spelled alike is merging their values. */
  lemma {:induction false} MergeRefines(target: Option<Json>, patch: Json, caseSensitive: bool)
    requires target.Some? ==>
               Good(target.value) && Intact(target.value) && Aligned(ValueOf(target.value), ValueOf(patch))
    requires Good(patch)
    ensures var r := MergePatch(target, patch, caseSensitive);
            Good(r) && Intact(r) && ValueOf(r) == VMerge(ValueOrNone(target), ValueOf(patch))
    decreases patch, 1, 0
  {
    if !patch.Object? {
      DuplicateSame(patch);
    } else {
      var start := Start(target);
      StartAligned(target, patch);
      GoodObject(patch);
      assert VMerge(ValueOrNone(target), ValueOf(patch)) == VMerge(Some(ValueOf(start)), ValueOf(patch));
      MergeIs(target, patch, caseSensitive);
      ObjectValue(start);
      ObjectValue(patch);
      hide VMerge, MapOf, MergeMembers, MergePatch, GoodMembers, Aligned, Good, Intact, ValueOf, Start, Merged;
      MembersMerge(start, patch.members, caseSensitive, patch);
      var r := MergeMembers(start, patch.members, caseSensitive, patch);
      MergedUnique(MapOf(r.members), MapOf(start.members), MapOf(patch.members));
      ObjectValue(r);
    }
  }

  lemma StartAligned(target: Option<Json>, patch: Json)
    requires target.Some? ==>
               Good(target.value) && Intact(target.value) && Aligned(ValueOf(target.value), ValueOf(patch))
    requires Good(patch) && patch.Object?
    ensures Good(Start(target)) && Intact(Start(target)) && Aligned(ValueOf(Start(target)), ValueOf(patch))
  {
    MapKeys(patch.members);
    if !(target.Some? && target.value.Object?) {
      var none: map<string, Value> := map[];
      assert ValueOf(Object([])) == VObject(none);
      assert none.Keys + MapOf(patch.members).Keys == Keys(patch.members);
      hide MapOf;
    }
  }

  lemma {:induction false} MembersMerge(j: Json, ps: seq<Member>, caseSensitive: bool, whole: Json)
    requires j.Object? && Good(j) && Intact(j) && GoodMembers(ps) && (forall i :: 0 <= i < |ps| ==> ps[i].value < whole)
    requires Aligned(ValueOf(j), VObject(MapOf(ps)))
    ensures var r := MergeMembers(j, ps, caseSensitive, whole);
            Good(r) && Intact(r) && Merged(MapOf(r.members), MapOf(j.members), MapOf(ps))
    decreases whole, 0, |ps|
  {
    if ps == [] {
      hide VMerge;
    } else {
      MapHead(ps);
      MergeAligned(MapOf(j.members), MapOf(ps[1..]), ps[0].key, ValueOf(ps[0].value));
      assert ValueOf(j) == VObject(MapOf(j.members));
      hide MapOf, GoodMembers, Merged, VMerge, MergeMember, Aligned, Good, Intact, ValueOf;
      MemberMerges(j, ps[0], caseSensitive, whole);
      var next := MergeMember(j, ps[0], caseSensitive, whole);
      ObjectValue(next);
      MembersMerge(next, ps[1..], caseSensitive, whole);
      MergedStep(MapOf(MergeMembers(j, ps, caseSensitive, whole).members), MapOf(j.members), MapOf(ps[1..]),
                 ps[0].key, ValueOf(ps[0].value));
    }
  }

  lemma ObjectValue(j: Json)
    requires j.Object?
    ensures ValueOf(j) == VObject(MapOf(j.members))
  {
  }

  /** One member at a time, names stay spelled alike. */
  lemma MergeAligned(m: map<string, Value>, p: map<string, Value>, k: string, v: Value)
    requires k !in p && Aligned(VObject(m), VObject(p[k := v]))
    ensures Aligned(VObject(Change(m, k, v)), VObject(p))
    ensures OneSpelling(m.Keys + {k}) && (k in m ==> Aligned(m[k], v))
  {
    var c := Change(m, k, v);
    assert c.Keys <= m.Keys + {k};
    assert forall l :: l in c && l in p ==> l in m && c[l] == m[l];
    assert k in p[k := v];
    hide VMerge;
  }

  lemma {:induction false} MemberMerges(j: Json, p: Member, caseSensitive: bool, whole: Json)
    requires j.Object? && Good(j) && Intact(j) && Terminated(p.key) && Good(p.value) && p.value < whole
    requires var m := MapOf(j.members);
             OneSpelling(m.Keys + {p.key}) && (p.key in m ==> Aligned(m[p.key], ValueOf(p.value)))
    ensures var r := MergeMember(j, p, caseSensitive, whole);
            Good(r) && Intact(r) && MapOf(r.members) == Change(MapOf(j.members), p.key, ValueOf(p.value))
    decreases whole, 0, 0
  {
    assert Spells(MapOf(j.members).Keys, p.key) by {
      hide MapOf;
    }
    FoundRefines(j, p.key, caseSensitive);
    assert p.value.Null? <==> ValueOf(p.value) == VNull;
    hide MapOf, VMerge, FindMember, MergePatch, MergeMember, ValueOf, Good, Intact, Found, OneSpelling, Aligned;
    if !p.value.Null? {
      MergeRefines(Found(j, p.key, caseSensitive), p.value, caseSensitive);
    }
    Rebinds(j, p, caseSensitive, whole);
  }

  /** One member of the patch changes the binding of its name, and no other. */
  lemma Rebinds(j: Json, p: Member, caseSensitive: bool, whole: Json)
    requires j.Object? && Good(j) && Intact(j) && Terminated(p.key) && p.value < whole
    requires OneSpelling(MapOf(j.members).Keys + {p.key})
    requires var x := MergePatch(Found(j, p.key, caseSensitive), p.value, caseSensitive);
             !p.value.Null? ==> Good(x) && Intact(x)
    ensures var r, m := MergeMember(j, p, caseSensitive, whole), MapOf(j.members);
            && Good(r) && Intact(r)
            && MapOf(r.members)
               == if p.value.Null? then m - {p.key}
                  else m[p.key := ValueOf(MergePatch(Found(j, p.key, caseSensitive), p.value, caseSensitive))]
  {
    assert Spells(MapOf(j.members).Keys, p.key) by {
      hide MapOf;
    }
    ClearedRefines(j, p.key, caseSensitive);
    hide MapOf, FindMember, MergePatch, ValueOf, Good, Intact, GoodMembers, Cleared, Found, OneSpelling;
    if !p.value.Null? {
      AbsentWithout(MapOf(j.members), p.key);
      var x := MergePatch(Found(j, p.key, caseSensitive), p.value, caseSensitive);
      AppendToObject(Cleared(j, p.key, caseSensitive), p.key, x);
      Rebound(MapOf(j.members), p.key, ValueOf(x));
      ObjectValue(AppendMember(Cleared(j, p.key, caseSensitive), Member(p.key, x)));
    }
  }

  lemma FoundRefines(j: Json, k: string, caseSensitive: bool)
    requires j.Object? && Good(j) && Intact(j) && Terminated(k) && Spells(MapOf(j.members).Keys, k)
    ensures var x := Found(j, k, caseSensitive);
            (x.Some? ==> Good(x.value) && Intact(x.value)) && ValueOrNone(x) == At(MapOf(j.members), k)
  {
    GoodObject(j);
    FindNamedMember(j.members, k, caseSensitive);
    var i := FindMember(j.members, k, caseSensitive);
    if i < |j.members| {
      MapAt(j.members, i);
      GoodMember(j, i);
    }
    hide MapOf, FindMember, Good;
  }

  // ----- generating finds the difference of the values -----

  /** r is the difference of f and t. */
  ghost predicate Differs(r: map<string, Value>, f: map<string, Value>, t: map<string, Value>) {
    forall k :: (k in r <==> (k in f || k in t) && At(f, k) != At(t, k))
                && (k in r ==> r[k] == if k !in t then VNull else if k !in f then t[k] else VDiff(f[k], t[k]))
  }

  lemma DiffersUnique(r: map<string, Value>, f: map<string, Value>, t: map<string, Value>)
    requires Differs(r, f, t)
    ensures VDiff(VObject(f), VObject(t)) == VObject(r)
    ensures r == map[] <==> f == t
  {
    var q := VDiff(VObject(f), VObject(t)).members;
    assert forall k :: k in q <==> k in r;
    assert forall k :: k in q ==> q[k] == r[k];
    assert q == r;
    hide VDiff;
    if r == map[] {
      assert forall k :: k in f || k in t ==> At(f, k) == At(t, k);
      assert forall k :: k in f ==> k in t && At(f, k) == At(t, k);
      assert forall k :: k in t ==> k in f && At(f, k) == At(t, k);
      assert f == t;
    }
  }

  /** A key of the first object only. */
  lemma DiffersGone(r: map<string, Value>, f: map<string, Value>, t: map<string, Value>, k: string, x: Value)
    requires Differs(r, f, t) && k !in f && k !in t
    ensures k !in r && Differs(r[k := VNull], f[k := x], t)
  {
    hide VDiff;
  }

  /** A key of the second object only. */
  lemma DiffersNew(r: map<string, Value>, f: map<string, Value>, t: map<string, Value>, k: string, y: Value)
    requires Differs(r, f, t) && k !in f && k !in t
    ensures k !in r && Differs(r[k := y], f, t[k := y])
  {
    hide VDiff;
  }

  /** A key of both. */
  lemma DiffersBoth(r: map<string, Value>, f: map<string, Value>, t: map<string, Value>, k: string, x: Value, y: Value)
    requires Differs(r, f, t) && k !in f && k !in t
    ensures k !in r && Differs(if x == y then r else r[k := VDiff(x, y)], f[k := x], t[k := y])
  {
    hide VDiff;
  }

  lemma Prepended(m: Member, ms: seq<Member>, names: set<string>)
    requires GoodMembers(ms) && Terminated(m.key) && Good(m.value) && m.key !in MapOf(ms)
    requires OneSpelling(names) && m.key in names && MapOf(ms).Keys <= names
    ensures GoodMembers([m] + ms) && MapOf([m] + ms) == MapOf(ms)[m.key := ValueOf(m.value)]
  {
    MapKeys(ms);
    MapAppend([m], ms);
    MapOne(m);
    hide MapOf, ValueOf, Good;
    var all := [m] + ms;
    assert forall i :: 0 <= i < |ms| ==> ms[i].key in Keys(ms);
    forall i, j | 0 <= i < j < |all|
      ensures all[i].key != all[j].key
    {
      assert all[j] == ms[j - 1];
      assert i > 0 ==> all[i] == ms[i - 1];
    }
    assert Keys(all) <= names by {
      assert forall i :: 0 < i < |all| ==> all[i] == ms[i - 1];
    }
    assert map[m.key := ValueOf(m.value)] + MapOf(ms) == MapOf(ms)[m.key := ValueOf(m.value)];
  }

  // ----- when the walk works -----

  /** The walk never passes a name that the other object still has. */
  predicate Meets(from: seq<Member>, to: seq<Member>)
    decreases |from| + |to|
  {
    if from == [] && to == [] then true
    else if Turn(from, to) < 0 then from[0].key !in Keys(to) && Meets(from[1..], to)
    else if Turn(from, to) > 0 then to[0].key !in Keys(from) && Meets(from, to[1..])
    else Meets(from[1..], to[1..])
  }

  /** The walk works at the top and wherever it goes down. */
  ghost predicate Walkable(from: Json, to: Json, caseSensitive: bool)
    decreases from
  {
    from.Object? && to.Object? ==>
      && Meets(Sort(from.members, caseSensitive), Sort(to.members, caseSensitive))
      && forall i, j {:trigger from.members[i], to.members[j]} ::
           0 <= i < |from.members| && 0 <= j < |to.members| && from.members[i].key == to.members[j].key ==>
             Walkable(from.members[i].value, to.members[j].value, false)
  }

  ghost predicate MembersWalkable(from: seq<Member>, to: seq<Member>) {
    forall a, b :: a in from && b in to && a.key == b.key ==> Walkable(a.value, b.value, false)
  }

  /** Wherever the walk goes, the order of sorting is also the order of walking. */
  predicate OrderedAlike(j: Json, caseSensitive: bool)
    decreases j
  {
    j.Object? ==>
      && Sorted(Sort(j.members, caseSensitive), true)
      && forall i :: 0 <= i < |j.members| ==> OrderedAlike(j.members[i].value, false)
  }

  /** Sorted by the order it walks in, the walk meets every common name. */
  lemma {:induction false} OrderedMeets(from: seq<Member>, to: seq<Member>)
    requires GoodMembers(from) && GoodMembers(to) && Sorted(from, true) && Sorted(to, true)
    ensures Meets(from, to)
    decreases |from| + |to|
  {
    hide StrCmp, Good;
    if from != [] || to != [] {
      MeetTails(from, to);
      if Turn(from, to) < 0 {
        NotAmong(from, to);
        OrderedMeets(from[1..], to);
      } else if Turn(from, to) > 0 {
        NotAmong(to, from);
        OrderedMeets(from, to[1..]);
      } else {
        OrderedMeets(from[1..], to[1..]);
      }
    }
  }

  lemma MeetTails(from: seq<Member>, to: seq<Member>)
    requires GoodMembers(from) && GoodMembers(to) && Sorted(from, true) && Sorted(to, true)
    ensures from != [] ==> GoodMembers(from[1..]) && Sorted(from[1..], true)
    ensures to != [] ==> GoodMembers(to[1..]) && Sorted(to[1..], true)
  {
    if from != [] {
      MapHead(from);
      SortedTail(from, true);
    }
    if to != [] {
      MapHead(to);
      SortedTail(to, true);
    }
  }

  lemma NotAmong(a: seq<Member>, b: seq<Member>)
    requires a != [] && GoodMembers(b) && Sorted(b, true)
    requires b != [] ==> StrCmp(a[0].key, b[0].key) < 0 || StrCmp(b[0].key, a[0].key) > 0
    ensures a[0].key !in Keys(b)
  {
    if b != [] {
      StrCmpAntisymmetric(a[0].key, b[0].key);
    }
    hide StrCmp;
    BelowFirst(b, a[0].key, true);
    MapKeys(b);
  }

  /** Trees ordered alike can be walked; at the top in case-sensitive mode every object is. */
  lemma {:induction false} OrderedWalkable(from: Json, to: Json, caseSensitive: bool)
    requires Good(from) && Good(to) && OrderedAlike(from, caseSensitive) && OrderedAlike(to, caseSensitive)
    ensures Walkable(from, to, caseSensitive)
    decreases from
  {
    if from.Object? && to.Object? {
      GoodObject(from);
      GoodObject(to);
      SortGood(from.members, caseSensitive);
      SortGood(to.members, caseSensitive);
      OrderedMeets(Sort(from.members, caseSensitive), Sort(to.members, caseSensitive));
      forall i, j {:trigger from.members[i], to.members[j]} |
        0 <= i < |from.members| && 0 <= j < |to.members| && from.members[i].key == to.members[j].key
        ensures Walkable(from.members[i].value, to.members[j].value, false)
      {
        OrderedWalkable(from.members[i].value, to.members[j].value, false);
      }
    }
  }

  lemma TopOrdered(j: Json)
    requires Good(j) && (j.Object? ==> forall i :: 0 <= i < |j.members| ==> OrderedAlike(j.members[i].value, false))
    ensures OrderedAlike(j, true)
  {
    if j.Object? {
      GoodObject(j);
      SortGood(j.members, true);
    }
  }

  /** No capital letter in a name. */
  predicate LowerNames(j: Json)
    decreases j
  {
    j.Object? ==> forall i :: 0 <= i < |j.members| ==>
        Fold(j.members[i].key) == j.members[i].key && LowerNames(j.members[i].value)
  }

  /** Names without capitals are ordered alike. */
  lemma {:induction false} LowerOrdered(j: Json, caseSensitive: bool)
    requires Good(j) && LowerNames(j)
    ensures OrderedAlike(j, caseSensitive)
    decreases j
  {
    if j.Object? {
      GoodObject(j);
      var s := Sort(j.members, caseSensitive);
      SortGood(j.members, caseSensitive);
      MembersPermuted(s, j.members);
      forall i | 0 <= i < |j.members|
        ensures OrderedAlike(j.members[i].value, false)
      {
        LowerOrdered(j.members[i].value, false);
      }
      hide Sort, StrCmp, Good, OrderedAlike;
      forall a, b | 0 <= a < b < |s|
        ensures CompareStrings(s[a].key, s[b].key, true) <= 0
      {
        assert CompareStrings(s[a].key, s[b].key, caseSensitive) <= 0;
        assert s[a] in j.members && s[b] in j.members;
      }
    }
  }

  /** The walk on lists of names: what it yields after one turn. */
  ghost predicate NamesBetween(names: set<string>, f: set<string>, t: set<string>) {
    names <= f + t && (f - t) + (t - f) <= names
  }

  lemma NamesTurn(names: set<string>, f: set<string>, t: set<string>, k: string)
    requires NamesBetween(names, f, t) && k !in f
    ensures NamesBetween({k} + names, f + {k}, t) && NamesBetween({k} + names, t, f + {k})
    ensures k in names <==> k in t
  {
  }

  lemma NamesBoth(names: set<string>, f: set<string>, t: set<string>, k: string)
    requires NamesBetween(names, f, t) && k !in f && k !in t
    ensures NamesBetween({k} + names, f + {k}, t + {k}) && NamesBetween(names, f + {k}, t + {k})
    ensures k !in names
  {
  }

  lemma NamesSwap(names: set<string>, f: set<string>, t: set<string>)
    requires NamesBetween(names, f, t)
    ensures NamesBetween(names, t, f)
  {
  }

  /** The patch names no member twice exactly when the walk meets every common name. */
  lemma {:induction false} MeetsExactly(from: seq<Member>, to: seq<Member>, caseSensitive: bool, whole: Json)
    requires GoodMembers(from) && GoodMembers(to) && (forall i :: 0 <= i < |from| ==> from[i].value < whole)
    ensures var r := GenerateMembers(from, to, caseSensitive, whole);
            NamesBetween(Keys(r), Keys(from), Keys(to)) && (DistinctKeys(r) <==> Meets(from, to))
    decreases |from| + |to|
  {
    hide *;
    if from == [] && to == [] {
      NothingMet(caseSensitive, whole);
    } else {
      WalkTails(from, to);
      Walked(from, to, caseSensitive, whole);
      MeetsTurn(from, to);
      var r := GenerateMembers(from, to, caseSensitive, whole);
      if Turn(from, to) < 0 {
        MeetsExactly(from[1..], to, caseSensitive, whole);
        var rest := GenerateMembers(from[1..], to, caseSensitive, whole);
        InFront(Member(from[0].key, Null), rest);
        NamesTurn(Keys(rest), Keys(from[1..]), Keys(to), from[0].key);
      } else if Turn(from, to) > 0 {
        MeetsExactly(from, to[1..], caseSensitive, whole);
        var rest := GenerateMembers(from, to[1..], caseSensitive, whole);
        InFront(Member(to[0].key, Duplicate(to[0].value)), rest);
        NamesSwap(Keys(rest), Keys(from), Keys(to[1..]));
        NamesTurn(Keys(rest), Keys(to[1..]), Keys(from), to[0].key);
      } else {
        MeetsExactly(from[1..], to[1..], caseSensitive, whole);
        var rest := GenerateMembers(from[1..], to[1..], caseSensitive, whole);
        NamesBoth(Keys(rest), Keys(from[1..]), Keys(to[1..]), from[0].key);
        if r != rest {
          InFront(r[0], rest);
        }
      }
    }
  }

  lemma NothingMet(caseSensitive: bool, whole: Json)
    ensures var r := GenerateMembers([], [], caseSensitive, whole);
            NamesBetween(Keys(r), Keys([]), Keys([])) && DistinctKeys(r) && Meets([], [])
  {
    assert Keys([]) == {};
  }

  /** What one turn of the walk yields. */
  lemma Walked(from: seq<Member>, to: seq<Member>, caseSensitive: bool, whole: Json)
    requires (from != [] || to != []) && (forall i :: 0 <= i < |from| ==> from[i].value < whole)
    ensures var r := GenerateMembers(from, to, caseSensitive, whole);
            if Turn(from, to) < 0 then r == [Member(from[0].key, Null)] + GenerateMembers(from[1..], to, caseSensitive,
              whole)
            else if Turn(from, to) > 0 then
              r == [Member(to[0].key, Duplicate(to[0].value))] + GenerateMembers(from, to[1..], caseSensitive, whole)
            else
              var rest := GenerateMembers(from[1..], to[1..], caseSensitive, whole);
              r == rest || (r != [] && r == [r[0]] + rest && r[0].key == to[0].key
                && (r[0].value.Null? ==> to[0].value.Null?))
  {
    if from != [] && to != [] {
      GeneratesNull(from[0].value, to[0].value, false);
    }
    hide CompareJson, GenerateMergePatch, StrCmp;
    if from != [] && to != [] && Turn(from, to) == 0 {
      var rest := GenerateMembers(from[1..], to[1..], caseSensitive, whole);
      assert [] + rest == rest;
    }
  }

  lemma GeneratesNull(from: Json, to: Json, caseSensitive: bool)
    ensures var g := GenerateMergePatch(from, to, caseSensitive);
            g.Some? && g.value.Null? ==> to.Null?
  {
    hide Sort, GenerateMembers;
  }

  lemma MeetsTurn(from: seq<Member>, to: seq<Member>)
    requires from != [] || to != []
    ensures Meets(from, to)
            <==> if Turn(from, to) < 0 then from[0].key !in Keys(to) && Meets(from[1..], to)
                 else if Turn(from, to) > 0 then to[0].key !in Keys(from) && Meets(from, to[1..])
                 else Meets(from[1..], to[1..])
  {
    hide StrCmp, Keys;
  }

  lemma InFront(m: Member, rest: seq<Member>)
    ensures Keys([m] + rest) == {m.key} + Keys(rest)
    ensures DistinctKeys([m] + rest) <==> m.key !in Keys(rest) && DistinctKeys(rest)
  {
    KeysInFront(m, rest);
    DistinctInFront(m, rest);
  }

  lemma KeysInFront(m: Member, rest: seq<Member>)
    ensures Keys([m] + rest) == {m.key} + Keys(rest)
  {
    var r := [m] + rest;
    forall i | 0 <= i < |rest|
      ensures rest[i].key in Keys(r)
    {
      assert r[i + 1] == rest[i];
    }
    assert r[0].key in Keys(r);
  }

  lemma DistinctInFront(m: Member, rest: seq<Member>)
    ensures DistinctKeys([m] + rest) <==> m.key !in Keys(rest) && DistinctKeys(rest)
  {
    var r := [m] + rest;
    if DistinctKeys(r) {
      forall i, j | 0 <= i < j < |rest|
        ensures rest[i].key != rest[j].key
      {
        assert r[i + 1].key != r[j + 1].key;
      }
      forall i | 0 <= i < |rest|
        ensures rest[i].key != m.key
      {
        assert r[0].key != r[i + 1].key;
      }
    } else {
      var i, j :| 0 <= i < j < |r| && r[i].key == r[j].key;
      assert r[j] == rest[j - 1];
      if i == 0 {
        assert m.key in Keys(rest);
      } else {
        assert rest[i - 1].key == rest[j - 1].key;
      }
    }
  }

  /** The names before and after taking the first members off. */
  lemma WalkTails(from: seq<Member>, to: seq<Member>)
    requires GoodMembers(from) && GoodMembers(to)
    ensures from != [] ==>
              GoodMembers(from[1..]) && Keys(from) == Keys(from[1..]) + {from[0].key} && from[0].key !in Keys(from[1..])
    ensures to != [] ==> GoodMembers(to[1..]) && Keys(to) == Keys(to[1..]) + {to[0].key} && to[0].key !in Keys(to[1..])
    ensures from != [] && to != [] && Turn(from, to) == 0 ==> from[0].key == to[0].key
  {
    if from != [] {
      MapHead(from);
      InFront(from[0], from[1..]);
      assert from == [from[0]] + from[1..];
    }
    if to != [] {
      MapHead(to);
      InFront(to[0], to[1..]);
      assert to == [to[0]] + to[1..];
    }
    if from != [] && to != [] {
      StrCmpZero(from[0].key, to[0].key);
    }
  }

  // ----- the generated patch -----

  /** Where the walk works, generating yields no patch exactly for equal objects, and else the difference of the values. */
  lemma {:induction false} GenerateRefines(from: Json, to: Json, caseSensitive: bool)
    requires Good(from) && Good(to) && Aligned(ValueOf(from), ValueOf(to)) && Walkable(from, to, caseSensitive)
    ensures var g := GenerateMergePatch(from, to, caseSensitive);
            && (g.None? <==> from.Object? && ValueOf(from) == ValueOf(to))
            && (g.Some? ==> Good(g.value) && ValueOf(g.value) == VDiff(ValueOf(from), ValueOf(to)))
    decreases from, 1, 0
  {
    DuplicateSame(to);
    if from.Object? && to.Object? {
      ObjectDiffers(from, to, caseSensitive);
    } else {
      hide VDiff, Aligned;
      assert from.Object? ==> ValueOf(from) != ValueOf(to);
      assert VDiff(ValueOf(from), ValueOf(to)) == ValueOf(to) by {
        DiffOfOther(ValueOf(from), ValueOf(to));
      }
    }
  }

  lemma DiffOfOther(from: Value, to: Value)
    requires !from.VObject? || !to.VObject?
    ensures VDiff(from, to) == to
  {
  }

  lemma ObjectDiffers(from: Json, to: Json, caseSensitive: bool)
    requires Good(from) && Good(to) && from.Object? && to.Object?
    requires Aligned(ValueOf(from), ValueOf(to)) && Walkable(from, to, caseSensitive)
    ensures var g := GenerateMergePatch(from, to, caseSensitive);
            && (g.None? <==> ValueOf(from) == ValueOf(to))
            && (g.Some? ==> Good(g.value) && ValueOf(g.value) == VDiff(ValueOf(from), ValueOf(to)))
    decreases from, 0, |from.members| + |to.members| + 1
  {
    var s, t := Sort(from.members, caseSensitive), Sort(to.members, caseSensitive);
    assert |multiset(s)| == |multiset(from.members)| && |multiset(t)| == |multiset(to.members)|;
    SortedChildren(from, caseSensitive);
    GoodObject(from);
    GoodObject(to);
    SortedWalkable(from, to, caseSensitive);
    assert ValueOf(from) == VObject(MapOf(from.members)) && ValueOf(to) == VObject(MapOf(to.members));
    assert MapOf([]) == map[];
    hide Good, GoodMembers, Sort, MapOf, Sorted, Differs, VDiff, GenerateMembers, Aligned, Walkable, Meets,
         MembersWalkable;
    SortGood(from.members, caseSensitive);
    SortGood(to.members, caseSensitive);
    MembersDiffer(s, t, caseSensitive, from);
    var ms := GenerateMembers(s, t, caseSensitive, from);
    DiffersUnique(MapOf(ms), MapOf(s), MapOf(t));
    GoodFromMembers(ms);
    if ms != [] {
      NotEmpty(ms);
    }
  }

  lemma GoodFromMembers(ms: seq<Member>)
    requires GoodMembers(ms)
    ensures Good(Object(ms))
  {
  }

  lemma SortedWalkable(from: Json, to: Json, caseSensitive: bool)
    requires from.Object? && to.Object? && Walkable(from, to, caseSensitive)
    ensures var s, t := Sort(from.members, caseSensitive), Sort(to.members, caseSensitive);
            Meets(s, t) && MembersWalkable(s, t)
  {
    var s, t := Sort(from.members, caseSensitive), Sort(to.members, caseSensitive);
    MembersPermuted(s, from.members);
    MembersPermuted(t, to.members);
    hide Sort, Meets;
    forall a, b | a in s && b in t && a.key == b.key
      ensures Walkable(a.value, b.value, false)
    {
      var i :| 0 <= i < |from.members| && from.members[i] == a;
      var k :| 0 <= k < |to.members| && to.members[k] == b;
    }
  }

  lemma NotEmpty(ms: seq<Member>)
    requires ms != []
    ensures MapOf(ms) != map[]
  {
    assert ms[|ms| - 1].key in MapOf(ms);
  }

  /** The names of both objects. */
  ghost function Names(from: seq<Member>, to: seq<Member>): set<string> {
    MapOf(from).Keys + MapOf(to).Keys
  }

  lemma {:induction false} MembersDiffer(from: seq<Member>, to: seq<Member>, caseSensitive: bool, whole: Json)
    requires GoodMembers(from) && GoodMembers(to) && Meets(from, to) && MembersWalkable(from, to)
    requires Aligned(VObject(MapOf(from)), VObject(MapOf(to)))
    requires forall i :: 0 <= i < |from| ==> from[i].value < whole
    ensures var r := GenerateMembers(from, to, caseSensitive, whole);
            GoodMembers(r) && Differs(MapOf(r), MapOf(from), MapOf(to)) && MapOf(r).Keys <= Names(from, to)
    decreases whole, 0, |from| + |to|
  {
    hide *;
    if from == [] && to == [] {
      NothingDiffers(caseSensitive, whole);
    } else {
      var turn := Turn(from, to);
      WalkableTails(from, to);
      SpelledNames(from, to);
      Walked(from, to, caseSensitive, whole);
      MeetsTurn(from, to);
      if turn < 0 {
        MembersDiffer(from[1..], to, caseSensitive, whole);
        FromDiffers(from, to, GenerateMembers(from[1..], to, caseSensitive, whole));
      } else if turn > 0 {
        MembersDiffer(from, to[1..], caseSensitive, whole);
        ToDiffers(from, to, GenerateMembers(from, to[1..], caseSensitive, whole));
      } else {
        MembersDiffer(from[1..], to[1..], caseSensitive, whole);
        BothDiffer(from, to, caseSensitive, whole);
      }
    }
  }

  lemma FromDiffers(from: seq<Member>, to: seq<Member>, r: seq<Member>)
    requires from != [] && GoodMembers(from) && GoodMembers(to) && from[0].key !in Keys(to)
             && OneSpelling(Names(from, to))
    requires GoodMembers(r) && Differs(MapOf(r), MapOf(from[1..]), MapOf(to)) && MapOf(r).Keys <= Names(from[1..], to)
    ensures var all := [Member(from[0].key, Null)] + r;
            GoodMembers(all) && Differs(MapOf(all), MapOf(from), MapOf(to)) && MapOf(all).Keys <= Names(from, to)
  {
    GoneFrom(from, to);
    hide MapOf, Good, GoodMembers, Differs, VDiff, ValueOf, OneSpelling;
    DiffersGone(MapOf(r), MapOf(from[1..]), MapOf(to), from[0].key, ValueOf(from[0].value));
    Prepended(Member(from[0].key, Null), r, Names(from, to));
  }

  lemma ToDiffers(from: seq<Member>, to: seq<Member>, r: seq<Member>)
    requires to != [] && GoodMembers(from) && GoodMembers(to) && to[0].key !in Keys(from)
             && OneSpelling(Names(from, to))
    requires GoodMembers(r) && Differs(MapOf(r), MapOf(from), MapOf(to[1..])) && MapOf(r).Keys <= Names(from, to[1..])
    ensures var all := [Member(to[0].key, Duplicate(to[0].value))] + r;
            GoodMembers(all) && Differs(MapOf(all), MapOf(from), MapOf(to)) && MapOf(all).Keys <= Names(from, to)
  {
    GoneFrom(to, from);
    DuplicateSame(to[0].value);
    hide MapOf, Good, GoodMembers, Differs, VDiff, ValueOf, OneSpelling, Intact;
    DiffersNew(MapOf(r), MapOf(from), MapOf(to[1..]), to[0].key, ValueOf(to[0].value));
    Prepended(Member(to[0].key, Duplicate(to[0].value)), r, Names(from, to));
  }

  lemma NothingDiffers(caseSensitive: bool, whole: Json)
    ensures var r := GenerateMembers([], [], caseSensitive, whole);
            GoodMembers(r) && Differs(MapOf(r), MapOf([]), MapOf([])) && MapOf(r).Keys <= Names([], [])
  {
    hide VDiff;
  }

  lemma SpelledNames(from: seq<Member>, to: seq<Member>)
    requires Aligned(VObject(MapOf(from)), VObject(MapOf(to)))
    ensures OneSpelling(Names(from, to))
  {
  }

  /** What the walk needs of what is left. */
  lemma WalkableTails(from: seq<Member>, to: seq<Member>)
    requires from != [] || to != []
    requires GoodMembers(from) && GoodMembers(to) && MembersWalkable(from, to)
    requires Aligned(VObject(MapOf(from)), VObject(MapOf(to)))
    ensures from != [] ==>
              GoodMembers(from[1..]) && MembersWalkable(from[1..], to)
              && Aligned(VObject(MapOf(from[1..])), VObject(MapOf(to)))
    ensures to != [] ==>
              GoodMembers(to[1..]) && MembersWalkable(from, to[1..])
              && Aligned(VObject(MapOf(from)), VObject(MapOf(to[1..])))
    ensures from != [] && to != [] ==>
              && MembersWalkable(from[1..], to[1..]) && Aligned(VObject(MapOf(from[1..])), VObject(MapOf(to[1..])))
              && (Turn(from, to) == 0 ==>
                    && from[0].key == to[0].key && Walkable(from[0].value, to[0].value, false)
                    && Aligned(ValueOf(from[0].value), ValueOf(to[0].value)))
  {
    WalkablePairs(from, to);
    AlignedTails(from, to);
    WalkTails(from, to);
    hide *;
    if from != [] && to != [] {
      AlignedHead(from, to);
    }
  }

  lemma WalkablePairs(from: seq<Member>, to: seq<Member>)
    requires MembersWalkable(from, to)
    ensures from != [] ==> MembersWalkable(from[1..], to)
    ensures to != [] ==> MembersWalkable(from, to[1..])
    ensures from != [] && to != [] ==> MembersWalkable(from[1..], to[1..])
    ensures from != [] && to != [] && from[0].key == to[0].key ==> Walkable(from[0].value, to[0].value, false)
  {
    hide Walkable;
    assert from != [] ==> forall m :: m in from[1..] ==> m in from;
    assert to != [] ==> forall m :: m in to[1..] ==> m in to;
  }

  /** A name the other object has not. */
  lemma GoneFrom(a: seq<Member>, b: seq<Member>)
    requires a != [] && GoodMembers(a) && GoodMembers(b) && a[0].key !in Keys(b)
    ensures var k := a[0].key;
            && GoodMembers(a[1..]) && Terminated(k) && Good(a[0].value) && Good(Null)
            && k !in MapOf(a[1..]) && MapOf(a) == MapOf(a[1..])[k := ValueOf(a[0].value)]
            && k !in MapOf(b) && ValueOf(Null) == VNull
  {
    MapHead(a);
    MapKeys(b);
  }

  lemma BothDiffer(from: seq<Member>, to: seq<Member>, caseSensitive: bool, whole: Json)
    requires from != [] && to != [] && GoodMembers(from) && GoodMembers(to) && from[0].key == to[0].key
             && Turn(from, to) == 0
    requires forall i :: 0 <= i < |from| ==> from[i].value < whole
    requires Aligned(ValueOf(from[0].value), ValueOf(to[0].value)) && Walkable(from[0].value, to[0].value, false)
    requires OneSpelling(Names(from, to))
    requires var r := GenerateMembers(from[1..], to[1..], caseSensitive, whole);
             && GoodMembers(r) && Differs(MapOf(r), MapOf(from[1..]), MapOf(to[1..]))
             && MapOf(r).Keys <= Names(from[1..], to[1..])
    ensures var r := GenerateMembers(from, to, caseSensitive, whole);
            GoodMembers(r) && Differs(MapOf(r), MapOf(from), MapOf(to)) && MapOf(r).Keys <= Names(from, to)
    decreases whole, 0, 0
  {
    var k, x, y := from[0].key, ValueOf(from[0].value), ValueOf(to[0].value);
    var r := GenerateMembers(from[1..], to[1..], caseSensitive, whole);
    MapHead(from);
    MapHead(to);
    hide MapOf, Good, GoodMembers, Differs, VDiff, StrCmp, CompareJson, ValueOf, OneSpelling, Aligned, Walkable;
    GoodDecides(from[0].value, to[0].value, caseSensitive);
    DiffersBoth(MapOf(r), MapOf(from[1..]), MapOf(to[1..]), k, x, y);
    GenerateRefines(from[0].value, to[0].value, false);
    var g := GenerateMergePatch(from[0].value, to[0].value, false);
    assert [] + r == r;
    if x != y {
      Prepended(Member(k, g.value), r, Names(from, to));
    }
  }

  // ----- the round trip -----

  /** No null below v that is reached through objects only. */
  ghost predicate Clean(v: Value)
    decreases v
  {
    v.VObject? ==> forall k :: k in v.members ==> v.members[k] != VNull && Clean(v.members[k])
  }

  /** Where the targets differ: no null to be set, and nothing but clean values to be added. */
  ghost predicate Mergeable(from: Value, to: Value)
    decreases from
  {
    from == to || !to.VObject? ||
    if !from.VObject? then Clean(to)
    else forall k :: k in to.members ==> MergeableAt(from, to, k)
  }

  ghost predicate MergeableAt(from: Value, to: Value, k: string)
    requires from.VObject? && to.VObject? && k in to.members
    decreases from, 0
  {
    if k !in from.members then to.members[k] != VNull && Clean(to.members[k])
    else
      from.members[k] == to.members[k]
      || (to.members[k] != VNull && Mergeable(from.members[k], to.members[k]))
  }

  /** Merging v into nothing gives v exactly when v is clean. */
  lemma {:induction false} MergeIntoNothing(target: Option<Value>, v: Value)
    requires target.Some? ==> !target.value.VObject?
    ensures VMerge(target, v) == v <==> Clean(v)
    decreases v
  {
    if v.VObject? {
      var m := v.members;
      var r := VMerge(target, v).members;
      forall k | k in m
        ensures (k in r && r[k] == m[k]) <==> (m[k] != VNull && Clean(m[k]))
      {
        MergeIntoNothing(None, m[k]);
      }
      hide VMerge, Clean;
      if forall k :: k in m ==> m[k] != VNull && Clean(m[k]) {
        assert r == m;
      }
    }
  }

  /** Merging the difference gives the target exactly for mergeable pairs. */
  lemma {:induction false} MergeDiff(from: Value, to: Value)
    ensures VMerge(Some(from), VDiff(from, to)) == to <==> Mergeable(from, to)
    decreases from, 1
  {
    if from == to && to.VObject? {
      MergeNoDiff(from);
    } else if !to.VObject? {
      DiffOfOther(from, to);
    } else if !from.VObject? {
      DiffOfOther(from, to);
      MergeIntoNothing(Some(from), to);
    } else {
      var r := VMerge(Some(from), VDiff(from, to)).members;
      forall k | k in to.members
        ensures (k in r && r[k] == to.members[k]) <==> MergeableAt(from, to, k)
      {
        MergeDiffAt(from, to, k);
      }
      assert forall k :: k in r ==> k in to.members;
      hide VMerge, VDiff, MergeableAt;
      assert r == to.members <==> forall k :: k in to.members ==> k in r && r[k] == to.members[k];
    }
  }

  lemma MergeNoDiff(v: Value)
    requires v.VObject?
    ensures VMerge(Some(v), VDiff(v, v)) == v
  {
    assert VDiff(v, v).members == map[];
    assert VMerge(Some(v), VObject(map[])).members == v.members;
  }

  lemma MergeDiffAt(from: Value, to: Value, k: string)
    requires from.VObject? && to.VObject? && k in to.members
    ensures var r := VMerge(Some(from), VDiff(from, to)).members;
            (k in r && r[k] == to.members[k]) <==> MergeableAt(from, to, k)
    decreases from, 0
  {
    var f, t := from.members, to.members;
    if k !in f {
      MergeIntoNothing(None, t[k]);
    } else if f[k] != t[k] {
      MergeDiff(f[k], t[k]);
      NullDiff(f[k], t[k]);
      hide Mergeable, VDiff;
      assert k in VDiff(from, to).members && VDiff(from, to).members[k] == VDiff(f[k], t[k]) by {
        DiffAt(from, to, k);
      }
    }
  }

  lemma DiffAt(from: Value, to: Value, k: string)
    requires from.VObject? && to.VObject? && k in to.members && k in from.members && from.members[k] != to.members[k]
    ensures k in VDiff(from, to).members && VDiff(from, to).members[k] == VDiff(from.members[k], to.members[k])
  {
  }

  lemma NullDiff(from: Value, to: Value)
    ensures VDiff(from, to) == VNull <==> to == VNull
  {
  }

  /** The difference has no other names than the two values have. */
  lemma {:induction false} AlignedDiff(from: Value, to: Value)
    requires Aligned(from, to)
    ensures Aligned(from, VDiff(from, to))
    decreases from
  {
    if from.VObject? && to.VObject? {
      var f, t, d := from.members, to.members, VDiff(from, to).members;
      assert d.Keys <= f.Keys + t.Keys;
      forall k | k in f && k in d
        ensures Aligned(f[k], d[k])
      {
        if k in t {
          AlignedDiff(f[k], t[k]);
        }
      }
    }
  }

  /** A target without null below objects is always reached. */
  lemma {:induction false} CleanIsMergeable(from: Value, to: Value)
    requires Clean(to)
    ensures Mergeable(from, to)
    decreases from
  {
    if from.VObject? && to.VObject? {
      forall k | k in to.members
        ensures MergeableAt(from, to, k)
      {
        if k in from.members {
          CleanIsMergeable(from.members[k], to.members[k]);
        }
      }
    }
  }

  // ----- the round trip: where the walk leads each name -----

  /** The walk passes the member of that name in the second object while the first one still has the name. */
  predicate Passes(from: seq<Member>, to: seq<Member>, k: string)
    decreases |from| + |to|
  {
    if from == [] && to == [] then false
    else if Turn(from, to) < 0 then Passes(from[1..], to, k)
    else if Turn(from, to) > 0 then (to[0].key == k && k in Keys(from)) || Passes(from, to[1..], k)
    else Passes(from[1..], to[1..], k)
  }

  /** The walk comes to the members of that name at once. */
  predicate MeetsAt(from: seq<Member>, to: seq<Member>, k: string)
    decreases |from| + |to|
  {
    if from == [] && to == [] then false
    else if Turn(from, to) < 0 then MeetsAt(from[1..], to, k)
    else if Turn(from, to) > 0 then MeetsAt(from, to[1..], k)
    else to[0].key == k || MeetsAt(from[1..], to[1..], k)
  }

  /** Generating and merging reaches the second tree, wherever the walk leads. */
  ghost predicate Reached(from: Json, to: Json, genCase: bool)
    decreases from, 2
  {
    if !from.Object? || !to.Object? then Clean(ValueOf(to))
    else
      SortedChildren(from, genCase);
      AllFine(Sort(from.members, genCase), Sort(to.members, genCase), from)
  }

  ghost predicate AllFine(s: seq<Member>, t: seq<Member>, whole: Json)
    requires forall i :: 0 <= i < |s| ==> s[i].value < whole
    decreases whole, 1
  {
    forall b :: b in t ==> Fine(s, t, b, whole)
  }

  /**
   * One member of the second object is reached: the walk does not pass it too early, and where it meets that of the first
   * one, both are equal or the one is reached from the other. Elsewhere, also where the walk has deleted the name before,
   * the value is merged into nothing. No null can be set.
   */
  ghost predicate Fine(s: seq<Member>, t: seq<Member>, b: Member, whole: Json)
    requires forall i :: 0 <= i < |s| ==> s[i].value < whole
    decreases whole, 0
  {
    && !Passes(s, t, b.key)
    && if MeetsAt(s, t, b.key) then
         forall a :: a in s && a.key == b.key ==>
           ValueOf(a.value) == ValueOf(b.value) || (!b.value.Null? && Reached(a.value, b.value, false))
       else
         !b.value.Null? && Clean(ValueOf(b.value))
  }

  /** The name of a member of the second object stays, be it with another value. */
  predicate Stays(s: seq<Member>, t: seq<Member>, b: Member) {
    && !Passes(s, t, b.key)
    && (b.value.Null? ==> MeetsAt(s, t, b.key) && forall a :: a in s && a.key == b.key ==> a.value.Null?)
  }

  /** Names the walk meets or passes are names of both objects. */
  lemma {:induction false} WalkedNames(s: seq<Member>, t: seq<Member>, k: string)
    requires GoodMembers(s) && GoodMembers(t)
    ensures MeetsAt(s, t, k) || Passes(s, t, k) ==> k in Keys(s) && k in Keys(t)
    decreases |s| + |t|
  {
    if s != [] || t != [] {
      WalkTails(s, t);
      WalkTurn(s, t, k);
      hide *;
      if Turn(s, t) < 0 {
        WalkedNames(s[1..], t, k);
      } else if Turn(s, t) > 0 {
        WalkedNames(s, t[1..], k);
      } else {
        WalkedNames(s[1..], t[1..], k);
      }
    }
  }

  lemma WalkTurn(s: seq<Member>, t: seq<Member>, k: string)
    requires s != [] || t != []
    ensures Passes(s, t, k)
            <==> if Turn(s, t) < 0 then Passes(s[1..], t, k)
                 else if Turn(s, t) > 0 then (t[0].key == k && k in Keys(s)) || Passes(s, t[1..], k)
                 else Passes(s[1..], t[1..], k)
    ensures MeetsAt(s, t, k)
            <==> if Turn(s, t) < 0 then MeetsAt(s[1..], t, k)
                 else if Turn(s, t) > 0 then MeetsAt(s, t[1..], k)
                 else t[0].key == k || MeetsAt(s[1..], t[1..], k)
  {
    hide Turn, Keys;
  }

  function Rest(s: seq<Member>, taken: bool): seq<Member>
    requires taken ==> s != []
  {
    if taken then s[1..] else s
  }

  /** What one turn of the walk means for a member further on. */
  lemma FineLater(s: seq<Member>, t: seq<Member>, b: Member, whole: Json)
    requires GoodMembers(s) && GoodMembers(t) && (s != [] || t != [])
    requires (forall i :: 0 <= i < |s| ==> s[i].value < whole) && b in Rest(t, Turn(s, t) >= 0)
    ensures var s1, t1 := Rest(s, Turn(s, t) <= 0), Rest(t, Turn(s, t) >= 0);
            (Fine(s, t, b, whole) <==> Fine(s1, t1, b, whole)) && (Stays(s, t, b) <==> Stays(s1, t1, b))
  {
    var s1, t1 := Rest(s, Turn(s, t) <= 0), Rest(t, Turn(s, t) >= 0);
    WalkTails(s, t);
    WalkTurn(s, t, b.key);
    WalkedNames(s1, t1, b.key);
    assert Turn(s, t) >= 0 ==> b.key in Keys(t1);
    assert forall a :: a in s ==> a in s1 || (Turn(s, t) <= 0 && a == s[0]);
    assert forall a :: a in s1 ==> a in s && a.key in Keys(s1);
    hide Turn, Passes, MeetsAt, Reached, Clean, ValueOf, GoodMembers, Keys, Fine, Stays;
    FineAlike(s, t, s1, t1, b, whole);
  }

  /** Two places of the walk are alike for a member if it is passed and met alike, with the same members. */
  lemma FineAlike(s: seq<Member>, t: seq<Member>, s1: seq<Member>, t1: seq<Member>, b: Member, whole: Json)
    requires (forall i :: 0 <= i < |s| ==> s[i].value < whole) && (forall i :: 0 <= i < |s1| ==> s1[i].value < whole)
    requires (Passes(s, t, b.key) <==> Passes(s1, t1, b.key)) && (MeetsAt(s, t, b.key) <==> MeetsAt(s1, t1, b.key))
    requires MeetsAt(s, t, b.key) ==> forall a: Member :: a.key == b.key ==> (a in s <==> a in s1)
    ensures (Fine(s, t, b, whole) <==> Fine(s1, t1, b, whole)) && (Stays(s, t, b) <==> Stays(s1, t1, b))
  {
    hide Passes, MeetsAt, Clean, ValueOf;
  }

  /** What one turn means for the member it takes. */
  lemma FineNow(s: seq<Member>, t: seq<Member>, whole: Json)
    requires GoodMembers(s) && GoodMembers(t) && t != [] && Turn(s, t) >= 0
    requires forall i :: 0 <= i < |s| ==> s[i].value < whole
    ensures Turn(s, t) > 0 ==>
              && (Fine(s, t, t[0], whole) <==> t[0].key !in Keys(s) && !t[0].value.Null? && Clean(ValueOf(t[0].value)))
              && (Stays(s, t, t[0]) <==> t[0].key !in Keys(s) && !t[0].value.Null?)
    ensures Turn(s, t) == 0 ==> (Stays(s, t, t[0]) <==> t[0].value.Null? ==> s[0].value.Null?)
    ensures Turn(s, t) == 0 ==>
              (Fine(s, t, t[0], whole) <==>
                 ValueOf(s[0].value) == ValueOf(t[0].value)
                 || (!t[0].value.Null? && Reached(s[0].value, t[0].value, false)))
  {
    WalkTails(s, t);
    WalkTurn(s, t, t[0].key);
    WalkedNames(s, t[1..], t[0].key);
    if s != [] {
      WalkedNames(s[1..], t[1..], t[0].key);
      assert forall a :: a in s <==> a == s[0] || a in s[1..];
      assert forall a :: a in s[1..] ==> a.key in Keys(s[1..]);
    }
    hide Turn, Passes, MeetsAt, Reached, Clean, ValueOf, GoodMembers, Keys;
  }

  // ----- merging the patch while it is generated -----

  /** For the names still to come, the object merged into has what the first one had. */
  ghost predicate Ahead(m: map<string, Value>, f: map<string, Value>, t: map<string, Value>) {
    forall k :: k in t ==> At(m, k) == At(f, k)
  }

  /** What the merge leaves at a name, of what the walk still has before it. */
  ghost predicate Decides(r: map<string, Value>, m: map<string, Value>, s: seq<Member>, t: seq<Member>, k: string,
                          whole: Json)
    requires forall i :: 0 <= i < |s| ==> s[i].value < whole
  {
    && (k in Keys(s) && k !in Keys(t) ==> k !in r)
    && (k !in Keys(s) && k !in Keys(t) ==> At(r, k) == At(m, k))
    && (forall b :: b in t && b.key == k ==>
          (k in r <==> Stays(s, t, b)) && (At(r, k) == Some(ValueOf(b.value)) <==> Fine(s, t, b, whole)))
  }

  /** The name a turn takes. */
  function Taken(s: seq<Member>, t: seq<Member>): string
    requires s != [] || t != []
  {
    if Turn(s, t) < 0 then s[0].key else t[0].key
  }

  /** What a turn does to the object merged into: it settles its own name, and touches no other. */
  ghost predicate Settles(m: map<string, Value>, n: map<string, Value>, s: seq<Member>, t: seq<Member>)
    requires s != [] || t != []
  {
    var k0 := Taken(s, t);
    && (forall k :: k != k0 ==> At(n, k) == At(m, k))
    && (Turn(s, t) < 0 ==> k0 !in n)
    && (Turn(s, t) > 0 && k0 !in Keys(s) ==>
          && (k0 in n <==> !t[0].value.Null?)
          && (At(n, k0) == Some(ValueOf(t[0].value)) <==> !t[0].value.Null? && Clean(ValueOf(t[0].value))))
    && (Turn(s, t) == 0 ==> (k0 in n <==> t[0].value.Null? ==> s[0].value.Null?))
    && (Turn(s, t) == 0 ==>
          (At(n, k0) == Some(ValueOf(t[0].value)) <==>
             ValueOf(s[0].value) == ValueOf(t[0].value)
             || (!t[0].value.Null? && Reached(s[0].value, t[0].value, false))))
  }

  /** The state of the merge before a turn of the walk. */
  ghost predicate Merging(j: Json, s: seq<Member>, t: seq<Member>) {
    && j.Object? && Good(j) && Intact(j) && GoodMembers(s) && GoodMembers(t)
    && Aligned(VObject(MapOf(s)), VObject(MapOf(t))) && OneSpelling(MapOf(j.members).Keys + Names(s, t))
    && Ahead(MapOf(j.members), MapOf(s), MapOf(t))
  }

  lemma AheadOn(m: map<string, Value>, n: map<string, Value>, f: map<string, Value>, t: map<string, Value>,
                f1: map<string, Value>, t1: map<string, Value>, k0: string)
    requires Ahead(m, f, t) && forall k :: k != k0 ==> At(n, k) == At(m, k)
    requires (f1 == f - {k0} || f1 == f) && (t1 == t - {k0} || t1 == t) && (k0 in t1 ==> k0 !in n && k0 !in f1)
    ensures Ahead(n, f1, t1)
  {
  }

  /** The lists after a turn at a name. */
  lemma TurnTails(s: seq<Member>, t: seq<Member>, k0: string)
    requires GoodMembers(s) && GoodMembers(t) && (s != [] || t != []) && k0 == Taken(s, t)
    ensures var s1, t1 := Rest(s, Turn(s, t) <= 0), Rest(t, Turn(s, t) >= 0);
            && GoodMembers(s1) && GoodMembers(t1) && k0 in Names(s, t)
            && (Turn(s, t) <= 0 ==> MapOf(s1) == MapOf(s) - {k0})
            && (Turn(s, t) >= 0 ==> MapOf(t1) == MapOf(t) - {k0})
  {
    WalkTails(s, t);
    if s != [] {
      MapHead(s);
      TakenOff(MapOf(s), MapOf(s[1..]), s[0].key, ValueOf(s[0].value));
    }
    if t != [] {
      MapHead(t);
      TakenOff(MapOf(t), MapOf(t[1..]), t[0].key, ValueOf(t[0].value));
    }
    hide MapOf, Good, GoodMembers, Keys, ValueOf, StrCmp;
  }

  lemma TakenOff(m: map<string, Value>, rest: map<string, Value>, k: string, v: Value)
    requires k !in rest && m == rest[k := v]
    ensures rest == m - {k} && k in m
  {
  }

  lemma MergingParts(j: Json, s: seq<Member>, t: seq<Member>)
    requires Merging(j, s, t)
    ensures j.Object? && Good(j) && Intact(j) && GoodMembers(s) && GoodMembers(t)
    ensures Aligned(VObject(MapOf(s)), VObject(MapOf(t)))
    ensures OneSpelling(MapOf(j.members).Keys + Names(s, t)) && Ahead(MapOf(j.members), MapOf(s), MapOf(t))
  {
  }

  /** After a turn that has changed no other name than its own. */
  lemma Onward(j: Json, next: Json, s: seq<Member>, t: seq<Member>)
    requires Merging(j, s, t) && (s != [] || t != []) && next.Object? && Good(next) && Intact(next)
    requires Settles(MapOf(j.members), MapOf(next.members), s, t)
    ensures Merging(next, Rest(s, Turn(s, t) <= 0), Rest(t, Turn(s, t) >= 0))
  {
    var s1, t1 := Rest(s, Turn(s, t) <= 0), Rest(t, Turn(s, t) >= 0);
    var m, n, k0 := MapOf(j.members), MapOf(next.members), Taken(s, t);
    MergingParts(j, s, t);
    TurnTails(s, t, k0);
    assert (forall k :: k != k0 ==> At(n, k) == At(m, k)) && (Turn(s, t) < 0 ==> k0 !in n);
    assert Rest(s, false) == s && Rest(t, false) == t;
    hide *;
    AheadOn(m, n, MapOf(s), MapOf(t), MapOf(s1), MapOf(t1), k0);
    AlignedWithin(MapOf(s), MapOf(t), MapOf(s1), MapOf(t1));
    FewerNames(m, n, s, t, s1, t1, k0);
    MergingFrom(next, s1, t1);
  }

  lemma FewerNames(m: map<string, Value>, n: map<string, Value>, s: seq<Member>, t: seq<Member>, s1: seq<Member>,
                   t1: seq<Member>, k0: string)
    requires OneSpelling(m.Keys + Names(s, t)) && (forall k :: k != k0 ==> At(n, k) == At(m, k)) && k0 in Names(s, t)
    requires MapOf(s1).Keys <= MapOf(s).Keys && MapOf(t1).Keys <= MapOf(t).Keys
    ensures OneSpelling(n.Keys + Names(s1, t1))
  {
    hide MapOf;
    forall k | k in n
      ensures k in m.Keys + Names(s, t)
    {
      assert At(n, k).Some?;
    }
    assert n.Keys + Names(s1, t1) <= m.Keys + Names(s, t);
  }

  lemma MergingFrom(j: Json, s: seq<Member>, t: seq<Member>)
    requires j.Object? && Good(j) && Intact(j) && GoodMembers(s) && GoodMembers(t)
    requires Aligned(VObject(MapOf(s)), VObject(MapOf(t))) && OneSpelling(MapOf(j.members).Keys + Names(s, t))
    requires Ahead(MapOf(j.members), MapOf(s), MapOf(t))
    ensures Merging(j, s, t)
  {
  }

  /** At any other name, what comes after the turn decides. */
  lemma DecidesElsewhere(r: map<string, Value>, m: map<string, Value>, n: map<string, Value>, s: seq<Member>,
                         t: seq<Member>, k: string, whole: Json)
    requires GoodMembers(s) && GoodMembers(t) && (s != [] || t != []) && k != Taken(s, t)
    requires forall i :: 0 <= i < |s| ==> s[i].value < whole
    requires Decides(r, n, Rest(s, Turn(s, t) <= 0), Rest(t, Turn(s, t) >= 0), k, whole) && At(n, k) == At(m, k)
    ensures Decides(r, m, s, t, k, whole)
  {
    var s1, t1 := Rest(s, Turn(s, t) <= 0), Rest(t, Turn(s, t) >= 0);
    KeysElsewhere(s, t, k);
    forall b | b in t && b.key == k
      ensures (Fine(s, t, b, whole) <==> Fine(s1, t1, b, whole)) && (Stays(s, t, b) <==> Stays(s1, t1, b))
    {
      hide Turn, Fine, Stays, GoodMembers, Keys, Taken;
      FineLater(s, t, b, whole);
    }
    SameDecision(r, m, n, s, t, s1, t1, k, whole);
  }

  lemma SameDecision(r: map<string, Value>, m: map<string, Value>, n: map<string, Value>, s: seq<Member>,
                     t: seq<Member>, s1: seq<Member>, t1: seq<Member>, k: string, whole: Json)
    requires forall i :: 0 <= i < |s| ==> s[i].value < whole
    requires forall i :: 0 <= i < |s1| ==> s1[i].value < whole
    requires (k in Keys(s) <==> k in Keys(s1)) && (k in Keys(t) <==> k in Keys(t1)) && At(n, k) == At(m, k)
    requires forall b :: b in t && b.key == k ==>
               b in t1 && (Fine(s, t, b, whole) <==> Fine(s1, t1, b, whole)) && (Stays(s, t, b) <==> Stays(s1, t1, b))
    requires Decides(r, n, s1, t1, k, whole)
    ensures Decides(r, m, s, t, k, whole)
  {
    hide Fine, Stays, Keys, ValueOf;
  }

  lemma KeysElsewhere(s: seq<Member>, t: seq<Member>, k: string)
    requires GoodMembers(s) && GoodMembers(t) && (s != [] || t != []) && k != Taken(s, t)
    ensures k in Keys(s) <==> k in Keys(Rest(s, Turn(s, t) <= 0))
    ensures k in Keys(t) <==> k in Keys(Rest(t, Turn(s, t) >= 0))
    ensures forall b :: b in t && b.key == k ==> b in Rest(t, Turn(s, t) >= 0)
    ensures forall b :: b in Rest(t, Turn(s, t) >= 0) ==> b in t
  {
    WalkTails(s, t);
    hide Turn, GoodMembers, Good, Keys;
  }

  /** At its own name, the turn does. */
  lemma DecidesHere(r: map<string, Value>, m: map<string, Value>, n: map<string, Value>, s: seq<Member>,
                    t: seq<Member>, whole: Json)
    requires GoodMembers(s) && GoodMembers(t) && (s != [] || t != []) && Settles(m, n, s, t)
    requires forall i :: 0 <= i < |s| ==> s[i].value < whole
    requires Decides(r, n, Rest(s, Turn(s, t) <= 0), Rest(t, Turn(s, t) >= 0), Taken(s, t), whole)
    ensures Decides(r, m, s, t, Taken(s, t), whole)
  {
    WalkTails(s, t);
    var k, s1, t1 := Taken(s, t), Rest(s, Turn(s, t) <= 0), Rest(t, Turn(s, t) >= 0);
    hide Turn, Fine, Stays, Reached, Clean, ValueOf, GoodMembers, Good;
    if Turn(s, t) < 0 {
      forall b | b in t && b.key == k
        ensures (Fine(s, t, b, whole) <==> Fine(s1, t1, b, whole)) && (Stays(s, t, b) <==> Stays(s1, t1, b))
      {
        FineLater(s, t, b, whole);
      }
    } else {
      FineNow(s, t, whole);
      forall b | b in t && b.key == k
        ensures b == t[0]
      {
        assert b in t1 ==> b.key in Keys(t1);
      }
    }
  }

  // ----- the round trip -----

  /** The first member generated by a turn of the walk, if there is one. */
  function Yields(s: seq<Member>, t: seq<Member>, genCase: bool, whole: Json): Option<Member>
    requires (s != [] || t != []) && forall i :: 0 <= i < |s| ==> s[i].value < whole
  {
    if Turn(s, t) < 0 then Some(Member(s[0].key, Null))
    else if Turn(s, t) > 0 then Some(Member(t[0].key, Duplicate(t[0].value)))
    else if CompareJson(s[0].value, t[0].value, genCase) then None
    else
      var nested := GenerateMergePatch(s[0].value, t[0].value, false);
      if nested.None? then None else Some(Member(t[0].key, nested.value))
  }

  lemma Yielded(s: seq<Member>, t: seq<Member>, genCase: bool, whole: Json)
    requires (s != [] || t != []) && forall i :: 0 <= i < |s| ==> s[i].value < whole
    ensures var y := Yields(s, t, genCase, whole);
            GenerateMembers(s, t, genCase, whole)
            == (if y.None? then [] else [y.value])
               + GenerateMembers(Rest(s, Turn(s, t) <= 0), Rest(t, Turn(s, t) >= 0), genCase, whole)
  {
    hide CompareJson, GenerateMergePatch, Turn;
  }

  /** The object after a turn. */
  function Turned(j: Json, y: Option<Member>, caseSensitive: bool, patch: Json): (r: Json)
    requires j.Object? && (y.Some? ==> y.value.value < patch)
    ensures r.Object?
  {
    if y.None? then j else MergeMember(j, y.value, caseSensitive, patch)
  }

  lemma MergeOne(j: Json, ps: seq<Member>, y: Option<Member>, rest: seq<Member>, caseSensitive: bool, patch: Json)
    requires j.Object? && (forall i :: 0 <= i < |ps| ==> ps[i].value < patch)
    requires ps == (if y.None? then [] else [y.value]) + rest
    ensures (y.Some? ==> y.value.value < patch) && forall i :: 0 <= i < |rest| ==> rest[i].value < patch
    ensures MergeMembers(j, ps, caseSensitive, patch)
            == MergeMembers(Turned(j, y, caseSensitive, patch), rest, caseSensitive, patch)
  {
    hide MergeMember;
    if y.None? {
      assert ps == rest;
    } else {
      assert ps[0] == y.value && ps[1..] == rest;
      assert forall i :: 0 <= i < |rest| ==> rest[i] == ps[i + 1];
    }
  }

  /** What a turn yields, by the way it goes. */
  lemma TurnYields(s: seq<Member>, t: seq<Member>, genCase: bool, whole: Json)
    requires (s != [] || t != []) && forall i :: 0 <= i < |s| ==> s[i].value < whole
    ensures Turn(s, t) < 0 ==> Taken(s, t) == s[0].key && Yields(s, t, genCase, whole) == Some(Member(s[0].key, Null))
    ensures Turn(s, t) >= 0 ==> Taken(s, t) == t[0].key
    ensures Turn(s, t) > 0 ==> Yields(s, t, genCase, whole) == Some(Member(t[0].key, Duplicate(t[0].value)))
  {
    hide Turn;
  }

  /** What a turn needs to know of the name it takes. */
  lemma TurnName(j: Json, s: seq<Member>, t: seq<Member>)
    requires Merging(j, s, t) && (s != [] || t != [])
    ensures j.Object? && Good(j) && Intact(j) && Terminated(Taken(s, t))
    ensures OneSpelling(MapOf(j.members).Keys + {Taken(s, t)}) && (Taken(s, t) in MapOf(s) <==> Taken(s, t) in Keys(s))
    ensures Turn(s, t) >= 0 ==> Good(t[0].value) && At(MapOf(j.members), Taken(s, t)) == At(MapOf(s), Taken(s, t))
    ensures Turn(s, t) >= 0 && Taken(s, t) in MapOf(s) ==> Aligned(MapOf(s)[Taken(s, t)], ValueOf(t[0].value))
    ensures Turn(s, t) == 0 ==> Good(s[0].value) && At(MapOf(s), Taken(s, t)) == Some(ValueOf(s[0].value))
  {
    var k0 := Taken(s, t);
    TurnTails(s, t, k0);
    WalkTails(s, t);
    MapKeys(s);
    if s != [] {
      MapHead(s);
    }
    if t != [] {
      MapHead(t);
    }
    AlignedWithin(MapOf(s), MapOf(t), MapOf(s), MapOf(t));
    assert MapOf(j.members).Keys + {k0} <= MapOf(j.members).Keys + Names(s, t);
    hide MapOf, Good, GoodMembers, Turn, Aligned, Intact, ValueOf, Keys;
  }

  lemma GoneSettles(m: map<string, Value>, s: seq<Member>, t: seq<Member>)
    requires (s != [] || t != []) && Turn(s, t) < 0
    ensures Settles(m, m - {Taken(s, t)}, s, t)
  {
    hide Turn, Taken, ValueOf, Clean, Reached, Keys;
  }

  lemma NewSettles(m: map<string, Value>, s: seq<Member>, t: seq<Member>)
    requires (s != [] || t != []) && Turn(s, t) > 0
    requires Taken(s, t) !in Keys(s) ==> Taken(s, t) !in m
    ensures Settles(m, Change(m, Taken(s, t), ValueOf(t[0].value)), s, t)
  {
    var y := ValueOf(t[0].value);
    MergeIntoNothing(None, y);
    assert y == VNull <==> t[0].value.Null?;
    hide Turn, Taken, ValueOf, Clean, Reached, Keys, VMerge;
  }

  lemma MetSettles(m: map<string, Value>, n: map<string, Value>, s: seq<Member>, t: seq<Member>)
    requires (s != [] || t != []) && Turn(s, t) == 0
    requires forall k :: k != Taken(s, t) ==> At(n, k) == At(m, k)
    requires At(n, Taken(s, t)) == Some(ValueOf(t[0].value)) <==>
               ValueOf(s[0].value) == ValueOf(t[0].value)
               || (!t[0].value.Null? && Reached(s[0].value, t[0].value, false))
    requires At(n, Taken(s, t)).Some? <==> t[0].value.Null? ==> s[0].value.Null?
    ensures Settles(m, n, s, t)
  {
    hide Turn, Taken, ValueOf, Clean, Reached, Keys;
  }

  /** What one turn does to the object merged into. */
  lemma TurnMerges(j: Json, s: seq<Member>, t: seq<Member>, genCase: bool, caseSensitive: bool, whole: Json,
                   patch: Json)
    requires Merging(j, s, t) && (s != [] || t != []) && (forall i :: 0 <= i < |s| ==> s[i].value < whole)
    requires var y := Yields(s, t, genCase, whole); y.Some? ==> y.value.value < patch
    ensures var next := Turned(j, Yields(s, t, genCase, whole), caseSensitive, patch);
            Good(next) && Intact(next) && Settles(MapOf(j.members), MapOf(next.members), s, t)
    decreases whole, 0, |s| + |t|, 0
  {
    TurnYields(s, t, genCase, whole);
    TurnName(j, s, t);
    hide MapOf, Good, GoodMembers, Aligned, Intact, ValueOf, MergeMember, Merging, OneSpelling, Settles, VMerge, Turn,
         Keys,
         Yields, Taken, Change, Duplicate;
    var k0, m := Taken(s, t), MapOf(j.members);
    if Turn(s, t) < 0 {
      Rebinds(j, Member(k0, Null), caseSensitive, patch);
      GoneSettles(m, s, t);
    } else if Turn(s, t) > 0 {
      NewMerges(j, s, t, caseSensitive, patch);
    } else {
      MetMerges(j, s, t, genCase, caseSensitive, whole, patch);
    }
  }

  lemma NewMerges(j: Json, s: seq<Member>, t: seq<Member>, caseSensitive: bool, patch: Json)
    requires Merging(j, s, t) && t != [] && Turn(s, t) > 0 && Duplicate(t[0].value) < patch
    ensures var next := MergeMember(j, Member(Taken(s, t), Duplicate(t[0].value)), caseSensitive, patch);
            Good(next) && Intact(next) && Settles(MapOf(j.members), MapOf(next.members), s, t)
  {
    var k0, m := Taken(s, t), MapOf(j.members);
    TurnName(j, s, t);
    DuplicateSame(t[0].value);
    SameAt(m, MapOf(s), k0);
    hide *;
    MemberMerges(j, Member(k0, Duplicate(t[0].value)), caseSensitive, patch);
    NewSettles(m, s, t);
  }

  lemma SameAt(m: map<string, Value>, n: map<string, Value>, k: string)
    ensures At(m, k) == At(n, k) ==> (k in m <==> k in n) && (k in m ==> m[k] == n[k])
  {
  }

  /** A name of both objects: merged as far as its own round trip goes. */
  lemma MetMerges(j: Json, s: seq<Member>, t: seq<Member>, genCase: bool, caseSensitive: bool, whole: Json, patch: Json)
    requires Merging(j, s, t) && s != [] && t != [] && Turn(s, t) == 0
             && (forall i :: 0 <= i < |s| ==> s[i].value < whole)
    requires var y := Yields(s, t, genCase, whole); y.Some? ==> y.value.value < patch
    ensures var next := Turned(j, Yields(s, t, genCase, whole), caseSensitive, patch);
            Good(next) && Intact(next) && Settles(MapOf(j.members), MapOf(next.members), s, t)
    decreases whole, 0, 0
  {
    var a, b, k0, m := s[0].value, t[0].value, Taken(s, t), MapOf(j.members);
    var y, g, found := Yields(s, t, genCase, whole), GenerateMergePatch(a, b, false), Found(j, k0, caseSensitive);
    hide *;
    TurnName(j, s, t);
    MetYields(s, t, genCase, whole);
    FoundNamed(j, k0, ValueOf(a), caseSensitive);
    NullValue(a);
    NullValue(b);
    MergingParts(j, s, t);
    MetAligned(s, t);
    GoodDecides(a, b, genCase);
    MergePatchRoundTrip(found.value, a, b, false, caseSensitive);
    RemergedIs(found.value, a, b, false, caseSensitive);
    TurnedIs(j, y, caseSensitive, patch);
    if y.None? {
      MetSettles(m, m, s, t);
    } else {
      Rebinds(j, y.value, caseSensitive, patch);
      var n := MapOf(Turned(j, y, caseSensitive, patch).members);
      BoundNow(m, n, k0, if g.value.Null? then None else Some(ValueOf(MergePatch(found, g.value, caseSensitive))));
      MetSettles(m, n, s, t);
    }
  }

  lemma BoundNow(m: map<string, Value>, n: map<string, Value>, k0: string, w: Option<Value>)
    requires n == if w.None? then m - {k0} else m[k0 := w.value]
    ensures At(n, k0) == w && forall k :: k != k0 ==> At(n, k) == At(m, k)
  {
  }

  lemma NullValue(b: Json)
    ensures ValueOf(b) == VNull <==> b.Null?
  {
  }

  lemma MetAligned(s: seq<Member>, t: seq<Member>)
    requires GoodMembers(s) && GoodMembers(t) && Aligned(VObject(MapOf(s)), VObject(MapOf(t)))
    requires s != [] && t != [] && Turn(s, t) == 0
    ensures Good(s[0].value) && Good(t[0].value) && Aligned(ValueOf(s[0].value), ValueOf(t[0].value))
  {
    WalkTails(s, t);
    MapHead(s);
    MapHead(t);
    AlignedHead(s, t);
  }

  lemma RemergedIs(copy: Json, from: Json, to: Json, genCase: bool, caseSensitive: bool)
    ensures var g := GenerateMergePatch(from, to, genCase);
            g.Some? ==>
                Remerged(copy, from, to, genCase, caseSensitive) == MergePatch(Some(copy), g.value, caseSensitive)
  {
    hide GenerateMergePatch, MergePatch;
  }

  lemma TurnedIs(j: Json, y: Option<Member>, caseSensitive: bool, patch: Json)
    requires j.Object? && (y.Some? ==> y.value.value < patch)
    ensures Turned(j, y, caseSensitive, patch) == if y.None? then j else MergeMember(j, y.value, caseSensitive, patch)
  {
  }

  lemma MetYields(s: seq<Member>, t: seq<Member>, genCase: bool, whole: Json)
    requires s != [] && t != [] && Turn(s, t) == 0 && forall i :: 0 <= i < |s| ==> s[i].value < whole
    ensures var g, k0 := GenerateMergePatch(s[0].value, t[0].value, false), Taken(s, t);
            && Yields(s, t, genCase, whole)
               == (if CompareJson(s[0].value, t[0].value, genCase) || g.None? then None else Some(Member(k0, g.value)))
            && (g.Some? ==> (g.value.Null? <==> t[0].value.Null?))
  {
    GeneratesNull(s[0].value, t[0].value, false);
    hide CompareJson, Turn, Sort, GenerateMembers;
  }

  lemma FoundNamed(j: Json, k: string, v: Value, caseSensitive: bool)
    requires j.Object? && Good(j) && Intact(j) && Terminated(k) && OneSpelling(MapOf(j.members).Keys + {k})
    requires At(MapOf(j.members), k) == Some(v)
    ensures var x := Found(j, k, caseSensitive);
            x.Some? && Good(x.value) && Intact(x.value) && ValueOf(x.value) == v
  {
    hide MapOf;
    assert Spells(MapOf(j.members).Keys, k);
    FoundRefines(j, k, caseSensitive);
  }

  /** Generate, then merge into a copy; where no patch was generated, nothing changes. */
  function Remerged(copy: Json, from: Json, to: Json, genCase: bool, caseSensitive: bool): Json {
    var g := GenerateMergePatch(from, to, genCase);
    if g.None? then copy else MergePatch(Some(copy), g.value, caseSensitive)
  }

  /**
   * Generating a patch from two trees and merging it into any copy of the first gives the second exactly if the second is
   * reached. No patch is generated exactly for equal objects.
   */
  lemma {:induction false} MergePatchRoundTrip(copy: Json, from: Json, to: Json, genCase: bool, caseSensitive: bool)
    requires Good(copy) && Intact(copy) && ValueOf(copy) == ValueOf(from)
    requires Good(from) && Good(to) && Aligned(ValueOf(from), ValueOf(to))
    ensures var r := Remerged(copy, from, to, genCase, caseSensitive);
            Good(r) && Intact(r) && (ValueOf(r) == ValueOf(to) <==> Reached(from, to, genCase))
    ensures GenerateMergePatch(from, to, genCase).None? <==> from.Object? && ValueOf(from) == ValueOf(to)
    decreases from, 1, 0
  {
    PatchOrNone(from, to, genCase);
    if from.Object? && to.Object? {
      ObjectsRoundTrip(copy, from, to, genCase, caseSensitive);
    } else {
      DuplicateSame(to);
      ObjectsOnly(from, to);
      hide Good, Intact, Aligned, ValueOf, Duplicate, VMerge, MergePatch, Clean;
      MergeRefines(Some(copy), Duplicate(to), caseSensitive);
      if to.Object? {
        MergeIntoNothing(Some(ValueOf(copy)), ValueOf(to));
      }
    }
  }

  lemma ObjectsOnly(from: Json, to: Json)
    requires !from.Object? || !to.Object?
    ensures from.Object? ==> ValueOf(from) != ValueOf(to)
    ensures !to.Object? || (!ValueOf(from).VObject? && ValueOf(to).VObject?)
    ensures !to.Object? ==> Clean(ValueOf(to)) && forall v: Option<Value> :: VMerge(v, ValueOf(to)) == ValueOf(to)
  {
  }

  /** Merging turn by turn settles every name. */
  lemma {:induction false} WalkMerges(j: Json, s: seq<Member>, t: seq<Member>, genCase: bool, caseSensitive: bool,
                                      whole: Json, patch: Json, k: string)
    requires Merging(j, s, t) && (forall i :: 0 <= i < |s| ==> s[i].value < whole)
    requires var ps := GenerateMembers(s, t, genCase, whole); forall i :: 0 <= i < |ps| ==> ps[i].value < patch
    ensures var r := MergeMembers(j, GenerateMembers(s, t, genCase, whole), caseSensitive, patch);
            Good(r) && Intact(r) && Decides(MapOf(r.members), MapOf(j.members), s, t, k, whole)
    decreases whole, 0, |s| + |t|, 1
  {
    MergingInto(j, s, t);
    hide *;
    if s == [] && t == [] {
      NothingMerges(j, genCase, caseSensitive, whole, patch, k);
    } else {
      PatchTurned(j, s, t, genCase, caseSensitive, whole, patch);
      FewerMembers(s, t, whole);
      TurnMerges(j, s, t, genCase, caseSensitive, whole, patch);
      var next := Turned(j, Yields(s, t, genCase, whole), caseSensitive, patch);
      Onward(j, next, s, t);
      WalkMerges(next, Rest(s, Turn(s, t) <= 0), Rest(t, Turn(s, t) >= 0), genCase, caseSensitive, whole, patch, k);
      TurnDecides(MergeMembers(j, GenerateMembers(s, t, genCase, whole), caseSensitive, patch), j, next, s, t, k,
        whole);
    }
  }

  lemma MergingInto(j: Json, s: seq<Member>, t: seq<Member>)
    requires Merging(j, s, t)
    ensures j.Object? && Good(j) && Intact(j)
  {
  }

  /** Merging the patch is merging what a turn yields, and then the rest. */
  lemma PatchTurned(j: Json, s: seq<Member>, t: seq<Member>, genCase: bool, caseSensitive: bool, whole: Json,
                    patch: Json)
    requires j.Object? && (s != [] || t != []) && (forall i :: 0 <= i < |s| ==> s[i].value < whole)
    requires var ps := GenerateMembers(s, t, genCase, whole); forall i :: 0 <= i < |ps| ==> ps[i].value < patch
    ensures var y := Yields(s, t, genCase, whole);
            var rest := GenerateMembers(Rest(s, Turn(s, t) <= 0), Rest(t, Turn(s, t) >= 0), genCase, whole);
            && (y.Some? ==> y.value.value < patch) && (forall i :: 0 <= i < |rest| ==> rest[i].value < patch)
            && MergeMembers(j, GenerateMembers(s, t, genCase, whole), caseSensitive, patch)
               == MergeMembers(Turned(j, y, caseSensitive, patch), rest, caseSensitive, patch)
  {
    FewerMembers(s, t, whole);
    hide *;
    Yielded(s, t, genCase, whole);
    var rest := GenerateMembers(Rest(s, Turn(s, t) <= 0), Rest(t, Turn(s, t) >= 0), genCase, whole);
    MergeOne(j, GenerateMembers(s, t, genCase, whole), Yields(s, t, genCase, whole), rest, caseSensitive, patch);
  }

  lemma TurnDecides(r: Json, j: Json, next: Json, s: seq<Member>, t: seq<Member>, k: string, whole: Json)
    requires r.Object? && j.Object? && next.Object? && Merging(j, s, t) && (s != [] || t != [])
    requires Settles(MapOf(j.members), MapOf(next.members), s, t) && forall i :: 0 <= i < |s| ==> s[i].value < whole
    requires Decides(MapOf(r.members), MapOf(next.members), Rest(s, Turn(s, t) <= 0), Rest(t, Turn(s, t) >= 0), k,
             whole)
    ensures Decides(MapOf(r.members), MapOf(j.members), s, t, k, whole)
  {
    MergingParts(j, s, t);
    hide *;
    if k == Taken(s, t) {
      DecidesHere(MapOf(r.members), MapOf(j.members), MapOf(next.members), s, t, whole);
    } else {
      SettlesOthers(MapOf(j.members), MapOf(next.members), s, t, k);
      DecidesElsewhere(MapOf(r.members), MapOf(j.members), MapOf(next.members), s, t, k, whole);
    }
  }

  lemma NothingMerges(j: Json, genCase: bool, caseSensitive: bool, whole: Json, patch: Json, k: string)
    requires j.Object? && Good(j) && Intact(j)
    ensures GenerateMembers([], [], genCase, whole) == []
    ensures var r := MergeMembers(j, [], caseSensitive, patch);
            Good(r) && Intact(r) && Decides(MapOf(r.members), MapOf(j.members), [], [], k, whole)
  {
    hide MapOf, Fine, Stays, Good, Intact;
  }

  lemma FewerMembers(s: seq<Member>, t: seq<Member>, whole: Json)
    requires (s != [] || t != []) && forall i :: 0 <= i < |s| ==> s[i].value < whole
    ensures var s1, t1 := Rest(s, Turn(s, t) <= 0), Rest(t, Turn(s, t) >= 0);
            |s1| + |t1| < |s| + |t| && forall i :: 0 <= i < |s1| ==> s1[i].value < whole
  {
    hide Turn;
  }

  lemma SettlesOthers(m: map<string, Value>, n: map<string, Value>, s: seq<Member>, t: seq<Member>, k: string)
    requires (s != [] || t != []) && Settles(m, n, s, t) && k != Taken(s, t)
    ensures At(n, k) == At(m, k)
  {
  }

  lemma ObjectsRoundTrip(copy: Json, from: Json, to: Json, genCase: bool, caseSensitive: bool)
    requires Good(copy) && Intact(copy) && ValueOf(copy) == ValueOf(from) && from.Object? && to.Object?
    requires Good(from) && Good(to) && Aligned(ValueOf(from), ValueOf(to))
    ensures var r := Remerged(copy, from, to, genCase, caseSensitive);
            Good(r) && Intact(r) && (ValueOf(r) == ValueOf(to) <==> Reached(from, to, genCase))
    decreases from, 0, |from.members| + |to.members| + 1
  {
    var s, t := Sort(from.members, genCase), Sort(to.members, genCase);
    SortedStart(copy, from, to, genCase);
    PatchOf(copy, from, to, genCase, caseSensitive);
    hide *;
    var ps, patch := GenerateMembers(s, t, genCase, from), Object(GenerateMembers(s, t, genCase, from));
    var r := MergeMembers(copy, ps, caseSensitive, patch);
    WalkMerges(copy, s, t, genCase, caseSensitive, from, patch, "");
    forall k
      ensures Decides(MapOf(r.members), MapOf(copy.members), s, t, k, from)
    {
      WalkMerges(copy, s, t, genCase, caseSensitive, from, patch, k);
    }
    AllDecided(MapOf(r.members), copy, s, t, from);
    ReachedIs(from, to, genCase);
    ObjectValue(r);
    ObjectValue(from);
    ObjectValue(to);
  }

  /** The state before the first turn. */
  lemma SortedStart(copy: Json, from: Json, to: Json, genCase: bool)
    requires Good(copy) && Intact(copy) && ValueOf(copy) == ValueOf(from) && from.Object? && to.Object?
    requires Good(from) && Good(to) && Aligned(ValueOf(from), ValueOf(to))
    ensures var s, t := Sort(from.members, genCase), Sort(to.members, genCase);
            && Merging(copy, s, t) && (forall i :: 0 <= i < |s| ==> s[i].value < from) && Sorted(s, genCase)
              && Sorted(t, genCase)
            && MapOf(copy.members) == MapOf(s) && MapOf(s) == MapOf(from.members) && MapOf(t) == MapOf(to.members)
            && |s| == |from.members| && |t| == |to.members|
  {
    var s, t := Sort(from.members, genCase), Sort(to.members, genCase);
    SortedNames(from, to, genCase);
    assert copy.Object?;
    ObjectValue(copy);
    ObjectValue(from);
    ObjectValue(to);
    hide Sort, Good, GoodMembers, MapOf, Sorted, ValueOf, Intact;
  }

  /** Whether there is a patch or not, its members are merged in turn. */
  lemma PatchOf(copy: Json, from: Json, to: Json, genCase: bool, caseSensitive: bool)
    requires copy.Object? && from.Object? && to.Object?
    requires forall i :: 0 <= i < |Sort(from.members, genCase)| ==> Sort(from.members, genCase)[i].value < from
    ensures var ps := GenerateMembers(Sort(from.members, genCase), Sort(to.members, genCase), genCase, from);
            && (GenerateMergePatch(from, to, genCase).None? <==> ps == [])
            && (forall i :: 0 <= i < |ps| ==> ps[i].value < Object(ps))
            && Remerged(copy, from, to, genCase, caseSensitive) == MergeMembers(copy, ps, caseSensitive, Object(ps))
  {
    hide Sort, GenerateMembers, MergeMember;
    SortedChildren(from, genCase);
    var ps := GenerateMembers(Sort(from.members, genCase), Sort(to.members, genCase), genCase, from);
    MergeIs(Some(copy), Object(ps), caseSensitive);
  }

  lemma ReachedIs(from: Json, to: Json, genCase: bool)
    requires from.Object? && to.Object?
    requires forall i :: 0 <= i < |Sort(from.members, genCase)| ==> Sort(from.members, genCase)[i].value < from
    ensures Reached(from, to, genCase) <==> AllFine(Sort(from.members, genCase), Sort(to.members, genCase), from)
  {
    hide Sort, AllFine;
  }

  /** With every name decided, the object has become the second one exactly if every member of that is fine. */
  lemma AllDecided(r: map<string, Value>, copy: Json, s: seq<Member>, t: seq<Member>, whole: Json)
    requires Merging(copy, s, t) && MapOf(copy.members) == MapOf(s) && (forall i :: 0 <= i < |s| ==> s[i].value < whole)
    requires forall k :: Decides(r, MapOf(copy.members), s, t, k, whole)
    ensures r == MapOf(t) <==> AllFine(s, t, whole)
  {
    MapKeys(s);
    MapKeys(t);
    forall b | b in t
      ensures b.key in MapOf(t) && MapOf(t)[b.key] == ValueOf(b.value)
      ensures At(r, b.key) == Some(ValueOf(b.value)) <==> Fine(s, t, b, whole)
    {
      var i :| 0 <= i < |t| && t[i] == b;
      MapAt(t, i);
      assert Decides(r, MapOf(copy.members), s, t, b.key, whole);
    }
    hide MapOf, Fine, ValueOf, Good, GoodMembers, Aligned, Intact, Reached;
    if forall b :: b in t ==> Fine(s, t, b, whole) {
      forall k
        ensures At(r, k) == At(MapOf(t), k)
      {
        assert Decides(r, MapOf(copy.members), s, t, k, whole);
        if k in Keys(t) {
          var i :| 0 <= i < |t| && t[i].key == k;
          assert t[i] in t;
        }
      }
      SameBindings(r, MapOf(t));
    } else {
      var b :| b in t && !Fine(s, t, b, whole);
      assert At(r, b.key) != At(MapOf(t), b.key);
    }
  }

  lemma SameBindings(m: map<string, Value>, n: map<string, Value>)
    requires forall k :: At(m, k) == At(n, k)
    ensures m == n
  {
    assert forall k :: k in m <==> At(m, k).Some?;
    assert forall k :: k in n <==> At(n, k).Some?;
    assert forall k :: k in m ==> At(m, k) == At(n, k);
  }

  /** No member is generated exactly for objects of the same value. */
  lemma {:induction false} NothingGenerated(s: seq<Member>, t: seq<Member>, genCase: bool, whole: Json)
    requires GoodMembers(s) && GoodMembers(t) && Sorted(s, genCase) && Sorted(t, genCase)
    requires Aligned(VObject(MapOf(s)), VObject(MapOf(t))) && (forall i :: 0 <= i < |s| ==> s[i].value < whole)
    ensures GenerateMembers(s, t, genCase, whole) == [] <==> MapOf(s) == MapOf(t)
    decreases whole, 0, |s| + |t|, 2
  {
    hide *;
    if s == [] && t == [] {
      NothingAtAll(genCase, whole);
    } else {
      Yielded(s, t, genCase, whole);
      TurnYields(s, t, genCase, whole);
      if Turn(s, t) != 0 {
        OtherNames(s, t, genCase);
      } else {
        MetYields(s, t, genCase, whole);
        MetAligned(s, t);
        SortedRest(s, t, genCase);
        GoodDecides(s[0].value, t[0].value, genCase);
        PatchOrNone(s[0].value, t[0].value, false);
        NothingGenerated(s[1..], t[1..], genCase, whole);
        BindingEqual(t[0].key, ValueOf(s[0].value), MapOf(s[1..]), ValueOf(t[0].value), MapOf(t[1..]));
      }
    }
  }

  lemma NothingAtAll(genCase: bool, whole: Json)
    ensures GenerateMembers([], [], genCase, whole) == []
  {
  }

  /** Where a turn comes to one name only, the objects have different names. */
  lemma OtherNames(s: seq<Member>, t: seq<Member>, genCase: bool)
    requires GoodMembers(s) && GoodMembers(t) && Sorted(s, genCase) && Sorted(t, genCase)
    requires Aligned(VObject(MapOf(s)), VObject(MapOf(t))) && (s != [] || t != []) && Turn(s, t) != 0
    ensures MapOf(s) != MapOf(t)
  {
    if s == [] {
      NotEmpty(t);
    } else if t == [] {
      NotEmpty(s);
    } else {
      AlignedHead(s, t);
      WalkTails(s, t);
      StrCmpZero(s[0].key, t[0].key);
      hide MapOf, Good, Aligned, StrCmp, Sorted;
      LeastKey(s, t, genCase);
    }
  }

  lemma SortedRest(s: seq<Member>, t: seq<Member>, genCase: bool)
    requires GoodMembers(s) && GoodMembers(t) && Sorted(s, genCase) && Sorted(t, genCase)
    requires Aligned(VObject(MapOf(s)), VObject(MapOf(t))) && s != [] && t != [] && Turn(s, t) == 0
    ensures Rest(s, Turn(s, t) <= 0) == s[1..] && Rest(t, Turn(s, t) >= 0) == t[1..]
    ensures GoodMembers(s[1..]) && GoodMembers(t[1..]) && Sorted(s[1..], genCase) && Sorted(t[1..], genCase)
    ensures Aligned(VObject(MapOf(s[1..])), VObject(MapOf(t[1..])))
    ensures t[0].key !in MapOf(s[1..]) && MapOf(s) == MapOf(s[1..])[t[0].key := ValueOf(s[0].value)]
    ensures t[0].key !in MapOf(t[1..]) && MapOf(t) == MapOf(t[1..])[t[0].key := ValueOf(t[0].value)]
  {
    WalkTails(s, t);
    MapHead(s);
    MapHead(t);
    AlignedHead(s, t);
    SortedTail(s, genCase);
    SortedTail(t, genCase);
  }

  /** No patch is generated exactly for objects of the same value. */
  lemma PatchOrNone(from: Json, to: Json, genCase: bool)
    requires Good(from) && Good(to) && Aligned(ValueOf(from), ValueOf(to))
    ensures GenerateMergePatch(from, to, genCase).None? <==> from.Object? && ValueOf(from) == ValueOf(to)
    decreases from, 1, 0
  {
    if from.Object? && to.Object? {
      var s, t := Sort(from.members, genCase), Sort(to.members, genCase);
      SortedNames(from, to, genCase);
      hide Good, Aligned, ValueOf, Sort, GenerateMembers;
      NothingGenerated(s, t, genCase, from);
    } else {
      ObjectsOnly(from, to);
    }
  }

  lemma SortedNames(from: Json, to: Json, genCase: bool)
    requires Good(from) && Good(to) && Aligned(ValueOf(from), ValueOf(to)) && from.Object? && to.Object?
    ensures var s, t := Sort(from.members, genCase), Sort(to.members, genCase);
            && GoodMembers(s) && GoodMembers(t) && Sorted(s, genCase) && Sorted(t, genCase)
            && Aligned(VObject(MapOf(s)), VObject(MapOf(t))) && (forall i :: 0 <= i < |s| ==> s[i].value < from)
            && ValueOf(from) == VObject(MapOf(s)) && ValueOf(to) == VObject(MapOf(t))
            && |s| == |from.members| && |t| == |to.members|
  {
    var s, t := Sort(from.members, genCase), Sort(to.members, genCase);
    assert |multiset(s)| == |multiset(from.members)| && |multiset(t)| == |multiset(to.members)|;
    SortedChildren(from, genCase);
    GoodObject(from);
    GoodObject(to);
    ObjectValue(from);
    ObjectValue(to);
    hide Sort, Good, GoodMembers, MapOf, Sorted, ValueOf, Aligned;
    SortGood(from.members, genCase);
    SortGood(to.members, genCase);
  }

  /** Name by name: which names are left, and which of them with the value of the second object. */
  lemma NamesReached(copy: Json, from: Json, to: Json, genCase: bool, caseSensitive: bool, b: Member)
    requires Good(copy) && Intact(copy) && ValueOf(copy) == ValueOf(from) && from.Object? && to.Object?
    requires Good(from) && Good(to) && Aligned(ValueOf(from), ValueOf(to)) && b in to.members
    ensures forall i :: 0 <= i < |Sort(from.members, genCase)| ==> Sort(from.members, genCase)[i].value < from
    ensures var r, s, t := Remerged(copy, from, to, genCase, caseSensitive), Sort(from.members, genCase),
            Sort(to.members, genCase);
            && r.Object? && MapOf(r.members).Keys <= Keys(to.members)
            && (b.key in MapOf(r.members) <==> Stays(s, t, b))
            && (At(MapOf(r.members), b.key) == Some(ValueOf(b.value)) <==> Fine(s, t, b, from))
  {
    var s, t := Sort(from.members, genCase), Sort(to.members, genCase);
    SortedStart(copy, from, to, genCase);
    SortedKeys(to, b, genCase);
    PatchOf(copy, from, to, genCase, caseSensitive);
    MapKeys(s);
    hide *;
    var ps, patch := GenerateMembers(s, t, genCase, from), Object(GenerateMembers(s, t, genCase, from));
    var r := MergeMembers(copy, ps, caseSensitive, patch);
    WalkMerges(copy, s, t, genCase, caseSensitive, from, patch, b.key);
    DecidedMember(MapOf(r.members), MapOf(copy.members), s, t, b, from);
    forall k | k in MapOf(r.members)
      ensures k in Keys(t)
    {
      WalkMerges(copy, s, t, genCase, caseSensitive, from, patch, k);
      DecidedName(MapOf(r.members), MapOf(copy.members), s, t, k, from);
    }
  }

  lemma SortedKeys(to: Json, b: Member, genCase: bool)
    requires to.Object? && b in to.members && Good(to)
    ensures b in Sort(to.members, genCase) && Keys(Sort(to.members, genCase)) == Keys(to.members)
  {
    var t := Sort(to.members, genCase);
    GoodObject(to);
    hide Sort, Good, MapOf, Keys;
    SortGood(to.members, genCase);
    MembersPermuted(to.members, t);
    MapKeys(t);
    MapKeys(to.members);
  }

  lemma DecidedMember(r: map<string, Value>, m: map<string, Value>, s: seq<Member>, t: seq<Member>, b: Member,
                      whole: Json)
    requires forall i :: 0 <= i < |s| ==> s[i].value < whole
    requires Decides(r, m, s, t, b.key, whole) && b in t
    ensures b.key in r <==> Stays(s, t, b)
    ensures At(r, b.key) == Some(ValueOf(b.value)) <==> Fine(s, t, b, whole)
  {
  }

  lemma DecidedName(r: map<string, Value>, m: map<string, Value>, s: seq<Member>, t: seq<Member>, k: string,
                    whole: Json)
    requires forall i :: 0 <= i < |s| ==> s[i].value < whole
    requires Decides(r, m, s, t, k, whole) && k in r && m.Keys == Keys(s)
    ensures k in Keys(t)
  {
  }

  /** Where the walk works, what is reached is what can be merged. */
  lemma WalkedIsMergeable(from: Json, to: Json, genCase: bool)
    requires Good(from) && Good(to) && Aligned(ValueOf(from), ValueOf(to)) && Walkable(from, to, genCase)
    ensures Reached(from, to, genCase) <==> Mergeable(ValueOf(from), ValueOf(to))
  {
    var copy := Duplicate(from);
    hide *;
    DuplicateSame(from);
    MergePatchRoundTrip(copy, from, to, genCase, true);
    RemergedIs(copy, from, to, genCase, true);
    NoPatchSame(copy, from, to, genCase, true);
    GenerateRefines(from, to, genCase);
    var g := GenerateMergePatch(from, to, genCase);
    if g.Some? {
      AlignedDiff(ValueOf(from), ValueOf(to));
      MergeRefines(Some(copy), g.value, true);
      SomeValue(copy);
      MergeDiff(ValueOf(from), ValueOf(to));
    } else {
      MergeableSame(ValueOf(from));
    }
  }

  lemma SomeValue(j: Json)
    ensures ValueOrNone(Some(j)) == Some(ValueOf(j))
  {
  }

  lemma NoPatchSame(copy: Json, from: Json, to: Json, genCase: bool, caseSensitive: bool)
    ensures GenerateMergePatch(from, to, genCase).None? ==> Remerged(copy, from, to, genCase, caseSensitive) == copy
  {
    hide GenerateMergePatch;
  }

  lemma MergeableSame(v: Value)
    ensures Mergeable(v, v)
  {
  }

  // ----- names with a capital letter -----

  /** "a" and "B" against "B": sorted without case, the walk passes "B" too early, and the patch deletes it. */
  lemma CaseBreaksWalk(a: Member, b: Member)
    requires a.key == "a" && b.key == "B"
    ensures Sort([a, b], false) == [a, b] && Sort([b], false) == [b]
    ensures Passes([a, b], [b], "B") && !Meets([a, b], [b])
    ensures !Reached(Object([a, b]), Object([b]), false)
  {
    SortedAlready(a, b);
    assert StrCmp("a", "B") > 0;
    assert Turn([a, b], [b]) > 0;
    assert [a, b][1].key in Keys([a, b]);
    NotReached(Object([a, b]), Object([b]), b);
  }

  lemma NotReached(from: Json, to: Json, b: Member)
    requires from.Object? && to.Object? && b in Sort(to.members, false)
    requires Passes(Sort(from.members, false), Sort(to.members, false), b.key)
    ensures !Reached(from, to, false)
  {
    SortedChildren(from, false);
    ReachedIs(from, to, false);
    hide Sort, Reached, MeetsAt, Passes;
  }

  /** "B" against "a" and "B": the walk does not meet "B" either, but deletes it first and adds it later. */
  lemma DeletedFirst(u: int, v: int, w: int)
    ensures var from, to := Object([Member("B", Number(u))]), Object([Member("a", Number(v)), Member("B", Number(w))]);
            !Walkable(from, to, false) && Reached(from, to, false)
  {
    var a, b, c := Member("a", Number(v)), Member("B", Number(w)), Member("B", Number(u));
    var from, to := Object([c]), Object([a, b]);
    SortedChildren(from, false);
    NotWalkable(from, to);
    NumberIsClean(v);
    NumberIsClean(w);
    hide *;
    SortedAlready(a, b);
    SortedAlready(a, c);
    WalkPast(c, a, b);
    Fresh([c], [a, b], a, from);
    Fresh([c], [a, b], b, from);
    BothFine([c], a, b, from);
    ReachedIs(from, to, false);
  }

  lemma NotWalkable(from: Json, to: Json)
    requires from.Object? && to.Object?
    ensures Walkable(from, to, false) ==> Meets(Sort(from.members, false), Sort(to.members, false))
  {
    hide Meets, Sort;
  }

  lemma NumberIsClean(n: int)
    ensures Clean(ValueOf(Number(n)))
  {
  }

  /** A value that is merged into nothing. */
  lemma Fresh(s: seq<Member>, t: seq<Member>, b: Member, whole: Json)
    requires (forall i :: 0 <= i < |s| ==> s[i].value < whole) && !Passes(s, t, b.key) && !MeetsAt(s, t, b.key)
    requires !b.value.Null? && Clean(ValueOf(b.value))
    ensures Fine(s, t, b, whole)
  {
    hide Passes, MeetsAt, Clean, ValueOf;
  }

  lemma BothFine(s: seq<Member>, a: Member, b: Member, whole: Json)
    requires (forall i :: 0 <= i < |s| ==> s[i].value < whole) && Fine(s, [a, b], a, whole) && Fine(s, [a, b], b, whole)
    ensures AllFine(s, [a, b], whole)
  {
    hide Fine;
  }

  lemma SortedAlready(a: Member, b: Member)
    requires a.key == "a" && b.key == "B"
    ensures Sort([a, b], false) == [a, b] && Sort([b], false) == [b]
  {
    assert Fold("a") == "a" && Fold("B") == "b";
    assert CompareStrings("a", "B", false) < 0;
    assert StrictlySorted([a, b], false);
  }

  /** Capitals come before small letters. */
  lemma BeforeSmall(c: Member, a: Member, b: Member)
    requires a.key == "a" && c.key == "B"
    ensures Turn([c], [a, b]) < 0
  {
    assert StrCmp("B", "a") < 0;
    hide StrCmp;
    assert Turn([c], [a, b]) == StrCmp(c.key, a.key);
  }

  lemma WalkPast(c: Member, a: Member, b: Member)
    requires a.key == "a" && b.key == "B" && c.key == "B"
    ensures !Meets([c], [a, b]) && forall k :: !MeetsAt([c], [a, b], k) && !Passes([c], [a, b], k)
  {
    BeforeSmall(c, a, b);
    assert [a, b][1].key in Keys([a, b]);
    assert [c][1..] == [];
    forall k
      ensures !MeetsAt([c], [a, b], k) && !Passes([c], [a, b], k)
    {
      NothingPassed([a, b], k);
    }
  }

  lemma {:induction false} NothingPassed(to: seq<Member>, k: string)
    ensures !MeetsAt([], to, k) && !Passes([], to, k)
    decreases |to|
  {
    if to != [] {
      NothingPassed(to[1..], k);
    }
  }
}
