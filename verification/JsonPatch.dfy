/** JSON Patch (RFC 6902): applying operations to a tree. */
module JsonPatch {
  import opened Basics
  import opened Json
  import opened JsonToken
  import opened JsonPointer
  import opened JsonSort

  // ----- object members -----

  /** The first member of that name, or the number of members. */
  function FindMember(ms: seq<Member>, name: string, caseSensitive: bool): (i: nat)
    ensures i <= |ms|
    ensures i < |ms| ==> CompareStrings(name, ms[i].key, caseSensitive) == 0
    ensures forall k :: 0 <= k < i ==> CompareStrings(name, ms[k].key, caseSensitive) != 0
  {
    if ms == [] || CompareStrings(name, ms[0].key, caseSensitive) == 0 then 0
      else 1 + FindMember(ms[1..], name, caseSensitive)
  }

  /** The object after the member of that name is gone, if there was one. */
  function Cleared(j: Json, t: string, caseSensitive: bool): Json
    requires j.Object?
  {
    var i := FindMember(j.members, t, caseSensitive);
    if i == |j.members| then j else DetachMember(j, i)
  }

  function Lookup(j: Json, name: string, caseSensitive: bool): Option<Json> {
    if !j.Object? then None
    else
      var i := FindMember(j.members, name, caseSensitive);
      if i == |j.members| then None else Some(j.members[i].value)
  }

  // ----- comparison -----

  /** Equality of trees, members compared in sorted order. */
  predicate CompareJson(a: Json, b: Json, caseSensitive: bool)
    decreases a, 1, 0
  {
    Tag(a) == Tag(b) &&
    match a
    case Number(n) => n == b.n
    case String(s) => StrCmp(s, b.s) == 0
    case Array(items) => CompareItems(items, b.items, caseSensitive, a)
    case Object(ms, _) =>
      SortedChildren(a, caseSensitive);
      CompareMembers(Sort(ms, caseSensitive), Sort(b.members, caseSensitive), caseSensitive, a)
    case _ => true
  }

  predicate CompareItems(a: seq<Json>, b: seq<Json>, caseSensitive: bool, ghost whole: Json)
    requires forall i :: 0 <= i < |a| ==> a[i] < whole
    decreases whole, 0, |a|
  {
    if a == [] || b == [] then a == [] && b == []
    else CompareJson(a[0], b[0], caseSensitive) && CompareItems(a[1..], b[1..], caseSensitive, whole)
  }

  predicate CompareMembers(a: seq<Member>, b: seq<Member>, caseSensitive: bool, ghost whole: Json)
    requires forall i :: 0 <= i < |a| ==> a[i].value < whole
    decreases whole, 0, |a|
  {
    if a == [] || b == [] then a == [] && b == []
    else
      && CompareStrings(a[0].key, b[0].key, caseSensitive) == 0
      && CompareJson(a[0].value, b[0].value, caseSensitive)
      && CompareMembers(a[1..], b[1..], caseSensitive, whole)
  }

  lemma SortedChildren(j: Json, caseSensitive: bool)
    requires j.Object?
    ensures forall i :: 0 <= i < |Sort(j.members, caseSensitive)| ==> Sort(j.members, caseSensitive)[i].value < j
  {
    var s := Sort(j.members, caseSensitive);
    forall i | 0 <= i < |s|
      ensures s[i].value < j
    {
      MembersPermuted(s, j.members);
      var k :| 0 <= k < |j.members| && j.members[k] == s[i];
      assert j.members[k].value < j;
    }
  }

  /** What comparing leaves of the first tree: every object it reaches is sorted in place, up to the first difference. */
  function Compared(a: Json, b: Json, caseSensitive: bool): Json
    decreases a, 1, 0
  {
    if Tag(a) != Tag(b) then a
    else
      match a
      case Array(items) => Array(ComparedItems(items, b.items, caseSensitive, a))
      case Object(ms, tail) =>
        SortedChildren(a, caseSensitive);
        Object(ComparedMembers(Sort(ms, caseSensitive), Sort(b.members, caseSensitive), caseSensitive, a),
               SortTail(ms, tail, caseSensitive))
      case _ => a
  }

  function ComparedItems(a: seq<Json>, b: seq<Json>, caseSensitive: bool, ghost whole: Json): seq<Json>
    requires forall i :: 0 <= i < |a| ==> a[i] < whole
    decreases whole, 0, |a|
  {
    if a == [] || b == [] then a
    else
      [Compared(a[0], b[0], caseSensitive)]
      + if CompareJson(a[0], b[0], caseSensitive) then ComparedItems(a[1..], b[1..], caseSensitive, whole) else a[1..]
  }

  function ComparedMembers(a: seq<Member>, b: seq<Member>, caseSensitive: bool, ghost whole: Json): seq<Member>
    requires forall i :: 0 <= i < |a| ==> a[i].value < whole
    decreases whole, 0, |a|
  {
    if a == [] || b == [] || CompareStrings(a[0].key, b[0].key, caseSensitive) != 0 then a
    else
      [Member(a[0].key, Compared(a[0].value, b[0].value, caseSensitive))]
      + if CompareJson(a[0].value, b[0].value, caseSensitive) then ComparedMembers(a[1..], b[1..], caseSensitive, whole)
        else a[1..]
  }

  // ----- splitting a path -----

  function LastSlash(path: string): (r: Option<nat>)
    ensures r.Some? ==> r.value < |path| && path[r.value] == '/' && forall k :: r.value < k < |path| ==> path[k] != '/'
    ensures r.None? ==> '/' !in path
  {
    if path == [] then None
    else if path[|path| - 1] == '/' then Some(|path| - 1)
    else LastSlash(path[..|path| - 1])
  }

  // ----- operations -----

  datatype Detached = NotFound | Detached(item: Json, rest: Json)

  /** Takes a child out of a node; an object's member is matched without case. */
  function DetachChild(node: Json, child: string): Detached {
    match node
    case Array(items) =>
      var index := DecodeIndex(child);
      if index.None? || index.value >= |items| then NotFound
      else Detached(items[index.value], Array(items[..index.value] + items[index.value + 1..]))
    case Object(ms, _) =>
      var i := FindMember(ms, child, false);
      if i == |ms| then NotFound else Detached(ms[i].value, DetachMember(node, i))
    case _ => NotFound
  }

  /** Gives a node a child: appended or inserted in an array, in place of the member of that name in an object. The
      object's append reports success even when the member goes nowhere. */
  function AddChild(node: Json, child: string, value: Json, caseSensitive: bool): (nat, Json) {
    match node
    case Array(items) =>
      if child == "-" then (0, Array(items + [value]))
      else
        var index := DecodeIndex(child);
        if index.None? then (11, node)
        else if index.value > |items| then (10, node)
        else (0, Array(items[..index.value] + [value] + items[index.value..]))
    case Object(_, _) =>
      (0, AppendMember(Cleared(node, child, caseSensitive), Member(child, value)))
    case _ => (9, node)
  }

  /** Takes the item at a path out of the tree. */
  function DetachPath(root: Json, path: string, caseSensitive: bool): Detached {
    var slash := LastSlash(path);
    if slash.None? then NotFound
    else
      var parent := Resolve(root, path[..slash.value], caseSensitive);
      if parent.None? then NotFound
      else
        var d := DetachChild(Get(root, parent.value), DecodeToken(path[slash.value + 1..]));
        if d.NotFound? then NotFound else Detached(d.item, Put(root, parent.value, d.rest))
  }

  /** Puts a value at a path. */
  function AddAt(root: Json, path: string, value: Json, caseSensitive: bool): (nat, Json) {
    var slash := LastSlash(path);
    if slash.None? then (9, root)
    else
      var parent := Resolve(root, path[..slash.value], caseSensitive);
      if parent.None? then (9, root)
      else
        var (status, node) := AddChild(Get(root, parent.value), DecodeToken(path[slash.value + 1..]), value,
          caseSensitive);
        if status != 0 then (status, root) else (0, Put(root, parent.value, node))
  }

  datatype Operation = InvalidOp | Add | Remove | Replace | Move | Copy | Test

  function OperationOf(name: string): Operation {
    if StrCmp(name, "add") == 0 then Add
    else if StrCmp(name, "remove") == 0 then Remove
    else if StrCmp(name, "replace") == 0 then Replace
    else if StrCmp(name, "move") == 0 then Move
    else if StrCmp(name, "copy") == 0 then Copy
    else if StrCmp(name, "test") == 0 then Test
    else InvalidOp
  }

  function DecodeOperation(patch: Json, caseSensitive: bool): Operation {
    var op := Lookup(patch, "op", caseSensitive);
    if op.None? || !op.value.String? then InvalidOp else OperationOf(op.value.s)
  }

  function AddValue(root: Json, path: string, patch: Json, caseSensitive: bool): (nat, Json) {
    var value := Lookup(patch, "value", caseSensitive);
    if value.None? then (7, root) else AddAt(root, path, Duplicate(value.value), caseSensitive)
  }

  /** One operation: its status, 0 for success, and the tree it leaves, also when it fails half way. */
  function ApplyPatch(root: Json, patch: Json, caseSensitive: bool): (nat, Json) {
    var path := Lookup(patch, "path", caseSensitive);
    if path.None? || !path.value.String? then (2, root)
    else
      var p := path.value.s;
      match DecodeOperation(patch, caseSensitive)
      case InvalidOp => (3, root)
      case Test =>
        var item := Resolve(root, p, caseSensitive);
        var value := Lookup(patch, "value", caseSensitive);
        if item.None? || value.None? then (1, root)
        else
          var target := Get(root, item.value);
          (if CompareJson(target, value.value, caseSensitive) then 0 else 1,
           Put(root, item.value, Compared(target, value.value, caseSensitive)))
      case Remove =>
        if p == [] then (0, Invalid)
        else
          var detached := DetachPath(root, p, caseSensitive);
          if detached.NotFound? then (13, root) else (0, detached.rest)
      case Replace =>
        if p == [] then
          var value := Lookup(patch, "value", caseSensitive);
          if value.None? then (7, root) else (0, Duplicate(value.value))
        else
          var detached := DetachPath(root, p, caseSensitive);
          if detached.NotFound? then (13, root) else AddValue(detached.rest, p, patch, caseSensitive)
      case Add =>
        if p == [] then
          var value := Lookup(patch, "value", caseSensitive);
          if value.None? then (7, root) else (0, Duplicate(value.value))
        else AddValue(root, p, patch, caseSensitive)
      case Move =>
        var from := Lookup(patch, "from", caseSensitive);
        if from.None? then (4, root)
        else
          var detached := if from.value.String? then DetachPath(root, from.value.s, caseSensitive) else NotFound;
          if detached.NotFound? then (5, root) else AddAt(detached.rest, p, detached.item, caseSensitive)
      case Copy =>
        var from := Lookup(patch, "from", caseSensitive);
        if from.None? then (4, root)
        else
          var item := if from.value.String? then Resolve(root, from.value.s, caseSensitive) else None;
          if item.None? then (5, root) else AddAt(root, p, Duplicate(Get(root, item.value)), caseSensitive)
  }

  /** Operations in order, up to the first that fails. */
  function ApplyAll(root: Json, patches: seq<Json>, caseSensitive: bool): (nat, Json)
    decreases |patches|
  {
    if patches == [] then (0, root)
    else
      var (status, next) := ApplyPatch(root, patches[0], caseSensitive);
      if status != 0 then (status, next) else ApplyAll(next, patches[1..], caseSensitive)
  }

  /** The loop over a patch document; anything but an array is malformed. */
  method ApplyPatches(root: Json, patches: Json, caseSensitive: bool) returns (status: nat, result: Json)
    ensures !patches.Array? ==> status == 1 && result == root
    ensures patches.Array? ==> (status, result) == ApplyAll(root, patches.items, caseSensitive)
  {
    if !patches.Array? {
      return 1, root;
    }
    hide ApplyPatch;
    result := root;
    var i := 0;
    while i < |patches.items|
      invariant i <= |patches.items|
      invariant ApplyAll(root, patches.items, caseSensitive) == ApplyAll(result, patches.items[i..], caseSensitive)
    {
      var outcome := ApplyPatch(result, patches.items[i], caseSensitive);
      status, result := outcome.0, outcome.1;
      if status != 0 {
        return;
      }
      assert patches.items[i..][1..] == patches.items[i + 1..];
      i := i + 1;
    }
    status := 0;
  }
}
