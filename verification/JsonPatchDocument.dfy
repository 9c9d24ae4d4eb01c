/** A whole JSON Patch document: the operations of RFC 6902 on values, one after the other, up to the first that fails. */
module JsonPatchDocument {
  import opened Basics
  import opened Json
  import opened JsonToken
  import opened JsonPointer
  import opened JsonPatch
  import opened JsonPatchMeaning

  /** An operation as section 4 of RFC 6902 describes it; pointers are sequences of tokens. */
  datatype Op =
    | AddTo(tokens: seq<string>, x: Value)
    | RemoveFrom(tokens: seq<string>)
    | ReplaceAt(tokens: seq<string>, x: Value)
    | MoveTo(source: seq<string>, tokens: seq<string>)
    | CopyTo(source: seq<string>, tokens: seq<string>)

  function Front(tokens: seq<string>): seq<string> {
    if tokens == [] then [] else tokens[..|tokens| - 1]
  }

  function Last(tokens: seq<string>): string {
    if tokens == [] then [] else tokens[|tokens| - 1]
  }

  function VReplace(v: Value, tokens: seq<string>, x: Value): Option<Value> {
    if VGet(v, tokens).None? then None else Some(VSet(v, tokens, x))
  }

  /** Taking an item out and adding it where the path leads afterwards. */
  function VMove(v: Value, source: seq<string>, tokens: seq<string>): Option<Value> {
    var item, rest := VGet(v, source), VRemoveAt(v, Front(source), Last(source));
    if item.None? || rest.None? then None else VAddAt(rest.value, Front(tokens), Last(tokens), item.value)
  }

  function VCopy(v: Value, source: seq<string>, tokens: seq<string>): Option<Value> {
    var item := VGet(v, source);
    if item.None? then None else VAddAt(v, Front(tokens), Last(tokens), item.value)
  }

  function VApply(v: Value, op: Op): Option<Value> {
    match op
    case AddTo(tokens, x) => if tokens == [] then Some(x) else VAddAt(v, Front(tokens), Last(tokens), x)
    case RemoveFrom(tokens) => VRemoveAt(v, Front(tokens), Last(tokens))
    case ReplaceAt(tokens, x) => VReplace(v, tokens, x)
    case MoveTo(source, tokens) => VMove(v, source, tokens)
    case CopyTo(source, tokens) => VCopy(v, source, tokens)
  }

  /** The document as a whole: nothing, if one of its operations fails. */
  function VApplyAll(v: Value, ops: seq<Op>): Option<Value>
    decreases |ops|
  {
    if ops == [] then Some(v)
    else
      var next := VApply(v, ops[0]);
      if next.None? then None else VApplyAll(next.value, ops[1..])
  }

  // ----- how a document says it, and where it is understood -----

  predicate Points(patch: Json, name: string, tokens: seq<string>, caseSensitive: bool) {
    TokensOf(tokens) && Lookup(patch, name, caseSensitive) == Some(String(Render(tokens)))
  }

  ghost predicate Gives(patch: Json, x: Value, caseSensitive: bool) {
    var value := Lookup(patch, "value", caseSensitive);
    value.Some? && Good(value.value) && ValueOf(value.value) == x
  }

  /** A member of the document says an operation. */
  ghost predicate Says(patch: Json, op: Op, caseSensitive: bool) {
    match op
    case AddTo(tokens, x) =>
      DecodeOperation(patch, caseSensitive) == Add && Points(patch, "path", tokens, caseSensitive) && Gives(patch, x, caseSensitive)
    case RemoveFrom(tokens) =>
      DecodeOperation(patch, caseSensitive) == Remove && Points(patch, "path", tokens, caseSensitive)
    case ReplaceAt(tokens, x) =>
      DecodeOperation(patch, caseSensitive) == Replace && Points(patch, "path", tokens, caseSensitive) && Gives(patch, x, caseSensitive)
    case MoveTo(source, tokens) =>
      && DecodeOperation(patch, caseSensitive) == Move
      && Points(patch, "from", source, caseSensitive) && Points(patch, "path", tokens, caseSensitive)
    case CopyTo(source, tokens) =>
      && DecodeOperation(patch, caseSensitive) == Copy
      && Points(patch, "from", source, caseSensitive) && Points(patch, "path", tokens, caseSensitive)
  }

  /** A pointer to something below the root that a change is made at. */
  ghost predicate Changeable(v: Value, tokens: seq<string>, caseSensitive: bool) {
    tokens != [] && Carried(Last(tokens)) && UnderstoodAt(v, Front(tokens), Last(tokens), caseSensitive)
  }

  /** The pointers of the operation mean to the library what they mean to RFC 6901. */
  ghost predicate Clear(v: Value, op: Op, caseSensitive: bool) {
    match op
    case AddTo(tokens, _) => tokens == [] || Changeable(v, tokens, caseSensitive)
    case RemoveFrom(tokens) => Changeable(v, tokens, caseSensitive)
    case ReplaceAt(tokens, _) => tokens == [] || Changeable(v, tokens, caseSensitive)
    case MoveTo(source, tokens) =>
      var rest := VRemoveAt(v, Front(source), Last(source));
      Changeable(v, source, caseSensitive) && tokens != [] && Carried(Last(tokens))
      && (rest.Some? ==> Changeable(rest.value, tokens, caseSensitive))
    case CopyTo(source, tokens) => Understood(v, source, caseSensitive) && Changeable(v, tokens, caseSensitive)
  }

  ghost predicate AllClear(v: Value, ops: seq<Op>, caseSensitive: bool)
    decreases |ops|
  {
    ops == [] ||
    (Clear(v, ops[0], caseSensitive)
     && (VApply(v, ops[0]).Some? ==> AllClear(VApply(v, ops[0]).value, ops[1..], caseSensitive)))
  }

  // ----- one operation -----

  /** The library does what the operation says: the same success, and the same value after it. */
  ghost predicate Does(root: Json, patch: Json, v: Option<Value>, caseSensitive: bool) {
    var (status, r) := ApplyPatch(root, patch, caseSensitive);
    (status == 0 <==> v.Some?) && (status == 0 ==> Good(r) && Intact(r) && ValueOf(r) == v.value)
  }

  lemma DoesOperation(root: Json, patch: Json, op: Op, caseSensitive: bool)
    requires Good(root) && Intact(root) && Says(patch, op, caseSensitive) && Clear(ValueOf(root), op, caseSensitive)
    ensures Does(root, patch, VApply(ValueOf(root), op), caseSensitive)
  {
    hide UnderstoodAt, Understood, VGet, VSet, VRemoveAt, VAddAt, Carried, Good, Intact, Lookup, DecodeOperation, Does,
         ValueOf,
         Render;
    match op
    case AddTo(tokens, x) => DoesAdd(root, patch, tokens, x, caseSensitive);
    case RemoveFrom(tokens) => DoesRemove(root, patch, tokens, caseSensitive);
    case ReplaceAt(tokens, x) => DoesReplace(root, patch, tokens, x, caseSensitive);
    case MoveTo(source, tokens) => DoesMove(root, patch, source, tokens, caseSensitive);
    case CopyTo(source, tokens) => DoesCopy(root, patch, source, tokens, caseSensitive);
  }

  /** A path is its parent's and the last token. */
  lemma PathOf(tokens: seq<string>)
    requires tokens != [] && TokensOf(tokens)
    ensures tokens == Front(tokens) + [Last(tokens)] && TokensOf(Front(tokens))
    ensures Render(tokens) == PathTo(Front(tokens), Last(tokens)) && Render(tokens) != []
  {
    FrontOf(tokens);
    hide Render;
  }

  lemma DoesAdd(root: Json, patch: Json, tokens: seq<string>, x: Value, caseSensitive: bool)
    requires Good(root) && Intact(root) && Says(patch, AddTo(tokens, x), caseSensitive)
    requires Clear(ValueOf(root), AddTo(tokens, x), caseSensitive)
    ensures Does(root, patch, VApply(ValueOf(root), AddTo(tokens, x)), caseSensitive)
  {
    var y := Lookup(patch, "value", caseSensitive).value;
    if tokens == [] {
      NoTokens(ValueOf(root), x);
    } else {
      PathOf(tokens);
    }
    hide UnderstoodAt, Understood, VAddAt, Carried, Good, Intact, Lookup, DecodeOperation, ValueOf, Render, ApplyPatch,
         TokensOf;
    AddsAt(root, patch, tokens, y, caseSensitive);
  }

  lemma AddsAt(root: Json, patch: Json, tokens: seq<string>, y: Json, caseSensitive: bool)
    requires Good(root) && Intact(root) && Good(y) && DecodeOperation(patch, caseSensitive) == Add
    requires Points(patch, "path", tokens, caseSensitive) && Lookup(patch, "value", caseSensitive) == Some(y)
    requires tokens == [] || Changeable(ValueOf(root), tokens, caseSensitive)
    ensures var (status, r) := ApplyPatch(root, patch, caseSensitive);
            var v := if tokens == [] then Some(ValueOf(y))
              else VAddAt(ValueOf(root), Front(tokens), Last(tokens), ValueOf(y));
            (status == 0 <==> v.Some?) && (status == 0 ==> Good(r) && Intact(r) && ValueOf(r) == v.value)
  {
    assert Points(patch, "path", tokens, caseSensitive) ==>
             TokensOf(tokens) && Lookup(patch, "path", caseSensitive) == Some(String(Render(tokens)));
    assert tokens == [] || (Carried(Last(tokens))
           && UnderstoodAt(ValueOf(root), Front(tokens), Last(tokens), caseSensitive));
    AddRootStep(root, patch, y, caseSensitive);
    hide *;
    DuplicateSame(y);
    if tokens == [] {
      NoTokens(ValueOf(root), ValueOf(y));
    } else {
      PathOf(tokens);
      AddStep(root, patch, Render(tokens), y, caseSensitive);
      AddRefines(root, Front(tokens), Last(tokens), Duplicate(y), caseSensitive);
    }
  }

  lemma AddRootStep(root: Json, patch: Json, y: Json, caseSensitive: bool)
    requires DecodeOperation(patch, caseSensitive) == Add && Lookup(patch, "value", caseSensitive) == Some(y)
    ensures Lookup(patch, "path", caseSensitive) == Some(String("")) ==>
              ApplyPatch(root, patch, caseSensitive) == (0, Duplicate(y))
  {
    hide Lookup, DecodeOperation;
  }

  lemma DoesRemove(root: Json, patch: Json, tokens: seq<string>, caseSensitive: bool)
    requires Good(root) && Intact(root) && Says(patch, RemoveFrom(tokens), caseSensitive)
    requires Clear(ValueOf(root), RemoveFrom(tokens), caseSensitive)
    ensures Does(root, patch, VApply(ValueOf(root), RemoveFrom(tokens)), caseSensitive)
  {
    hide UnderstoodAt, VRemoveAt, VGet, Carried, Good, Intact, Lookup, DecodeOperation, ValueOf, DetachPath, Render;
    PathOf(tokens);
    RemoveStep(root, patch, Render(tokens), caseSensitive);
    DetachRefines(root, Front(tokens), Last(tokens), caseSensitive);
  }

  lemma DoesReplace(root: Json, patch: Json, tokens: seq<string>, x: Value, caseSensitive: bool)
    requires Good(root) && Intact(root) && Says(patch, ReplaceAt(tokens, x), caseSensitive)
    requires Clear(ValueOf(root), ReplaceAt(tokens, x), caseSensitive)
    ensures Does(root, patch, VApply(ValueOf(root), ReplaceAt(tokens, x)), caseSensitive)
  {
    var y := Lookup(patch, "value", caseSensitive).value;
    if tokens == [] {
      NoTokens(ValueOf(root), x);
    } else {
      PathOf(tokens);
    }
    hide UnderstoodAt, Understood, VGet, VSet, Carried, Good, Intact, Lookup, DecodeOperation, ValueOf, Render,
         ApplyPatch,
         TokensOf;
    ReplacesAt(root, patch, tokens, y, caseSensitive);
  }

  lemma ReplacesAt(root: Json, patch: Json, tokens: seq<string>, y: Json, caseSensitive: bool)
    requires Good(root) && Intact(root) && Good(y) && DecodeOperation(patch, caseSensitive) == Replace
    requires Points(patch, "path", tokens, caseSensitive) && Lookup(patch, "value", caseSensitive) == Some(y)
    requires tokens == [] || Changeable(ValueOf(root), tokens, caseSensitive)
    ensures var (status, r) := ApplyPatch(root, patch, caseSensitive);
            && (status == 0 <==> VGet(ValueOf(root), tokens).Some?)
            && (status == 0 ==> Good(r) && Intact(r) && ValueOf(r) == VSet(ValueOf(root), tokens, ValueOf(y)))
  {
    assert Points(patch, "path", tokens, caseSensitive) ==>
             TokensOf(tokens) && Lookup(patch, "path", caseSensitive) == Some(String(Render(tokens)));
    assert tokens == [] || (Carried(Last(tokens))
           && UnderstoodAt(ValueOf(root), Front(tokens), Last(tokens), caseSensitive));
    hide *;
    DuplicateSame(y);
    ReplaceStep(root, patch, Render(tokens), y, caseSensitive);
    if tokens == [] {
      NoTokens(ValueOf(root), ValueOf(y));
    } else {
      PathOf(tokens);
      ReplaceBelow(root, Front(tokens), Last(tokens), Duplicate(y), caseSensitive);
    }
  }

  lemma DoesMove(root: Json, patch: Json, source: seq<string>, tokens: seq<string>, caseSensitive: bool)
    requires Good(root) && Intact(root) && Says(patch, MoveTo(source, tokens), caseSensitive)
    requires Clear(ValueOf(root), MoveTo(source, tokens), caseSensitive)
    ensures Does(root, patch, VApply(ValueOf(root), MoveTo(source, tokens)), caseSensitive)
  {
    hide UnderstoodAt, VGet, VRemoveAt, VAddAt, Carried, Good, Intact, Lookup, DecodeOperation, ValueOf, Render,
         ApplyPatch;
    PathOf(source);
    PathOf(tokens);
    ApplyMove(root, patch, Front(source), Last(source), Front(tokens), Last(tokens), caseSensitive);
  }

  lemma DoesCopy(root: Json, patch: Json, source: seq<string>, tokens: seq<string>, caseSensitive: bool)
    requires Good(root) && Intact(root) && Says(patch, CopyTo(source, tokens), caseSensitive)
    requires Clear(ValueOf(root), CopyTo(source, tokens), caseSensitive)
    ensures Does(root, patch, VApply(ValueOf(root), CopyTo(source, tokens)), caseSensitive)
  {
    hide UnderstoodAt, Understood, VGet, VAddAt, Carried, Good, Intact, Lookup, DecodeOperation, ValueOf, Render,
         ApplyPatch;
    PathOf(tokens);
    ApplyCopy(root, patch, source, Front(tokens), Last(tokens), caseSensitive);
  }

  // ----- the document -----

  /**
   * Applying a document without tests to a tree that can be appended to is applying its operations to the value, in order:
   * it succeeds exactly if each of them does, and then leaves the value they lead to.
   */
  lemma {:induction false} DocumentApplied(root: Json, patches: seq<Json>, ops: seq<Op>, caseSensitive: bool)
    requires Good(root) && Intact(root) && |patches| == |ops|
    requires forall i :: 0 <= i < |ops| ==> Says(patches[i], ops[i], caseSensitive)
    requires AllClear(ValueOf(root), ops, caseSensitive)
    ensures var (status, r) := ApplyAll(root, patches, caseSensitive);
            var v := VApplyAll(ValueOf(root), ops);
            && (status == 0 <==> v.Some?)
            && (status == 0 ==> Good(r) && Intact(r) && ValueOf(r) == v.value)
    decreases |ops|
  {
    hide Says, Clear, Good, Intact, ValueOf, ApplyPatch, VApply;
    if ops != [] {
      DoesOperation(root, patches[0], ops[0], caseSensitive);
      var (status, next) := ApplyPatch(root, patches[0], caseSensitive);
      if status == 0 {
        DocumentApplied(next, patches[1..], ops[1..], caseSensitive);
      }
    }
  }
}
