/** Tokens of JSON pointers: escaping a name, and unescaping it inside its own buffer. */
module JsonToken {
  import opened Json

  /** A name that a pointer carries without an escape. */
  predicate PlainToken(t: string) {
    Terminated(t) && '~' !in t && '/' !in t
  }

  /** A name as a token of a pointer (section 3 of RFC 6901). */
  function EncodeToken(s: string): string {
    if s == [] then []
    else (if s[0] == '/' then "~1" else if s[0] == '~' then "~0" else [s[0]]) + EncodeToken(s[1..])
  }

  /** The loop that unescapes a token inside its own buffer: it moves no ordinary character. */
  function DecodeLoop(buffer: string, decoded: nat, at: nat): string
    requires decoded <= at <= |buffer|
    decreases |buffer| - at
  {
    if at == |buffer| || buffer[at] == '\0' then buffer[..decoded]
    else if buffer[at] == '~' then
      if at + 1 < |buffer| && buffer[at + 1] == '0' then DecodeLoop(buffer[decoded := '~'], decoded + 1, at + 2)
      else if at + 1 < |buffer| && buffer[at + 1] == '1' then DecodeLoop(buffer[decoded + 1 := '/'], decoded + 1, at + 2)
      else buffer
    else DecodeLoop(buffer, decoded + 1, at + 1)
  }

  function DecodeToken(token: string): string {
    DecodeLoop(token, 0, 0)
  }

  // ----- which names survive -----

  /** The keys whose escaped form is unescaped again: nothing is moved, so every ordinary character must already stand in its place. */
  predicate Decodable(k: string) {
    '/' !in k && forall i :: 0 <= i < |k| && i < |EncodeToken(k)| && k[i] != '~' ==> EncodeToken(k)[i] == k[i]
  }

  lemma {:induction false} EncodedForm(k: string)
    ensures |EncodeToken(k)| >= |k| && '/' !in EncodeToken(k)
    ensures Terminated(k) ==> Terminated(EncodeToken(k))
  {
    if k != [] {
      EncodedForm(k[1..]);
      assert k == [k[0]] + k[1..];
    }
  }

  /** One turn over the escaped form of k from position i. */
  lemma EncodedTurn(b: string, k: string, i: nat, at: nat)
    requires i < |k| && i <= at <= |b| && b[at..] == EncodeToken(k[i..])
    ensures at < |b| && (k[i] == '~' || k[i] == '/' ==> at + 1 < |b| && b[at] == '~' && b[at + 1] == if k[i] == '~' then '0' else '1')
    ensures k[i] != '~' && k[i] != '/' ==> b[at] == k[i]
    ensures var step := if k[i] == '~' || k[i] == '/' then 2 else 1;
            at + step <= |b| && b[at + step..] == EncodeToken(k[i + 1..])
  {
    var e := EncodeToken(k[i..]);
    assert k[i..][1..] == k[i + 1..];
    assert |e| == |b| - at;
    assert b[at] == b[at..][0];
    var step := if k[i] == '~' || k[i] == '/' then 2 else 1;
    assert step == 2 ==> b[at + 1] == b[at..][1];
    assert b[at + step..] == b[at..][step..];
  }

  /** The character that unescaping k in place from position i leaves at j. */
  function LeftAt(b: string, k: string, i: nat, j: nat): char
    requires i <= j < |k| <= |b|
  {
    if k[j] == '~' then '~' else if j > i && k[j - 1] == '/' then '/' else b[j]
  }

  /** What unescaping k in place leaves from position i on. */
  ghost predicate Leaves(r: string, b: string, k: string, i: nat) {
    && |r| == |k| <= |b| && i <= |k| && r[..i] == b[..i]
    && forall j :: i <= j < |k| ==> r[j] == LeftAt(b, k, i, j)
  }

  lemma LeavesTurn(r: string, b: string, next: string, k: string, i: nat)
    requires i < |k| && |next| == |b| && Leaves(r, next, k, i + 1)
    requires k[i] == '/' ==> i + 1 < |b|
    requires next == if k[i] == '~' then b[i := '~'] else if k[i] == '/' then b[i + 1 := '/'] else b
    ensures Leaves(r, b, k, i)
  {
    assert r[i] == r[..i + 1][i] == next[i];
    assert r[..i] == r[..i + 1][..i] == next[..i] == b[..i];
    forall j | i <= j < |k|
      ensures r[j] == LeftAt(b, k, i, j)
    {
      assert j > i ==> r[j] == LeftAt(next, k, i + 1, j);
    }
  }

  lemma {:induction false} DecodeEncodedLoop(b: string, k: string, i: nat, at: nat)
    requires Terminated(k) && i <= |k| && i <= at <= |b| && b[at..] == EncodeToken(k[i..])
    ensures Leaves(DecodeLoop(b, i, at), b, k, i)
    decreases |k| - i
  {
    if i < |k| {
      EncodedTurn(b, k, i, at);
      hide Leaves, EncodeToken;
      var step := if k[i] == '~' || k[i] == '/' then 2 else 1;
      var next := if k[i] == '~' then b[i := '~'] else if k[i] == '/' then b[i + 1 := '/'] else b;
      assert next[at + step..] == b[at + step..];
      DecodeEncodedLoop(next, k, i + 1, at + step);
      LeavesTurn(DecodeLoop(next, i + 1, at + step), b, next, k, i);
      assert DecodeLoop(b, i, at) == DecodeLoop(next, i + 1, at + step);
    } else {
      assert b[at..] == [];
    }
  }

  /** A key survives escaping and unescaping exactly when it is decodable. */
  lemma TokenSurvives(k: string)
    requires Terminated(k)
    ensures DecodeToken(EncodeToken(k)) == k <==> Decodable(k)
  {
    var e := EncodeToken(k);
    EncodedForm(k);
    assert e[0..] == e && k[0..] == k;
    DecodeEncodedLoop(e, k, 0, 0);
    var r := DecodeToken(e);
    hide DecodeLoop, EncodeToken;
    if '/' in k {
      var j := FirstSlash(k);
      assert j > 0 ==> k[j - 1] == k[..j][j - 1] != '/';
      assert r[j] == e[j];
      assert e[j] in e;
    }
  }

  function FirstSlash(k: string): (j: nat)
    requires '/' in k
    ensures j < |k| && k[j] == '/' && '/' !in k[..j]
  {
    if k[0] == '/' then 0 else 1 + FirstSlash(k[1..])
  }

  /** What escapes nothing is what was there. */
  lemma {:induction false} EncodeSame(s: string)
    ensures '~' !in EncodeToken(s) ==> EncodeToken(s) == s
    ensures '~' in EncodeToken(s) <==> '~' in s || '/' in s
  {
    if s != [] {
      EncodeSame(s[1..]);
      assert s == [s[0]] + s[1..];
    }
  }

  /** A name that a path can end in. */
  predicate Carried(t: string) {
    Terminated(t) && Decodable(t)
  }

  /** A plain name is its own token. */
  lemma PlainDecodable(t: string)
    requires PlainToken(t)
    ensures EncodeToken(t) == t && Carried(t)
  {
    EncodeSame(t);
  }
}
