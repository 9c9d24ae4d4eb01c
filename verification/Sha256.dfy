/** SHA-256 (FIPS 180-4): the one-shot definition, and the streaming context that refines it. */
module Sha256 {
  import opened Words

  // ----- sections 4 and 5.3 of FIPS 180-4: functions and constants -----

  const ROUND_CONSTANTS: seq<bv32> :=
    [0x428A2F98, 0x71374491, 0xB5C0FBCF, 0xE9B5DBA5, 0x3956C25B, 0x59F111F1, 0x923F82A4, 0xAB1C5ED5]
    + [0xD807AA98, 0x12835B01, 0x243185BE, 0x550C7DC3, 0x72BE5D74, 0x80DEB1FE, 0x9BDC06A7, 0xC19BF174]
    + [0xE49B69C1, 0xEFBE4786, 0x0FC19DC6, 0x240CA1CC, 0x2DE92C6F, 0x4A7484AA, 0x5CB0A9DC, 0x76F988DA]
    + [0x983E5152, 0xA831C66D, 0xB00327C8, 0xBF597FC7, 0xC6E00BF3, 0xD5A79147, 0x06CA6351, 0x14292967]
    + [0x27B70A85, 0x2E1B2138, 0x4D2C6DFC, 0x53380D13, 0x650A7354, 0x766A0ABB, 0x81C2C92E, 0x92722C85]
    + [0xA2BFE8A1, 0xA81A664B, 0xC24B8B70, 0xC76C51A3, 0xD192E819, 0xD6990624, 0xF40E3585, 0x106AA070]
    + [0x19A4C116, 0x1E376C08, 0x2748774C, 0x34B0BCB5, 0x391C0CB3, 0x4ED8AA4A, 0x5B9CCA4F, 0x682E6FF3]
    + [0x748F82EE, 0x78A5636F, 0x84C87814, 0x8CC70208, 0x90BEFFFA, 0xA4506CEB, 0xBEF9A3F7, 0xC67178F2]

  function InitialState(): (h: seq<bv32>)
    ensures |h| == 8
  {
    [0x6A09E667, 0xBB67AE85, 0x3C6EF372, 0xA54FF53A, 0x510E527F, 0x9B05688C, 0x1F83D9AB, 0x5BE0CD19]
  }

  function Constant(t: nat): bv32
    requires t < 64
  {
    ROUND_CONSTANTS[t]
  }

  function Rotr(x: bv32, n: bv6): bv32
    requires 0 < n < 32
  {
    (x >> n) | (x << (32 - n))
  }

  function BigSigma0(x: bv32): bv32 {
    Rotr(x, 2) ^ Rotr(x, 13) ^ Rotr(x, 22)
  }

  function BigSigma1(x: bv32): bv32 {
    Rotr(x, 6) ^ Rotr(x, 11) ^ Rotr(x, 25)
  }

  function SmallSigma0(x: bv32): bv32 {
    Rotr(x, 7) ^ Rotr(x, 18) ^ (x >> 3)
  }

  function SmallSigma1(x: bv32): bv32 {
    Rotr(x, 17) ^ Rotr(x, 19) ^ (x >> 10)
  }

  function Ch(x: bv32, y: bv32, z: bv32): bv32 {
    (x & y) ^ (!x & z)
  }

  function Maj(x: bv32, y: bv32, z: bv32): bv32 {
    (x & y) ^ (x & z) ^ (y & z)
  }

  function Add(x: bv32, y: bv32): bv32 {
    x + y
  }

  function LoadBe32(b: seq<byte>): bv32
    requires |b| == 4
  {
    ((b[0] as bv32) << 24) | ((b[1] as bv32) << 16) | ((b[2] as bv32) << 8) | (b[3] as bv32)
  }

  function StoreBe32(x: bv32): (b: seq<byte>)
    ensures |b| == 4
  {
    [ByteOf(x >> 24), ByteOf((x >> 16) & 0xFF), ByteOf((x >> 8) & 0xFF), ByteOf(x & 0xFF)]
  }

  /** The low byte of a word. */
  function ByteOf(x: bv32): byte {
    ((x as nat) % 0x100) as byte
  }

  // ----- section 6.2.2: one block -----

  const BLOCK: nat := 64

  datatype Working = Working(a: bv32, b: bv32, c: bv32, d: bv32, e: bv32, f: bv32, g: bv32, h: bv32)

  function BlockWord(block: seq<byte>, t: nat): bv32
    requires |block| == BLOCK && t < 16
  {
    LoadBe32(block[4 * t..4 * t + 4])
  }

  function NextWord(w16: bv32, w15: bv32, w7: bv32, w2: bv32): bv32 {
    Add(Add(Add(w16, SmallSigma0(w15)), w7), SmallSigma1(w2))
  }

  function Schedule(block: seq<byte>, t: nat): bv32
    requires |block| == BLOCK && t < 64
  {
    if t < 16 then BlockWord(block, t)
    else NextWord(Schedule(block, t - 16), Schedule(block, t - 15), Schedule(block, t - 7), Schedule(block, t - 2))
  }

  function Temp1(v: Working, k: bv32, w: bv32): bv32 {
    Add(Add(Add(Add(v.h, BigSigma1(v.e)), Ch(v.e, v.f, v.g)), k), w)
  }

  function Temp2(v: Working): bv32 {
    Add(BigSigma0(v.a), Maj(v.a, v.b, v.c))
  }

  function Round(v: Working, k: bv32, w: bv32): Working {
    var t1 := Temp1(v, k, w);
    Working(Add(t1, Temp2(v)), v.a, v.b, v.c, Add(v.d, t1), v.e, v.f, v.g)
  }

  function Start(h: seq<bv32>): Working
    requires |h| == 8
  {
    Working(h[0], h[1], h[2], h[3], h[4], h[5], h[6], h[7])
  }

  function Rounds(h: seq<bv32>, block: seq<byte>, t: nat): Working
    requires |h| == 8 && |block| == BLOCK && t <= 64
  {
    if t == 0 then Start(h)
    else Round(Rounds(h, block, t - 1), Constant(t - 1), Schedule(block, t - 1))
  }

  function Compress(h: seq<bv32>, block: seq<byte>): (r: seq<bv32>)
    requires |h| == 8 && |block| == BLOCK
    ensures |r| == 8
  {
    var v := Rounds(h, block, 64);
    [Add(h[0], v.a), Add(h[1], v.b), Add(h[2], v.c), Add(h[3], v.d),
     Add(h[4], v.e), Add(h[5], v.f), Add(h[6], v.g), Add(h[7], v.h)]
  }

  // ----- sections 5.1.1 and 6.2: the whole message -----

  function Blocks(h: seq<bv32>, blocks: seq<byte>): (r: seq<bv32>)
    requires |h| == 8 && |blocks| % BLOCK == 0
    ensures |r| == 8
  {
    if blocks == [] then h
    else Compress(Blocks(h, blocks[..|blocks| - BLOCK]), blocks[|blocks| - BLOCK..])
  }

  /** The smallest number of zero bytes that leaves room for the length in the last block. */
  function ZeroBytes(length: nat): (k: nat)
    ensures (length + 1 + k + 8) % BLOCK == 0
    ensures k < BLOCK
  {
    (119 - length % BLOCK) % BLOCK
  }

  function LengthByte(bits: nat, i: nat): byte
    requires i < 8
  {
    match i
    case 0 => (bits % 0x100) as byte
    case 1 => (bits / 0x100 % 0x100) as byte
    case 2 => (bits / 0x1_0000 % 0x100) as byte
    case 3 => (bits / 0x100_0000 % 0x100) as byte
    case 4 => (bits / 0x1_0000_0000 % 0x100) as byte
    case 5 => (bits / 0x100_0000_0000 % 0x100) as byte
    case 6 => (bits / 0x1_0000_0000_0000 % 0x100) as byte
    case 7 => (bits / 0x100_0000_0000_0000 % 0x100) as byte
  }

  function LengthBytes(bits: nat): (b: seq<byte>)
    ensures |b| == 8
    ensures forall i :: 0 <= i < 8 ==> b[7 - i] == LengthByte(bits, i)
  {
    [LengthByte(bits, 7), LengthByte(bits, 6), LengthByte(bits, 5), LengthByte(bits, 4),
     LengthByte(bits, 3), LengthByte(bits, 2), LengthByte(bits, 1), LengthByte(bits, 0)]
  }

  /** The length is kept in 64 bits; for messages under 2^61 bytes that is the length itself. */
  function BitLength(message: seq<byte>): nat {
    8 * |message| % TWO_TO_THE_64
  }

  function Pad(message: seq<byte>): (p: seq<byte>)
    ensures |p| % BLOCK == 0
  {
    message + [0x80] + Fill(0, ZeroBytes(|message|)) + LengthBytes(BitLength(message))
  }

  function StateBytes(h: seq<bv32>): (b: seq<byte>)
    ensures |b| == 4 * |h|
  {
    if h == [] then [] else StateBytes(h[..|h| - 1]) + StoreBe32(h[|h| - 1])
  }

  function Digest(message: seq<byte>): (digest: seq<byte>)
    ensures |digest| == 32
  {
    StateBytes(Blocks(InitialState(), Pad(message)))
  }

  // ----- the streaming context -----

  class Context {
    const state: array<bv32>
    const buffer: array<byte>
    var bitLength: nat
    var bufferLength: nat

    constructor ()
      ensures fresh(state) && fresh(buffer)
      ensures Holds([])
    {
      state := new bv32[8];
      buffer := new byte[BLOCK];
      bitLength := 0;
      bufferLength := 0;
      new;
      Init();
    }

    /** The context has taken in exactly this message. */
    ghost predicate Holds(message: seq<byte>)
      reads this, state, buffer
    {
      Absorbed(message) && bitLength == BitLength(message)
    }

    ghost predicate Absorbed(message: seq<byte>)
      reads this, state, buffer
    {
      && state.Length == 8 && buffer.Length == BLOCK
      && bufferLength == |message| % BLOCK
      && state[..] == Blocks(InitialState(), message[..|message| - bufferLength])
      && buffer[..bufferLength] == message[|message| - bufferLength..]
    }

    method Init()
      requires state.Length == 8 && buffer.Length == BLOCK
      modifies this, state
      ensures Holds([])
    {
      for i := 0 to 8
        modifies state
        invariant forall j :: 0 <= j < i ==> state[j] == InitialState()[j]
      {
        state[i] := InitialState()[i];
      }
      assert state[..] == InitialState();
      bitLength := 0;
      bufferLength := 0;
    }

    method Transform()
      requires state.Length == 8 && buffer.Length == BLOCK
      modifies state
      ensures state[..] == Compress(old(state[..]), buffer[..])
    {
      hide Constant, Temp1, Temp2, Add, Schedule, Blocks;
      ghost var block := buffer[..];
      ghost var before := state[..];
      var schedule := MakeSchedule(buffer[..]);
      var a, b, c, d := state[0], state[1], state[2], state[3];
      var e, f, g, h := state[4], state[5], state[6], state[7];
      for t := 0 to 64
        modifies {}
        invariant Working(a, b, c, d, e, f, g, h) == Rounds(before, block, t)
      {
        var v := Working(a, b, c, d, e, f, g, h);
        var temp1 := Temp1(v, Constant(t), schedule[t]);
        var temp2 := Temp2(v);
        h := g;
        g := f;
        f := e;
        e := Add(d, temp1);
        d := c;
        c := b;
        b := a;
        a := Add(temp1, temp2);
      }
      AddToState(a, b, c, d, e, f, g, h);
      hide Rounds;
    }

    method AddToState(a: bv32, b: bv32, c: bv32, d: bv32, e: bv32, f: bv32, g: bv32, h: bv32)
      requires state.Length == 8
      modifies state
      ensures state[..] == [Add(old(state[0]), a), Add(old(state[1]), b), Add(old(state[2]), c), Add(old(state[3]), d),
                            Add(old(state[4]), e), Add(old(state[5]), f), Add(old(state[6]), g), Add(old(state[7]), h)]
    {
      hide Add;
      var sums := [Add(state[0], a), Add(state[1], b), Add(state[2], c), Add(state[3], d),
                   Add(state[4], e), Add(state[5], f), Add(state[6], g), Add(state[7], h)];
      for i := 0 to 8
        invariant forall j :: 0 <= j < i ==> state[j] == sums[j]
      {
        state[i] := sums[i];
      }
    }

    static method MakeSchedule(block: seq<byte>) returns (schedule: array<bv32>)
      requires |block| == BLOCK
      ensures fresh(schedule) && schedule.Length == 64
      ensures forall t :: 0 <= t < 64 ==> schedule[t] == Schedule(block, t)
    {
      hide BlockWord, NextWord;
      schedule := new bv32[64];
      for t := 0 to 16
        invariant forall j :: 0 <= j < t ==> schedule[j] == Schedule(block, j)
      {
        schedule[t] := BlockWord(block, t);
      }
      for t := 16 to 64
        invariant forall j :: 0 <= j < t ==> schedule[j] == Schedule(block, j)
      {
        schedule[t] := NextWord(schedule[t - 16], schedule[t - 15], schedule[t - 7], schedule[t - 2]);
      }
    }

    /** The body of the update loop: fill the buffer, and compress it when it is full. */
    method Feed(ghost message: seq<byte>, bytes: seq<byte>) returns (copied: nat)
      requires Absorbed(message) && bytes != []
      modifies this`bufferLength, state, buffer
      ensures 0 < copied <= |bytes|
      ensures Absorbed(message + bytes[..copied])
    {
      hide Compress, Blocks, InitialState;
      var available := BLOCK - bufferLength;
      copied := if |bytes| < available then |bytes| else available;
      var start := bufferLength;
      ghost var whole := message[..|message| - start];
      CopyIn(start, bytes[..copied]);
      bufferLength := bufferLength + copied;
      ghost var m := message + bytes[..copied];
      Joined(message, start, bytes[..copied], buffer[..bufferLength]);
      if bufferLength == BLOCK {
        Transform();
        assert buffer[..BLOCK] == buffer[..];
        BlocksAppend(InitialState(), whole, buffer[..]);
        bufferLength := 0;
        assert m[..|m| - 0] == m;
      } else {
        assert m[..|m| - bufferLength] == whole;
      }
    }

    method CopyIn(start: nat, bytes: seq<byte>)
      requires start + |bytes| <= buffer.Length
      modifies buffer
      ensures buffer[..start + |bytes|] == old(buffer[..start]) + bytes
    {
      for i := 0 to |bytes|
        invariant buffer[..start + i] == old(buffer[..start]) + bytes[..i]
      {
        buffer[start + i] := bytes[i];
      }
    }

    method FeedAll(ghost message: seq<byte>, data: seq<byte>)
      requires Absorbed(message)
      modifies this`bufferLength, state, buffer
      ensures Absorbed(message + data)
    {
      hide Blocks, Compress, InitialState;
      var done := 0;
      assert message + data[..0] == message;
      while done < |data|
        invariant done <= |data|
        invariant Absorbed(message + data[..done])
      {
        var copied := Feed(message + data[..done], data[done..]);
        assert message + data[..done] + data[done..][..copied] == message + data[..done + copied];
        done := done + copied;
      }
      assert message + data[..done] == message + data;
    }

    method Update(ghost message: seq<byte>, data: seq<byte>)
      requires Holds(message)
      modifies this, state, buffer
      ensures Holds(message + data)
    {
      bitLength := (bitLength + 8 * |data|) % TWO_TO_THE_64;
      BitLengthAdds(message, data);
      hide BitLength, Blocks, Compress, InitialState;
      FeedAll(message, data);
    }

    method Finish(ghost message: seq<byte>) returns (digest: seq<byte>)
      requires Holds(message)
      modifies this, state, buffer
      ensures digest == Digest(message)
    {
      hide Compress, Blocks, BitLength, LengthByte, LengthBytes, ZeroBytes, StateBytes, InitialState, Digest, Pad;
      ghost var tail := message[|message| - bufferLength..];
      ghost var whole := message[..|message| - bufferLength];
      var index := PadTail(whole, tail);
      ghost var done := if |tail| + 1 > 56 then whole + (tail + [0x80] + Fill(0, BLOCK - |tail| - 1)) else whole;
      ghost var rest := if |tail| + 1 > 56 then [] else tail + [0x80];
      PutLength();
      ghost var last := rest + Fill(0, 56 - index) + LengthBytes(bitLength);
      LastBlock(buffer[..], last, index, bitLength);
      Transform();
      PaddedInBlocks(message, whole, tail, done, last);
      DigestOfBlocks(message, done, last);
      digest := StateDigest();
    }

    /** The 0x80 byte, and the extra block when the length does not fit behind it. */
    method PadTail(ghost whole: seq<byte>, ghost tail: seq<byte>) returns (index: nat)
      requires state.Length == 8 && buffer.Length == BLOCK
      requires bufferLength == |tail| < BLOCK && |whole| % BLOCK == 0
      requires buffer[..bufferLength] == tail
      requires state[..] == Blocks(InitialState(), whole)
      modifies state, buffer
      ensures index == if |tail| + 1 > 56 then 0 else |tail| + 1
      ensures buffer[..index] == if |tail| + 1 > 56 then [] else tail + [0x80]
      ensures |tail| + 1 > 56 ==> (|whole + (tail + [0x80] + Fill(0, BLOCK - |tail| - 1))|) % BLOCK == 0
      ensures state[..] == Blocks(InitialState(), if |tail| + 1 > 56
                                  then whole + (tail + [0x80] + Fill(0, BLOCK - |tail| - 1)) else whole)
      ensures forall j :: index <= j < 56 ==> buffer[j] == 0
    {
      hide Compress, Blocks, InitialState;
      index := bufferLength;
      buffer[index] := 0x80;
      index := index + 1;
      assert buffer[..index] == tail + [0x80];
      if index > 56 {
        Clear(index, BLOCK);
        Transform();
        ghost var block := tail + [0x80] + Fill(0, BLOCK - index);
        assert buffer[..] == block;
        BlocksAppend(InitialState(), whole, block);
        index := 0;
      }
      Clear(index, 56);
    }

    method PutLength()
      requires buffer.Length == BLOCK
      modifies buffer
      ensures buffer[..56] == old(buffer[..56])
      ensures forall j :: 0 <= j < 8 ==> buffer[63 - j] == LengthByte(bitLength, j)
    {
      hide LengthByte;
      for i := 0 to 8
        invariant buffer[..56] == old(buffer[..56])
        invariant forall j :: 0 <= j < i ==> buffer[63 - j] == LengthByte(bitLength, j)
      {
        buffer[63 - i] := LengthByte(bitLength, i);
      }
    }

    method StateDigest() returns (digest: seq<byte>)
      requires state.Length == 8
      ensures digest == StateBytes(state[..])
    {
      hide StoreBe32;
      digest := [];
      for i := 0 to 8
        invariant digest == StateBytes(state[..i])
      {
        assert state[..i + 1][..i] == state[..i];
        digest := digest + StoreBe32(state[i]);
      }
      assert state[..8] == state[..];
    }

    method Clear(from: nat, to: nat)
      requires buffer.Length == BLOCK && from <= to <= BLOCK
      modifies buffer
      ensures buffer[..from] == old(buffer[..from])
      ensures forall j :: from <= j < to ==> buffer[j] == 0
    {
      for i := from to to
        modifies buffer
        invariant buffer[..from] == old(buffer[..from])
        invariant forall j :: from <= j < i ==> buffer[j] == 0
      {
        buffer[i] := 0;
      }
    }
  }

  /** What is held in the buffer, with more taken in. */
  lemma Joined(message: seq<byte>, start: nat, more: seq<byte>, held: seq<byte>)
    requires start <= |message| && held == message[|message| - start..] + more
    ensures message + more == message[..|message| - start] + held
    ensures |message| % BLOCK == start && |held| < BLOCK ==> |message + more| % BLOCK == |held|
    ensures |message| % BLOCK == start && |held| == BLOCK ==> |message + more| % BLOCK == 0
    ensures |message| % BLOCK == start ==> |message[..|message| - start]| % BLOCK == 0
  {
  }

  lemma LastBlock(buffer: seq<byte>, last: seq<byte>, index: nat, bits: nat)
    requires |buffer| == BLOCK && index <= 56
    requires last == buffer[..index] + Fill(0, 56 - index) + LengthBytes(bits)
    requires forall j :: index <= j < 56 ==> buffer[j] == 0
    requires forall j :: 0 <= j < 8 ==> buffer[63 - j] == LengthByte(bits, j)
    ensures buffer == last
  {
    forall k | 0 <= k < BLOCK
      ensures buffer[k] == last[k]
    {
      if k >= 56 {
        assert last[k] == LengthBytes(bits)[7 - (63 - k)];
        assert buffer[63 - (63 - k)] == LengthByte(bits, 63 - k);
      }
    }
  }

  lemma BlocksAppend(h: seq<bv32>, blocks: seq<byte>, block: seq<byte>)
    requires |h| == 8 && |blocks| % BLOCK == 0 && |block| == BLOCK
    ensures Blocks(h, blocks + block) == Compress(Blocks(h, blocks), block)
  {
    hide Compress;
    var all := blocks + block;
    assert all[..|all| - BLOCK] == blocks && all[|all| - BLOCK..] == block;
  }

  lemma DigestOfBlocks(message: seq<byte>, done: seq<byte>, last: seq<byte>)
    requires |done| % BLOCK == 0 && |last| == BLOCK && done + last == Pad(message)
    ensures Digest(message) == StateBytes(Compress(Blocks(InitialState(), done), last))
  {
    hide InitialState, Compress, Pad, StateBytes;
    BlocksAppend(InitialState(), done, last);
  }

  lemma BitLengthAdds(message: seq<byte>, data: seq<byte>)
    ensures BitLength(message + data) == (BitLength(message) + 8 * |data|) % TWO_TO_THE_64
  {
    ModAdds(8 * |message|, 8 * |data|, TWO_TO_THE_64);
  }

  lemma ModAdds(a: nat, b: nat, m: nat)
    requires m > 0
    ensures (a + b) % m == (a % m + b) % m
  {
    var q, r := a / m, a % m;
    assert a == m * q + r;
    var q2, r2 := (r + b) / m, (r + b) % m;
    assert a + b == m * (q + q2) + r2;
    RemainderUnique(a + b, m, q + q2, r2);
  }

  lemma Multiples(m: int, d: int)
    requires m >= 0
    ensures d > 0 ==> m * d >= m
    ensures d < 0 ==> m * d <= -m
  {
    if d > 0 {
      AtLeastOnce(m, d);
    } else if d < 0 {
      AtLeastOnce(m, -d);
      assert m * d == -(m * -d);
    }
  }

  lemma {:induction false} AtLeastOnce(m: int, d: int)
    requires m >= 0 && d > 0
    ensures m * d >= m
    decreases d
  {
    if d > 1 {
      AtLeastOnce(m, d - 1);
      assert m * d == m * (d - 1) + m;
    }
  }

  lemma RemainderUnique(x: nat, m: nat, q: nat, r: nat)
    requires m > 0 && x == m * q + r && r < m
    ensures x % m == r
  {
    var d := x / m - q;
    assert x == m * (x / m) + x % m;
    assert m * d == r - x % m;
    Multiples(m, d);
  }

  /** The blocks the context compresses at the end, one or two, are the padding of the message. */
  lemma PaddedInBlocks(message: seq<byte>, whole: seq<byte>, tail: seq<byte>, done: seq<byte>, last: seq<byte>)
    requires message == whole + tail && |whole| % BLOCK == 0 && |tail| < BLOCK
    requires if |tail| + 1 > 56
             then done == whole + (tail + [0x80] + Fill(0, BLOCK - |tail| - 1))
                  && last == Fill(0, 56) + LengthBytes(BitLength(message))
             else done == whole
                  && last == tail + [0x80] + Fill(0, 56 - |tail| - 1) + LengthBytes(BitLength(message))
    ensures done + last == Pad(message)
  {
    var n, zeros, length := |tail|, ZeroBytes(|message|), LengthBytes(BitLength(message));
    ZerosAfterTail(|whole|, n);
    hide ZeroBytes, LengthBytes, BitLength;
    if n + 1 > 56 {
      assert Fill(0, zeros) == Fill(0, BLOCK - n - 1) + Fill(0, 56);
    }
  }

  lemma ZerosAfterTail(whole: nat, tail: nat)
    requires whole % BLOCK == 0 && tail < BLOCK
    ensures ZeroBytes(whole + tail) == if tail + 1 > 56 then BLOCK - tail - 1 + 56 else 56 - tail - 1
  {
    assert (whole + tail) % BLOCK == tail;
  }

  function Concat(chunks: seq<seq<byte>>): seq<byte> {
    if chunks == [] then [] else Concat(chunks[..|chunks| - 1]) + chunks[|chunks| - 1]
  }

  lemma ConcatNone(chunks: seq<seq<byte>>)
    ensures Concat(chunks[..0]) == []
  {
  }

  lemma ConcatMore(chunks: seq<seq<byte>>, i: nat)
    requires i < |chunks|
    ensures Concat(chunks[..i + 1]) == Concat(chunks[..i]) + chunks[i]
  {
    assert chunks[..i + 1][..i] == chunks[..i];
  }

  lemma ConcatOne(message: seq<byte>)
    ensures Concat([message]) == message
  {
    assert [message][..0] == [];
    assert Concat([]) == [];
    assert Concat([message]) == [] + message;
  }

  /** However a message is split into updates, the digest is the one-shot digest of the whole. */
  method DigestChunks(chunks: seq<seq<byte>>) returns (digest: seq<byte>)
    ensures digest == Digest(Concat(chunks))
  {
    hide Digest, Concat, Context.Holds;
    ConcatNone(chunks);
    var context := new Context();
    ghost var message := [];
    var i := 0;
    while i < |chunks|
      invariant i <= |chunks| && message == Concat(chunks[..i])
      invariant context.Holds(message)
      invariant fresh(context) && fresh(context.state) && fresh(context.buffer)
    {
      context.Update(message, chunks[i]);
      ConcatMore(chunks, i);
      message := message + chunks[i];
      i := i + 1;
    }
    assert chunks[..i] == chunks;
    digest := context.Finish(message);
  }
}
