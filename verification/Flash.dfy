/** NOR flash behind the partition layer: erasing fills sectors with 0xFF, programming only clears bits. */
module Flash {
  import opened Basics
  import opened Words

  const SECTOR_SIZE: nat := 4096
  const ERASE_CHUNK: nat := 65536
  const ERASED: byte := 0xFF

  /** Bitwise AND, digit by digit. */
  function AndDigits(a: nat, b: nat, digits: nat): (r: nat)
    ensures r <= a
    decreases digits
  {
    if digits == 0 then 0 else (a % 2) * (b % 2) + 2 * AndDigits(a / 2, b / 2, digits - 1)
  }

  function And(a: byte, b: byte): byte {
    AndDigits(a as nat, b as nat, 8) as byte
  }

  lemma {:induction false} AndOnes(b: nat, digits: nat)
    requires b < Pow2(digits)
    ensures AndDigits(Pow2(digits) - 1, b, digits) == b
    decreases digits
  {
    if digits != 0 {
      assert (Pow2(digits) - 1) / 2 == Pow2(digits - 1) - 1;
      AndOnes(b / 2, digits - 1);
    }
  }

  lemma ProgramErased(b: byte)
    ensures And(ERASED, b) == b
  {
    AndOnes(b as nat, 8);
  }

  function Cleared(contents: seq<byte>, from: nat, to: nat): (r: seq<byte>)
    requires from <= to <= |contents|
    ensures |r| == |contents|
  {
    contents[..from] + Fill(ERASED, to - from) + contents[to..]
  }

  function Programmed(contents: seq<byte>, at: nat, bytes: seq<byte>): (r: seq<byte>)
    requires at + |bytes| <= |contents|
    ensures |r| == |contents|
  {
    seq(|contents|, i requires 0 <= i < |contents| =>
      if at <= i < at + |bytes| then And(contents[i], bytes[i - at]) else contents[i])
  }

  /** A program of a blank area stores the bytes. */
  lemma ProgramBlank(contents: seq<byte>, at: nat, bytes: seq<byte>)
    requires at + |bytes| <= |contents|
    requires forall i :: at <= i < at + |bytes| ==> contents[i] == ERASED
    ensures Programmed(contents, at, bytes) == contents[..at] + bytes + contents[at + |bytes|..]
  {
    forall i | at <= i < at + |bytes|
      ensures And(contents[i], bytes[i - at]) == bytes[i - at]
    {
      ProgramErased(bytes[i - at]);
    }
    hide And;
  }

  lemma ClearedNothing(contents: seq<byte>, at: nat)
    requires at <= |contents|
    ensures Cleared(contents, at, at) == contents
  {
  }

  lemma ClearedMore(contents: seq<byte>, from: nat, to: nat)
    requires from <= to && to + SECTOR_SIZE <= |contents|
    ensures Cleared(Cleared(contents, from, to), to, to + SECTOR_SIZE) == Cleared(contents, from, to + SECTOR_SIZE)
  {
  }

  /** What a power cut during an erase can leave: some sectors, from the first on, already blank. */
  ghost predicate ErasePoint(t: seq<byte>, before: seq<byte>, at: nat, length: nat)
    requires at + length <= |before|
  {
    exists end :: at < end <= at + length && (end - at) % SECTOR_SIZE == 0 && t == Cleared(before, at, end)
  }

  /** Everything recorded since a mark is a point of this erase. */
  ghost predicate ErasedSoFar(points: seq<seq<byte>>, marks: nat, before: seq<byte>, at: nat, length: nat) {
    at + length <= |before| && forall i :: marks <= i < |points| ==> ErasePoint(points[i], before, at, length)
  }

  /** Recorded since a mark: one point for every byte of this program, in ascending order. */
  ghost predicate ProgramRecorded(points: seq<seq<byte>>, marks: nat, before: seq<byte>, at: nat, bytes: seq<byte>)
    requires at + |bytes| <= |before|
  {
    && |points| == marks + |bytes|
    && forall i :: marks <= i < |points| ==> points[i] == Programmed(before, at, bytes[..i - marks + 1])
  }

  lemma RecordedArePoints(points: seq<seq<byte>>, marks: nat, before: seq<byte>, at: nat, bytes: seq<byte>)
    requires at + |bytes| <= |before| && ProgramRecorded(points, marks, before, at, bytes)
    ensures forall i :: marks <= i < |points| ==> ProgramPoint(points[i], before, at, bytes)
  {
    hide Programmed;
  }

  /** What a power cut during a program can leave: some of the bytes, from the first on, stored. */
  ghost predicate ProgramPoint(t: seq<byte>, before: seq<byte>, at: nat, bytes: seq<byte>)
    requires at + |bytes| <= |before|
  {
    exists k :: 0 < k <= |bytes| && t == Programmed(before, at, bytes[..k])
  }

  class Partition {
    const data: array<byte>
    /** The device reports no fault. */
    const reliable: bool
    /** The contents after every sector erased and every byte programmed: what a power cut can leave. */
    var points: seq<seq<byte>>

    constructor (contents: seq<byte>, reliable: bool)
      ensures fresh(data) && data[..] == contents
      ensures this.reliable == reliable && points == [contents]
    {
      data := new byte[|contents|](i requires 0 <= i < |contents| => contents[i]);
      this.reliable := reliable;
      points := [contents];
      new;
      assert data[..] == contents;
    }

    /** Erases whole sectors in ascending order; a fault leaves some of them erased. */
    method Erase(at: nat, length: nat) returns (ok: bool, ghost done: nat)
      requires at % SECTOR_SIZE == 0 && length % SECTOR_SIZE == 0
      modifies this`points, data
      ensures done <= length && done % SECTOR_SIZE == 0 && (done == 0 || at + done <= data.Length)
      ensures ok ==> done == length && at + length <= data.Length
      ensures reliable && at + length <= data.Length ==> ok
      ensures done == 0 ==> data[..] == old(data[..]) && points == old(points)
      ensures done != 0 ==> data[..] == Cleared(old(data[..]), at, at + done)
      ensures old(points) <= points && (done != 0 ==> |old(points)| < |points|)
      ensures done != 0 ==> ErasedSoFar(points, |old(points)|, old(data[..]), at, done)
    {
      done := 0;
      if at + length > data.Length {
        return false, 0;
      }
      ghost var before, marks := data[..], |points|;
      ClearedNothing(before, at);
      hide Cleared, ErasedSoFar;
      var sectors := length / SECTOR_SIZE;
      var n := 0;
      while n < sectors
        invariant n <= sectors
        invariant n == 0 ==> points == old(points)
        invariant data[..] == Cleared(before, at, at + n * SECTOR_SIZE)
        invariant old(points) <= points && (n != 0 ==> |old(points)| < |points|)
        invariant n != 0 ==> ErasedSoFar(points, marks, before, at, n * SECTOR_SIZE)
      {
        WholeSectors(n);
        var fault := *;
        if fault && !reliable {
          return false, n * SECTOR_SIZE;
        }
        EraseSector(at + n * SECTOR_SIZE);
        points := points + [data[..]];
        OneMoreSector(points, marks, before, at, n);
        n := n + 1;
      }
      return true, length;
    }

    method EraseSector(at: nat)
      requires at + SECTOR_SIZE <= data.Length
      modifies data
      ensures data[..] == Cleared(old(data[..]), at, at + SECTOR_SIZE)
    {
      forall i | at <= i < at + SECTOR_SIZE {
        data[i] := ERASED;
      }
    }

    /** Programs bytes in ascending order; a fault leaves some of them stored. */
    method Write(at: nat, bytes: seq<byte>) returns (ok: bool, ghost done: nat)
      modifies this`points, data
      ensures done <= |bytes| && (done == 0 || at + done <= data.Length)
      ensures ok ==> done == |bytes| && at + |bytes| <= data.Length
      ensures reliable && at + |bytes| <= data.Length ==> ok
      ensures done == 0 ==> data[..] == old(data[..])
      ensures done != 0 ==> data[..] == Programmed(old(data[..]), at, bytes[..done])
      ensures old(points) <= points && |points| == |old(points)| + done
      ensures done != 0 ==> ProgramRecorded(points, |old(points)|, old(data[..]), at, bytes[..done])
    {
      hide And, ProgramRecorded;
      done := 0;
      if at + |bytes| > data.Length {
        return false, 0;
      }
      ghost var before, marks := data[..], |points|;
      NothingRecorded(points, before, at);
      var position := 0;
      while position < |bytes|
        invariant position <= |bytes|
        invariant data[..] == Programmed(before, at, bytes[..position])
        invariant old(points) <= points && |points| == marks + position
        invariant ProgramRecorded(points, marks, before, at, bytes[..position])
      {
        var fault := *;
        if fault && !reliable {
          return false, position;
        }
        data[at + position] := And(data[at + position], bytes[position]);
        assert data[..] == Programmed(before, at, bytes[..position + 1]);
        OneMoreByte(points, marks, before, at, bytes, position);
        points := points + [data[..]];
        position := position + 1;
      }
      assert bytes[..position] == bytes;
      return true, |bytes|;
    }

    /** Reads into the head of a buffer. */
    method Read(at: nat, buffer: array<byte>, length: nat) returns (ok: bool)
      requires length <= buffer.Length && buffer != data
      modifies buffer
      ensures ok ==> at + length <= data.Length && buffer[..length] == data[at..at + length]
      ensures reliable && at + length <= data.Length ==> ok
    {
      var fault := *;
      if at + length > data.Length || (fault && !reliable) {
        return false;
      }
      for i := 0 to length
        invariant buffer[..i] == data[at..at + i]
      {
        buffer[i] := data[at + i];
      }
      return true;
    }
  }

  lemma WholeSectors(n: nat)
    ensures n * SECTOR_SIZE % SECTOR_SIZE == 0
  {
  }

  lemma OneMoreSector(points: seq<seq<byte>>, marks: nat, before: seq<byte>, at: nat, n: nat)
    requires at + (n + 1) * SECTOR_SIZE <= |before| && marks < |points|
    requires if n == 0 then marks + 1 == |points|
             else ErasedSoFar(points[..|points| - 1], marks, before, at, n * SECTOR_SIZE)
    requires points[|points| - 1]
             == Cleared(Cleared(before, at, at + n * SECTOR_SIZE), at + n * SECTOR_SIZE,
               at + n * SECTOR_SIZE + SECTOR_SIZE)
    ensures points[|points| - 1] == Cleared(before, at, at + (n + 1) * SECTOR_SIZE)
    ensures ErasedSoFar(points, marks, before, at, (n + 1) * SECTOR_SIZE)
  {
    ClearedMore(before, at, at + n * SECTOR_SIZE);
    hide Cleared;
    forall i | marks <= i < |points|
      ensures ErasePoint(points[i], before, at, (n + 1) * SECTOR_SIZE)
    {
      if i < |points| - 1 {
        assert ErasePoint(points[..|points| - 1][i], before, at, n * SECTOR_SIZE);
      } else {
        WholeSectors(n + 1);
      }
    }
  }

  lemma NothingRecorded(points: seq<seq<byte>>, before: seq<byte>, at: nat)
    requires at <= |before|
    ensures ProgramRecorded(points, |points|, before, at, [])
  {
  }

  lemma OneMoreByte(points: seq<seq<byte>>, marks: nat, before: seq<byte>, at: nat, bytes: seq<byte>, position: nat)
    requires position < |bytes| && at + |bytes| <= |before| && |points| == marks + position
    requires ProgramRecorded(points, marks, before, at, bytes[..position])
    ensures ProgramRecorded(points + [Programmed(before, at, bytes[..position + 1])], marks, before, at,
                            bytes[..position + 1])
  {
    hide Programmed;
    var now, through := points + [Programmed(before, at, bytes[..position + 1])], bytes[..position + 1];
    forall i | marks <= i < |now|
      ensures now[i] == Programmed(before, at, through[..i - marks + 1])
    {
      if i < |points| {
        assert through[..i - marks + 1] == bytes[..position][..i - marks + 1];
      } else {
        assert through[..i - marks + 1] == through;
      }
    }
  }
}
