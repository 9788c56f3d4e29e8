/** The error-latching, bounds-checked reader (internal/util/cursor.go). */
module Cursors {
  import opened Bits
  import opened Wrappers
  import opened Varint
  import opened Streams

  /** What a cursor still has to read, and the first error it met. */
  datatype Cur = Cur(rest: bytes, err: Option<Error>)

  function Start(data: bytes): Cur {
    Cur(data, None)
  }

  /** n bytes; nothing is read once an error is latched. */
  function Take(c: Cur, n: nat): (bytes, Cur) {
    if c.err.Some? then ([], c)
    else if n > |c.rest| then ([], c.(err := Some(Truncated)))
    else (c.rest[..n], c.(rest := c.rest[n..]))
  }

  /** A little-endian word of n bytes; 0 on error. */
  function TakeLE(c: Cur, n: nat): (r: (nat, Cur))
    ensures r.0 < Pow2(8 * n)
  {
    var (bs, c') := Take(c, n);
    LEBound(bs);
    Pow2Monotone(8 * |bs|, 8 * n);
    (LE(bs), c')
  }

  function TakeU8(c: Cur): (byte, Cur) {
    var (bs, c') := Take(c, 1);
    (if bs == [] then 0 else bs[0], c')
  }

  function TakeU16(c: Cur): (u16, Cur) {
    Pow2Values();
    TakeLE(c, 2)
  }

  function TakeU32(c: Cur): (u32, Cur) {
    Pow2Values();
    TakeLE(c, 4)
  }

  function TakeU64(c: Cur): (u64, Cur) {
    Pow2Values();
    TakeLE(c, 8)
  }

  function TakeUvarint(c: Cur): (u64, Cur) {
    if c.err.Some? then (0, c)
    else
      match ReadWord(c.rest)
      case Err(_) => (0, c.(err := Some(Truncated)))
      case Ok(p) => (p.0, c.(rest := p.1))
  }

  // ----- reading what was written ------------------------------------------------

  lemma TakeFront(x: bytes, tail: bytes)
    ensures Take(Start(x + tail), |x|) == (x, Start(tail))
  {
    assert (x + tail)[..|x|] == x && (x + tail)[|x|..] == tail;
  }

  lemma TakeByte(b: byte, tail: bytes)
    ensures TakeU8(Start([b] + tail)) == (b, Start(tail))
  {
    TakeFront([b], tail);
  }

  lemma TakeWord(v: nat, n: nat, tail: bytes)
    requires v < Pow2(8 * n)
    ensures TakeLE(Start(LEBytes(v, n) + tail), n) == (v, Start(tail))
  {
    TakeFront(LEBytes(v, n), tail);
    LEFits(v, n);
  }

  lemma TakeWord16(v: u16, tail: bytes)
    ensures TakeU16(Start(LEBytes(v, 2) + tail)) == (v, Start(tail))
  {
    Pow2Values();
    TakeWord(v, 2, tail);
  }

  lemma TakeWord32(v: u32, tail: bytes)
    ensures TakeU32(Start(LEBytes(v, 4) + tail)) == (v, Start(tail))
  {
    Pow2Values();
    TakeWord(v, 4, tail);
  }

  lemma TakeWord64(v: u64, tail: bytes)
    ensures TakeU64(Start(LEBytes(v, 8) + tail)) == (v, Start(tail))
  {
    Pow2Values();
    TakeWord(v, 8, tail);
  }

  lemma TakeVarint(v: u64, tail: bytes)
    ensures TakeUvarint(Start(Uvarint(v) + tail)) == (v, Start(tail))
  {
    WordInverts(v);
    assert ReadWord(WordBytes(v) + tail) == Ok((v, tail));
  }

  /** The error a cursor latches is never one the process dies of. */
  predicate Alive(c: Cur) {
    c.err != Some(OutOfMemory)
  }

  lemma TakesSurvive(c: Cur, n: nat)
    requires Alive(c)
    ensures Alive(Take(c, n).1) && Alive(TakeU8(c).1) && Alive(TakeU64(c).1) && Alive(TakeUvarint(c).1)
  {
    hide ReadWord, LE;
  }

  /** After an error, and on too few bytes, everything read is nothing or zero, nothing
      is consumed, and the first error stays. */
  lemma NothingTaken(c: Cur, n: nat)
    ensures c.err.Some? ==>
              Take(c, n) == ([], c) && TakeU8(c) == (0, c) && TakeU64(c) == (0, c) && TakeUvarint(c) == (0, c)
    ensures c.err.None? && n > |c.rest| ==> Take(c, n) == ([], Cur(c.rest, Some(Truncated)))
    ensures c.err.None? && c.rest == [] ==>
              && TakeU8(c) == (0, Cur([], Some(Truncated))) && TakeUvarint(c) == (0, Cur([], Some(Truncated)))
    ensures c.err.None? && |c.rest| < 8 ==> TakeU64(c) == (0, Cur(c.rest, Some(Truncated)))
  {
    assert LE([]) == 0;
  }

  // ----- the cursor object ----------------------------------------------------------

  class Cursor {
    const buf: bytes
    var pos: nat
    var err: Option<Error>

    ghost predicate Valid()
      reads this
    {
      pos <= |buf|
    }

    ghost function State(): Cur
      requires Valid()
      reads this
    {
      Cur(buf[pos..], err)
    }

    constructor (data: bytes)
      ensures Valid() && State() == Start(data)
    {
      buf := data;
      pos := 0;
      err := None;
      new;
      assert buf[0..] == data;
    }

    /** Latches the first error. */
    method Fail(e: Error)
      requires Valid()
      modifies this
      ensures Valid() && pos == old(pos) && err == if old(err).Some? then old(err) else Some(e)
    {
      if err.None? {
        err := Some(e);
      }
    }

    /** Reports whether n more bytes are there, latching Truncated if not. */
    method Have(n: nat) returns (ok: bool)
      requires Valid() && err.None?
      modifies this
      ensures Valid() && pos == old(pos) && ok == (pos + n <= |buf|)
      ensures err == if ok then None else Some(Truncated)
    {
      if pos + n > |buf| {
        Fail(Truncated);
        return false;
      }
      return true;
    }

    method Bytes(n: nat) returns (bs: bytes)
      requires Valid()
      modifies this
      ensures Valid() && (bs, State()) == Take(old(State()), n)
      ensures if old(err).Some? then bs == [] && pos == old(pos) && err == old(err)
              else if old(pos) + n > |buf| then bs == [] && pos == old(pos) && err == Some(Truncated)
              else pos == old(pos) + n && err == None && bs == buf[old(pos)..pos]
    {
      if err.Some? {
        return [];
      }
      var ok := Have(n);
      if !ok {
        return [];
      }
      bs := buf[pos..pos + n];
      assert buf[pos..][..n] == bs && buf[pos..][n..] == buf[pos + n..];
      pos := pos + n;
    }

    method U8() returns (v: byte)
      requires Valid()
      modifies this
      ensures Valid() && (v, State()) == TakeU8(old(State()))
    {
      var bs := Bytes(1);
      v := if bs == [] then 0 else bs[0];
    }

    method U16() returns (v: u16)
      requires Valid()
      modifies this
      ensures Valid() && (v, State()) == TakeU16(old(State()))
    {
      ghost var w := TakeU16(State());
      var bs := Bytes(2);
      v := LE(bs);
    }

    method U32() returns (v: u32)
      requires Valid()
      modifies this
      ensures Valid() && (v, State()) == TakeU32(old(State()))
    {
      ghost var w := TakeU32(State());
      var bs := Bytes(4);
      v := LE(bs);
    }

    method U64() returns (v: u64)
      requires Valid()
      modifies this
      ensures Valid() && (v, State()) == TakeU64(old(State()))
    {
      ghost var w := TakeU64(State());
      var bs := Bytes(8);
      v := LE(bs);
    }

    method ReadUvarint() returns (v: u64)
      requires Valid()
      modifies this
      ensures Valid() && (v, State()) == TakeUvarint(old(State()))
    {
      if err.Some? {
        return 0;
      }
      var w, n := UvarintAt(buf, pos);
      if n <= 0 {
        Fail(Truncated);
        return 0;
      }
      pos := pos + n;
      return w;
    }

    /** Checks that the next bytes are the wanted ones. */
    method Magic(want: bytes)
      requires Valid()
      modifies this
      ensures Valid()
      ensures var (got, c) := Take(old(State()), |want|);
              State() == if c.err.None? && got != want then c.(err := Some(BadMagic)) else c
    {
      var got := Bytes(|want|);
      if err.Some? {
        return;
      }
      if got != want {
        Fail(BadMagic);
      }
    }
  }
}
