/** Repeated parts of a serialised structure: written one after the other in
    front of a tail, read one after the other through a cursor. */
module Framing {
  import opened Bits
  import opened Wrappers
  import opened Cursors

  /** A writer puts item number j in front of a tail; a reader takes it off. */
  type Writer<!T> = (nat, T, bytes) -> bytes
  type ItemReader<T> = (nat, Cur) -> Result<(T, Cur)>

  function WriteMany<T>(write: Writer<T>, items: seq<T>, from: nat, tail: bytes): bytes
    decreases |items| - from
  {
    if from >= |items| then tail else write(from, items[from], WriteMany(write, items, from + 1, tail))
  }

  function ReadMany<T>(read: ItemReader<T>, c: Cur, from: nat, n: nat): (r: Result<(seq<T>, Cur)>)
    ensures r.Ok? && from <= n ==> |r.value.0| == n - from
    decreases n - from
  {
    if from >= n then Ok(([], c))
    else
      var (x, c') :- read(from, c);
      var (xs, end) :- ReadMany(read, c', from + 1, n);
      Ok(([x] + xs, end))
  }

  ghost predicate ReadsBack<T(!new)>(write: Writer<T>, read: ItemReader<T>, j: nat, x: T) {
    forall t :: read(j, Start(write(j, x, t))) == Ok((x, Start(t)))
  }

  /** If every item reads back, so does the whole list, leaving the tail. */
  lemma {:induction false} ManyReadBack<T(!new)>(write: Writer<T>, read: ItemReader<T>, items: seq<T>, from: nat,
      tail: bytes)
    requires from <= |items|
    requires forall j: nat :: from <= j < |items| ==> ReadsBack(write, read, j, items[j])
    ensures ReadMany(read, Start(WriteMany(write, items, from, tail)), from, |items|)
            == Ok((items[from..], Start(tail)))
    decreases |items| - from
  {
    if from < |items| {
      ManyReadBack(write, read, items, from + 1, tail);
      assert ReadsBack(write, read, from, items[from]);
      assert items[from..] == [items[from]] + items[from + 1..];
    }
  }

  ghost predicate FailsOn<T(!new)>(write: Writer<T>, read: ItemReader<T>, j: nat, x: T, e: Error) {
    forall t :: read(j, Start(write(j, x, t))) == Err(e)
  }

  /** If every item reads back or fails alike and one does fail, the list fails. */
  lemma {:induction false} ManyFail<T(!new)>(write: Writer<T>, read: ItemReader<T>, items: seq<T>, from: nat,
      tail: bytes, k: nat, e: Error)
    requires from <= k < |items| && FailsOn(write, read, k, items[k], e)
    requires forall j: nat :: from <= j < |items| ==>
             ReadsBack(write, read, j, items[j]) || FailsOn(write, read, j, items[j], e)
    ensures ReadMany(read, Start(WriteMany(write, items, from, tail)), from, |items|) == Err(e)
    decreases |items| - from
  {
    if !FailsOn(write, read, from, items[from], e) {
      assert ReadsBack(write, read, from, items[from]);
      ManyFail(write, read, items, from + 1, tail, k, e);
    }
  }

  // ----- loops -----------------------------------------------------------------------

  ghost predicate Appends<T(!new)>(write: Writer<T>, j: nat, x: T) {
    forall t :: write(j, x, t) == write(j, x, []) + t
  }

  /** One turn of a writing loop. */
  lemma WriteStep<T(!new)>(write: Writer<T>, items: seq<T>, i: nat, out: bytes)
    requires i < |items| && Appends(write, i, items[i])
    ensures out + WriteMany(write, items, i, []) == (out + write(i, items[i], [])) + WriteMany(write, items, i + 1, [])
  {
    var w := WriteMany(write, items, i + 1, []);
    assert write(i, items[i], w) == write(i, items[i], []) + w;
    assert out + (write(i, items[i], []) + w) == (out + write(i, items[i], [])) + w;
  }

  /** A written list in front of a tail. */
  lemma {:induction false} WriteManyAppends<T(!new)>(write: Writer<T>, items: seq<T>, from: nat, tail: bytes)
    requires forall j: nat :: from <= j < |items| ==> Appends(write, j, items[j])
    ensures WriteMany(write, items, from, tail) == WriteMany(write, items, from, []) + tail
    decreases |items| - from
  {
    if from < |items| {
      WriteManyAppends(write, items, from + 1, tail);
      var w := WriteMany(write, items, from + 1, []);
      var x := write(from, items[from], []);
      assert Appends(write, from, items[from]);
      assert write(from, items[from], w + tail) == x + (w + tail);
      assert write(from, items[from], w) == x + w;
      assert x + (w + tail) == (x + w) + tail;
    }
  }

  /** A reading loop that has produced `done` and whose cursor is at c. */
  ghost predicate ManyProgress<T>(read: ItemReader<T>, c0: Cur, n: nat, done: seq<T>, c: Cur) {
    && |done| <= n
    && ReadMany(read, c0, 0, n) ==
       match ReadMany(read, c, |done|, n)
       case Ok(p) => Ok((done + p.0, p.1))
       case Err(e) => Err(e)
  }

  lemma ManyStart<T>(read: ItemReader<T>, c0: Cur, n: nat)
    ensures ManyProgress(read, c0, n, [], c0)
  {
    var r := ReadMany(read, c0, 0, n);
    if r.Ok? {
      assert [] + r.value.0 == r.value.0;
    }
  }

  lemma ManyStep<T>(read: ItemReader<T>, c0: Cur, n: nat, done: seq<T>, c: Cur)
    requires ManyProgress(read, c0, n, done, c) && |done| < n
    ensures read(|done|, c).Ok? ==>
              ManyProgress(read, c0, n, done + [read(|done|, c).value.0], read(|done|, c).value.1)
    ensures read(|done|, c).Err? ==> ReadMany(read, c0, 0, n) == Err(read(|done|, c).error)
  {
    match read(|done|, c)
    case Ok(p) =>
      var r := ReadMany(read, p.1, |done| + 1, n);
      if r.Ok? {
        assert done + ([p.0] + r.value.0) == done + [p.0] + r.value.0;
      }
    case Err(_) =>
  }

  lemma ManyEnd<T>(read: ItemReader<T>, c0: Cur, n: nat, done: seq<T>, c: Cur)
    requires ManyProgress(read, c0, n, done, c) && |done| == n
    ensures ReadMany(read, c0, 0, n) == Ok((done, c))
  {
    assert done + [] == done;
  }
}
