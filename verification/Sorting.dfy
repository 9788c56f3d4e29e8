/** Strictly ascending tables of distinct values, and the byte-wise order of Go strings. */
module Sorting {
  import opened Bits

  ghost predicate StrictTotal<T(!new)>(less: (T, T) -> bool) {
    && (forall x :: !less(x, x))
    && (forall x, y, z :: less(x, y) && less(y, z) ==> less(x, z))
    && (forall x, y :: x == y || less(x, y) || less(y, x))
  }

  ghost predicate Ascending<T(!new)>(less: (T, T) -> bool, s: seq<T>) {
    forall i, j :: 0 <= i < j < |s| ==> less(s[i], s[j])
  }

  ghost function Elements<T>(s: seq<T>): set<T> {
    set x | x in s
  }

  function Insert<T(==)>(less: (T, T) -> bool, x: T, s: seq<T>): seq<T> {
    if s == [] then [x]
    else if x == s[0] then s
    else if less(x, s[0]) then [x] + s
    else [s[0]] + Insert(less, x, s[1..])
  }

  /** The distinct values of vals in ascending order. */
  function SortedDistinct<T(==)>(less: (T, T) -> bool, vals: seq<T>): seq<T> {
    if vals == [] then [] else Insert(less, vals[0], SortedDistinct(less, vals[1..]))
  }

  lemma {:induction false} InsertAdds<T(!new)>(less: (T, T) -> bool, x: T, s: seq<T>)
    ensures Elements(Insert(less, x, s)) == Elements(s) + {x}
    ensures |s| <= |Insert(less, x, s)| <= |s| + 1
  {
    if s != [] {
      InsertAdds(less, x, s[1..]);
      assert s == [s[0]] + s[1..];
      ConsElements(s[0], s[1..]);
      ConsElements(s[0], Insert(less, x, s[1..]));
      ConsElements(x, s);
    }
  }

  lemma ConsElements<T>(x: T, s: seq<T>)
    ensures Elements([x] + s) == {x} + Elements(s)
  {
  }

  lemma {:induction false} InsertKeepsOrder<T(!new)>(less: (T, T) -> bool, x: T, s: seq<T>)
    requires StrictTotal(less) && Ascending(less, s)
    ensures Ascending(less, Insert(less, x, s))
  {
    if s == [] || x == s[0] {
    } else if less(x, s[0]) {
      var t := [x] + s;
      forall i, j | 0 <= i < j < |t|
        ensures less(t[i], t[j])
      {
        assert j > 1 ==> less(s[0], s[j - 1]);
      }
    } else {
      var rest := Insert(less, x, s[1..]);
      InsertKeepsOrder(less, x, s[1..]);
      InsertAdds(less, x, s[1..]);
      forall j | 0 <= j < |rest|
        ensures less(s[0], rest[j])
      {
        assert rest[j] in Elements(rest);
      }
    }
  }

  lemma {:induction false} SortedDistinctIs<T(!new)>(less: (T, T) -> bool, vals: seq<T>)
    requires StrictTotal(less)
    ensures Ascending(less, SortedDistinct(less, vals))
    ensures Elements(SortedDistinct(less, vals)) == Elements(vals)
    ensures |SortedDistinct(less, vals)| <= |vals|
    ensures vals != [] ==> SortedDistinct(less, vals) != []
  {
    if vals != [] {
      SortedDistinctIs(less, vals[1..]);
      InsertKeepsOrder(less, vals[0], SortedDistinct(less, vals[1..]));
      InsertAdds(less, vals[0], SortedDistinct(less, vals[1..]));
      assert vals == [vals[0]] + vals[1..];
    }
  }

  /** An ascending sequence is determined by its elements. */
  lemma {:induction false} AscendingUnique<T(!new)>(less: (T, T) -> bool, a: seq<T>, b: seq<T>)
    requires StrictTotal(less) && Ascending(less, a) && Ascending(less, b)
    requires Elements(a) == Elements(b)
    ensures a == b
  {
    NoElements(a);
    NoElements(b);
    if a != [] {
      assert a[0] in Elements(a);
      var k :| 0 <= k < |b| && b[k] == a[0];
      assert b[0] in Elements(b);
      var m :| 0 <= m < |a| && a[m] == b[0];
      assert a[0] == b[0];
      forall x
        ensures x in Elements(a[1..]) <==> x in Elements(b[1..])
      {
        TailElements(less, a, x);
        TailElements(less, b, x);
      }
      AscendingUnique(less, a[1..], b[1..]);
      assert a == [a[0]] + a[1..] && b == [b[0]] + b[1..];
    }
  }

  lemma NoElements<T>(s: seq<T>)
    ensures Elements(s) == {} <==> s == []
  {
    if s != [] {
      assert s[0] in Elements(s);
    }
  }

  lemma TailElements<T(!new)>(less: (T, T) -> bool, s: seq<T>, x: T)
    requires StrictTotal(less) && Ascending(less, s) && s != []
    ensures x in Elements(s[1..]) <==> x in Elements(s) && x != s[0]
  {
    if x in Elements(s) && x != s[0] {
      var k :| 0 <= k < |s| && s[k] == x;
      assert s[1..][k - 1] == x;
    }
    if x in Elements(s[1..]) {
      var k :| 0 <= k < |s[1..]| && s[1..][k] == x;
      assert s[k + 1] == x && less(s[0], s[k + 1]);
    }
  }

  lemma AscendingDistinct<T(!new)>(less: (T, T) -> bool, s: seq<T>)
    requires StrictTotal(less) && Ascending(less, s)
    ensures forall i, j :: 0 <= i < j < |s| ==> s[i] != s[j]
  {
  }

  lemma {:induction false} DistinctCount<T>(s: seq<T>)
    requires forall i, j :: 0 <= i < j < |s| ==> s[i] != s[j]
    ensures |Elements(s)| == |s|
  {
    if s != [] {
      DistinctCount(s[1..]);
      assert s == [s[0]] + s[1..];
      assert Elements(s) == {s[0]} + Elements(s[1..]);
      assert s[0] !in Elements(s[1..]);
    }
  }

  /** The sort call of the dictionary encoders, on values already made distinct. */
  method SortAscending<T(==,!new)>(less: (T, T) -> bool, vals: seq<T>) returns (sorted: seq<T>)
    ensures sorted == SortedDistinct(less, vals)
  {
    sorted := [];
    var i := |vals|;
    while i > 0
      invariant 0 <= i <= |vals|
      invariant sorted == SortedDistinct(less, vals[i..])
    {
      i := i - 1;
      assert vals[i..][1..] == vals[i + 1..];
      sorted := Insert(less, vals[i], sorted);
    }
    assert vals[0..] == vals;
  }

  /** The position of v in a table that holds it. */
  function IndexOf<T(==)>(table: seq<T>, v: T): (k: nat)
    requires v in table
    ensures k < |table| && table[k] == v
  {
    if table[0] == v then 0 else 1 + IndexOf(table[1..], v)
  }

  // ----- orders ---------------------------------------------------------------

  predicate WordLess(a: u64, b: u64) {
    a < b
  }

  /** Go's `<` on strings: byte-wise, a proper prefix first. */
  predicate BytesLess(a: bytes, b: bytes) {
    if b == [] then false
    else if a == [] then true
    else if a[0] != b[0] then a[0] < b[0]
    else BytesLess(a[1..], b[1..])
  }

  /** The order is the byte-wise one: a proper prefix comes first, else the first
      byte that differs decides. */
  lemma {:induction false} BytesLessIs(a: bytes, b: bytes)
    ensures BytesLess(a, b) <==>
            a < b || exists k :: 0 <= k < |a| && k < |b| && a[..k] == b[..k] && a[k] < b[k]
  {
    if a != [] && b != [] {
      if a[0] == b[0] {
        BytesLessIs(a[1..], b[1..]);
        assert a == [a[0]] + a[1..] && b == [b[0]] + b[1..];
        if k :| 0 <= k < |a| - 1 && k < |b| - 1 && a[1..][..k] == b[1..][..k] && a[1..][k] < b[1..][k] {
          assert a[..k + 1] == [a[0]] + a[1..][..k] && b[..k + 1] == [b[0]] + b[1..][..k];
        }
        if k :| 0 <= k < |a| && k < |b| && a[..k] == b[..k] && a[k] < b[k] {
          assert a[..k][1..] == a[1..][..k - 1] && b[..k][1..] == b[1..][..k - 1];
          assert a[1..][k - 1] < b[1..][k - 1];
        }
      } else {
        assert a[..0] == b[..0];
        assert forall k :: 0 < k < |a| && k < |b| && a[..k] == b[..k] ==> a[..k][0] == b[..k][0];
      }
    }
  }

  /** a comes before b in that order. */
  ghost predicate ByteBefore(a: bytes, b: bytes) {
    a < b || exists k :: 0 <= k < |a| && k < |b| && a[..k] == b[..k] && a[k] < b[k]
  }

  lemma WordOrder()
    ensures StrictTotal<u64>(WordLess)
  {
  }

  lemma {:induction false} BytesIrreflexive(x: bytes)
    ensures !BytesLess(x, x)
  {
    if x != [] {
      BytesIrreflexive(x[1..]);
    }
  }

  lemma {:induction false} BytesTransitive(x: bytes, y: bytes, z: bytes)
    requires BytesLess(x, y) && BytesLess(y, z)
    ensures BytesLess(x, z)
  {
    if x != [] && x[0] == y[0] == z[0] {
      BytesTransitive(x[1..], y[1..], z[1..]);
    }
  }

  lemma {:induction false} BytesTotal(x: bytes, y: bytes)
    ensures x == y || BytesLess(x, y) || BytesLess(y, x)
  {
    if x != [] && y != [] && x[0] == y[0] {
      BytesTotal(x[1..], y[1..]);
      assert x == [x[0]] + x[1..] && y == [y[0]] + y[1..];
    }
  }

  lemma BytesOrder()
    ensures StrictTotal<bytes>(BytesLess)
  {
    forall x: bytes
      ensures !BytesLess(x, x)
    {
      BytesIrreflexive(x);
    }
    forall x: bytes, y: bytes, z: bytes | BytesLess(x, y) && BytesLess(y, z)
      ensures BytesLess(x, z)
    {
      BytesTransitive(x, y, z);
    }
    forall x: bytes, y: bytes
      ensures x == y || BytesLess(x, y) || BytesLess(y, x)
    {
      BytesTotal(x, y);
    }
  }
}
