/**
 * Python's sorted() as a stable insertion sort, and Python's lexicographic
 * order on sequences (the order of str and of list keys).
 */
module Sorting {

  /** A comparison `le` (read "not greater than") that is total and transitive,
      as a sort key's order is. */
  ghost predicate TotalPreorder<T(!new)>(le: (T, T) -> bool) {
    (forall a, b :: le(a, b) || le(b, a)) &&
    (forall a, b, c :: le(a, b) && le(b, c) ==> le(a, c))
  }

  /** A strict order that is irreflexive, transitive and total on distinct values. */
  ghost predicate StrictTotal<T(!new)>(lt: (T, T) -> bool) {
    (forall a :: !lt(a, a)) &&
    (forall a, b :: a != b ==> lt(a, b) || lt(b, a)) &&
    (forall a, b, c :: lt(a, b) && lt(b, c) ==> lt(a, c))
  }

  ghost predicate SortedBy<T>(s: seq<T>, le: (T, T) -> bool) {
    forall i, j :: 0 <= i < j < |s| ==> le(s[i], s[j])
  }

  /** x goes in front of the first element it is not greater than, so it stays
      ahead of the elements that compare equal to it (stability). */
  function Insert<T>(x: T, s: seq<T>, le: (T, T) -> bool): (r: seq<T>)
    ensures |r| == |s| + 1
    ensures multiset(r) == multiset(s) + multiset{x}
  {
    if s == [] || le(x, s[0]) then [x] + s
    else
      var rest := Insert(x, s[1..], le);
      assert s == [s[0]] + s[1..];
      [s[0]] + rest
  }

  /** sorted(s, key=...) where le(a, b) means "not key(b) < key(a)". */
  function SortBy<T>(s: seq<T>, le: (T, T) -> bool): (r: seq<T>)
    ensures |r| == |s|
    ensures multiset(r) == multiset(s)
  {
    if s == [] then []
    else
      assert s == [s[0]] + s[1..];
      Insert(s[0], SortBy(s[1..], le), le)
  }

  lemma {:induction false} InsertSorted<T(!new)>(x: T, s: seq<T>, le: (T, T) -> bool)
    requires TotalPreorder(le)
    requires SortedBy(s, le)
    ensures SortedBy(Insert(x, s, le), le)
  {
    if s == [] || le(x, s[0]) {
    } else {
      InsertSorted(x, s[1..], le);
      var rest := Insert(x, s[1..], le);
      var r := [s[0]] + rest;
      forall i, j | 0 <= i < j < |r|
        ensures le(r[i], r[j])
      {
        if i == 0 {
          assert r[j] in multiset(rest);
          assert r[j] == x || r[j] in multiset(s[1..]);
          if r[j] != x {
            var k :| 0 <= k < |s[1..]| && s[1..][k] == r[j];
            assert s[k + 1] == r[j];
          }
        }
      }
    }
  }

  /** The sort's output is ordered. */
  lemma {:induction false} SortBySorted<T(!new)>(s: seq<T>, le: (T, T) -> bool)
    requires TotalPreorder(le)
    ensures SortedBy(SortBy(s, le), le)
  {
    if s != [] {
      SortBySorted(s[1..], le);
      InsertSorted(s[0], SortBy(s[1..], le), le);
    }
  }

  /** Python's sequence comparison a <= b: the first differing element decides,
      and a proper prefix is smaller. */
  predicate SeqLe<T(==)>(a: seq<T>, b: seq<T>, lt: (T, T) -> bool)
  {
    if a == [] then true
    else if b == [] then false
    else if a[0] == b[0] then SeqLe(a[1..], b[1..], lt)
    else lt(a[0], b[0])
  }

  /** Python's a < b on sequences. */
  predicate SeqLt<T(==)>(a: seq<T>, b: seq<T>, lt: (T, T) -> bool)
  {
    a != b && SeqLe(a, b, lt)
  }

  lemma {:induction false} SeqLeTotal<T(!new)>(a: seq<T>, b: seq<T>, lt: (T, T) -> bool)
    requires StrictTotal(lt)
    ensures SeqLe(a, b, lt) || SeqLe(b, a, lt)
  {
    if a != [] && b != [] && a[0] == b[0] {
      SeqLeTotal(a[1..], b[1..], lt);
    }
  }

  lemma {:induction false} SeqLeTrans<T(!new)>(a: seq<T>, b: seq<T>, c: seq<T>, lt: (T, T) -> bool)
    requires StrictTotal(lt)
    requires SeqLe(a, b, lt) && SeqLe(b, c, lt)
    ensures SeqLe(a, c, lt)
  {
    if a != [] && b != [] && c != [] && a[0] == b[0] && b[0] == c[0] {
      SeqLeTrans(a[1..], b[1..], c[1..], lt);
    }
  }

  lemma {:induction false} SeqLeAntisym<T(!new)>(a: seq<T>, b: seq<T>, lt: (T, T) -> bool)
    requires StrictTotal(lt)
    requires SeqLe(a, b, lt) && SeqLe(b, a, lt)
    ensures a == b
  {
    if a != [] && b != [] {
      SeqLeAntisym(a[1..], b[1..], lt);
      assert a == [a[0]] + a[1..] && b == [b[0]] + b[1..];
    }
  }

  /** Python's order on characters (code points). */
  predicate CharLt(a: char, b: char) {
    a < b
  }

  /** Python's a <= b on str. */
  predicate StrLe(a: string, b: string) {
    SeqLe(a, b, CharLt)
  }

  lemma CharLtStrictTotal()
    ensures StrictTotal(CharLt)
  {
  }

  lemma StrLeTotalPreorder()
    ensures TotalPreorder(StrLe)
  {
    CharLtStrictTotal();
    forall a: string, b: string ensures StrLe(a, b) || StrLe(b, a) {
      SeqLeTotal(a, b, CharLt);
    }
    forall a: string, b: string, c: string | StrLe(a, b) && StrLe(b, c)
      ensures StrLe(a, c)
    {
      SeqLeTrans(a, b, c, CharLt);
    }
  }

  /** sorted() of a list of strings. */
  function SortStrings(s: seq<string>): (r: seq<string>)
    ensures multiset(r) == multiset(s)
    ensures SortedBy(r, StrLe)
  {
    StrLeTotalPreorder();
    SortBySorted(s, StrLe);
    SortBy(s, StrLe)
  }

  /** Python's order on (non-negative) ints. */
  predicate NatLe(a: nat, b: nat) {
    a <= b
  }

  /** sorted() of a list of non-negative ints. */
  function SortNats(s: seq<nat>): (r: seq<nat>)
    ensures multiset(r) == multiset(s)
    ensures forall i, j :: 0 <= i < j < |r| ==> r[i] <= r[j]
  {
    assert TotalPreorder(NatLe);
    SortBySorted(s, NatLe);
    SortBy(s, NatLe)
  }
}
