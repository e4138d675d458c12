/** Stable sorting followed by a first-match scan, and what it finds: the first of the
    matching elements that are least in the sort order. */
module StableSort {
  import opened Text

  /** A comparator of the kind `Array.prototype.sort` asks for, as "comes strictly before". */
  ghost predicate StrictWeakOrder<T(!new)>(lt: (T, T) -> bool) {
    && (forall x :: !lt(x, x))
    && (forall x, y, z :: lt(x, y) && lt(y, z) ==> lt(x, z))
    && (forall x, y, z :: lt(x, z) ==> lt(x, y) || lt(y, z))
  }

  function Insert<T>(lt: (T, T) -> bool, x: T, s: seq<T>): seq<T> {
    if s == [] then [x]
    else if lt(s[0], x) then [s[0]] + Insert(lt, x, s[1..])
    else [x] + s
  }

  /** Elements that compare equal keep their order. */
  function Sort<T>(lt: (T, T) -> bool, s: seq<T>): seq<T> {
    if s == [] then [] else Insert(lt, s[0], Sort(lt, s[1..]))
  }

  /** `Array.prototype.find`. */
  function Find<T>(s: seq<T>, p: T -> bool): Option<T> {
    if s == [] then None else if p(s[0]) then Some(s[0]) else Find(s[1..], p)
  }

  ghost predicate Sorted<T>(lt: (T, T) -> bool, s: seq<T>) {
    forall i, j :: 0 <= i < j < |s| ==> !lt(s[j], s[i])
  }

  lemma SortedCons<T(!new)>(lt: (T, T) -> bool, x: T, t: seq<T>)
    requires Sorted(lt, t) && forall y :: y in multiset(t) ==> !lt(y, x)
    ensures Sorted(lt, [x] + t)
  {
    forall j | 0 <= j < |t|
      ensures !lt(t[j], x)
    {
      assert t[j] in multiset(t);
    }
  }

  lemma InsertFront<T(!new)>(lt: (T, T) -> bool, x: T, s: seq<T>)
    requires StrictWeakOrder(lt) && Sorted(lt, s) && s != [] && !lt(s[0], x)
    ensures Sorted(lt, [x] + s)
  {
    var first := s[0];
    assert forall y :: lt(y, x) ==> lt(y, first) || lt(first, x);
    forall y | y in multiset(s)
      ensures !lt(y, x)
    {
      var j :| 0 <= j < |s| && s[j] == y;
      assert !lt(y, first);
    }
    SortedCons(lt, x, s);
  }

  lemma InsertBehind<T(!new)>(lt: (T, T) -> bool, x: T, first: T, rest: seq<T>, inserted: seq<T>)
    requires StrictWeakOrder(lt) && Sorted(lt, [first] + rest) && lt(first, x)
    requires Sorted(lt, inserted) && multiset(inserted) == multiset{x} + multiset(rest)
    ensures Sorted(lt, [first] + inserted)
  {
    var s := [first] + rest;
    assert s[0] == first && !lt(x, first);
    forall y | y in multiset(inserted)
      ensures !lt(y, first)
    {
      if y in multiset(rest) {
        var j :| 0 <= j < |rest| && rest[j] == y;
        assert s[j + 1] == y;
      } else {
        assert y == x;
      }
    }
    SortedCons(lt, first, inserted);
  }

  lemma {:induction false} InsertProperties<T(!new)>(lt: (T, T) -> bool, x: T, s: seq<T>)
    requires StrictWeakOrder(lt) && Sorted(lt, s)
    ensures Sorted(lt, Insert(lt, x, s)) && multiset(Insert(lt, x, s)) == multiset{x} + multiset(s)
  {
    if s == [] {
    } else {
      assert s == [s[0]] + s[1..];
      if lt(s[0], x) {
        InsertProperties(lt, x, s[1..]);
        InsertBehind(lt, x, s[0], s[1..], Insert(lt, x, s[1..]));
      } else {
        InsertFront(lt, x, s);
      }
    }
  }

  lemma {:induction false} SortProperties<T(!new)>(lt: (T, T) -> bool, s: seq<T>)
    requires StrictWeakOrder(lt)
    ensures Sorted(lt, Sort(lt, s)) && multiset(Sort(lt, s)) == multiset(s)
  {
    if s == [] {
    } else {
      SortProperties(lt, s[1..]);
      InsertProperties(lt, s[0], Sort(lt, s[1..]));
      assert s == [s[0]] + s[1..];
    }
  }

  /** x is the first match, at index i. */
  ghost predicate IsFirstMatch<T>(s: seq<T>, p: T -> bool, x: T, i: nat) {
    i < |s| && s[i] == x && p(x) && forall j :: 0 <= j < i ==> !p(s[j])
  }

  lemma {:induction false} FindMeaning<T>(s: seq<T>, p: T -> bool) returns (i: nat)
    ensures Find(s, p).None? <==> forall j :: 0 <= j < |s| ==> !p(s[j])
    ensures Find(s, p).Some? ==> IsFirstMatch(s, p, Find(s, p).value, i)
  {
    i := 0;
    if s == [] {
    } else {
      var k := FindMeaning(s[1..], p);
      assert forall j :: 1 <= j < |s| ==> s[j] == s[1..][j - 1];
      if !p(s[0]) {
        i := k + 1;
      }
    }
  }

  /** A reference that never sorts: scan from the right, keeping the element at hand
      unless a later match comes strictly before it. */
  function Best<T>(lt: (T, T) -> bool, s: seq<T>, p: T -> bool): Option<T> {
    if s == [] then None
    else
      var b := Best(lt, s[1..], p);
      if p(s[0]) && (b.None? || !lt(b.value, s[0])) then Some(s[0]) else b
  }

  lemma {:induction false} FindInsert<T(!new)>(lt: (T, T) -> bool, x: T, s: seq<T>, p: T -> bool)
    requires StrictWeakOrder(lt) && Sorted(lt, s)
    ensures var b := Find(s, p);
            Find(Insert(lt, x, s), p) == if p(x) && (b.None? || !lt(b.value, x)) then Some(x) else b
  {
    if s == [] {
    } else {
      var t := Insert(lt, x, s);
      if lt(s[0], x) {
        assert t[1..] == Insert(lt, x, s[1..]);
        FindInsert(lt, x, s[1..], p);
      } else {
        assert t[1..] == s;
        var i := FindMeaning(s, p);
      }
    }
  }

  /** Sort-then-find agrees with the reference on every list. */
  lemma {:induction false} SortThenFind<T(!new)>(lt: (T, T) -> bool, s: seq<T>, p: T -> bool)
    requires StrictWeakOrder(lt)
    ensures Find(Sort(lt, s), p) == Best(lt, s, p)
  {
    if s == [] {
    } else {
      SortThenFind(lt, s[1..], p);
      SortProperties(lt, s[1..]);
      FindInsert(lt, s[0], Sort(lt, s[1..]), p);
    }
  }

  /** x is least among the matches of s, and the first of those that compare equal to it. */
  ghost predicate IsFirstLeast<T>(lt: (T, T) -> bool, s: seq<T>, p: T -> bool, x: T, i: nat) {
    && i < |s| && s[i] == x && p(x)
    && (forall j :: 0 <= j < |s| && p(s[j]) ==> !lt(s[j], x))
    && (forall j :: 0 <= j < i && p(s[j]) ==> lt(x, s[j]))
  }

  lemma {:induction false} BestMeaning<T(!new)>(lt: (T, T) -> bool, s: seq<T>, p: T -> bool) returns (i: nat)
    requires StrictWeakOrder(lt)
    ensures Best(lt, s, p).None? ==> forall j :: 0 <= j < |s| ==> !p(s[j])
    ensures Best(lt, s, p).Some? ==> IsFirstLeast(lt, s, p, Best(lt, s, p).value, i)
  {
    i := 0;
    if s == [] {
    } else {
      var k := BestMeaning(lt, s[1..], p);
      var b := Best(lt, s[1..], p);
      assert forall j :: 1 <= j < |s| ==> s[j] == s[1..][j - 1];
      if !(p(s[0]) && (b.None? || !lt(b.value, s[0]))) {
        i := k + 1;
      }
    }
  }
}
