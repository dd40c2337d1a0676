/** The handful of LINQ operators the services chain together, written over
    Dafny sequences. A table is a sequence of rows in store order; a query
    keeps that order unless it sorts. */
module Seqs {

  /** FirstOrDefault's result: None plays the part of null. */
  datatype Option<+T> = None | Some(value: T)

  /** Enumerable.FirstOrDefault(predicate): the first element satisfying p. */
  function FirstOrDefault<T(==,!new)>(s: seq<T>, p: T -> bool): (r: Option<T>)
    ensures r.None? <==> forall x :: x in s ==> !p(x)
    ensures r.Some? ==> r.value in s && p(r.value)
    ensures r.Some? ==> exists i :: 0 <= i < |s| && s[i] == r.value && forall j :: 0 <= j < i ==> !p(s[j])
  {
    if |s| == 0 then None
    else if p(s[0]) then Some(s[0])
    else
      var r := FirstOrDefault(s[1..], p);
      assert forall j :: 1 <= j < |s| ==> s[j] == s[1..][j - 1];
      assert forall x :: x in s ==> x == s[0] || x in s[1..];
      if r.Some? then
        var i' :| 0 <= i' < |s[1..]| && s[1..][i'] == r.value && forall j :: 0 <= j < i' ==> !p(s[1..][j]);
        assert s[i' + 1] == r.value;
        r
      else r
  }

  /** Enumerable.FirstOrDefault() without a predicate: the first element, if any. */
  function First<T>(s: seq<T>): (r: Option<T>)
    ensures r.None? <==> |s| == 0
    ensures r.Some? ==> r.value in s && r.value == s[0]
  {
    if |s| == 0 then None else Some(s[0])
  }

  /** A non-empty sequence has its head as a member. */
  lemma MemberOfNonEmpty<T>(s: seq<T>)
    ensures s == [] || s[0] in s
  {
  }

  /** The positions of `s` whose element satisfies `p`: what a count counts. */
  ghost function Positions<T>(s: seq<T>, p: T -> bool): set<int>
  {
    set i | 0 <= i < |s| && p(s[i])
  }

  /** Enumerable.Where: the elements satisfying p, in order. */
  function Where<T(!new)>(s: seq<T>, p: T -> bool): (r: seq<T>)
    ensures |r| <= |s|
    ensures forall x :: x in r <==> x in s && p(x)
    ensures multiset(r) <= multiset(s)
  {
    if |s| == 0 then []
    else
      assert s == [s[0]] + s[1..];
      if p(s[0]) then [s[0]] + Where(s[1..], p) else Where(s[1..], p)
  }

  /** Where keeps every copy of a qualifying element and no copy of any other. */
  lemma {:induction false} WhereMultiplicity<T(!new)>(s: seq<T>, p: T -> bool)
    ensures forall x :: multiset(Where(s, p))[x] == if p(x) then multiset(s)[x] else 0
  {
    if |s| > 0 {
      WhereMultiplicity(s[1..], p);
      assert s == [s[0]] + s[1..];
    }
  }

  /** Enumerable.Select: f applied to every element, in order. */
  function Select<T(!new), U(!new)>(s: seq<T>, f: T -> U): (r: seq<U>)
    ensures |r| == |s|
    ensures forall i :: 0 <= i < |s| ==> r[i] == f(s[i])
    ensures forall u :: u in r <==> exists x :: x in s && u == f(x)
  {
    if |s| == 0 then []
    else
      assert forall x :: x in s <==> x == s[0] || x in s[1..];
      [f(s[0])] + Select(s[1..], f)
  }

  /** Enumerable.Count(predicate): how many elements satisfy p. */
  function Count<T(!new)>(s: seq<T>, p: T -> bool): (n: nat)
    ensures n <= |s|
    ensures n == 0 <==> forall x :: x in s ==> !p(x)
  {
    var r := Where(s, p);
    assert |r| > 0 ==> r[0] in r;
    |r|
  }

  /** Filtering a concatenation filters each part. */
  lemma {:induction false} WhereAppend<T(!new)>(s: seq<T>, t: seq<T>, p: T -> bool)
    ensures Where(s + t, p) == Where(s, p) + Where(t, p)
  {
    if |s| == 0 {
      assert s + t == t;
    } else {
      var u := s + t;
      assert u[0] == s[0];
      assert u[1..] == s[1..] + t;
      WhereAppend(s[1..], t, p);
    }
  }

  /** Counts add up over a concatenation. */
  lemma CountAppend<T(!new)>(s: seq<T>, t: seq<T>, p: T -> bool)
    ensures Count(s + t, p) == Count(s, p) + Count(t, p)
  {
    WhereAppend(s, t, p);
  }

  /** One element counts once when it satisfies p and not at all
      otherwise; with CountAppend this fixes every count. */
  lemma CountSingle<T(!new)>(x: T, p: T -> bool)
    ensures Count([x], p) == if p(x) then 1 else 0
  {
    assert [x][1..] == [];
  }

  /** Tests that agree on every element pick the same positions. */
  lemma PositionsAgree<T>(s: seq<T>, p: T -> bool, q: T -> bool)
    requires forall i :: 0 <= i < |s| ==> p(s[i]) == q(s[i])
    ensures Positions(s, p) == Positions(s, q)
  {
  }

  /** Appending an element adds its position when it qualifies. */
  lemma PositionsSnoc<T>(s: seq<T>, x: T, p: T -> bool)
    ensures |Positions(s + [x], p)| == |Positions(s, p)| + if p(x) then 1 else 0
  {
    assert Positions(s + [x], p) == Positions(s, p) + (if p(x) then {|s|} else {});
    assert |s| !in Positions(s, p);
  }

  /** A count is the number of positions holding a qualifying element. */
  lemma {:induction false} CountIsPositions<T(!new)>(s: seq<T>, p: T -> bool)
    ensures Count(s, p) == |Positions(s, p)|
  {
    if |s| == 0 {
      assert Positions(s, p) == {};
    } else {
      var init, x := s[..|s| - 1], s[|s| - 1];
      assert s == init + [x];
      CountIsPositions(init, p);
      CountAppend(init, [x], p);
      CountSingle(x, p);
      PositionsSnoc(init, x, p);
    }
  }

  /** Counting under a weaker predicate never counts fewer. */
  lemma {:induction false} CountMono<T(!new)>(s: seq<T>, p: T -> bool, q: T -> bool)
    requires forall x :: x in s && p(x) ==> q(x)
    ensures Count(s, p) <= Count(s, q)
  {
    if |s| > 0 {
      assert forall x :: x in s[1..] ==> x in s;
      CountMono(s[1..], p, q);
      assert Where(s, p) == (if p(s[0]) then [s[0]] + Where(s[1..], p) else Where(s[1..], p));
      assert Where(s, q) == (if q(s[0]) then [s[0]] + Where(s[1..], q) else Where(s[1..], q));
    }
  }

  /** The test an element of `left` passes to reach a join's result: it
      has a partner row and the pair passes `keep`. */
  function Joins<A, B>(lookup: A -> Option<B>, keep: (A, B) -> bool): A -> bool
  {
    (a: A) => lookup(a).Some? && keep(a, lookup(a).value)
  }

  /** An inner join of `left` against the rows `lookup` finds for each of
      its elements, filtered by `keep` and projected by `view`, in the
      order of `left`. An element with no partner row drops out; every
      element that joins contributes exactly one row. */
  function JoinWhere<A(!new), B, V(!new)>(left: seq<A>, lookup: A -> Option<B>, keep: (A, B) -> bool, view: (A, B) -> V): (r: seq<V>)
    ensures |r| <= |left|
    ensures |r| == Count(left, Joins(lookup, keep))
    ensures forall v :: v in r ==> exists a :: a in left && lookup(a).Some? && keep(a, lookup(a).value) && v == view(a, lookup(a).value)
    ensures forall a :: a in left && lookup(a).Some? && keep(a, lookup(a).value) ==> view(a, lookup(a).value) in r
  {
    if |left| == 0 then []
    else
      var rest := JoinWhere(left[1..], lookup, keep, view);
      assert forall a :: a in left <==> a == left[0] || a in left[1..];
      var a := left[0];
      if lookup(a).Some? && keep(a, lookup(a).value) then [view(a, lookup(a).value)] + rest else rest
  }

  /** A keep test followed by a test on the projected row. */
  function KeepThen<A, B, V>(keep: (A, B) -> bool, view: (A, B) -> V, q: V -> bool): (A, B) -> bool
  {
    (a: A, b: B) => keep(a, b) && q(view(a, b))
  }

  /** A Where after a join is the join with that test folded into its filter. */
  lemma {:induction false} WhereAfterJoin<A(!new), B, V(!new)>(left: seq<A>, lookup: A -> Option<B>, keep: (A, B) -> bool,
                                                                view: (A, B) -> V, q: V -> bool)
    ensures Where(JoinWhere(left, lookup, keep, view), q) == JoinWhere(left, lookup, KeepThen(keep, view, q), view)
  {
    if |left| > 0 {
      WhereAfterJoin(left[1..], lookup, keep, view, q);
      var a := left[0];
      var rest := JoinWhere(left[1..], lookup, keep, view);
      if lookup(a).Some? && keep(a, lookup(a).value) {
        var v := view(a, lookup(a).value);
        assert ([v] + rest)[0] == v && ([v] + rest)[1..] == rest;
      }
    }
  }

  /** A test applied after a projection `f`. */
  function Then<T, U>(f: T -> U, q: U -> bool): T -> bool
  {
    (x: T) => q(f(x))
  }

  /** Both tests. */
  function Both<T>(p: T -> bool, q: T -> bool): T -> bool
  {
    (x: T) => p(x) && q(x)
  }

  /** A Where after a Select is the Select of the Where on the projection. */
  lemma {:induction false} WhereAfterSelect<T(!new), U(!new)>(s: seq<T>, f: T -> U, q: U -> bool)
    ensures Where(Select(s, f), q) == Select(Where(s, Then(f, q)), f)
  {
    if |s| > 0 {
      WhereAfterSelect(s[1..], f, q);
      var t := Select(s, f);
      assert t[0] == f(s[0]) && t[1..] == Select(s[1..], f);
    }
  }

  /** A projection of a Where has one element per position passing the
      test, here given as any `r` that agrees with `p`. */
  lemma SelectWhereLength<T(!new), U(!new)>(s: seq<T>, p: T -> bool, f: T -> U, r: T -> bool)
    requires forall i :: 0 <= i < |s| ==> p(s[i]) == r(s[i])
    ensures |Select(Where(s, p), f)| == |Positions(s, r)|
  {
    CountIsPositions(s, p);
    PositionsAgree(s, p, r);
  }

  /** A Where on the projection of a Where has one element per position
      passing both tests, here given as any `r` that agrees with them. */
  lemma WhereSelectWhereLength<T(!new), U(!new)>(s: seq<T>, p: T -> bool, f: T -> U, q: U -> bool, r: T -> bool)
    requires forall i :: 0 <= i < |s| ==> (p(s[i]) && q(f(s[i]))) == r(s[i])
    ensures |Where(Select(Where(s, p), f), q)| == |Positions(s, r)|
  {
    WhereAfterSelect(Where(s, p), f, q);
    WhereAfterWhere(s, p, Then(f, q));
    CountIsPositions(s, Both(p, Then(f, q)));
    PositionsAgree(s, Both(p, Then(f, q)), r);
  }

  /** Two Where calls in a row are one Where with both tests. */
  lemma {:induction false} WhereAfterWhere<T(!new)>(s: seq<T>, p: T -> bool, q: T -> bool)
    ensures Where(Where(s, p), q) == Where(s, Both(p, q))
  {
    if |s| > 0 {
      WhereAfterWhere(s[1..], p, q);
      if p(s[0]) {
        var w := Where(s, p);
        assert w[0] == s[0] && w[1..] == Where(s[1..], p);
      }
    }
  }

  /** Enumerable.Skip: a count of zero or less skips nothing. */
  function Skip<T>(s: seq<T>, n: int): seq<T>
  {
    if n <= 0 then s else if n >= |s| then [] else s[n..]
  }

  /** Enumerable.Take: a count of zero or less takes nothing. */
  function Take<T>(s: seq<T>, n: int): seq<T>
  {
    if n <= 0 then [] else if n >= |s| then s else s[..n]
  }

  /** String.Contains (ordinal): sub occurs somewhere in s. */
  predicate Contains(s: string, sub: string)
    decreases |s|
  {
    sub <= s || (|s| > 0 && Contains(s[1..], sub))
  }

  /** sub occurs in s at position i. */
  ghost predicate OccursAt(s: string, sub: string, i: int)
  {
    0 <= i && i + |sub| <= |s| && s[i..i + |sub|] == sub
  }

  /** Contains, stated by position rather than by recursion. */
  lemma {:induction false} ContainsAt(s: string, sub: string)
    ensures Contains(s, sub) <==> exists i :: OccursAt(s, sub, i)
    decreases |s|
  {
    if sub <= s {
      assert s[0..|sub|] == sub;
      assert OccursAt(s, sub, 0);
    } else if |s| > 0 {
      ContainsAt(s[1..], sub);
      if Contains(s[1..], sub) {
        var i :| OccursAt(s[1..], sub, i);
        assert s[i + 1..i + 1 + |sub|] == s[1..][i..i + |sub|];
        assert OccursAt(s, sub, i + 1);
      }
      if exists i :: OccursAt(s, sub, i) {
        var i :| OccursAt(s, sub, i);
        assert s[1..][i - 1..i - 1 + |sub|] == s[i..i + |sub|];
        assert OccursAt(s[1..], sub, i - 1);
      }
    }
  }

  /** The keyword narrowing every list applies: an empty keyword keeps everything. */
  predicate MatchesKeyword(text: string, keyword: string)
  {
    keyword == "" || Contains(text, keyword)
  }

  ghost predicate SortedDescending<T>(s: seq<T>, key: T -> int)
  {
    forall i, j :: 0 <= i < j < |s| ==> key(s[i]) >= key(s[j])
  }

  lemma SortedCons<T>(y: T, t: seq<T>, key: T -> int)
    requires SortedDescending(t, key)
    requires |t| > 0 ==> key(y) >= key(t[0])
    ensures SortedDescending([y] + t, key)
  {
    var r := [y] + t;
    forall i, j | 0 <= i < j < |r| ensures key(r[i]) >= key(r[j]) {
      if i == 0 {
        assert key(t[0]) >= key(t[j - 1]) || j - 1 == 0;
      } else {
        assert r[i] == t[i - 1] && r[j] == t[j - 1];
      }
    }
  }

  function InsertDescending<T>(x: T, s: seq<T>, key: T -> int): (r: seq<T>)
    requires SortedDescending(s, key)
    ensures SortedDescending(r, key)
    ensures multiset(r) == multiset(s) + multiset{x}
    ensures |r| == |s| + 1
    ensures r[0] == x || (|s| > 0 && r[0] == s[0])
  {
    if |s| == 0 || key(x) >= key(s[0]) then
      SortedCons(x, s, key);
      [x] + s
    else
      assert s == [s[0]] + s[1..];
      var t := InsertDescending(x, s[1..], key);
      SortedCons(s[0], t, key);
      [s[0]] + t
  }

  /** Enumerable.OrderByDescending, as a stable insertion sort: the result
      is a permutation of s with non-increasing keys. */
  function OrderByDescending<T>(s: seq<T>, key: T -> int): (r: seq<T>)
    ensures SortedDescending(r, key)
    ensures multiset(r) == multiset(s)
    ensures |r| == |s|
  {
    if |s| == 0 then []
    else
      assert s == [s[0]] + s[1..];
      InsertDescending(s[0], OrderByDescending(s[1..], key), key)
  }

  // Tables keyed by a primary key.

  /** No two rows share a primary key (the store enforces [Key]). */
  ghost predicate UniqueBy<T>(s: seq<T>, key: T -> string)
  {
    forall i, j :: 0 <= i < j < |s| ==> key(s[i]) != key(s[j])
  }

  /** In a unique-keyed table, two rows with the same key are the same row. */
  lemma UniqueKeyEq<T>(s: seq<T>, key: T -> string, x: T, y: T)
    requires UniqueBy(s, key)
    requires x in s && y in s && key(x) == key(y)
    ensures x == y
  {
    var i :| 0 <= i < |s| && s[i] == x;
    var j :| 0 <= j < |s| && s[j] == y;
    assert !(i < j) && !(j < i);
  }

  /** The row whose primary key is k (Find / FirstOrDefault on the key). */
  function FindBy<T>(s: seq<T>, key: T -> string, k: string): (r: Option<T>)
    ensures r.None? <==> forall i :: 0 <= i < |s| ==> key(s[i]) != k
    ensures r.Some? ==> r.value in s && key(r.value) == k
  {
    if |s| == 0 then None
    else if key(s[0]) == k then Some(s[0])
    else FindBy(s[1..], key, k)
  }

  /** The row of a unique-keyed table with key k is the only one. */
  lemma {:induction false} FindByUnique<T>(s: seq<T>, key: T -> string, x: T)
    requires UniqueBy(s, key)
    requires x in s
    ensures FindBy(s, key, key(x)) == Some(x)
  {
    if s[0] != x {
      assert forall j :: 1 <= j < |s| ==> s[j] == s[1..][j - 1];
      var j :| 0 <= j < |s| && s[j] == x;
      assert key(s[0]) != key(s[j]);
      FindByUnique(s[1..], key, x);
    }
  }

  /** DbSet.Update followed by SaveChanges: the row with item's key is replaced. */
  function ReplaceBy<T>(s: seq<T>, key: T -> string, item: T): (r: seq<T>)
    ensures |r| == |s|
  {
    if |s| == 0 then []
    else [if key(s[0]) == key(item) then item else s[0]] + ReplaceBy(s[1..], key, item)
  }

  /** Position by position, ReplaceBy puts `item` where the key matches and
      keeps every other element. */
  lemma {:induction false} ReplaceByAt<T>(s: seq<T>, key: T -> string, item: T)
    ensures forall i :: 0 <= i < |s| ==> ReplaceBy(s, key, item)[i] == if key(s[i]) == key(item) then item else s[i]
  {
    if |s| > 0 {
      ReplaceByAt(s[1..], key, item);
      var r := ReplaceBy(s, key, item);
      forall i | 0 < i < |s|
        ensures r[i] == if key(s[i]) == key(item) then item else s[i]
      {
        assert r[i] == ReplaceBy(s[1..], key, item)[i - 1];
        assert s[1..][i - 1] == s[i];
      }
    }
  }

  /** DbSet.Remove followed by SaveChanges: the row with key k is gone. */
  function RemoveBy<T(!new)>(s: seq<T>, key: T -> string, k: string): (r: seq<T>)
    ensures forall x :: x in r <==> x in s && key(x) != k
    ensures multiset(r) <= multiset(s)
  {
    if |s| == 0 then []
    else
      assert s == [s[0]] + s[1..];
      if key(s[0]) == k then RemoveBy(s[1..], key, k) else [s[0]] + RemoveBy(s[1..], key, k)
  }

  lemma UniqueTail<T>(s: seq<T>, key: T -> string)
    requires UniqueBy(s, key) && |s| > 0
    ensures UniqueBy(s[1..], key)
    ensures forall i :: 0 <= i < |s[1..]| ==> key(s[1..][i]) != key(s[0])
  {
    var t := s[1..];
    forall i, j | 0 <= i < j < |t| ensures key(t[i]) != key(t[j]) {
      assert t[i] == s[i + 1] && t[j] == s[j + 1];
    }
    forall i | 0 <= i < |t| ensures key(t[i]) != key(s[0]) {
      assert t[i] == s[i + 1];
    }
  }

  lemma UniqueCons<T(!new)>(y: T, t: seq<T>, key: T -> string)
    requires UniqueBy(t, key)
    requires forall x :: x in t ==> key(x) != key(y)
    ensures UniqueBy([y] + t, key)
  {
    var r := [y] + t;
    forall i, j | 0 <= i < j < |r| ensures key(r[i]) != key(r[j]) {
      assert r[j] == t[j - 1];
      if i > 0 {
        assert r[i] == t[i - 1];
      }
    }
  }

  lemma {:induction false} RemoveByUnique<T(!new)>(s: seq<T>, key: T -> string, k: string)
    requires UniqueBy(s, key)
    ensures UniqueBy(RemoveBy(s, key, k), key)
  {
    if |s| > 0 {
      var t := s[1..];
      UniqueTail(s, key);
      RemoveByUnique(t, key, k);
      var rt := RemoveBy(t, key, k);
      if key(s[0]) != k {
        forall x | x in rt ensures key(x) != key(s[0]) {
          var i :| 0 <= i < |t| && t[i] == x;
        }
        UniqueCons(s[0], rt, key);
      }
    }
  }

  lemma {:induction false} RemoveByAbsent<T(!new)>(s: seq<T>, key: T -> string, k: string)
    requires FindBy(s, key, k).None?
    ensures RemoveBy(s, key, k) == s
  {
    if |s| > 0 {
      RemoveByAbsent(s[1..], key, k);
      assert s == [s[0]] + s[1..];
    }
  }

  lemma {:induction false} RemoveByCount<T(!new)>(s: seq<T>, key: T -> string, k: string)
    requires UniqueBy(s, key)
    requires FindBy(s, key, k).Some?
    ensures |RemoveBy(s, key, k)| == |s| - 1
  {
    UniqueTail(s, key);
    if key(s[0]) == k {
      RemoveByAbsent(s[1..], key, k);
    } else {
      RemoveByCount(s[1..], key, k);
    }
  }

  lemma AppendUnique<T>(s: seq<T>, key: T -> string, item: T)
    requires UniqueBy(s, key)
    requires FindBy(s, key, key(item)).None?
    ensures UniqueBy(s + [item], key)
  {
  }

  lemma ReplaceUnique<T>(s: seq<T>, key: T -> string, item: T)
    requires UniqueBy(s, key)
    requires FindBy(s, key, key(item)).Some?
    ensures UniqueBy(ReplaceBy(s, key, item), key)
    ensures item in ReplaceBy(s, key, item)
  {
    var r := ReplaceBy(s, key, item);
    ReplaceByAt(s, key, item);
    var i :| 0 <= i < |s| && s[i] == FindBy(s, key, key(item)).value;
    assert r[i] == item;
  }
}
