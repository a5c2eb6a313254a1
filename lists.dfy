/// The `List<T>` and LINQ operations the library relies on, as functions on
/// sequences: `List.Remove` removes the first occurrence only, and the LINQ set
/// operators return each element once, in the order of first appearance.
module Lists {

  predicate NoDups<T(==)>(s: seq<T>)
  {
    forall i, j | 0 <= i < j < |s| :: s[i] != s[j]
  }

  /// Strictly ascending.
  predicate Increasing(s: seq<int>)
  {
    forall i, j | 0 <= i < j < |s| :: s[i] < s[j]
  }

  /// The integers lo, lo + 1, ..., hi - 1.
  function Range(lo: int, hi: int): (r: seq<int>)
    ensures |r| == if lo <= hi then hi - lo else 0
    ensures forall i | 0 <= i < |r| :: r[i] == lo + i
  {
    if lo >= hi then [] else seq(hi - lo, i requires 0 <= i < hi - lo => lo + i)
  }

  lemma RangeIncreasing(lo: int, hi: int)
    ensures Increasing(Range(lo, hi))
    ensures forall v :: v in Range(lo, hi) <==> lo <= v < hi
  {
    var r := Range(lo, hi);
    forall v | lo <= v < hi ensures v in r {
      assert r[v - lo] == v;
    }
  }

  /// `List<T>.Remove`: drops the first occurrence of `x`, if any.
  function RemoveFirst<T(==)>(s: seq<T>, x: T): seq<T>
  {
    if s == [] then []
    else if s[0] == x then s[1..]
    else [s[0]] + RemoveFirst(s[1..], x)
  }

  /// Every occurrence of `x` dropped.
  function Without<T(==)>(s: seq<T>, x: T): seq<T>
  {
    if s == [] then []
    else if s[0] == x then Without(s[1..], x)
    else [s[0]] + Without(s[1..], x)
  }

  lemma {:induction false} WithoutMembership<T>(s: seq<T>, x: T)
    ensures forall y :: y in Without(s, x) <==> y in s && y != x
    ensures |Without(s, x)| <= |s|
  {
    if s != [] {
      WithoutMembership(s[1..], x);
      assert s == [s[0]] + s[1..];
    }
  }

  lemma {:induction false} WithoutNoDups<T>(s: seq<T>, x: T)
    requires NoDups(s)
    ensures NoDups(Without(s, x))
  {
    if s != [] {
      WithoutNoDups(s[1..], x);
      WithoutMembership(s[1..], x);
      assert s[0] !in s[1..];
    }
  }

  lemma {:induction false} WithoutHead<T>(s: seq<T>, x: T)
    requires s != [] && s[0] != x
    ensures Without(s, x) != [] && Without(s, x)[0] == s[0]
  {
  }

  lemma {:induction false} WithoutAbsent<T>(s: seq<T>, x: T)
    requires x !in s
    ensures Without(s, x) == s
  {
    if s != [] {
      WithoutAbsent(s[1..], x);
      assert s == [s[0]] + s[1..];
    }
  }

  /// On a list without duplicates `List.Remove` drops every occurrence.
  lemma {:induction false} RemoveFirstIsWithout<T>(s: seq<T>, x: T)
    requires NoDups(s)
    ensures RemoveFirst(s, x) == Without(s, x)
  {
    if s != [] {
      if s[0] == x {
        assert x !in s[1..];
        WithoutAbsent(s[1..], x);
      } else {
        RemoveFirstIsWithout(s[1..], x);
      }
    }
  }

  lemma {:induction false} WithoutIncreasing(s: seq<int>, x: int)
    requires Increasing(s)
    ensures Increasing(Without(s, x))
  {
    if s != [] {
      WithoutIncreasing(s[1..], x);
      WithoutMembership(s[1..], x);
      var w := Without(s[1..], x);
      if s[0] != x {
        forall j | 0 <= j < |w| ensures s[0] < w[j] {
          assert w[j] in s[1..];
        }
      }
    }
  }

  lemma HeadIsLeast(s: seq<int>, v: int)
    requires Increasing(s) && v in s
    ensures s[0] <= v
  {
    var k :| 0 <= k < |s| && s[k] == v;
    if k > 0 {
      assert s[0] < s[k];
    }
  }

  lemma SameMembersEmpty<T>(a: seq<T>, b: seq<T>)
    requires forall v :: v in a <==> v in b
    ensures a == [] <==> b == []
  {
    if a != [] {
      assert a[0] in b;
    }
    if b != [] {
      assert b[0] in a;
    }
  }

  /// Past equal heads, every later member of `a` is a later member of `b`.
  lemma TailMembers(a: seq<int>, b: seq<int>)
    requires Increasing(a) && a != [] && b != [] && a[0] == b[0]
    requires forall v :: v in a ==> v in b
    ensures forall v :: v in a[1..] ==> v in b[1..]
  {
    forall v | v in a[1..] ensures v in b[1..] {
      var k :| 1 <= k < |a| && a[k] == v;
      assert a[0] < a[k];
      assert v in b;
    }
  }

  /// Two ascending lists with the same members are equal.
  lemma {:induction false} IncreasingUnique(a: seq<int>, b: seq<int>)
    requires Increasing(a) && Increasing(b)
    requires forall v :: v in a <==> v in b
    ensures a == b
  {
    SameMembersEmpty(a, b);
    if a != [] {
      HeadIsLeast(b, a[0]);
      HeadIsLeast(a, b[0]);
      TailMembers(a, b);
      TailMembers(b, a);
      IncreasingUnique(a[1..], b[1..]);
      assert a == [a[0]] + a[1..] && b == [b[0]] + b[1..];
    }
  }

  /// The elements of `s` that satisfy `f`, in order.
  function Keep<T>(s: seq<T>, f: T -> bool): seq<T>
  {
    if s == [] then []
    else if f(s[0]) then [s[0]] + Keep(s[1..], f)
    else Keep(s[1..], f)
  }

  lemma {:induction false} KeepMembers<T>(s: seq<T>, f: T -> bool)
    ensures forall x :: x in Keep(s, f) <==> x in s && f(x)
  {
    if s != [] {
      KeepMembers(s[1..], f);
      assert s == [s[0]] + s[1..];
    }
  }

  lemma {:induction false} KeepIncreasing(s: seq<int>, f: int -> bool)
    requires Increasing(s)
    ensures Increasing(Keep(s, f))
  {
    if s != [] {
      KeepIncreasing(s[1..], f);
      KeepMembers(s[1..], f);
      var w := Keep(s[1..], f);
      if f(s[0]) {
        forall j | 0 <= j < |w| ensures s[0] < w[j] {
          assert w[j] in s[1..];
        }
      }
    }
  }

  /// The filter depends only on the values of its predicate.
  lemma {:induction false} KeepSame<T>(s: seq<T>, f: T -> bool, g: T -> bool)
    requires forall x | x in s :: f(x) == g(x)
    ensures Keep(s, f) == Keep(s, g)
  {
    if s != [] {
      assert s[0] in s;
      assert forall x | x in s[1..] :: x in s;
      KeepSame(s[1..], f, g);
    }
  }

  lemma WithoutTwice<T>(s: seq<T>, x: T)
    ensures Without(Without(s, x), x) == Without(s, x)
  {
    WithoutMembership(s, x);
    WithoutAbsent(Without(s, x), x);
  }

  /// LINQ `Except`: the elements of `a` that are not in `b`, each once.
  function Except<T(==)>(a: seq<T>, b: seq<T>): seq<T>
  {
    if a == [] then []
    else if a[0] in b then Except(a[1..], b)
    else [a[0]] + Except(a[1..], b + [a[0]])
  }

  /// LINQ `Union`: the elements of `a`, then those of `b`, each once.
  function Union<T(==)>(a: seq<T>, b: seq<T>): seq<T>
  {
    Except(a + b, [])
  }

  /// LINQ `Intersect`: the elements of `a` that are also in `b`, each once.
  function Intersect<T(==)>(a: seq<T>, b: seq<T>): seq<T>
  {
    if a == [] then []
    else if a[0] in b then [a[0]] + Intersect(a[1..], Without(b, a[0]))
    else Intersect(a[1..], b)
  }

  lemma {:induction false} ExceptMembership<T>(a: seq<T>, b: seq<T>)
    ensures forall x :: x in Except(a, b) <==> x in a && x !in b
    ensures NoDups(Except(a, b))
    ensures |Except(a, b)| <= |a|
  {
    if a != [] {
      ExceptMembership(a[1..], b);
      ExceptMembership(a[1..], b + [a[0]]);
      assert a == [a[0]] + a[1..];
    }
  }

  lemma UnionMembership<T>(a: seq<T>, b: seq<T>)
    ensures forall x :: x in Union(a, b) <==> x in a || x in b
    ensures NoDups(Union(a, b))
  {
    ExceptMembership(a + b, []);
  }

  lemma {:induction false} IntersectMembership<T>(a: seq<T>, b: seq<T>)
    ensures forall x :: x in Intersect(a, b) ==> x in a && x in b
    ensures (exists x :: x in a && x in b) ==> |Intersect(a, b)| > 0
  {
    if a != [] {
      IntersectMembership(a[1..], Without(b, a[0]));
      IntersectMembership(a[1..], b);
      WithoutMembership(b, a[0]);
      if a[0] !in b {
        if exists x :: x in a && x in b {
          var x :| x in a && x in b;
          assert x != a[0] && x in a[1..];
        }
      }
    }
  }

  /// The number LINQ `Intersect` counts is positive exactly when the lists share a member.
  lemma SharesIffIntersect<T>(a: seq<T>, b: seq<T>)
    ensures |Intersect(a, b)| > 0 <==> exists x :: x in a && x in b
  {
    IntersectMembership(a, b);
    if |Intersect(a, b)| > 0 {
      assert Intersect(a, b)[0] in a;
    }
  }

  /// LINQ `Distinct().Count()` equals the length exactly when nothing repeats
  /// (and, in the general form, nothing is already excluded).
  lemma {:induction false} ExceptLength<T>(a: seq<T>, b: seq<T>)
    ensures |Except(a, b)| == |a| <==> NoDups(a) && forall x | x in a :: x !in b
  {
    if a != [] {
      ExceptLength(a[1..], b + [a[0]]);
      ExceptMembership(a[1..], b);
      NoDupsCons(a);
      assert a == [a[0]] + a[1..];
    }
  }

  lemma DistinctCount<T>(a: seq<T>)
    ensures |Except(a, [])| == |a| <==> NoDups(a)
  {
    ExceptLength(a, []);
  }

  /// The members of a list, as a set.
  function Members(s: seq<int>): (m: set<int>)
    ensures forall x :: x in m <==> x in s
  {
    set x | x in s
  }

  /// A list has at least as many entries as distinct members, and exactly as
  /// many when nothing repeats.
  lemma {:induction false} MembersCard(s: seq<int>)
    ensures |Members(s)| <= |s|
    ensures |Members(s)| == |s| <==> NoDups(s)
  {
    if s != [] {
      MembersCard(s[1..]);
      NoDupsCons(s);
      assert Members(s) == Members(s[1..]) + {s[0]};
      if s[0] in s[1..] {
        assert Members(s) == Members(s[1..]);
      }
    }
  }

  lemma NoDupsCons<T>(s: seq<T>)
    requires s != []
    ensures NoDups(s) <==> s[0] !in s[1..] && NoDups(s[1..])
  {
    if s[0] in s[1..] {
      var k :| 0 <= k < |s[1..]| && s[1..][k] == s[0];
      assert s[k + 1] == s[0];
    }
    if NoDups(s) {
      forall i, j | 0 <= i < j < |s[1..]| ensures s[1..][i] != s[1..][j] {
        assert s[1..][i] == s[i + 1] && s[1..][j] == s[j + 1];
      }
    }
    if s[0] !in s[1..] && NoDups(s[1..]) {
      forall i, j | 0 <= i < j < |s| ensures s[i] != s[j] {
        if i > 0 {
          assert s[i] == s[1..][i - 1] && s[j] == s[1..][j - 1];
        } else {
          assert s[j] in s[1..];
        }
      }
    }
  }

  /// A duplicate-free list whose only member is v is [v].
  lemma OnlyMember(s: seq<int>, v: int)
    requires NoDups(s) && v in s && forall u | u in s :: u == v
    ensures s == [v]
  {
    MembersCard(s);
    assert Members(s) == {v};
    assert s[0] in s;
  }

  lemma SubsetCard(a: set<int>, b: set<int>)
    requires a <= b
    ensures |a| <= |b|
  {
    assert b == a + (b - a);
    assert a * (b - a) == {};
  }

  /// Pigeonhole: a list of n entries holding each of lo..lo + n - 1 holds nothing
  /// else and repeats nothing.
  lemma FullRange(s: seq<int>, lo: int)
    requires forall v | lo <= v < lo + |s| :: v in s
    ensures forall x | x in s :: lo <= x < lo + |s|
    ensures NoDups(s)
  {
    var r := Range(lo, lo + |s|);
    RangeIncreasing(lo, lo + |s|);
    MembersCard(r);
    MembersCard(s);
    SubsetCard(Members(r), Members(s));
    forall x | x in s ensures lo <= x < lo + |s| {
      if !(lo <= x < lo + |s|) {
        SubsetCard(Members(r) + {x}, Members(s));
      }
    }
  }
}
