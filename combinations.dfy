/// The combination enumerator: every strictly increasing choice of k indices
/// out of n, in lexicographic order, and the combinations of a list's values
/// that contain a given value.
module Combinations {
  import opened Wrappers

  /// Strictly increasing from position `from` on.
  predicate IncreasingFrom(c: seq<int>, from: nat)
  {
    forall i | from <= i < |c| - 1 :: c[i] < c[i + 1]
  }

  /// `a` comes before `b` in lexicographic order.
  predicate LexLess(a: seq<int>, b: seq<int>)
  {
    exists i | 0 <= i < |a| && i < |b| :: a[..i] == b[..i] && a[i] < b[i]
  }

  predicate LexSorted(s: seq<seq<int>>)
  {
    forall i, j | 0 <= i < j < |s| :: LexLess(s[i], s[j])
  }

  /// `c` is a k-of-n index choice that extends the prefix `p` with a value of
  /// at least `from` at position `|p|`.
  predicate Completes(k: nat, n: int, p: seq<int>, from: int, c: seq<int>)
  {
    |c| == k && |p| < k && c[..|p|] == p && from <= c[|p|] && IncreasingFrom(c, |p|) && c[k - 1] < n
  }

  /// The index choices the enumerator still has to produce once position `|p|`
  /// is to take values from `from` on after the prefix `p`.
  function Tail(k: nat, n: int, p: seq<int>, from: int): seq<seq<int>>
    requires |p| < k
    decreases k - |p|, n - from, 1
  {
    if from >= n then [] else Branch(k, n, p, from) + Tail(k, n, p, from + 1)
  }

  /// The choices that put `from` at position `|p|`.
  function Branch(k: nat, n: int, p: seq<int>, from: int): seq<seq<int>>
    requires |p| < k
    decreases k - |p|, n - from, 0
  {
    if |p| + 1 == k then [p + [from]] else Tail(k, n, p + [from], from + 1)
  }

  /// Every strictly increasing choice of k indices out of [0, n).
  function Combos(k: nat, n: int): seq<seq<int>>
    requires k >= 1
  {
    Tail(k, n, [], 0)
  }

  /// What the enumerator still has to produce for a stack of next values, the
  /// top first; level d extends the first d entries of the mapping `m`.
  function Remaining(k: nat, n: int, stack: seq<int>, m: seq<int>): seq<seq<int>>
    requires |stack| <= k && |m| == k
  {
    if stack == [] then []
    else Tail(k, n, m[..|stack| - 1], stack[|stack| - 1]) + Remaining(k, n, stack[..|stack| - 1], m)
  }

  /// The number of loop steps `Tail` takes: the enumerator's termination measure.
  function Steps(k: nat, n: int, depth: nat, from: int): nat
    requires depth < k
    decreases k - depth, n - from
  {
    if from >= n then 1
    else 1 + (if depth + 1 == k then 0 else Steps(k, n, depth + 1, from + 1)) + Steps(k, n, depth, from + 1)
  }

  function StackSteps(k: nat, n: int, stack: seq<int>): nat
    requires |stack| <= k
  {
    if stack == [] then 0 else StackSteps(k, n, stack[..|stack| - 1]) + Steps(k, n, |stack| - 1, stack[|stack| - 1])
  }

  lemma {:induction false} RemainingFrame(k: nat, n: int, stack: seq<int>, m: seq<int>, i: nat, v: int)
    requires |stack| <= k && |m| == k && |stack| <= i < k
    ensures Remaining(k, n, stack, m) == Remaining(k, n, stack, m[i := v])
    decreases |stack|
  {
    if stack != [] {
      assert m[..|stack| - 1] == m[i := v][..|stack| - 1];
      RemainingFrame(k, n, stack[..|stack| - 1], m, i, v);
    }
  }

  /// What the enumerator still has to produce while position `|stack|` is
  /// being filled from `next` on.
  function Pending(k: nat, n: int, stack: seq<int>, m: seq<int>, next: int): seq<seq<int>>
    requires |stack| < k && |m| == k
  {
    Tail(k, n, m[..|stack|], next) + Remaining(k, n, stack, m)
  }

  /// One pass of the inner loop that does not fill the mapping: position
  /// `|stack|` takes `cur` and the next position starts after it.
  lemma Descend(k: nat, n: int, stack: seq<int>, m: seq<int>, cur: int)
    requires |stack| + 1 < k && |m| == k && cur < n
    ensures Pending(k, n, stack, m, cur) == Pending(k, n, stack + [cur + 1], m[|stack| := cur], cur + 1)
    ensures StackSteps(k, n, stack + [cur + 1]) == StackSteps(k, n, stack) + Steps(k, n, |stack|, cur + 1)
  {
    var m1 := m[|stack| := cur];
    RemainingFrame(k, n, stack, m, |stack|, cur);
    assert Branch(k, n, m[..|stack|], cur) == Tail(k, n, m[..|stack|] + [cur], cur + 1);
    assert m1[..|stack| + 1] == m[..|stack|] + [cur];
    assert m1[..|stack|] == m[..|stack|];
    assert (stack + [cur + 1])[..|stack|] == stack;
  }

  /// The pass of the inner loop that fills the mapping and yields it.
  lemma Yield(k: nat, n: int, stack: seq<int>, m: seq<int>, cur: int)
    requires |stack| + 1 == k && |m| == k && cur < n
    ensures Pending(k, n, stack, m, cur) == [m[|stack| := cur]] + Remaining(k, n, stack + [cur + 1], m[|stack| := cur])
    ensures StackSteps(k, n, stack + [cur + 1]) == StackSteps(k, n, stack) + Steps(k, n, |stack|, cur + 1)
  {
    var m1 := m[|stack| := cur];
    RemainingFrame(k, n, stack, m, |stack|, cur);
    assert Branch(k, n, m[..|stack|], cur) == [m[..|stack|] + [cur]];
    assert m1 == m[..|stack|] + [cur];
    assert m1[..|stack|] == m[..|stack|];
    assert (stack + [cur + 1])[..|stack|] == stack;
  }

  /// `CurrentCombinationMapping(k, n)`: a stack of next values drives a fixed
  /// mapping buffer; each time the buffer is full a copy of it is produced.
  /// A negative k throws when the buffer is allocated; k = 0 throws when the
  /// first entry is written, which happens as soon as n > 0.
  method CurrentCombinationMapping(k: int, n: nat) returns (r: Result<seq<seq<int>>>)
    ensures k < 0 ==> r.Err?
    ensures k == 0 ==> (r.Ok? <==> n == 0) && (r.Ok? ==> r.value == [])
    ensures k >= 1 ==> r == Ok(Combos(k, n))
  {
    if k < 0 {
      return Err("Arithmetic operation resulted in an overflow.");
    }
    if k == 0 {
      if n > 0 {
        return Err("Index was outside the bounds of the array.");
      }
      return Ok([]);
    }
    var mapping := new int[k];
    var stack: seq<int> := [0];
    var out: seq<seq<int>> := [];
    while |stack| > 0
      invariant 1 <= k == mapping.Length && |stack| <= k
      invariant out + Remaining(k, n, stack, mapping[..]) == Combos(k, n)
      decreases StackSteps(k, n, stack)
    {
      var index := |stack| - 1;
      var cur := stack[index];
      stack := stack[..index];
      assert Pending(k, n, stack, mapping[..], cur) == Remaining(k, n, stack + [cur], mapping[..]);
      stack, out := FillMapping(mapping, k, n, stack, cur, out);
    }
    assert out + [] == out;
    r := Ok(out);
  }

  /// The inner loop of `CurrentCombinationMapping`: from position `|stack|` on
  /// the mapping takes consecutive values from `cur`, each position pushing its
  /// next value, until the mapping is full, when a copy of it is produced, or
  /// the values run out.
  method FillMapping(mapping: array<int>, k: nat, n: nat, stack: seq<int>, cur: int, out: seq<seq<int>>)
    returns (stack': seq<int>, out': seq<seq<int>>)
    requires mapping.Length == k && |stack| < k
    modifies mapping
    ensures |stack'| <= k
    ensures out' + Remaining(k, n, stack', mapping[..]) == out + Pending(k, n, stack, old(mapping[..]), cur)
    ensures StackSteps(k, n, stack') < Steps(k, n, |stack|, cur) + StackSteps(k, n, stack)
  {
    ghost var target := out + Pending(k, n, stack, mapping[..], cur);
    ghost var bound := Steps(k, n, |stack|, cur) + StackSteps(k, n, stack);
    var index, next := |stack|, cur;
    stack', out' := stack, out;
    while next < n
      invariant index == |stack'| < k
      invariant out' + Pending(k, n, stack', mapping[..], next) == target
      invariant Steps(k, n, index, next) + StackSteps(k, n, stack') <= bound
      decreases n - next
    {
      ghost var m := mapping[..];
      if index + 1 < k {
        Descend(k, n, stack', m, next);
      } else {
        Yield(k, n, stack', m, next);
      }
      mapping[index] := next;
      assert mapping[..] == m[index := next];
      index := index + 1;
      next := next + 1;
      stack' := stack' + [next];
      if index != k {
        continue;
      }
      out' := out' + [mapping[..]];
      return;
    }
    assert Pending(k, n, stack', mapping[..], next) == Remaining(k, n, stack', mapping[..]);
  }

  lemma {:induction false} IncreasingChain(c: seq<int>, from: nat, i: nat, j: nat)
    requires IncreasingFrom(c, from) && from <= i <= j < |c|
    ensures c[i] + (j - i) <= c[j]
    decreases j - i
  {
    if i < j {
      IncreasingChain(c, from, i + 1, j);
    }
  }

  /// Everything `Tail` produces is a choice that completes its prefix.
  lemma {:induction false} TailSound(k: nat, n: int, p: seq<int>, from: int)
    requires |p| < k
    ensures forall c | c in Tail(k, n, p, from) :: Completes(k, n, p, from, c)
    decreases k - |p|, n - from
  {
    if from < n {
      TailSound(k, n, p, from + 1);
      if |p| + 1 < k {
        TailSound(k, n, p + [from], from + 1);
        forall c | c in Tail(k, n, p + [from], from + 1) ensures Completes(k, n, p, from, c) {
          assert c[..|p| + 1][..|p|] == c[..|p|];
          assert c[|p|] == c[..|p| + 1][|p|];
        }
      }
    }
  }

  /// Every choice that completes the prefix is produced by `Tail`.
  lemma {:induction false} TailComplete(k: nat, n: int, p: seq<int>, from: int, c: seq<int>)
    requires |p| < k && Completes(k, n, p, from, c)
    ensures c in Tail(k, n, p, from)
    decreases k - |p|, n - from
  {
    IncreasingChain(c, |p|, |p|, k - 1);
    if c[|p|] == from {
      if |p| + 1 == k {
        assert c == p + [from];
      } else {
        assert c[..|p| + 1] == p + [from];
        TailComplete(k, n, p + [from], from + 1, c);
      }
    } else {
      TailComplete(k, n, p, from + 1, c);
    }
  }

  lemma SortedConcat(a: seq<seq<int>>, b: seq<seq<int>>)
    requires LexSorted(a) && LexSorted(b)
    requires forall x, y | x in a && y in b :: LexLess(x, y)
    ensures LexSorted(a + b)
  {
    forall i, j | 0 <= i < j < |a + b| ensures LexLess((a + b)[i], (a + b)[j]) {
      if j < |a| {
        assert LexLess(a[i], a[j]);
      } else if i >= |a| {
        assert LexLess(b[i - |a|], b[j - |a|]);
      } else {
        assert (a + b)[i] in a && (a + b)[j] in b;
      }
    }
  }

  /// `Tail` produces its choices in lexicographic order.
  lemma {:induction false} TailSorted(k: nat, n: int, p: seq<int>, from: int)
    requires |p| < k
    ensures LexSorted(Tail(k, n, p, from))
    decreases k - |p|, n - from
  {
    if from < n {
      var first := if |p| + 1 == k then [p + [from]] else Tail(k, n, p + [from], from + 1);
      var second := Tail(k, n, p, from + 1);
      TailSorted(k, n, p, from + 1);
      TailSound(k, n, p, from + 1);
      if |p| + 1 < k {
        TailSorted(k, n, p + [from], from + 1);
        TailSound(k, n, p + [from], from + 1);
      }
      forall x, y | x in first && y in second ensures LexLess(x, y) {
        assert x[..|p| + 1] == p + [from];
        assert x[..|p|] == x[..|p| + 1][..|p|] && x[|p|] == x[..|p| + 1][|p|];
        assert x[..|p|] == y[..|p|] && x[|p|] < y[|p|];
      }
      SortedConcat(first, second);
    }
  }

  /// The enumerator produces exactly the strictly increasing k-of-n index
  /// choices.
  lemma CombosExactly(k: nat, n: int, c: seq<int>)
    requires k >= 1
    ensures c in Combos(k, n) <==> |c| == k && 0 <= c[0] && IncreasingFrom(c, 0) && c[k - 1] < n
  {
    TailSound(k, n, [], 0);
    if |c| == k && 0 <= c[0] && IncreasingFrom(c, 0) && c[k - 1] < n {
      TailComplete(k, n, [], 0, c);
    }
  }

  /// The choices come in lexicographic order, so none comes twice.
  lemma CombosOrdered(k: nat, n: int)
    requires k >= 1
    ensures LexSorted(Combos(k, n))
    ensures forall i, j | 0 <= i < j < |Combos(k, n)| :: Combos(k, n)[i] != Combos(k, n)[j]
  {
    TailSorted(k, n, [], 0);
  }

  /// Fewer values than places: nothing is produced.
  lemma CombosEmptyWhenShort(k: nat, n: int)
    requires k >= 1 && n < k
    ensures Combos(k, n) == []
  {
    TailSound(k, n, [], 0);
    if Combos(k, n) != [] {
      var c := Combos(k, n)[0];
      assert c in Tail(k, n, [], 0);
      IncreasingChain(c, 0, 0, k - 1);
    }
  }

  /// Every choice of the enumerator holds k indices within [0, n).
  lemma CombosValid(k: nat, n: int)
    requires k >= 1
    ensures forall c | c in Combos(k, n) ::
              |c| == k && IncreasingFrom(c, 0) && Below(c, n)
  {
    TailSound(k, n, [], 0);
    forall c, t | c in Combos(k, n) && 0 <= t < k ensures 0 <= c[t] < n {
      assert c in Tail(k, n, [], 0);
      IncreasingChain(c, 0, 0, t);
      IncreasingChain(c, 0, t, k - 1);
    }
  }

  /// The index choices `GenerateCombinations` walks for length i (none for 0).
  function Mappings(i: nat, n: nat): (cs: seq<seq<int>>)
    ensures InRange(cs, n)
  {
    if i == 0 then [] else CombosValid(i, n); Combos(i, n)
  }

  lemma MappingsValid(i: nat, n: nat)
    ensures InRange(Mappings(i, n), n)
    ensures forall c | c in Mappings(i, n) :: |c| == i && IncreasingFrom(c, 0)
  {
    if i > 0 {
      CombosValid(i, n);
    }
  }

  /// Every index of `c` lies in [0, n).
  predicate Below(c: seq<int>, n: int)
  {
    forall t | 0 <= t < |c| :: 0 <= c[t] < n
  }

  /// The values at the indices of a choice.
  function Pick<T>(values: seq<T>, c: seq<int>): seq<T>
    requires Below(c, |values|)
  {
    seq(|c|, t requires 0 <= t < |c| => values[c[t]])
  }

  predicate InRange(cs: seq<seq<int>>, n: int)
  {
    forall c | c in cs :: Below(c, n)
  }

  /// The picks of the choices `cs` that hold `obj`, in the order of `cs`.
  function Containing<T(==)>(values: seq<T>, obj: T, cs: seq<seq<int>>): seq<seq<T>>
    requires InRange(cs, |values|)
    decreases |cs|, 1
  {
    if cs == [] then [] else ContainingLast(values, obj, cs)
  }

  /// `Containing` for a non-empty `cs`: the picks of all but the last choice,
  /// then the pick of the last one when it holds `obj`.
  function ContainingLast<T(==)>(values: seq<T>, obj: T, cs: seq<seq<int>>): seq<seq<T>>
    requires InRange(cs, |values|) && cs != []
    decreases |cs|, 0
  {
    var last := Pick(values, cs[|cs| - 1]);
    Containing(values, obj, cs[..|cs| - 1]) + (if obj in last then [last] else [])
  }


  /// The combinations of length `i` that hold `obj`, in the enumerator's order.
  function Layer<T(==)>(values: seq<T>, obj: T, i: nat): seq<seq<T>>
  {
    Containing(values, obj, Mappings(i, |values|))
  }

  /// The layers of the lengths in [min, upto), shortest first.
  function Stacked<T>(layer: nat -> seq<seq<T>>, min: int, upto: int): seq<seq<T>>
    requires upto <= min || min >= 0
    decreases upto - min
  {
    if upto <= min then [] else Stacked(layer, min, upto - 1) + layer(upto - 1)
  }

  /// The combinations `GenerateCombinations` returns for the lengths in [min, upto).
  function Selections<T(==)>(values: seq<T>, obj: T, min: int, upto: int): seq<seq<T>>
    requires upto <= min || min >= 0
  {
    Stacked((i: nat) => Layer(values, obj, i), min, upto)
  }

  /// `GenerateCombinations`: for each length from `min` to `max`, every
  /// combination of the values (taken in the enumerator's order) that holds
  /// `obj`. A negative length throws, and so does length 0 with values present.
  method GenerateCombinations<T(==)>(values: seq<T>, obj: T, min: int, max: int) returns (r: Result<seq<seq<T>>>)
    ensures r.Ok? <==> max < min || min >= 1 || (min == 0 && |values| == 0)
    ensures r.Ok? ==> r.value == Selections(values, obj, min, max + 1)
  {
    var combinations: seq<seq<T>> := [];
    var i := min;
    while i <= max
      invariant i == min || (0 <= min < i <= max + 1 && (min == 0 ==> |values| == 0))
      invariant combinations == Selections(values, obj, min, i)
    {
      if i < 0 {
        return Err("Arithmetic operation resulted in an overflow.");
      }
      var found := CombinationsOfLength(values, obj, i);
      if found.Err? {
        return Err(found.error);
      }
      SelectionsNext(values, obj, min, i, found.value);
      combinations := combinations + found.value;
      assert combinations == Selections(values, obj, min, i + 1);
      i := i + 1;
    }
    r := Ok(combinations);
  }

  lemma SelectionsNext<T>(values: seq<T>, obj: T, min: int, i: int, layer: seq<seq<T>>)
    requires 0 <= min <= i && layer == Layer(values, obj, i)
    ensures Selections(values, obj, min, i + 1) == Selections(values, obj, min, i) + layer
  {
  }

  /// One pass of the outer loop: a buffer of length i and the mappings of
  /// length i, of which those whose values hold `obj` are kept.
  method CombinationsOfLength<T(==)>(values: seq<T>, obj: T, i: nat) returns (r: Result<seq<seq<T>>>)
    ensures r.Ok? <==> i >= 1 || |values| == 0
    ensures r.Ok? ==> r.value == Layer(values, obj, i)
  {
    var current := new T[i](_ => obj);
    var mappings := CurrentCombinationMapping(i, |values|);
    if mappings.Err? {
      return Err(mappings.error);
    }
    MappingsValid(i, |values|);
    assert mappings.value == Mappings(i, |values|);
    var found := CollectContaining(values, obj, mappings.value, current);
    r := Ok(found);
  }

  /// The loop over the mappings of one length: the buffer `current` takes the
  /// values at each mapping in turn and a copy is kept when it holds `obj`.
  method CollectContaining<T(==)>(values: seq<T>, obj: T, cs: seq<seq<int>>, current: array<T>)
    returns (found: seq<seq<T>>)
    requires InRange(cs, |values|)
    requires forall c | c in cs :: |c| == current.Length
    modifies current
    ensures found == Containing(values, obj, cs)
  {
    found := [];
    var j := 0;
    while j < |cs|
      invariant 0 <= j <= |cs|
      invariant found == Containing(values, obj, cs[..j])
    {
      var c := cs[j];
      assert c in cs;
      for t := 0 to current.Length
        invariant forall u | 0 <= u < t :: current[u] == values[c[u]]
      {
        current[t] := values[c[t]];
      }
      assert current[..] == Pick(values, c);
      ContainingStep(values, obj, cs, j);
      if obj in current[..] {
        found := found + [current[..]];
      }
      j := j + 1;
    }
    assert cs[..|cs|] == cs;
  }

  lemma ContainingStep<T>(values: seq<T>, obj: T, cs: seq<seq<int>>, j: nat)
    requires InRange(cs, |values|) && j < |cs|
    ensures InRange(cs[..j], |values|) && InRange(cs[..j + 1], |values|)
    ensures Containing(values, obj, cs[..j + 1]) ==
            Containing(values, obj, cs[..j]) + (if obj in Pick(values, cs[j]) then [Pick(values, cs[j])] else [])
  {
    assert forall c | c in cs[..j + 1] :: c in cs;
    assert cs[..j + 1][..j] == cs[..j];
  }

  /// A sequence of values picked, in order, from `values`.
  ghost predicate PickedInOrder<T>(values: seq<T>, s: seq<T>)
  {
    exists c: seq<int> | |c| == |s| && IncreasingFrom(c, 0) && Below(c, |values|) ::
      s == Pick(values, c)
  }

  /// Every list has a length in [lo, hi).
  predicate LengthsWithin<T>(s: seq<seq<T>>, lo: int, hi: int)
  {
    forall i | 0 <= i < |s| :: lo <= LengthAt(s, i) < hi
  }

  /// The length of the list at index `i`.
  function LengthAt<T>(s: seq<seq<T>>, i: int): nat
    requires 0 <= i < |s|
  {
    |s[i]|
  }

  /// Every list holds `obj` and was picked in order from `values`.
  ghost predicate PickedContaining<T>(values: seq<T>, obj: T, s: seq<seq<T>>)
  {
    forall i | 0 <= i < |s| :: obj in s[i] && PickedInOrder(values, s[i])
  }

  lemma LengthsConcat<T>(a: seq<seq<T>>, b: seq<seq<T>>, lo: int, hi: int)
    requires LengthsWithin(a, lo, hi) && LengthsWithin(b, lo, hi)
    ensures LengthsWithin(a + b, lo, hi)
  {
    forall i | 0 <= i < |a + b| ensures lo <= LengthAt(a + b, i) < hi {
      if i >= |a| {
        assert (a + b)[i] == b[i - |a|] && LengthAt(b, i - |a|) == LengthAt(a + b, i);
      } else {
        assert LengthAt(a, i) == LengthAt(a + b, i);
      }
    }
  }

  lemma PickedConcat<T>(values: seq<T>, obj: T, a: seq<seq<T>>, b: seq<seq<T>>)
    requires PickedContaining(values, obj, a) && PickedContaining(values, obj, b)
    ensures PickedContaining(values, obj, a + b)
  {
    forall i | 0 <= i < |a + b| ensures obj in (a + b)[i] && PickedInOrder(values, (a + b)[i]) {
      if i >= |a| {
        assert (a + b)[i] == b[i - |a|];
      }
    }
  }

  lemma {:induction false} ContainingLengths<T>(values: seq<T>, obj: T, cs: seq<seq<int>>, len: nat)
    requires InRange(cs, |values|)
    requires forall c | c in cs :: |c| == len
    ensures LengthsWithin(Containing(values, obj, cs), len, len + 1)
    decreases |cs|
  {
    if cs != [] {
      var init := cs[..|cs| - 1];
      assert forall c | c in init :: c in cs;
      ContainingLengths(values, obj, init, len);
      var last := Pick(values, cs[|cs| - 1]);
      assert cs[|cs| - 1] in cs;
      assert |last| == len;
      LengthsConcat(Containing(values, obj, init), if obj in last then [last] else [], len, len + 1);
    }
  }

  lemma {:induction false} ContainingContent<T>(values: seq<T>, obj: T, cs: seq<seq<int>>)
    requires InRange(cs, |values|)
    requires forall c | c in cs :: IncreasingFrom(c, 0)
    ensures PickedContaining(values, obj, Containing(values, obj, cs))
    decreases |cs|
  {
    if cs != [] {
      var init := cs[..|cs| - 1];
      assert forall c | c in init :: c in cs;
      ContainingContent(values, obj, init);
      var c := cs[|cs| - 1];
      var last := Pick(values, c);
      assert c in cs;
      assert PickedInOrder(values, last);
      PickedConcat(values, obj, Containing(values, obj, init), if obj in last then [last] else []);
    }
  }

  lemma {:induction false} ContainingComplete<T>(values: seq<T>, obj: T, cs: seq<seq<int>>, c: seq<int>)
    requires InRange(cs, |values|) && c in cs
    requires obj in Pick(values, c)
    ensures Pick(values, c) in Containing(values, obj, cs)
    decreases |cs|
  {
    if c != cs[|cs| - 1] {
      var k :| 0 <= k < |cs| && cs[k] == c;
      assert cs[..|cs| - 1][k] == c;
      ContainingComplete(values, obj, cs[..|cs| - 1], c);
    }
  }

  /// Every list of the layer of length `i` has length `i`.
  lemma LayerLengths<T>(values: seq<T>, obj: T, i: nat)
    ensures LengthsWithin(Layer(values, obj, i), i, i + 1)
  {
    MappingsValid(i, |values|);
    ContainingLengths(values, obj, Mappings(i, |values|), i);
  }

  /// Every list of a layer holds `obj` and keeps the order of the values.
  lemma LayerContent<T>(values: seq<T>, obj: T, i: nat)
    ensures PickedContaining(values, obj, Layer(values, obj, i))
  {
    MappingsValid(i, |values|);
    ContainingContent(values, obj, Mappings(i, |values|));
  }

  lemma {:induction false} StackedLengths<T>(layer: nat -> seq<seq<T>>, min: int, upto: int)
    requires upto <= min || min >= 0
    requires forall i: nat | min <= i < upto :: LengthsWithin(layer(i), i, i + 1)
    ensures LengthsWithin(Stacked(layer, min, upto), min, upto)
    decreases upto - min
  {
    if upto > min {
      StackedLengths(layer, min, upto - 1);
      var a := Stacked(layer, min, upto - 1);
      var b := layer(upto - 1);
      assert LengthsWithin(a, min, upto) && LengthsWithin(b, min, upto);
      LengthsConcat(a, b, min, upto);
    }
  }

  lemma {:induction false} StackedContent<T>(values: seq<T>, obj: T, layer: nat -> seq<seq<T>>, min: int, upto: int)
    requires upto <= min || min >= 0
    requires forall i: nat | min <= i < upto :: PickedContaining(values, obj, layer(i))
    ensures PickedContaining(values, obj, Stacked(layer, min, upto))
    decreases upto - min
  {
    if upto > min {
      StackedContent(values, obj, layer, min, upto - 1);
      PickedConcat(values, obj, Stacked(layer, min, upto - 1), layer(upto - 1));
    }
  }

  lemma {:induction false} StackedGrouped<T>(layer: nat -> seq<seq<T>>, min: int, upto: int)
    requires upto <= min || min >= 0
    requires forall i: nat | min <= i < upto :: LengthsWithin(layer(i), i, i + 1)
    ensures Grouped(Stacked(layer, min, upto))
    decreases upto - min
  {
    if upto > min {
      StackedGrouped(layer, min, upto - 1);
      StackedLengths(layer, min, upto - 1);
      LayerAfterGrouped(Stacked(layer, min, upto - 1), layer(upto - 1), min, upto - 1);
    }
  }

  lemma {:induction false} StackedHas<T>(layer: nat -> seq<seq<T>>, min: int, upto: int, i: nat, x: seq<T>)
    requires 0 <= min <= i < upto && x in layer(i)
    ensures x in Stacked(layer, min, upto)
    decreases upto - min
  {
    if i < upto - 1 {
      StackedHas(layer, min, upto - 1, i, x);
    }
  }

  /// The returned combinations have lengths in [min, upto).
  lemma SelectionsLengths<T>(values: seq<T>, obj: T, min: int, upto: int)
    requires upto <= min || min >= 0
    ensures LengthsWithin(Selections(values, obj, min, upto), min, upto)
  {
    var layer := (i: nat) => Layer(values, obj, i);
    forall i: nat | min <= i < upto ensures LengthsWithin(layer(i), i, i + 1) {
      LayerLengths(values, obj, i);
    }
    StackedLengths(layer, min, upto);
  }

  /// Every returned combination holds `obj` and keeps the order of the values
  /// it was picked from.
  lemma SelectionsContent<T>(values: seq<T>, obj: T, min: int, upto: int)
    requires upto <= min || min >= 0
    ensures PickedContaining(values, obj, Selections(values, obj, min, upto))
  {
    var layer := (i: nat) => Layer(values, obj, i);
    forall i: nat | min <= i < upto ensures PickedContaining(values, obj, layer(i)) {
      LayerContent(values, obj, i);
    }
    StackedContent(values, obj, layer, min, upto);
  }

  predicate Grouped<T>(s: seq<seq<T>>)
  {
    forall i, j | 0 <= i < j < |s| :: LengthAt(s, i) <= LengthAt(s, j)
  }

  lemma GroupedConcat<T>(a: seq<seq<T>>, b: seq<seq<T>>, len: nat)
    requires Grouped(a) && LengthsWithin(a, 0, len) && LengthsWithin(b, len, len + 1)
    ensures Grouped(a + b)
  {
    forall i, j | 0 <= i < j < |a + b| ensures LengthAt(a + b, i) <= LengthAt(a + b, j) {
      if j < |a| {
        assert LengthAt(a + b, i) == LengthAt(a, i) && LengthAt(a + b, j) == LengthAt(a, j);
      } else if i < |a| {
        assert LengthAt(a + b, i) == LengthAt(a, i) && LengthAt(a + b, j) == LengthAt(b, j - |a|);
      } else {
        assert LengthAt(a + b, i) == LengthAt(b, i - |a|) && LengthAt(a + b, j) == LengthAt(b, j - |a|);
      }
    }
  }

  /// The combinations come grouped by length, shortest first.
  lemma SelectionsGrouped<T>(values: seq<T>, obj: T, min: int, upto: int)
    requires upto <= min || min >= 0
    ensures Grouped(Selections(values, obj, min, upto))
  {
    var layer := (i: nat) => Layer(values, obj, i);
    forall i: nat | min <= i < upto ensures LengthsWithin(layer(i), i, i + 1) {
      LayerLengths(values, obj, i);
    }
    StackedGrouped(layer, min, upto);
  }

  lemma LayerAfterGrouped<T>(a: seq<seq<T>>, b: seq<seq<T>>, min: int, len: nat)
    requires 0 <= min && Grouped(a) && LengthsWithin(a, min, len) && LengthsWithin(b, len, len + 1)
    ensures Grouped(a + b)
  {
    LengthsWeaken(a, min, 0, len);
    GroupedConcat(a, b, len);
  }

  lemma LengthsWeaken<T>(s: seq<seq<T>>, lo: int, lo': int, hi: int)
    requires LengthsWithin(s, lo, hi) && lo' <= lo
    ensures LengthsWithin(s, lo', hi)
  {
  }

  /// The choices walked for a length of at least 1 are exactly the strictly
  /// increasing index choices of that length.
  lemma MappingsExactly(i: nat, n: nat, c: seq<int>)
    requires i >= 1
    ensures c in Mappings(i, n) <==> |c| == i && 0 <= c[0] && IncreasingFrom(c, 0) && c[i - 1] < n
  {
    CombosExactly(i, n, c);
  }

  /// Every in-order pick of a length in [min, upto), at least 1, that holds
  /// `obj` is returned.
  lemma SelectionsComplete<T>(values: seq<T>, obj: T, min: int, upto: int, c: seq<int>)
    requires min >= 0 && 1 <= |c| && min <= |c| < upto
    requires IncreasingFrom(c, 0) && Below(c, |values|)
    requires obj in Pick(values, c)
    ensures Pick(values, c) in Selections(values, obj, min, upto)
  {
    var layer := (i: nat) => Layer(values, obj, i);
    assert Pick(values, c) in layer(|c|) by {
      MappingsExactly(|c|, |values|, c);
      ContainingComplete(values, obj, Mappings(|c|, |values|), c);
    }
    StackedHas(layer, min, upto, |c|, Pick(values, c));
  }
}
