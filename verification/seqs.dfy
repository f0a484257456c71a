/** Sequence operations shared by the models: searching, replacing,
    splitting, Python's prefix slice `s[:n]`, flattening, de-duplication and
    the subsequence order. */
module Seqs {

  /** The first index of `x` in `s`, or -1. */
  function FirstIndex<T(==)>(s: seq<T>, x: T): (r: int)
    ensures -1 <= r < |s|
    ensures r >= 0 ==> s[r] == x
    ensures forall i :: 0 <= i < |s| && (r == -1 || i < r) ==> s[i] != x
  {
    if s == [] then -1
    else if s[0] == x then 0
    else var k := FirstIndex(s[1..], x); if k == -1 then -1 else k + 1
  }

  /** The last index of `x` in `s`, or -1 (Python `str.rfind`). */
  function LastIndex<T(==)>(s: seq<T>, x: T): (r: int)
    ensures -1 <= r < |s|
    ensures r >= 0 ==> s[r] == x
    ensures forall i :: r < i < |s| ==> s[i] != x
  {
    if s == [] then -1
    else if s[|s| - 1] == x then |s| - 1
    else LastIndex(s[..|s| - 1], x)
  }

  /** Every `a` replaced by `b` (Python `s.replace(a, b)` on single characters). */
  function Replace<T(==)>(s: seq<T>, a: T, b: T): (r: seq<T>)
    ensures |r| == |s|
    ensures forall i :: 0 <= i < |s| ==> r[i] == (if s[i] == a then b else s[i])
  {
    if s == [] then [] else [if s[0] == a then b else s[0]] + Replace(s[1..], a, b)
  }

  /** `s` without the elements `drop` holds for, the others kept in order. */
  function RemoveWhere<T(==)>(s: seq<T>, drop: T -> bool): (r: seq<T>)
    ensures |r| <= |s|
    ensures IsSubsequence(r, s)
    ensures forall i :: 0 <= i < |r| ==> !drop(r[i]) && r[i] in s
    ensures forall i :: 0 <= i < |s| && !drop(s[i]) ==> s[i] in r
    ensures (forall i :: 0 <= i < |s| ==> !drop(s[i])) ==> r == s
  {
    if s == [] then []
    else
      var rest := RemoveWhere(s[1..], drop);
      assert forall y :: y in s[1..] ==> y in s;
      if drop(s[0]) then
        assert rest == [] || rest[0] != s[0];
        rest
      else
        assert ([s[0]] + rest)[1..] == rest;
        [s[0]] + rest
  }

  /** Removal keeps every other element as often as `s` holds it, and drops
      every matching one entirely. */
  lemma {:induction false} RemoveWhereCounts<T>(s: seq<T>, drop: T -> bool, x: T)
    ensures multiset(RemoveWhere(s, drop))[x] == if drop(x) then 0 else multiset(s)[x]
  {
    if s != [] {
      RemoveWhereCounts(s[1..], drop, x);
      CountsStep(s, RemoveWhere(s, drop), RemoveWhere(s[1..], drop), drop, x);
    }
  }

  lemma CountsStep<T>(s: seq<T>, r: seq<T>, rest: seq<T>, drop: T -> bool, x: T)
    requires s != []
    requires r == (if drop(s[0]) then [] else [s[0]]) + rest
    requires multiset(rest)[x] == if drop(x) then 0 else multiset(s[1..])[x]
    ensures multiset(r)[x] == if drop(x) then 0 else multiset(s)[x]
  {
    var head: seq<T> := if drop(s[0]) then [] else [s[0]];
    assert multiset(head + rest) == multiset(head) + multiset(rest);
    assert s == [s[0]] + s[1..];
    assert multiset(s) == multiset([s[0]]) + multiset(s[1..]);
  }

  /** Removal works piecewise over a concatenation. */
  lemma {:induction false} RemoveWhereAppend<T>(a: seq<T>, b: seq<T>, drop: T -> bool)
    ensures RemoveWhere(a + b, drop) == RemoveWhere(a, drop) + RemoveWhere(b, drop)
  {
    if a == [] {
      assert a + b == b;
    } else {
      assert (a + b)[0] == a[0];
      assert (a + b)[1..] == a[1..] + b;
      RemoveWhereAppend(a[1..], b, drop);
    }
  }

  /** Every `x` removed, everything else kept in order (Python `s.replace(x, '')`). */
  function RemoveAll<T(==)>(s: seq<T>, x: T): (r: seq<T>)
    ensures IsSubsequence(r, s)
    ensures multiset(r) == multiset(s)[x := 0]
    ensures |r| == |s| - multiset(s)[x]
    ensures forall i :: 0 <= i < |r| ==> r[i] in s && r[i] != x
    ensures forall i :: 0 <= i < |s| && s[i] != x ==> s[i] in r
    ensures x !in s ==> r == s
  {
    var r := RemoveWhere(s, y => y == x);
    forall y ensures multiset(r)[y] == multiset(s)[x := 0][y] {
      RemoveWhereCounts(s, y => y == x, y);
    }
    assert multiset(r) == multiset(s)[x := 0];
    assert |multiset(r)| == |multiset(s)| - multiset(s)[x];
    r
  }

  /** The pieces of `s` between occurrences of `sep`. */
  function Split<T(==)>(s: seq<T>, sep: T): (parts: seq<seq<T>>)
    ensures |parts| >= 1
    ensures forall i :: 0 <= i < |parts| ==> sep !in parts[i]
    ensures sep !in s ==> parts == [s]
    decreases |s|
  {
    var k := FirstIndex(s, sep);
    if k == -1 then [s] else [s[..k]] + Split(s[k + 1..], sep)
  }

  /** Splitting at a separator between `x` and `y` gives the pieces of `x`
      followed by the pieces of `y`. */
  lemma {:induction false} SplitAround<T>(x: seq<T>, sep: T, y: seq<T>)
    ensures Split(x + [sep] + y, sep) == Split(x, sep) + Split(y, sep)
    decreases |x|
  {
    var k := FirstIndex(x, sep);
    if k == -1 {
      SplitAroundClean(x, sep, y);
    } else {
      SplitAroundStep(x, sep, y, k);
      SplitAround(x[k + 1..], sep, y);
      SplitAtFirst(x, sep, k);
      Reassociate(Split(x + [sep] + y, sep), [x[..k]], Split(x[k + 1..] + [sep] + y, sep),
                  Split(x[k + 1..], sep), Split(y, sep), Split(x, sep));
    }
  }

  lemma Reassociate<U>(whole: seq<U>, head: seq<U>, inner: seq<U>, rest: seq<U>, tail: seq<U>, left: seq<U>)
    requires whole == head + inner && inner == rest + tail && left == head + rest
    ensures whole == left + tail
  {
  }

  lemma SplitAtFirst<T>(x: seq<T>, sep: T, k: int)
    requires k == FirstIndex(x, sep) && k != -1
    ensures Split(x, sep) == [x[..k]] + Split(x[k + 1..], sep)
  {
    SplitStep(x, sep);
  }

  lemma SplitAroundClean<T>(x: seq<T>, sep: T, y: seq<T>)
    requires sep !in x
    ensures Split(x + [sep] + y, sep) == [x] + Split(y, sep)
  {
    var s := x + [sep] + y;
    assert forall i :: 0 <= i < |x| ==> s[i] == x[i];
    FirstIndexUnique(s, sep, |x|);
    assert s[..|x|] == x && s[|x| + 1..] == y;
  }

  lemma SplitAroundStep<T>(x: seq<T>, sep: T, y: seq<T>, k: int)
    requires k == FirstIndex(x, sep) && k != -1
    ensures Split(x + [sep] + y, sep) == [x[..k]] + Split(x[k + 1..] + [sep] + y, sep)
  {
    var s := x + [sep] + y;
    var z := [sep] + y;
    AroundConcat(x, z, k);
    assert s == x + z;
    assert x[k + 1..] + z == x[k + 1..] + [sep] + y;
    FirstIndexUnique(s, sep, k);
    SplitStep(s, sep);
  }

  /** Slicing `x + z` around an index inside `x`. */
  lemma AroundConcat<T>(x: seq<T>, z: seq<T>, k: int)
    requires 0 <= k < |x|
    ensures (x + z)[k] == x[k] && (x + z)[..k] == x[..k] && (x + z)[k + 1..] == x[k + 1..] + z
    ensures forall i :: 0 <= i < k ==> (x + z)[i] == x[i]
  {
  }

  /** The first index of `x` is the one with `x` there and nowhere before. */
  lemma FirstIndexUnique<T>(s: seq<T>, x: T, k: int)
    requires 0 <= k < |s| && s[k] == x
    requires forall i :: 0 <= i < k ==> s[i] != x
    ensures FirstIndex(s, x) == k
  {
  }

  /** The pieces glued back together with `sep` between neighbours. */
  function Join<T>(parts: seq<seq<T>>, sep: T): seq<T>
  {
    if parts == [] then []
    else if |parts| == 1 then parts[0]
    else parts[0] + [sep] + Join(parts[1..], sep)
  }

  /** Splitting loses nothing: joining the pieces restores the input. */
  lemma {:induction false} JoinSplit<T>(s: seq<T>, sep: T)
    ensures Join(Split(s, sep), sep) == s
    decreases |s|
  {
    var k := FirstIndex(s, sep);
    if k != -1 {
      var head, tail := s[..k], s[k + 1..];
      var rest := Split(tail, sep);
      SplitStep(s, sep);
      JoinSplit(tail, sep);
      JoinCons(head, rest, sep);
      calc {
        Join(Split(s, sep), sep);
        Join([head] + rest, sep);
        head + [sep] + Join(rest, sep);
        head + [sep] + tail;
      }
    }
  }

  /** One step of `Split`: the piece before the first separator, then the
      pieces of the rest. */
  lemma SplitStep<T>(s: seq<T>, sep: T)
    requires FirstIndex(s, sep) != -1
    ensures var k := FirstIndex(s, sep);
      s == s[..k] + [sep] + s[k + 1..] && Split(s, sep) == [s[..k]] + Split(s[k + 1..], sep)
  {
    var k := FirstIndex(s, sep);
    Around(s, k);
  }

  /** A sequence is what lies before index `k`, the element at `k`, and what follows. */
  lemma Around<T>(s: seq<T>, k: int)
    requires 0 <= k < |s|
    ensures s == s[..k] + [s[k]] + s[k + 1..]
  {
  }

  lemma JoinCons<T>(head: seq<T>, rest: seq<seq<T>>, sep: T)
    requires rest != []
    ensures Join([head] + rest, sep) == head + [sep] + Join(rest, sep)
  {
    var parts := [head] + rest;
    assert parts[0] == head && parts[1..] == rest;
  }

  /** The prefixes of a prefix of `s` are prefixes of `s`. */
  lemma PrefixesOfPrefix<T>(a: seq<T>, s: seq<T>)
    requires |a| <= |s| && a == s[..|a|]
    ensures forall i :: 0 <= i <= |a| ==> a[..i] == s[..i]
  {
  }

  /** Python's prefix slice `s[:n]`; a negative `n` counts from the end. */
  function PyPrefix<T>(s: seq<T>, n: int): (r: seq<T>)
    ensures n >= 0 ==> |r| == (if n < |s| then n else |s|)
    ensures n < 0 ==> |r| == (if |s| + n > 0 then |s| + n else 0)
    ensures r == s[..|r|]
  {
    if n >= 0 then (if n < |s| then s[..n] else s)
    else (if |s| + n > 0 then s[..|s| + n] else [])
  }

  function Flatten<T>(xss: seq<seq<T>>): seq<T>
  {
    if xss == [] then [] else xss[0] + Flatten(xss[1..])
  }

  lemma FlattenSingleton<T>(xss: seq<seq<T>>)
    requires |xss| == 1
    ensures Flatten(xss) == xss[0]
  {
    assert xss[1..] == [];
    assert Flatten(xss) == xss[0] + [];
  }

  lemma {:induction false} FlattenMember<T>(xss: seq<seq<T>>, x: T)
    ensures x in Flatten(xss) <==> exists i :: 0 <= i < |xss| && x in xss[i]
  {
    if xss != [] {
      FlattenMember(xss[1..], x);
      if x in Flatten(xss[1..]) {
        var i :| 0 <= i < |xss[1..]| && x in xss[1..][i];
        assert x in xss[i + 1];
      }
      if exists i :: 0 <= i < |xss| && x in xss[i] {
        var i :| 0 <= i < |xss| && x in xss[i];
        if i > 0 {
          assert x in xss[1..][i - 1];
        }
      }
    }
  }

  predicate NoDup<T(==)>(s: seq<T>) {
    forall i, j :: 0 <= i < j < |s| ==> s[i] != s[j]
  }

  /** `s` with every repeated element after its first occurrence removed. */
  function Dedup<T(==)>(s: seq<T>): (r: seq<T>)
    ensures NoDup(r)
    ensures forall i :: 0 <= i < |r| ==> r[i] in s
    ensures forall i :: 0 <= i < |s| ==> s[i] in r
    ensures |r| <= |s|
  {
    if s == [] then []
    else
      var d := Dedup(s[..|s| - 1]);
      if s[|s| - 1] in d then d else d + [s[|s| - 1]]
  }

  function Elems<T>(s: seq<T>): set<T> {
    set x | x in s
  }

  /** A duplicate-free sequence has as many elements as its set. */
  lemma {:induction false} NoDupCardinality<T>(s: seq<T>)
    requires NoDup(s)
    ensures |Elems(s)| == |s|
  {
    if s != [] {
      var p := s[..|s| - 1];
      var x := s[|s| - 1];
      NoDupCardinality(p);
      assert x !in p;
      assert Elems(s) == Elems(p) + {x};
    }
  }

  /** `a` is `b` with some elements dropped and the rest kept in order. */
  predicate IsSubsequence<T(==)>(a: seq<T>, b: seq<T>)
    decreases |b|
  {
    if a == [] then true
    else if b == [] then false
    else if a[0] == b[0] then IsSubsequence(a[1..], b[1..])
    else IsSubsequence(a, b[1..])
  }
}
