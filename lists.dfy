/** The few Python list operations the core relies on: `list.index`,
    counting and the smallest element (SQL `ORDER BY ... LIMIT 1`). */
module Lists {
  import opened Wrappers

  /** Stands for the message of the `ValueError` that `list.index` raises on
      a missing value. Python's message names the value ("True is not in
      list"); the model keeps one fixed text, since values are not printed. */
  const NotInList := "value is not in list"

  /** Position of the first occurrence of `x` in `s`, if any. */
  function IndexOf<T(==)>(s: seq<T>, x: T): (r: Option<nat>)
    ensures r.Some? ==> r.value < |s| && s[r.value] == x
    ensures r.Some? ==> forall j :: 0 <= j < r.value ==> s[j] != x
    ensures r.None? <==> x !in s
  {
    if s == [] then None
    else if s[0] == x then Some(0)
    else match IndexOf(s[1..], x)
      case Some(i) => Some(i + 1)
      case None => None
  }

  /** Python's `list.index`: the first position of `x`, or a `ValueError`. */
  function ListIndex<T(==)>(s: seq<T>, x: T): (r: Result<nat, Error>)
    ensures r.Ok? <==> x in s
    ensures r.Ok? ==> r.value < |s| && s[r.value] == x && forall j :: 0 <= j < r.value ==> s[j] != x
    ensures r.Err? ==> r.error == ValueError(NotInList)
  {
    match IndexOf(s, x)
    case Some(i) => Ok(i)
    case None => Err(ValueError(NotInList))
  }

  /** The first position of `x` is the same in `s + t` as in `s` when `x`
      already occurs in `s`. */
  lemma {:induction false} IndexOfAppend<T>(s: seq<T>, t: seq<T>, x: T)
    requires x in s
    ensures IndexOf(s + t, x) == IndexOf(s, x)
  {
    var i := IndexOf(s, x).value;
    var k := IndexOf(s + t, x);
    assert (s + t)[i] == x;
    assert k.Some? && k.value <= i;
    assert s[k.value] == x;
  }

  /** Number of `true`s in `s`, like SQL `SUM(CASE WHEN c THEN 1 ELSE 0 END)`. */
  function CountTrue(s: seq<bool>): (n: nat)
    ensures n <= |s|
    ensures n == 0 <==> true !in s
  {
    if s == [] then 0
    else CountTrue(s[..|s| - 1]) + (if s[|s| - 1] then 1 else 0)
  }

  /** The smallest element of `s` (SQL `ORDER BY ... LIMIT 1`), or
      `otherwise` when `s` is empty. */
  function Min(s: seq<nat>, otherwise: nat): (m: nat)
    ensures s == [] ==> m == otherwise
    ensures s != [] ==> m in s
    ensures forall x :: x in s ==> m <= x
  {
    if s == [] then otherwise
    else if |s| == 1 then s[0]
    else
      var m := Min(s[1..], otherwise);
      assert forall x :: x in s ==> x == s[0] || x in s[1..];
      if s[0] <= m then s[0] else m
  }

  /** The elements of `s` satisfying `p`, in order (a SQL `WHERE`). */
  function Filter<T>(s: seq<T>, p: T -> bool): (r: seq<T>)
    ensures |r| <= |s|
    ensures forall i :: 0 <= i < |r| ==> r[i] in s && p(r[i])
    ensures forall i :: 0 <= i < |s| && p(s[i]) ==> s[i] in r
  {
    if s == [] then []
    else (if p(s[0]) then [s[0]] else []) + Filter(s[1..], p)
  }

  lemma {:induction false} FilterConcat<T>(s: seq<T>, t: seq<T>, p: T -> bool)
    ensures Filter(s + t, p) == Filter(s, p) + Filter(t, p)
  {
    if s == [] {
      assert s + t == t;
    } else {
      assert (s + t)[1..] == s[1..] + t;
      FilterConcat(s[1..], t, p);
    }
  }

  /** Filtering keeps the order of what it keeps. */
  lemma {:induction false} FilterKeepsOrder<T>(s: seq<T>, p: T -> bool, less: (T, T) -> bool)
    requires forall i, j :: 0 <= i < j < |s| ==> less(s[i], s[j])
    ensures forall i, j :: 0 <= i < j < |Filter(s, p)| ==> less(Filter(s, p)[i], Filter(s, p)[j])
  {
    if s != [] {
      FilterKeepsOrder(s[1..], p, less);
      var rest := Filter(s[1..], p);
      forall j | 0 <= j < |rest| ensures less(s[0], rest[j]) {
        var k :| 0 <= k < |s[1..]| && s[1..][k] == rest[j];
        assert s[k + 1] == rest[j];
      }
    }
  }

  /** Filtering a non-empty sequence: the filter of all but the last element,
      then the last one if it passes. */
  lemma FilterSnoc<T>(s: seq<T>, p: T -> bool)
    requires s != []
    ensures Filter(s, p) == Filter(s[..|s| - 1], p) + if p(s[|s| - 1]) then [s[|s| - 1]] else []
  {
    var init, last := s[..|s| - 1], s[|s| - 1];
    assert init + [last] == s;
    assert [last][1..] == [];
    assert Filter([last], p) == if p(last) then [last] else [];
    FilterConcat(init, [last], p);
  }

  /** Clearing one `true` lowers the count by one. */
  lemma {:induction false} CountTrueClear(s: seq<bool>, k: nat)
    requires k < |s| && s[k]
    ensures CountTrue(s[k := false]) + 1 == CountTrue(s)
  {
    var t := s[k := false];
    if k < |s| - 1 {
      assert t[..|t| - 1] == s[..|s| - 1][k := false];
      CountTrueClear(s[..|s| - 1], k);
    } else {
      assert t[..|t| - 1] == s[..|s| - 1];
    }
  }

  /** `t` is `s` with the element `x` at one position replaced by `y`. */
  ghost predicate ReplacedOnce<T>(s: seq<T>, t: seq<T>, x: T, y: T)
  {
    exists m :: 0 <= m < |s| && s[m] == x && t == s[m := y]
  }

  /** A replacement in the second part of a concatenation. */
  lemma ReplacedOnceRight<T>(a: seq<T>, b: seq<T>, b': seq<T>, x: T, y: T)
    requires ReplacedOnce(b, b', x, y)
    ensures ReplacedOnce(a + b, a + b', x, y)
  {
    var m :| 0 <= m < |b| && b[m] == x && b' == b[m := y];
    assert (a + b)[|a| + m] == x;
    assert a + b' == (a + b)[|a| + m := y];
  }

  /** A replacement in the first part of a concatenation. */
  lemma ReplacedOnceLeft<T>(a: seq<T>, a': seq<T>, b: seq<T>, x: T, y: T)
    requires ReplacedOnce(a, a', x, y)
    ensures ReplacedOnce(a + b, a' + b, x, y)
  {
    var m :| 0 <= m < |a| && a[m] == x && a' == a[m := y];
    assert (a + b)[m] == x;
    assert a' + b == (a + b)[m := y];
  }

  /** Replacing one element by another that the filter treats alike replaces
      it among the kept elements, or leaves them unchanged when neither is
      kept. */
  lemma {:induction false} FilterReplaced<T>(s: seq<T>, m: nat, y: T, p: T -> bool)
    requires m < |s| && p(s[m]) == p(y)
    ensures p(y) ==> ReplacedOnce(Filter(s, p), Filter(s[m := y], p), s[m], y)
    ensures !p(y) ==> Filter(s[m := y], p) == Filter(s, p)
  {
    var s' := s[m := y];
    var head := if p(s[0]) then [s[0]] else [];
    if m == 0 {
      assert s'[1..] == s[1..];
      if p(y) {
        assert Filter(s, p)[0] == s[0];
        assert Filter(s', p) == Filter(s, p)[0 := y];
      }
    } else {
      assert s'[1..] == s[1..][m - 1 := y];
      FilterReplaced(s[1..], m - 1, y, p);
      if p(y) {
        ReplacedOnceRight(head, Filter(s[1..], p), Filter(s'[1..], p), s[m], y);
      }
    }
  }

  /** Counting is monotone: pointwise fewer `true`s give a smaller count. */
  lemma {:induction false} CountTrueMonotone(a: seq<bool>, b: seq<bool>)
    requires |a| == |b|
    requires forall i :: 0 <= i < |a| && a[i] ==> b[i]
    ensures CountTrue(a) <= CountTrue(b)
  {
    if a != [] {
      CountTrueMonotone(a[..|a| - 1], b[..|b| - 1]);
    }
  }

  /** A sequence of `true`s counts its length. */
  lemma {:induction false} CountTrueAll(a: seq<bool>)
    requires forall i :: 0 <= i < |a| ==> a[i]
    ensures CountTrue(a) == |a|
  {
    if a != [] {
      CountTrueAll(a[..|a| - 1]);
    }
  }

  /** A filter no element passes keeps nothing. */
  lemma {:induction false} FilterNone<T>(s: seq<T>, p: T -> bool)
    requires forall i :: 0 <= i < |s| ==> !p(s[i])
    ensures Filter(s, p) == []
  {
    if s != [] {
      FilterNone(s[1..], p);
    }
  }

  /** No element of `s` occurs twice (the rows of a table with a key). */
  predicate Distinct<T(==)>(s: seq<T>)
  {
    forall i, j :: 0 <= i < j < |s| ==> s[i] != s[j]
  }

  /** A filter of a sequence without repetitions has none either. */
  lemma {:induction false} FilterDistinct<T>(s: seq<T>, p: T -> bool)
    requires Distinct(s)
    ensures Distinct(Filter(s, p))
  {
    if s != [] {
      FilterDistinct(s[1..], p);
      assert forall i :: 1 <= i < |s| ==> s[i] in s[1..] && s[i] != s[0];
    }
  }

  /** Two sequences without repetitions and without a common element
      concatenate to one without repetitions. */
  lemma DistinctConcat<T>(a: seq<T>, b: seq<T>)
    requires Distinct(a) && Distinct(b)
    requires forall i, j :: 0 <= i < |a| && 0 <= j < |b| ==> a[i] != b[j]
    ensures Distinct(a + b)
  {
    forall i, j | 0 <= i < j < |a + b|
      ensures (a + b)[i] != (a + b)[j]
    {
      if j < |a| {
      } else if i >= |a| {
        assert (a + b)[i] == b[i - |a|] && (a + b)[j] == b[j - |a|];
      } else {
        assert (a + b)[j] == b[j - |a|];
      }
    }
  }
}
