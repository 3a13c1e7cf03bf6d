/** Generic sequence helpers: finding a delimiter and splitting at it, the way
    Python's `str.split(d)` and `str.split(d, 1)` do. */
module Seqs {

  datatype Option<T> = None | Some(value: T)

  /** Index of the first occurrence of `d` in `s`, or `|s|` when there is none. */
  function Find<T(==)>(s: seq<T>, d: T): (i: nat)
    ensures i <= |s|
  {
    if s == [] then 0
    else if s[0] == d then 0
    else 1 + Find(s[1..], d)
  }

  /** `Find` stops at the first `d`, and runs to the end exactly when there is none. */
  lemma {:induction false} FindSpec<T>(s: seq<T>, d: T)
    ensures Find(s, d) < |s| ==> s[Find(s, d)] == d
    ensures forall k :: 0 <= k < Find(s, d) ==> s[k] != d
    ensures Find(s, d) == |s| <==> d !in s
  {
    if s != [] && s[0] != d {
      FindSpec(s[1..], d);
      assert forall k :: 1 <= k < |s| ==> s[k] == s[1..][k - 1];
    }
  }

  /** The first `d` is at `i` when `s[i]` is a `d` (or `i` is the end) and none comes before. */
  lemma FindUnique<T>(s: seq<T>, d: T, i: nat)
    requires i <= |s| && (i < |s| ==> s[i] == d)
    requires forall k :: 0 <= k < i ==> s[k] != d
    ensures Find(s, d) == i
  {
    FindSpec(s, d);
  }

  /** `s.split(d)`: the pieces between the occurrences of `d`, never empty. */
  function Split<T(==)>(s: seq<T>, d: T): (parts: seq<seq<T>>)
    ensures |parts| >= 1
    decreases |s|
  {
    var i := Find(s, d);
    if i == |s| then [s] else [s[..i]] + Split(s[i + 1..], d)
  }

  /** Without a delimiter there is one piece: the whole sequence. */
  lemma SplitNoDelimiter<T>(s: seq<T>, d: T)
    requires d !in s
    ensures Split(s, d) == [s]
  {
    FindSpec(s, d);
  }

  /** Splitting `a + [d] + b` with no `d` in `a` yields `a` followed by the pieces of `b`. */
  lemma SplitCons<T>(a: seq<T>, d: T, b: seq<T>)
    requires d !in a
    ensures Split(a + [d] + b, d) == [a] + Split(b, d)
  {
    var s := a + [d] + b;
    assert s[|a|] == d;
    FindSpec(s, d);
    assert Find(s, d) == |a|;
    assert s[..|a|] == a;
    assert s[|a| + 1..] == b;
  }

  /** Splitting `s` once, at its first `d`: the part before and, if `d` occurs, the part after. */
  function SplitOnce<T(==)>(s: seq<T>, d: T): (r: (seq<T>, seq<T>, bool))
    ensures r.2 <==> d in s
    ensures r.2 ==> s == r.0 + [d] + r.1 && d !in r.0
    ensures !r.2 ==> r.0 == s && r.1 == []
  {
    var i := Find(s, d);
    FindSpec(s, d);
    if i == |s| then (s, [], false)
    else
      assert s == s[..i] + [d] + s[i + 1..];
      (s[..i], s[i + 1..], true)
  }

  /** Splitting once at a delimiter that does not occur in `a` recovers `a` and `b`. */
  lemma SplitOnceAt<T>(a: seq<T>, d: T, b: seq<T>)
    requires d !in a
    ensures SplitOnce(a + [d] + b, d) == (a, b, true)
  {
    var s := a + [d] + b;
    assert s[|a|] == d;
    FindSpec(s, d);
    assert Find(s, d) == |a|;
    var r := SplitOnce(s, d);
    assert |r.0| == |a|;
    assert r.0 == s[..|a|] == a;
    assert r.1 == s[|a| + 1..] == b;
  }

  /** A final delimiter with no delimiter after it splits off one last piece. */
  lemma {:induction false} SplitAppend<T>(a: seq<T>, d: T, b: seq<T>)
    requires d !in b
    ensures Split(a + [d] + b, d) == Split(a, d) + [b]
    decreases |a|
  {
    var s := a + [d] + b;
    if d in a {
      var i := Find(a, d);
      FindSpec(a, d);
      var rest := a[i + 1..];
      assert a == a[..i] + [d] + rest;
      assert s == a[..i] + [d] + (rest + [d] + b);
      SplitCons(a[..i], d, rest + [d] + b);
      SplitCons(a[..i], d, rest);
      SplitAppend(rest, d, b);
    } else {
      SplitCons(a, d, b);
      SplitNoDelimiter(a, d);
      SplitNoDelimiter(b, d);
    }
  }

  /** A prefix without `d` stays at the front of the first piece. */
  lemma SplitFirst<T>(x: seq<T>, y: seq<T>, d: T)
    requires d !in x
    ensures Split(x + y, d)[0] == x + Split(y, d)[0]
  {
    var s := x + y;
    FindSpec(y, d);
    var i := Find(y, d);
    forall k | 0 <= k < |x| + i ensures s[k] != d {
      if k >= |x| {
        assert s[k] == y[k - |x|];
      }
    }
    if i < |y| {
      assert s[|x| + i] == y[i];
    }
    FindUnique(s, d, |x| + i);
    assert s[..|x| + i] == x + y[..i];
  }

  /** An element absent from `s` is absent from every piece of its split. */
  lemma {:induction false} SplitPartsAvoid<T>(s: seq<T>, d: T, x: T)
    requires x !in s
    ensures forall j :: 0 <= j < |Split(s, d)| ==> x !in Split(s, d)[j]
    decreases |s|
  {
    var i := Find(s, d);
    FindSpec(s, d);
    if i < |s| {
      forall k | 0 <= k < i ensures s[..i][k] != x {
        assert s[..i][k] == s[k];
      }
      var rest := s[i + 1..];
      forall k | 0 <= k < |rest| ensures rest[k] != x {
        assert rest[k] == s[i + 1 + k];
      }
      SplitPartsAvoid(rest, d, x);
    }
  }
}
