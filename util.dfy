/** Generic helpers for the JavaScript array built-ins the league code leans on:
    `Array.prototype.find` (as the index of the first hit) and `Array.prototype.filter`. */
module Util {

  datatype Option<+T> = None | Some(value: T) {
    /** `x || d` on a value that may be missing or unparsable. */
    function GetOr(default: T): T {
      match this
      case Some(v) => v
      case None => default
    }
  }

  /** Index of the first element satisfying `p`, as `find` locates it. */
  function IndexOf<T>(s: seq<T>, p: T -> bool): (r: Option<nat>)
    ensures r.Some? ==> r.value < |s| && p(s[r.value])
    ensures r.Some? ==> forall j :: 0 <= j < r.value ==> !p(s[j])
    ensures r.None? <==> forall j :: 0 <= j < |s| ==> !p(s[j])
  {
    if s == [] then None
    else if p(s[0]) then Some(0)
    else match IndexOf(s[1..], p)
      case None => None
      case Some(k) => Some(k + 1)
  }

  /** The elements of `s` that satisfy `keep`, in their original order. */
  function Filter<T>(s: seq<T>, keep: T -> bool): (r: seq<T>)
    ensures |r| <= |s|
  {
    if |s| == 0 then []
    else (if keep(s[0]) then [s[0]] else []) + Filter(s[1..], keep)
  }

  /** Filtering distributes over concatenation, so the kept elements keep their relative order. */
  lemma {:induction false} FilterAppend<T(!new)>(a: seq<T>, b: seq<T>, keep: T -> bool)
    ensures Filter(a + b, keep) == Filter(a, keep) + Filter(b, keep)
  {
    if a == [] {
      assert a + b == b;
    } else {
      assert (a + b)[0] == a[0];
      assert (a + b)[1..] == a[1..] + b;
      FilterAppend(a[1..], b, keep);
    }
  }

  /** The values kept are exactly those of `s` that satisfy `keep`. */
  lemma {:induction false} FilterMembers<T(!new)>(s: seq<T>, keep: T -> bool)
    ensures forall x :: x in Filter(s, keep) <==> x in s && keep(x)
  {
    if s != [] {
      FilterMembers(s[1..], keep);
      assert s == [s[0]] + s[1..];
    }
  }

  /** Each kept value occurs as often as before, each dropped one not at all. */
  lemma {:induction false} FilterCount<T(!new)>(s: seq<T>, keep: T -> bool, x: T)
    ensures multiset(Filter(s, keep))[x] == if keep(x) then multiset(s)[x] else 0
  {
    if s != [] {
      FilterCount(s[1..], keep, x);
      assert s == [s[0]] + s[1..];
    }
  }

  /** A single element is kept exactly when it satisfies `keep`. */
  lemma FilterOne<T(!new)>(x: T, keep: T -> bool)
    ensures Filter([x], keep) == if keep(x) then [x] else []
  {
    assert [x][1..] == [];
  }

  /** An element put after a head that is not kept alongside it keeps its place
      among the kept ones: filtering `[x] + rest` gives what filtering `t` first
      and `[x] + tail` after would, when `rest` filters to `t`'s part then `tail`'s. */
  lemma FilterPastHead<T(!new)>(x: T, rest: seq<T>, t: T, tail: seq<T>, keep: T -> bool)
    requires !(keep(x) && keep(t))
    requires Filter(rest, keep) == Filter([t], keep) + Filter(tail, keep)
    ensures Filter([x] + rest, keep) == Filter([t], keep) + Filter([x] + tail, keep)
  {
    FilterAppend([x], rest, keep);
    FilterAppend([x], tail, keep);
    FilterOne(x, keep);
    FilterOne(t, keep);
    var head, mid, last := Filter([x], keep), Filter([t], keep), Filter(tail, keep);
    if head == [] {
      assert head + (mid + last) == mid + last;
      assert head + last == last;
    } else {
      assert mid + last == last;
      assert mid + (head + last) == head + last;
    }
  }

  /** Two lists that start with the same element and continue with lists that
      filter alike filter alike. */
  lemma FilterSameAfterHead<T(!new)>(x: T, rest: seq<T>, out: seq<T>, restOut: seq<T>, keep: T -> bool)
    requires Filter(out, keep) == Filter([x], keep) + Filter(restOut, keep)
    requires Filter(restOut, keep) == Filter(rest, keep)
    ensures Filter(out, keep) == Filter([x] + rest, keep)
  {
    FilterAppend([x], rest, keep);
  }

  /** Filtering with a predicate that every element meets changes nothing. */
  lemma {:induction false} FilterKeepsAll<T(!new)>(s: seq<T>, keep: T -> bool)
    requires forall j :: 0 <= j < |s| ==> keep(s[j])
    ensures Filter(s, keep) == s
  {
    if s != [] {
      FilterKeepsAll(s[1..], keep);
    }
  }
}
