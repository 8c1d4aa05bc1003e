/** A stable insertion sort under a caller-supplied order, standing in for `List.sort(Comparator)`. */
module Sorting {

  /** `le` is total and transitive: what `Comparator` requires of its implementations. */
  ghost predicate TotalPreorder<T(!new)>(le: (T, T) -> bool) {
    && (forall a, b :: le(a, b) || le(b, a))
    && (forall a, b, c :: le(a, b) && le(b, c) ==> le(a, c))
  }

  ghost predicate Sorted<T>(s: seq<T>, le: (T, T) -> bool) {
    forall i, j :: 0 <= i < j < |s| ==> le(s[i], s[j])
  }

  /** `a` comes no later than any element of `s`. */
  ghost predicate Below<T>(a: T, s: seq<T>, le: (T, T) -> bool) {
    forall j :: 0 <= j < |s| ==> le(a, s[j])
  }

  /** Places `x` before the first element it does not follow. */
  function Insert<T>(x: T, s: seq<T>, le: (T, T) -> bool): (r: seq<T>)
    ensures |r| == |s| + 1
  {
    if |s| == 0 then [x]
    else if le(x, s[0]) then [x] + s
    else [s[0]] + Insert(x, s[1..], le)
  }

  /** Inserting adds exactly `x` to the elements. */
  lemma {:induction false} InsertPermutes<T>(x: T, s: seq<T>, le: (T, T) -> bool)
    ensures multiset(Insert(x, s, le)) == multiset(s) + multiset{x}
  {
    if |s| > 0 && !le(x, s[0]) {
      InsertPermutes(x, s[1..], le);
      assert s == [s[0]] + s[1..];
    }
  }

  /** Inserting into a sorted sequence keeps it sorted, and a lower bound of both `s` and `x` stays
      a lower bound. */
  lemma {:induction false} InsertSorted<T(!new)>(x: T, s: seq<T>, le: (T, T) -> bool)
    requires TotalPreorder(le)
    requires Sorted(s, le)
    ensures Sorted(Insert(x, s, le), le)
    ensures forall y :: Below(y, s, le) && le(y, x) ==> Below(y, Insert(x, s, le), le)
  {
    if |s| > 0 {
      if le(x, s[0]) {
        assert Below(x, s, le) by {
          forall j | 0 <= j < |s| ensures le(x, s[j]) {
            if j > 0 {
              assert le(s[0], s[j]);
            }
          }
        }
      } else {
        var tail := Insert(x, s[1..], le);
        InsertSorted(x, s[1..], le);
        assert le(s[0], x);
        assert Below(s[0], s[1..], le);
        assert Below(s[0], tail, le);
        assert Insert(x, s, le) == [s[0]] + tail;
      }
    }
  }

  /** The elements of `s` in ascending `le` order. */
  function Sort<T(!new)>(s: seq<T>, le: (T, T) -> bool): (r: seq<T>)
    requires TotalPreorder(le)
    ensures multiset(r) == multiset(s)
    ensures Sorted(r, le)
  {
    if |s| == 0 then []
    else
      var rest := Sort(s[1..], le);
      assert s == [s[0]] + s[1..];
      InsertPermutes(s[0], rest, le);
      InsertSorted(s[0], rest, le);
      Insert(s[0], rest, le)
  }
}
