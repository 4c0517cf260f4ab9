/** Facts about Python lists used as work lists: no repeated element, `list.remove`. */
module Lists {

  /** Positions `i` and `j` of `s` hold different elements. */
  predicate Apart<T(==)>(s: seq<T>, i: int, j: int)
    requires 0 <= i < j < |s|
  {
    s[i] != s[j]
  }

  /** No element occurs twice. */
  predicate NoDup<T(==)>(s: seq<T>) {
    forall i, j {:trigger Apart(s, i, j)} :: 0 <= i < j < |s| ==> Apart(s, i, j)
  }

  /**
   * Python's `list.remove(x)`: drops the first occurrence of `x`. Where
   * Python raises `ValueError` for an absent `x`, this returns the list
   * unchanged; `dijkstra` only ever removes an id its work list holds.
   */
  function Remove<T(==)>(s: seq<T>, x: T): (r: seq<T>)
    ensures x in s ==> |r| == |s| - 1
    ensures x !in s ==> r == s
  {
    if s == [] then []
    else if s[0] == x then s[1..]
    else [s[0]] + Remove(s[1..], x)
  }

  /** Dropping the head of a list without repetitions leaves one without repetitions, not holding the head. */
  lemma TailNoDup<T>(s: seq<T>)
    requires NoDup(s) && s != []
    ensures NoDup(s[1..]) && s[0] !in s[1..]
  {
    forall i, j | 0 <= i < j < |s[1..]| ensures Apart(s[1..], i, j) {
      assert Apart(s, i + 1, j + 1);
    }
    forall k | 0 <= k < |s[1..]| ensures s[1..][k] != s[0] {
      assert Apart(s, 0, k + 1);
    }
  }

  /** On a list without repetitions, `remove(x)` deletes exactly `x` and keeps the list repetition-free. */
  lemma {:induction false} RemoveNoDup<T>(s: seq<T>, x: T)
    requires NoDup(s)
    ensures NoDup(Remove(s, x))
    ensures forall y :: y in Remove(s, x) <==> y in s && y != x
  {
    if s != [] {
      TailNoDup(s);
      if s[0] != x {
        RemoveNoDup(s[1..], x);
        var r := Remove(s[1..], x);
        forall i, j | 0 <= i < j < |[s[0]] + r| ensures Apart([s[0]] + r, i, j) {
          if i == 0 {
            assert ([s[0]] + r)[j] == r[j - 1];
            assert r[j - 1] in r;
          } else {
            assert ([s[0]] + r)[i] == r[i - 1] && ([s[0]] + r)[j] == r[j - 1];
            assert Apart(r, i - 1, j - 1);
          }
        }
      }
    }
  }

  /** A list without repetitions has as many elements as the set of its elements. */
  lemma {:induction false} NoDupCard<T>(s: seq<T>)
    requires NoDup(s)
    ensures |set x | x in s| == |s|
  {
    if s != [] {
      var t := s[1..];
      TailNoDup(s);
      NoDupCard(t);
      assert (set x | x in s) == (set x | x in t) + {s[0]} by {
        assert s == [s[0]] + t;
      }
    }
  }

  /** Appending an element a list lacks keeps it without repetitions. */
  lemma AppendNoDup<T>(s: seq<T>, x: T)
    requires NoDup(s) && x !in s
    ensures NoDup(s + [x])
  {
    forall i, j | 0 <= i < j < |s + [x]| ensures Apart(s + [x], i, j) {
      if j == |s| {
        assert (s + [x])[i] == s[i] && s[i] in s;
      } else {
        assert (s + [x])[i] == s[i] && (s + [x])[j] == s[j];
        assert Apart(s, i, j);
      }
    }
  }

  /** Dropping the last element of a list without repetitions leaves one without repetitions, not holding it. */
  lemma InitNoDup<T>(s: seq<T>)
    requires NoDup(s) && s != []
    ensures NoDup(s[..|s| - 1]) && s[|s| - 1] !in s[..|s| - 1]
  {
    var init := s[..|s| - 1];
    forall i, j | 0 <= i < j < |init| ensures Apart(init, i, j) {
      assert Apart(s, i, j);
    }
    forall i | 0 <= i < |init| ensures init[i] != s[|s| - 1] {
      assert Apart(s, i, |s| - 1);
    }
  }
}
