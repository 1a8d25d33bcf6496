/**
 * The two sorts the ordering utilities rely on: Python's `sorted`, a stable
 * sort (also with `reverse=True`, which keeps equal elements in their
 * original order), and Python's ordering of strings, which compares code
 * points from the left and puts a proper prefix first.
 */
module Sorting {

  /** No element occurs twice. */
  predicate Distinct<T(==)>(s: seq<T>)
  {
    forall i, j :: 0 <= i < j < |s| ==> s[i] != s[j]
  }

  /** `x` occurs at some position before some occurrence of `y`. */
  ghost predicate Precedes<T>(s: seq<T>, x: T, y: T)
  {
    exists i, j :: 0 <= i < j < |s| && s[i] == x && s[j] == y
  }

  /** `le` is a total preorder: any two elements compare, and it is transitive. */
  ghost predicate TotalPreorder<T(!new)>(le: (T, T) -> bool)
  {
    && (forall x, y :: le(x, y) || le(y, x))
    && (forall x, y, z :: le(x, y) && le(y, z) ==> le(x, z))
  }

  ghost predicate SortedBy<T>(s: seq<T>, le: (T, T) -> bool)
  {
    forall i, j :: 0 <= i < j < |s| ==> le(s[i], s[j])
  }

  /** Elements that `le` ranks equal appear in `sorted` in the order they have in `original`. */
  ghost predicate KeepsTieOrder<T>(original: seq<T>, sorted: seq<T>, le: (T, T) -> bool)
  {
    forall i, j :: 0 <= i < j < |sorted| && le(sorted[j], sorted[i]) ==> Precedes(original, sorted[i], sorted[j])
  }

  /** Inserts `x` in front of the first element it ranks at or below. */
  function Insert<T>(x: T, s: seq<T>, le: (T, T) -> bool): seq<T>
  {
    if s == [] || le(x, s[0]) then [x] + s else [s[0]] + Insert(x, s[1..], le)
  }

  /** Stable insertion sort of `s` by `le`. */
  function SortBy<T>(s: seq<T>, le: (T, T) -> bool): seq<T>
  {
    if s == [] then [] else Insert(s[0], SortBy(s[1..], le), le)
  }

  /** `Insert` splits `s` at k: everything before k ranks strictly below `x`. */
  lemma {:induction false} InsertSplit<T>(x: T, s: seq<T>, le: (T, T) -> bool) returns (k: nat)
    ensures k <= |s|
    ensures Insert(x, s, le) == s[..k] + [x] + s[k..]
    ensures forall i :: 0 <= i < k ==> !le(x, s[i])
    ensures k < |s| ==> le(x, s[k])
  {
    if s == [] || le(x, s[0]) {
      k := 0;
    } else {
      var k' := InsertSplit(x, s[1..], le);
      k := k' + 1;
      assert s[..k] == [s[0]] + s[1..][..k'];
      assert s[k..] == s[1..][k'..];
    }
  }

  /** The result of `SortBy` is a permutation of its input. */
  lemma {:induction false} SortByPermutes<T>(s: seq<T>, le: (T, T) -> bool)
    ensures multiset(SortBy(s, le)) == multiset(s)
  {
    if s != [] {
      SortByPermutes(s[1..], le);
      var r := SortBy(s[1..], le);
      var k := InsertSplit(s[0], r, le);
      assert r == r[..k] + r[k..];
      assert s == [s[0]] + s[1..];
    }
  }

  /** Inserting into a sorted sequence keeps it sorted. */
  lemma InsertKeepsSorted<T(!new)>(x: T, s: seq<T>, le: (T, T) -> bool)
    requires TotalPreorder(le) && SortedBy(s, le)
    ensures SortedBy(Insert(x, s, le), le)
  {
    var k := InsertSplit(x, s, le);
    var out := s[..k] + [x] + s[k..];
    forall i, j | 0 <= i < j < |out| ensures le(out[i], out[j]) {
      if j < k {
        assert out[i] == s[i] && out[j] == s[j];
      } else if j == k {
        assert out[i] == s[i] && out[j] == x;
        assert !le(x, s[i]);
      } else if i < k {
        assert out[i] == s[i] && out[j] == s[j - 1];
      } else if i == k {
        assert out[i] == x && out[j] == s[j - 1];
        assert le(x, s[k]);
        if j - 1 > k {
          assert le(s[k], s[j - 1]);
        }
      } else {
        assert out[i] == s[i - 1] && out[j] == s[j - 1];
      }
    }
  }

  /** The result of `SortBy` is sorted by any total preorder. */
  lemma {:induction false} SortBySorts<T(!new)>(s: seq<T>, le: (T, T) -> bool)
    requires TotalPreorder(le)
    ensures SortedBy(SortBy(s, le), le)
  {
    if s != [] {
      SortBySorts(s[1..], le);
      InsertKeepsSorted(s[0], SortBy(s[1..], le), le);
    }
  }

  lemma PrecedesInTail<T>(s: seq<T>, x: T, y: T)
    requires s != [] && Precedes(s[1..], x, y)
    ensures Precedes(s, x, y)
  {
    var i, j :| 0 <= i < j < |s[1..]| && s[1..][i] == x && s[1..][j] == y;
    assert s[i + 1] == x && s[j + 1] == y;
  }

  /** `SortBy` is stable: it never reorders two elements that `le` ranks equal. */
  lemma {:induction false} SortByIsStable<T>(s: seq<T>, le: (T, T) -> bool)
    ensures KeepsTieOrder(s, SortBy(s, le), le)
  {
    if s != [] {
      SortByIsStable(s[1..], le);
      SortByPermutes(s[1..], le);
      var r := SortBy(s[1..], le);
      var x := s[0];
      var k := InsertSplit(x, r, le);
      var out := r[..k] + [x] + r[k..];
      forall i, j | 0 <= i < j < |out| && le(out[j], out[i]) ensures Precedes(s, out[i], out[j]) {
        if j < k {
          assert out[i] == r[i] && out[j] == r[j];
          PrecedesInTail(s, r[i], r[j]);
        } else if j == k {
          assert false;
        } else if i < k {
          assert out[i] == r[i] && out[j] == r[j - 1];
          PrecedesInTail(s, r[i], r[j - 1]);
        } else if i == k {
          assert out[j] == r[j - 1];
          assert r[j - 1] in multiset(s[1..]);
          var q :| 0 <= q < |s[1..]| && s[1..][q] == r[j - 1];
          assert s[0] == x && s[q + 1] == out[j];
        } else {
          assert out[i] == r[i - 1] && out[j] == r[j - 1];
          PrecedesInTail(s, r[i - 1], r[j - 1]);
        }
      }
    }
  }

  /** In a sequence without repetitions, two distinct members occur in exactly one order. */
  lemma PrecedesExactlyOne<T>(s: seq<T>, x: T, y: T)
    requires Distinct(s) && x in s && y in s && x != y
    ensures Precedes(s, x, y) != Precedes(s, y, x)
  {
    var i :| 0 <= i < |s| && s[i] == x;
    var j :| 0 <= j < |s| && s[j] == y;
    if i < j {
      assert Precedes(s, x, y);
    } else {
      assert Precedes(s, y, x);
    }
  }

  lemma PrecedesTransitive<T>(s: seq<T>, x: T, y: T, z: T)
    requires Distinct(s) && Precedes(s, x, y) && Precedes(s, y, z)
    ensures Precedes(s, x, z) && x != z
  {
    var i, j :| 0 <= i < j < |s| && s[i] == x && s[j] == y;
    var j', k :| 0 <= j' < k < |s| && s[j'] == y && s[k] == z;
    assert j == j';
  }

  /** Inserting a new element into a sequence without repetitions keeps it without repetitions. */
  lemma InsertKeepsDistinct<T>(x: T, s: seq<T>, le: (T, T) -> bool)
    requires Distinct(s) && x !in s
    ensures Distinct(Insert(x, s, le))
  {
    var k := InsertSplit(x, s, le);
    var out := s[..k] + [x] + s[k..];
    forall i, j | 0 <= i < j < |out| ensures out[i] != out[j] {
      if j < k {
        assert out[i] == s[i] && out[j] == s[j];
      } else if j == k {
        assert out[i] == s[i];
      } else if i < k {
        assert out[i] == s[i] && out[j] == s[j - 1];
      } else if i == k {
        assert out[j] == s[j - 1];
      } else {
        assert out[i] == s[i - 1] && out[j] == s[j - 1];
      }
    }
  }

  /** Sorting never duplicates an element. */
  lemma {:induction false} SortByKeepsDistinct<T>(s: seq<T>, le: (T, T) -> bool)
    requires Distinct(s)
    ensures Distinct(SortBy(s, le))
  {
    if s != [] {
      SortByKeepsDistinct(s[1..], le);
      SortByPermutes(s[1..], le);
      assert s[0] !in multiset(s[1..]);
      InsertKeepsDistinct(s[0], SortBy(s[1..], le), le);
    }
  }

  /** In a sorted sequence without repetitions, for an order that never ranks two different
      elements equal, `a` comes before `b` exactly when `a` ranks at or below `b`. */
  lemma SortedPrecedesIffLe<T>(s: seq<T>, le: (T, T) -> bool, a: T, b: T)
    requires SortedBy(s, le) && Distinct(s)
    requires a in s && b in s && a != b
    requires !(le(a, b) && le(b, a))
    ensures Precedes(s, a, b) <==> le(a, b)
  {
    PrecedesExactlyOne(s, a, b);
    if Precedes(s, b, a) {
      var i, j :| 0 <= i < j < |s| && s[i] == b && s[j] == a;
      assert le(b, a);
    } else {
      var i, j :| 0 <= i < j < |s| && s[i] == a && s[j] == b;
      assert le(a, b);
    }
  }

  /** Python's `a <= b` on strings. */
  predicate LexLe(a: string, b: string)
  {
    if a == [] then true
    else if b == [] then false
    else if a[0] != b[0] then a[0] < b[0]
    else LexLe(a[1..], b[1..])
  }

  /** Python's `a < b` on strings. */
  predicate LexLess(a: string, b: string)
  {
    LexLe(a, b) && a != b
  }

  lemma {:induction false} LexLeTotal(a: string, b: string)
    ensures LexLe(a, b) || LexLe(b, a)
  {
    if a != [] && b != [] && a[0] == b[0] {
      LexLeTotal(a[1..], b[1..]);
    }
  }

  lemma {:induction false} LexLeTransitive(a: string, b: string, c: string)
    requires LexLe(a, b) && LexLe(b, c)
    ensures LexLe(a, c)
  {
    if a != [] && b != [] && c != [] && a[0] == b[0] && b[0] == c[0] {
      LexLeTransitive(a[1..], b[1..], c[1..]);
    }
  }

  lemma {:induction false} LexLeAntisymmetric(a: string, b: string)
    requires LexLe(a, b) && LexLe(b, a)
    ensures a == b
  {
    if a != [] && b != [] {
      LexLeAntisymmetric(a[1..], b[1..]);
      assert a == [a[0]] + a[1..] && b == [b[0]] + b[1..];
    }
  }

  /** Python's ordering on strings is a total order. */
  lemma LexLeIsTotalOrder()
    ensures TotalPreorder(LexLe)
    ensures TotalPreorder((a: string, b: string) => LexLe(b, a))
    ensures forall a, b :: LexLe(a, b) && LexLe(b, a) ==> a == b
  {
    forall a, b ensures LexLe(a, b) || LexLe(b, a) {
      LexLeTotal(a, b);
    }
    forall a, b, c | LexLe(a, b) && LexLe(b, c) ensures LexLe(a, c) {
      LexLeTransitive(a, b, c);
    }
    forall a, b | LexLe(a, b) && LexLe(b, a) ensures a == b {
      LexLeAntisymmetric(a, b);
    }
  }
}
