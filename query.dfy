/** Relational primitives the handlers' SQL relies on: scanning a table in key
    order with a WHERE predicate, ordering rows (ORDER BY) and projecting them
    onto a column list (SELECT). Tables are maps from an auto-increment key to
    a row. */
module Query {

  /** Every key of the table lies below its next auto-increment value. */
  ghost predicate KeysBelow<T>(m: map<nat, T>, n: nat) {
    forall k :: k in m ==> k < n
  }

  /** The rows of `m` whose key is below `n` and that satisfy `p`, in
      increasing key order. */
  function Scan<T(==)>(m: map<nat, T>, n: nat, p: T -> bool): (r: seq<T>)
    ensures forall x :: x in r ==> x in m.Values && p(x)
    ensures forall k :: k in m && k < n && p(m[k]) ==> m[k] in r
    ensures |r| == |set k | k in m && k < n && p(m[k])|
    decreases n
  {
    if n == 0 then
      assert (set k | k in m && k < n && p(m[k])) == {};
      []
    else
      var prev := Scan(m, n - 1, p);
      var below := set k | k in m && k < n - 1 && p(m[k]);
      if n - 1 in m && p(m[n - 1]) then
        assert (set k | k in m && k < n && p(m[k])) == below + {n - 1};
        prev + [m[n - 1]]
      else
        assert (set k | k in m && k < n && p(m[k])) == below;
        prev
  }

  /** The keys of the rows of `m` that satisfy `p`. */
  function KeysWhere<T>(m: map<nat, T>, p: T -> bool): set<nat> {
    set k | k in m && p(m[k])
  }

  /** `SELECT * FROM m WHERE p`: exactly the rows satisfying `p`, one per key. */
  function Select<T(==)>(m: map<nat, T>, n: nat, p: T -> bool): (r: seq<T>)
    requires KeysBelow(m, n)
    ensures forall x :: x in r ==> x in m.Values && p(x)
    ensures forall x :: x in m.Values && p(x) ==> x in r
    ensures |r| == |KeysWhere(m, p)|
  {
    assert (set k | k in m && k < n && p(m[k])) == KeysWhere(m, p);
    Scan(m, n, p)
  }

  /** The SELECT column list applied to every row, order preserved. */
  function Project<T, U>(s: seq<T>, f: T -> U): (r: seq<U>)
    ensures |r| == |s|
    ensures forall i :: 0 <= i < |s| ==> r[i] == f(s[i])
  {
    seq(|s|, i requires 0 <= i < |s| => f(s[i]))
  }

  lemma ProjectHas<T, U>(s: seq<T>, f: T -> U, x: T)
    requires x in s
    ensures f(x) in Project(s, f)
  {
    var i :| 0 <= i < |s| && s[i] == x;
    assert Project(s, f)[i] == f(x);
  }

  /** Lexicographic order on sort keys: the order of a composite ORDER BY. */
  predicate LexLeq(a: seq<int>, b: seq<int>)
    decreases |a|
  {
    |a| == 0 || (|b| > 0 && (a[0] < b[0] || (a[0] == b[0] && LexLeq(a[1..], b[1..]))))
  }

  lemma {:induction false} LexLeqTotal(a: seq<int>, b: seq<int>)
    ensures LexLeq(a, b) || LexLeq(b, a)
    decreases |a|
  {
    if |a| > 0 && |b| > 0 && a[0] == b[0] {
      LexLeqTotal(a[1..], b[1..]);
    }
  }

  lemma {:induction false} LexLeqTransitive(a: seq<int>, b: seq<int>, c: seq<int>)
    requires LexLeq(a, b) && LexLeq(b, c)
    ensures LexLeq(a, c)
    decreases |a|
  {
    if |a| > 0 && a[0] == b[0] && b[0] == c[0] {
      LexLeqTransitive(a[1..], b[1..], c[1..]);
    }
  }

  /** The rows of `s` appear in ascending order of their sort key. */
  predicate SortedBy<T>(s: seq<T>, key: T -> seq<int>) {
    forall i, j :: 0 <= i < j < |s| ==> LexLeq(key(s[i]), key(s[j]))
  }

  function InsertBy<T(==)>(x: T, s: seq<T>, key: T -> seq<int>): (r: seq<T>)
    ensures multiset(r) == multiset(s) + multiset{x}
    decreases |s|
  {
    if |s| == 0 || LexLeq(key(x), key(s[0])) then [x] + s
    else
      assert s == [s[0]] + s[1..];
      [s[0]] + InsertBy(x, s[1..], key)
  }

  lemma {:induction false} InsertBySorted<T>(x: T, s: seq<T>, key: T -> seq<int>)
    requires SortedBy(s, key)
    ensures SortedBy(InsertBy(x, s, key), key)
    decreases |s|
  {
    if |s| == 0 || LexLeq(key(x), key(s[0])) {
      forall j | 0 < j < |s| ensures LexLeq(key(x), key(s[j])) {
        LexLeqTransitive(key(x), key(s[0]), key(s[j]));
      }
    } else {
      var rest := InsertBy(x, s[1..], key);
      InsertBySorted(x, s[1..], key);
      LexLeqTotal(key(x), key(s[0]));
      forall j | 0 <= j < |rest| ensures LexLeq(key(s[0]), key(rest[j])) {
        var y := rest[j];
        assert y in multiset(rest);
        if y != x {
          assert y in multiset(s[1..]);
          var i :| 0 <= i < |s[1..]| && s[1..][i] == y;
          assert s[i + 1] == y;
        }
      }
      assert InsertBy(x, s, key) == [s[0]] + rest;
    }
  }

  /** `ORDER BY key`: a sorted permutation of the rows. */
  function SortBy<T(==)>(s: seq<T>, key: T -> seq<int>): (r: seq<T>)
    ensures SortedBy(r, key)
    ensures multiset(r) == multiset(s)
    decreases |s|
  {
    if |s| == 0 then []
    else
      var rest := SortBy(s[1..], key);
      InsertBySorted(s[0], rest, key);
      assert s == [s[0]] + s[1..];
      InsertBy(s[0], rest, key)
  }

  /** The ascending sort key of `ORDER BY created_at DESC`. */
  function NewestFirstKey(created: nat): seq<int> {
    [-(created as int)]
  }

  /** Rows sorted by a newest-first key come with decreasing creation times. */
  lemma NewestFirst<T>(r: seq<T>, key: T -> seq<int>, created: T -> nat)
    requires SortedBy(r, key)
    requires forall x :: key(x) == NewestFirstKey(created(x))
    ensures forall i, j :: 0 <= i < j < |r| ==> created(r[i]) >= created(r[j])
  {
    forall i, j | 0 <= i < j < |r| ensures created(r[i]) >= created(r[j]) {
      assert LexLeq(key(r[i]), key(r[j]));
    }
  }

  /** `SELECT * FROM m WHERE p ORDER BY key`: exactly the rows satisfying
      `p`, one per key, in ascending key order. */
  function SelectSorted<T(==)>(m: map<nat, T>, n: nat, p: T -> bool, key: T -> seq<int>): (r: seq<T>)
    requires KeysBelow(m, n)
    ensures forall x :: x in r ==> x in m.Values && p(x)
    ensures forall x :: x in m.Values && p(x) ==> x in r
    ensures |r| == |KeysWhere(m, p)|
    ensures SortedBy(r, key)
  {
    var rows := Select(m, n, p);
    var r := SortBy(rows, key);
    assert forall x :: x in r ==> x in rows by {
      forall x | x in r ensures x in rows {
        assert x in multiset(r);
      }
    }
    assert forall x :: x in rows ==> x in r by {
      forall x | x in rows ensures x in r {
        assert x in multiset(rows);
      }
    }
    assert |r| == |multiset(r)| == |multiset(rows)| == |rows|;
    r
  }

  /** `s LIKE CONCAT('%', q, '%')` without wildcards in `q`: `q` occurs in `s`. */
  predicate Contains(s: string, q: string)
    decreases |s|
  {
    (|q| <= |s| && s[..|q|] == q) || (|s| > 0 && Contains(s[1..], q))
  }

  /** `q` is the slice of `s` that starts at position `i`. */
  predicate OccursAt(s: string, q: string, i: int) {
    0 <= i && i + |q| <= |s| && s[i..i + |q|] == q
  }

  /** `Contains` agrees with "some slice of `s` equals `q`". */
  lemma {:induction false} ContainsIffOccurs(s: string, q: string)
    ensures Contains(s, q) <==> exists i :: OccursAt(s, q, i)
    decreases |s|
  {
    if |s| > 0 {
      ContainsIffOccurs(s[1..], q);
      if exists i :: OccursAt(s, q, i) {
        var i :| OccursAt(s, q, i);
        if i > 0 {
          assert OccursAt(s[1..], q, i - 1);
        }
      }
      if Contains(s[1..], q) && !(|q| <= |s| && s[..|q|] == q) {
        var i :| OccursAt(s[1..], q, i);
        assert OccursAt(s, q, i + 1);
      }
      if |q| <= |s| && s[..|q|] == q {
        assert OccursAt(s, q, 0);
      }
    } else {
      if exists i :: OccursAt(s, q, i) {
        var i :| OccursAt(s, q, i);
        assert s[..|q|] == q;
      }
      if Contains(s, q) {
        assert OccursAt(s, q, 0);
      }
    }
  }
}
