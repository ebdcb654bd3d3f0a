/**
 * Bag semantics of the DataFrame operations the pipeline is built from:
 * `select`/`withColumnRenamed`/`withColumn` (Select), `where` (Where),
 * `drop_duplicates` (Distinct) and the inner equi-join (JoinPairs).
 * A table is a sequence of rows read as a multiset. Where, Distinct and
 * JoinPairs are specified by multiplicities; Select, SelectAppend and
 * WhereSelect are stated positionally or as sequence equalities, which are
 * stronger and imply the same statements about the multisets of rows.
 */
module Frames {

  /** No row occurs twice. */
  predicate NoDuplicates<T(==, !new)>(s: seq<T>) {
    forall i, j :: 0 <= i < j < |s| ==> s[i] != s[j]
  }

  /** Projection: one output row per input row, computed from that row alone. */
  function Select<A, B>(s: seq<A>, f: A -> B): (r: seq<B>)
    ensures |r| == |s|
    ensures forall i :: 0 <= i < |s| ==> r[i] == f(s[i])
  {
    if s == [] then [] else [f(s[0])] + Select(s[1..], f)
  }

  /** Selection: keeps exactly the rows satisfying `p`, each as often as it occurs. */
  function Where<T(==, !new)>(s: seq<T>, p: T -> bool): (r: seq<T>)
    ensures forall x :: multiset(r)[x] == if p(x) then multiset(s)[x] else 0
    ensures forall x :: x in r <==> x in s && p(x)
  {
    if s == [] then []
    else
      assert s == [s[0]] + s[1..];
      (if p(s[0]) then [s[0]] else []) + Where(s[1..], p)
  }

  /** Deduplication by full-row equality: every row of `s` exactly once. */
  function Distinct<T(==, !new)>(s: seq<T>): (r: seq<T>)
    ensures NoDuplicates(r)
    ensures forall x :: multiset(r)[x] == if x in s then 1 else 0
    ensures forall x :: x in r <==> x in s
  {
    if s == [] then []
    else
      assert s == [s[0]] + s[1..];
      if s[0] in s[1..] then Distinct(s[1..])
      else [s[0]] + Distinct(s[1..])
  }

  /** The rows `y` of `r` with `on(a, y)`, each paired with `a`. */
  function Matching<A(==, !new), B(==, !new)>(a: A, r: seq<B>, on: (A, B) -> bool): (ps: seq<(A, B)>)
    ensures forall x, y :: multiset(ps)[(x, y)] == if x == a && on(a, y) then multiset(r)[y] else 0
    ensures forall p :: p in ps <==> p.0 == a && p.1 in r && on(a, p.1)
  {
    if r == [] then []
    else
      assert r == [r[0]] + r[1..];
      (if on(a, r[0]) then [(a, r[0])] else []) + Matching(a, r[1..], on)
  }

  /**
   * Inner join of `l` and `r` under the join condition `on`, before
   * projection: one pair for every occurrence of a left row and every
   * occurrence of a right row that satisfy `on`.
   */
  function JoinPairs<A(==, !new), B(==, !new)>(l: seq<A>, r: seq<B>, on: (A, B) -> bool): (ps: seq<(A, B)>)
    ensures forall x, y :: multiset(ps)[(x, y)] == if on(x, y) then multiset(l)[x] * multiset(r)[y] else 0
  {
    if l == [] then []
    else
      var here := Matching(l[0], r, on);
      var rest := JoinPairs(l[1..], r, on);
      JoinPairsCount(l, r, on, here, rest);
      here + rest
  }

  /** The multiplicity step of JoinPairs: the head's matches plus the tail's join. */
  lemma JoinPairsCount<A(!new), B(!new)>(l: seq<A>, r: seq<B>, on: (A, B) -> bool, here: seq<(A, B)>, rest: seq<(A, B)>)
    requires l != []
    requires forall x, y :: multiset(here)[(x, y)] == if x == l[0] && on(l[0], y) then multiset(r)[y] else 0
    requires forall x, y :: multiset(rest)[(x, y)] == if on(x, y) then multiset(l[1..])[x] * multiset(r)[y] else 0
    ensures forall x, y :: multiset(here + rest)[(x, y)] == if on(x, y) then multiset(l)[x] * multiset(r)[y] else 0
  {
    assert l == [l[0]] + l[1..];
    assert multiset(l) == multiset{l[0]} + multiset(l[1..]);
    forall x, y ensures multiset(here + rest)[(x, y)] == if on(x, y) then multiset(l)[x] * multiset(r)[y] else 0 {
      var k, m := multiset(l[1..])[x], multiset(r)[y];
      var h, t := multiset(here)[(x, y)], multiset(rest)[(x, y)];
      assert multiset(here + rest)[(x, y)] == h + t;
      if on(x, y) {
        assert t == k * m;
        if x == l[0] {
          assert h == m;
          assert multiset(l)[x] == k + 1;
          MultiplyStep(k, m);
        } else {
          assert h == 0;
          assert multiset(l)[x] == k;
        }
      } else {
        assert h == 0 && t == 0;
      }
    }
  }

  lemma MultiplyStep(k: nat, m: nat)
    ensures (k + 1) * m == k * m + m
  {
  }

  lemma ProductPositive(n: nat, m: nat)
    ensures n * m > 0 <==> n > 0 && m > 0
  {
    if n > 0 && m > 0 {
      MultiplyStep(n - 1, m);
    }
  }

  /** A pair is in the join iff both sides are present and satisfy the condition. */
  lemma JoinPairsMember<A(!new), B(!new)>(l: seq<A>, r: seq<B>, on: (A, B) -> bool, x: A, y: B)
    ensures (x, y) in JoinPairs(l, r, on) <==> x in l && y in r && on(x, y)
  {
    var ps := JoinPairs(l, r, on);
    var n, m := multiset(l)[x], multiset(r)[y];
    ProductPositive(n, m);
    assert (x, y) in ps <==> multiset(ps)[(x, y)] > 0;
  }

  /** Projection distributes over concatenation. */
  lemma {:induction false} SelectAppend<A, B>(s: seq<A>, t: seq<A>, f: A -> B)
    ensures Select(s + t, f) == Select(s, f) + Select(t, f)
  {
    var u := Select(s + t, f);
    var v := Select(s, f) + Select(t, f);
    assert |u| == |v|;
    forall i | 0 <= i < |u| ensures u[i] == v[i] {
      if i < |s| {
        assert (s + t)[i] == s[i];
      } else {
        assert (s + t)[i] == t[i - |s|];
      }
    }
  }

  /** A projected row comes from some input row, and every input row is projected. */
  lemma SelectMembers<A, B>(s: seq<A>, f: A -> B)
    ensures forall y :: y in Select(s, f) <==> exists x :: x in s && f(x) == y
  {
    var r := Select(s, f);
    forall y ensures y in r <==> exists x :: x in s && f(x) == y {
      if y in r {
        var i :| 0 <= i < |r| && r[i] == y;
        assert s[i] in s && f(s[i]) == y;
      }
      if exists x :: x in s && f(x) == y {
        var x :| x in s && f(x) == y;
        var i :| 0 <= i < |s| && s[i] == x;
        assert r[i] == y;
      }
    }
  }

  /** Selecting after projecting is projecting after selecting by the composed condition. */
  lemma {:induction false} WhereSelect<A(!new), B(!new)>(s: seq<A>, f: A -> B, p: B -> bool, q: A -> bool)
    requires forall x :: q(x) == p(f(x))
    ensures Where(Select(s, f), p) == Select(Where(s, q), f)
  {
    if s != [] {
      WhereSelect(s[1..], f, p, q);
      assert Select(s, f)[1..] == Select(s[1..], f);
      SelectAppend(if q(s[0]) then [s[0]] else [], Where(s[1..], q), f);
    }
  }

  /** Projection of equal bags gives equal bags: Select does not depend on row order. */
  lemma {:induction false} SelectPreservesBags<A(!new), B(!new)>(s: seq<A>, t: seq<A>, f: A -> B)
    requires multiset(s) == multiset(t)
    ensures multiset(Select(s, f)) == multiset(Select(t, f))
    decreases |s|
  {
    if s == [] {
      assert |t| == |multiset(t)| == 0;
    } else {
      var x := s[0];
      assert x in multiset(t);
      var k :| 0 <= k < |t| && t[k] == x;
      var rest := t[..k] + t[k + 1..];
      assert t == t[..k] + [x] + t[k + 1..];
      assert s == [x] + s[1..];
      assert multiset(t) == multiset(t[..k]) + multiset{x} + multiset(t[k + 1..]);
      assert multiset(s) == multiset{x} + multiset(s[1..]);
      assert multiset(rest) == multiset(t[..k]) + multiset(t[k + 1..]);
      assert multiset(rest) == multiset(t) - multiset{x};
      assert multiset(s[1..]) == multiset(s) - multiset{x};
      SelectPreservesBags(s[1..], rest, f);
      SelectAppend([x], s[1..], f);
      SelectAppend(t[..k] + [x], t[k + 1..], f);
      SelectAppend(t[..k], [x], f);
      SelectAppend(t[..k], t[k + 1..], f);
    }
  }

  /**
   * Rows built from distinct keys by a function that keeps its key: each row
   * is determined by its key, no key has two rows, and the keys of the rows
   * are exactly the given keys.
   */
  lemma KeyedRows<K(!new), R(!new)>(ks: seq<K>, f: K -> R, key: R -> K)
    requires forall k :: key(f(k)) == k
    ensures forall r :: r in Distinct(Select(ks, f)) ==> r == f(key(r)) && key(r) in ks
    ensures forall k :: k in ks ==> f(k) in Distinct(Select(ks, f))
    ensures forall i, j :: 0 <= i < j < |Distinct(Select(ks, f))| ==>
      key(Distinct(Select(ks, f))[i]) != key(Distinct(Select(ks, f))[j])
  {
    var rows := Distinct(Select(ks, f));
    SelectMembers(ks, f);
    forall r | r in rows ensures r == f(key(r)) && key(r) in ks {
      var k :| k in ks && f(k) == r;
    }
    forall i, j | 0 <= i < j < |rows| ensures key(rows[i]) != key(rows[j]) {
      assert rows[i] in rows && rows[j] in rows;
    }
  }

  /** A row of a projected join comes from a matching pair, and every matching pair yields one. */
  lemma JoinSelectMembers<A(!new), B(!new), C>(l: seq<A>, r: seq<B>, on: (A, B) -> bool, f: ((A, B)) -> C)
    ensures forall c :: c in Select(JoinPairs(l, r, on), f) <==>
              exists x, y :: x in l && y in r && on(x, y) && c == f((x, y))
  {
    var ps := JoinPairs(l, r, on);
    SelectMembers(ps, f);
    forall x, y ensures (x, y) in ps <==> x in l && y in r && on(x, y) {
      JoinPairsMember(l, r, on, x, y);
    }
    forall c ensures c in Select(ps, f) <==> exists x, y :: x in l && y in r && on(x, y) && c == f((x, y)) {
      if c in Select(ps, f) {
        var p :| p in ps && f(p) == c;
        assert p == (p.0, p.1);
      }
    }
  }

  /** Two tables with the same rows have the same deduplicated rows. */
  lemma DistinctPreservesBags<T(!new)>(s: seq<T>, t: seq<T>)
    requires multiset(s) == multiset(t)
    ensures multiset(Distinct(s)) == multiset(Distinct(t))
  {
    forall x ensures multiset(Distinct(s))[x] == multiset(Distinct(t))[x] {
      assert x in s <==> x in multiset(s);
      assert x in t <==> x in multiset(t);
    }
  }
}
