/** Sequences without repetition. */
module Sequences {
  predicate NoDuplicates<T(==)>(s: seq<T>) {
    s == [] || (s[0] !in s[1..] && NoDuplicates(s[1..]))
  }

  lemma {:induction false} OneMore<T>(s: seq<T>, x: T)
    requires NoDuplicates(s) && x !in s
    ensures NoDuplicates(s + [x])
  {
    if s != [] {
      OneMore(s[1..], x);
      assert (s + [x])[1..] == s[1..] + [x];
    }
  }

  /** a stands before b. */
  predicate Precedes<T(==)>(v: seq<T>, a: T, b: T) {
    exists p, q | 0 <= p < q < |v| :: v[p] == a && v[q] == b
  }

  /** Two of w stand in v in the same order. */
  predicate KeepsOrder<T(==)>(w: seq<T>, v: seq<T>) {
    forall i, j | 0 <= i < j < |w| :: Precedes(v, w[i], w[j])
  }

  lemma OrderBehind<T>(w: seq<T>, x: T, v: seq<T>)
    requires KeepsOrder(w, v)
    ensures KeepsOrder(w, [x] + v)
  {
    var all := [x] + v;
    forall i, j | 0 <= i < j < |w| ensures Precedes(all, w[i], w[j]) {
      assert Precedes(v, w[i], w[j]);
      var p, q :| 0 <= p < q < |v| && v[p] == w[i] && v[q] == w[j];
      assert all[p + 1] == w[i] && all[q + 1] == w[j];
    }
  }

  lemma OrderWith<T>(w: seq<T>, x: T, v: seq<T>)
    requires KeepsOrder(w, v) && forall y | y in w :: y in v
    ensures KeepsOrder([x] + w, [x] + v)
  {
    OrderBehind(w, x, v);
    var (u, all) := ([x] + w, [x] + v);
    forall i, j | 0 <= i < j < |u| ensures Precedes(all, u[i], u[j]) {
      if i == 0 {
        assert w[j - 1] in v;
        var k :| 0 <= k < |v| && v[k] == w[j - 1];
        assert all[0] == u[i] && all[k + 1] == u[j];
      } else {
        assert Precedes(all, w[i - 1], w[j - 1]);
      }
    }
  }
}
