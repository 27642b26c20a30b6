/**
 * Sequences without repeats, and the effect of a run of Python dictionary
 * assignments `d[k] = v` performed in order.
 */
module Collections {

  /** No element occurs twice in `s`. */
  predicate NoDup<T(==)>(s: seq<T>) {
    forall i, j :: 0 <= i < |s| && 0 <= j < |s| && i != j ==> s[i] != s[j]
  }

  /** `s` lists every element of `keys` exactly once: one iteration order of a dictionary. */
  predicate Enumerates<T(==)>(s: seq<T>, keys: set<T>) {
    NoDup(s) && (forall k :: k in s ==> k in keys) && (forall k :: k in keys ==> k in s)
  }

  /** A sequence without repeats holds each value at most once... */
  lemma {:induction false} NoDupCounts<T>(s: seq<T>)
    requires NoDup(s)
    ensures forall x :: multiset(s)[x] <= 1
  {
    if s != [] {
      assert NoDup(s[1..]) by {
        forall i, j | 0 <= i < |s| - 1 && 0 <= j < |s| - 1 && i != j ensures s[1..][i] != s[1..][j] {
          assert s[1..][i] == s[i + 1] && s[1..][j] == s[j + 1];
        }
      }
      NoDupCounts(s[1..]);
      assert s == [s[0]] + s[1..];
      assert s[0] !in s[1..];
    }
  }

  /** ...and a sequence holding each value at most once has no repeats. */
  lemma {:induction false} CountsNoDup<T>(s: seq<T>)
    requires forall x :: multiset(s)[x] <= 1
    ensures NoDup(s)
  {
    forall i, j | 0 <= i < |s| && 0 <= j < |s| && i < j ensures s[i] != s[j] {
      assert s == s[..j] + s[j..];
      assert s[i] in s[..j];
      assert s[j] in s[j..];
      assert multiset(s)[s[j]] == multiset(s[..j])[s[j]] + multiset(s[j..])[s[j]];
    }
  }

  /** The keys of a list of pairs, in order. */
  function Firsts<K, V>(es: seq<(K, V)>): seq<K> {
    seq(|es|, i requires 0 <= i < |es| => es[i].0)
  }

  /** The keys of a concatenation are the keys of its parts. */
  lemma FirstsAppend<K, V>(a: seq<(K, V)>, b: seq<(K, V)>)
    ensures Firsts(a + b) == Firsts(a) + Firsts(b)
  {
    forall i | 0 <= i < |a + b| ensures Firsts(a + b)[i] == (Firsts(a) + Firsts(b))[i] {
      if i < |a| {
        assert (a + b)[i] == a[i];
      } else {
        assert (a + b)[i] == b[i - |a|];
      }
    }
  }

  /** A list of pairs with each pair turned round. */
  function Swapped<K, V>(es: seq<(K, V)>): seq<(V, K)> {
    seq(|es|, i requires 0 <= i < |es| => (es[i].1, es[i].0))
  }

  /** Rearranging a list of pairs whose keys do not repeat gives one whose keys do not repeat. */
  lemma FirstsNoDupPermutation<K, V>(l: seq<(K, V)>, p: seq<(K, V)>)
    requires multiset(l) == multiset(p) && NoDup(Firsts(p))
    ensures NoDup(Firsts(l))
  {
    assert NoDup(p) by {
      forall i, j | 0 <= i < |p| && 0 <= j < |p| && i != j ensures p[i] != p[j] {
        assert Firsts(p)[i] != Firsts(p)[j];
      }
    }
    NoDupCounts(p);
    CountsNoDup(l);
    forall i, j | 0 <= i < |l| && 0 <= j < |l| && i != j ensures Firsts(l)[i] != Firsts(l)[j] {
      assert l[i] in multiset(p) && l[j] in multiset(p);
      var a :| 0 <= a < |p| && p[a] == l[i];
      var b :| 0 <= b < |p| && p[b] == l[j];
      assert a != b;
      assert Firsts(p)[a] != Firsts(p)[b];
    }
  }

  /** Equal keys in `es` always come with equal values. */
  predicate Functional<K(==), V(==)>(es: seq<(K, V)>) {
    forall i, j :: 0 <= i < |es| && 0 <= j < |es| && es[i].0 == es[j].0 ==> es[i].1 == es[j].1
  }

  /** The dictionary `m` after `m[k] = v` for each pair `(k, v)` of `es`, in order. */
  function Assign<K(==), V>(m: map<K, V>, es: seq<(K, V)>): map<K, V>
    decreases |es|
  {
    if es == [] then m else Assign(m[es[0].0 := es[0].1], es[1..])
  }

  /** Two runs of assignments, one after the other, are one run of both. */
  lemma {:induction false} AssignAppend<K, V>(m: map<K, V>, a: seq<(K, V)>, b: seq<(K, V)>)
    ensures Assign(m, a + b) == Assign(Assign(m, a), b)
    decreases |a|
  {
    if a != [] {
      assert (a + b)[0] == a[0] && (a + b)[1..] == a[1..] + b;
      AssignAppend(m[a[0].0 := a[0].1], a[1..], b);
    } else {
      assert a + b == b;
    }
  }

  /** A key is defined afterwards exactly when it was before or was assigned; unassigned keys keep their value. */
  lemma {:induction false} AssignKeys<K, V>(m: map<K, V>, es: seq<(K, V)>)
    ensures forall k :: k in Assign(m, es) <==> k in m || k in Firsts(es)
    ensures forall k :: k in m && k !in Firsts(es) ==> Assign(m, es)[k] == m[k]
    decreases |es|
  {
    if es != [] {
      AssignKeys(m[es[0].0 := es[0].1], es[1..]);
      assert Firsts(es) == [es[0].0] + Firsts(es[1..]);
    }
  }

  /** When equal keys carry equal values, every assigned key ends with the value it was given. */
  lemma {:induction false} AssignValue<K, V>(m: map<K, V>, es: seq<(K, V)>, i: nat)
    requires Functional(es) && i < |es|
    ensures es[i].0 in Assign(m, es) && Assign(m, es)[es[i].0] == es[i].1
    decreases |es|
  {
    var m' := m[es[0].0 := es[0].1];
    assert Functional(es[1..]) by {
      forall a, b | 0 <= a < |es| - 1 && 0 <= b < |es| - 1 && es[1..][a].0 == es[1..][b].0
        ensures es[1..][a].1 == es[1..][b].1
      {
        assert es[1..][a] == es[a + 1] && es[1..][b] == es[b + 1];
      }
    }
    if i > 0 {
      assert es[1..][i - 1] == es[i];
      AssignValue(m', es[1..], i - 1);
    } else if es[0].0 in Firsts(es[1..]) {
      var j :| 0 <= j < |es| - 1 && Firsts(es[1..])[j] == es[0].0;
      assert es[1..][j] == es[j + 1];
      AssignValue(m', es[1..], j);
    } else {
      AssignKeys(m', es[1..]);
    }
  }
}
