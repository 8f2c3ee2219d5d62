/** Counting the threads of a program that are at a given point. */
module Counting {
  import opened Common

  /** How many keys of `m` carry a value satisfying `f`. */
  ghost function Count<K(!new), V(!new)>(m: map<K, V>, f: V -> bool): nat {
    |Where(m, f)|
  }

  ghost function Where<K(!new), V(!new)>(m: map<K, V>, f: V -> bool): set<K> {
    set k | k in m && f(m[k])
  }

  /** Moving one thread changes the count by that thread's contribution. */
  lemma CountMove<K(!new), V(!new)>(m: map<K, V>, f: V -> bool, k: K, v: V)
    requires k in m
    ensures Count(m[k := v], f) == Count(m, f) - One(f(m[k])) + One(f(v))
    ensures f(m[k]) ==> Count(m, f) >= 1
  {
    WithKey(m, f, k);
    WithKey(m[k := v], f, k);
    OthersStay(m, f, k, v);
  }

  lemma OthersStay<K(!new), V(!new)>(m: map<K, V>, f: V -> bool, k: K, v: V)
    ensures Where(m[k := v], f) - {k} == Where(m, f) - {k}
  {
  }

  lemma WithKey<K(!new), V(!new)>(m: map<K, V>, f: V -> bool, k: K)
    requires k in m
    ensures Count(m, f) == |Where(m, f) - {k}| + One(f(m[k]))
  {
    if f(m[k]) {
      assert Where(m, f) == (Where(m, f) - {k}) + {k};
    } else {
      assert Where(m, f) == Where(m, f) - {k};
    }
  }

  lemma CountZero<K(!new), V(!new)>(m: map<K, V>, f: V -> bool)
    ensures Count(m, f) == 0 <==> forall k :: k in m ==> !f(m[k])
  {
    if k :| k in m && f(m[k]) {
      assert k in Where(m, f);
    } else {
      assert Where(m, f) == {};
    }
  }

  /** Two threads at a point count at least twice, so a count of one identifies its thread. */
  lemma CountTwo<K(!new), V(!new)>(m: map<K, V>, f: V -> bool, a: K, b: K)
    requires a in m && b in m && f(m[a]) && f(m[b])
    ensures a != b ==> Count(m, f) >= 2
  {
    WithKey(m, f, a);
    if a != b {
      assert b in Where(m, f) - {a};
    }
  }
}
