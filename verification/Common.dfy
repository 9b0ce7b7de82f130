/** Result-like datatypes and small facts about finite sets and maps shared by every module. */
module Common {

  datatype Option<+T> = None | Some(value: T)

  datatype Result<+T, +E> = Ok(value: T) | Err(error: E)

  /** A byte of a file, a Markdown document or an ASCII string. */
  newtype byte = x: int | 0 <= x < 256

  /** A sequence without repetition, as iterating an ordered set yields. */
  ghost predicate Distinct<T>(s: seq<T>) {
    forall i, j :: 0 <= i < j < |s| ==> s[i] != s[j]
  }

  /** The keys of `m` whose set contains `x`. */
  function Naming<K, V>(m: map<K, set<V>>, x: V): (r: set<K>) {
    set k | k in m && x in m[k]
  }

  lemma NamingUpdate<K, V>(m: map<K, set<V>>, k: K, s: set<V>, x: V)
    requires k !in m
    ensures |Naming(m[k := s], x)| == |Naming(m, x)| + if x in s then 1 else 0
  {
    if x in s {
      assert Naming(m[k := s], x) == Naming(m, x) + {k};
    } else {
      assert Naming(m[k := s], x) == Naming(m, x);
    }
  }

  lemma NamingRemove<K, V>(m: map<K, set<V>>, k: K, x: V)
    requires k in m
    ensures |Naming(m, x)| == |Naming(m - {k}, x)| + if x in m[k] then 1 else 0
  {
    assert (m - {k})[k := m[k]] == m;
    NamingUpdate(m - {k}, k, m[k], x);
  }

  /** Nothing names `x` exactly when no key's set contains it. */
  lemma NamingNone<K, V>(m: map<K, set<V>>, x: V)
    ensures |Naming(m, x)| == 0 <==> forall k :: k in m ==> x !in m[k]
  {
    if |Naming(m, x)| == 0 {
      forall k | k in m ensures x !in m[k] {
        assert k !in Naming(m, x);
      }
    } else {
      var k :| k in Naming(m, x);
    }
  }
}
