/**
 * Pieces shared by the three tree models: the nullable result of a lookup,
 * and the map algebra used to state what an edit below a node does to the
 * node's whole key-to-value map.
 */
module Common {

  /** None stands for nullptr; Some(v) for a pointer to the stored value v. */
  datatype Option<T> = None | Some(value: T)

  /**
   * A subtree's map is its left map, overridden by its right map, overridden
   * by its own pair: (left + right)[k := v].  The lemmas below push an update
   * or a removal made in one subtree up to that whole map.
   */

  lemma UpdateBelowLeft<V>(left: map<int, V>, right: map<int, V>, k: int, v: V, key: int, val: V)
    requires key != k && key !in right
    ensures (left[key := val] + right)[k := v] == (left + right)[k := v][key := val]
  {
  }

  lemma UpdateBelowRight<V>(left: map<int, V>, right: map<int, V>, k: int, v: V, key: int, val: V)
    requires key != k
    ensures (left + right[key := val])[k := v] == (left + right)[k := v][key := val]
  {
  }

  lemma RemoveBelowLeft<V>(left: map<int, V>, right: map<int, V>, k: int, v: V, key: int)
    requires key != k && key !in right
    ensures ((left - {key}) + right)[k := v] == (left + right)[k := v] - {key}
  {
  }

  lemma RemoveBelowRight<V>(left: map<int, V>, right: map<int, V>, k: int, v: V, key: int)
    requires key != k && key !in left
    ensures (left + (right - {key}))[k := v] == (left + right)[k := v] - {key}
  {
  }

  /** Removing the node's own key when a child is empty leaves the other child's map. */
  lemma RemoveTop<V>(left: map<int, V>, right: map<int, V>, k: int, v: V)
    requires k !in left && k !in right
    ensures (left + right)[k := v] - {k} == left + right
    ensures left == map[] ==> left + right == right
    ensures right == map[] ==> left + right == left
  {
  }

  /**
   * Replacing the node's pair by the right subtree's pair (s, sv), which is
   * then removed from the right subtree, removes exactly k.
   */
  lemma ReplaceTop<V>(left: map<int, V>, right: map<int, V>, k: int, v: V, s: int, sv: V)
    requires k !in left && k !in right && s !in left
    requires s in right && right[s] == sv
    ensures (left + (right - {s}))[s := sv] == (left + right)[k := v] - {k}
  {
  }

  /** Rotating a node x = (k1, v1) over its right child y = (k2, v2) keeps the stored map. */
  lemma RotateMaps<V>(a: map<int, V>, b: map<int, V>, c: map<int, V>, k1: int, v1: V, k2: int, v2: V)
    requires k1 != k2 && k1 !in c && k2 !in a
    ensures (a + (b + c)[k2 := v2])[k1 := v1] == ((a + b)[k1 := v1] + c)[k2 := v2]
  {
  }

  // ----- In-order listings -----

  /** Keys listed in strictly increasing order. */
  ghost predicate StrictlyIncreasing<V>(s: seq<(int, V)>)
  {
    forall i, j :: 0 <= i < j < |s| ==> s[i].0 < s[j].0
  }

  /** The keys listed by a sequence of (key, value) pairs. */
  ghost function KeysOf<V>(s: seq<(int, V)>): set<int>
  {
    set p | p in s :: p.0
  }

  /** A listing a + [(k, v)] + b is strictly increasing exactly when both parts are and k separates them. */
  lemma IncreasingConcat<V>(a: seq<(int, V)>, k: int, v: V, b: seq<(int, V)>)
    ensures StrictlyIncreasing(a + [(k, v)] + b) <==>
      && StrictlyIncreasing(a) && StrictlyIncreasing(b)
      && (forall p :: p in a ==> p.0 < k)
      && (forall q :: q in b ==> k < q.0)
  {
    var x := (k, v);
    var s := a + [x] + b;
    var n := |a|;
    assert forall i :: 0 <= i < n ==> s[i] == a[i];
    assert s[n] == x;
    assert forall i :: 0 <= i < |b| ==> s[n + 1 + i] == b[i];
    if StrictlyIncreasing(s) {
      forall p | p in a ensures p.0 < x.0 {
        var i :| 0 <= i < n && a[i] == p;
      }
      forall q | q in b ensures x.0 < q.0 {
        var i :| 0 <= i < |b| && b[i] == q;
      }
    }
    if && StrictlyIncreasing(a) && StrictlyIncreasing(b)
       && (forall p :: p in a ==> p.0 < x.0)
       && (forall q :: q in b ==> x.0 < q.0)
    {
      forall i, j | 0 <= i < j < |s| ensures s[i].0 < s[j].0 {
        if j < n {
        } else if i > n {
          assert s[i] == b[i - n - 1] && s[j] == b[j - n - 1];
        } else {
          assert i < n ==> s[i] in a;
          assert j > n ==> s[j] == b[j - n - 1] && s[j] in b;
        }
      }
    }
  }
}
