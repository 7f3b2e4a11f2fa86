/** In-order sequences of (key, value) entries, the abstract contents of a binary search tree. */
module Entries {

  /** Keys strictly increase along the sequence (so no key occurs twice). */
  ghost predicate Sorted<V>(s: seq<(int, V)>)
  {
    forall i, j :: 0 <= i < j < |s| ==> s[i].0 < s[j].0
  }

  /** Every key of s is below k. */
  ghost predicate AllBelow<V>(s: seq<(int, V)>, k: int)
  {
    forall i :: 0 <= i < |s| ==> s[i].0 < k
  }

  /** Every key of s is above k. */
  ghost predicate AllAbove<V>(s: seq<(int, V)>, k: int)
  {
    forall i :: 0 <= i < |s| ==> k < s[i].0
  }

  /** The map from keys to values that the entries describe (a later entry wins a clash). */
  ghost function ToMap<V>(s: seq<(int, V)>): map<int, V>
  {
    if s == [] then map[] else ToMap(s[..|s| - 1])[s[|s| - 1].0 := s[|s| - 1].1]
  }

  /** Some entry of s carries key k. */
  ghost predicate HasKey<V>(s: seq<(int, V)>, k: int)
  {
    exists i :: 0 <= i < |s| && s[i].0 == k
  }

  lemma {:induction false} ToMapKeys<V>(s: seq<(int, V)>, k: int)
    ensures k in ToMap(s) <==> HasKey(s, k)
  {
    if s != [] {
      var s' := s[..|s| - 1];
      ToMapKeys(s', k);
      if HasKey(s', k) {
        var i :| 0 <= i < |s'| && s'[i].0 == k;
        assert s[i] == s'[i];
      }
      if HasKey(s, k) && s[|s| - 1].0 != k {
        var i :| 0 <= i < |s| && s[i].0 == k;
        assert s'[i] == s[i];
      }
    }
  }

  lemma {:induction false} ToMapAppend<V>(a: seq<(int, V)>, b: seq<(int, V)>)
    ensures ToMap(a + b) == ToMap(a) + ToMap(b)
  {
    if b == [] {
      assert a + b == a;
    } else {
      var b' := b[..|b| - 1];
      assert (a + b)[..|a + b| - 1] == a + b';
      ToMapAppend(a, b');
    }
  }

  /** A key that no entry carries is not in the map. */
  lemma {:induction false} MissingKey<V>(s: seq<(int, V)>, k: int)
    requires forall i :: 0 <= i < |s| ==> s[i].0 != k
    ensures k !in ToMap(s)
  {
    ToMapKeys(s, k);
  }

  lemma {:induction false} InsertBetweenSorted<V>(x: seq<(int, V)>, y: seq<(int, V)>, k: int, v: V)
    requires Sorted(x + y) && AllBelow(x, k) && AllAbove(y, k)
    ensures Sorted(x + [(k, v)] + y)
  {
    var s := x + [(k, v)] + y;
    forall i, j | 0 <= i < j < |s| ensures s[i].0 < s[j].0 {
      if j < |x| {
        assert s[i] == (x + y)[i] && s[j] == (x + y)[j];
      } else if i > |x| {
        assert s[i] == (x + y)[i - 1] && s[j] == (x + y)[j - 1];
      } else if i < |x| && j > |x| {
        assert s[i] == x[i] && s[j] == y[j - |x| - 1];
      } else if i == |x| {
        assert s[j] == y[j - |x| - 1];
      } else {
        assert s[i] == x[i];
      }
    }
  }

  lemma {:induction false} ToMapMiddle<V>(x: seq<(int, V)>, y: seq<(int, V)>, k: int, v: V)
    requires k !in ToMap(y)
    ensures ToMap(x + [(k, v)] + y) == ToMap(x + y)[k := v]
  {
    ToMapAppend(x + [(k, v)], y);
    ToMapAppend(x, [(k, v)]);
    ToMapAppend(x, y);
    assert [(k, v)][..0] == [];
  }

  /** Inserting an entry for a new key k between the entries below k and those above it. */
  lemma {:induction false} InsertBetween<V>(x: seq<(int, V)>, y: seq<(int, V)>, k: int, v: V)
    requires Sorted(x + y) && AllBelow(x, k) && AllAbove(y, k)
    ensures Sorted(x + [(k, v)] + y)
    ensures ToMap(x + [(k, v)] + y) == ToMap(x + y)[k := v]
  {
    InsertBetweenSorted(x, y, k, v);
    MissingKey(y, k);
    ToMapMiddle(x, y, k, v);
  }

  /** The neighbours of an entry in a sorted sequence lie below and above its key. */
  lemma {:induction false} SplitBounds<V>(x: seq<(int, V)>, y: seq<(int, V)>, k: int, v: V)
    requires Sorted(x + [(k, v)] + y)
    ensures AllBelow(x, k) && AllAbove(y, k) && Sorted(x + y)
  {
    var s := x + [(k, v)] + y;
    assert s[|x|] == (k, v);
    forall i | 0 <= i < |x| ensures x[i].0 < k {
      assert s[i] == x[i];
    }
    forall i | 0 <= i < |y| ensures k < y[i].0 {
      assert s[|x| + 1 + i] == y[i];
    }
    var t := x + y;
    forall i, j | 0 <= i < j < |t| ensures t[i].0 < t[j].0 {
      var i' := if i < |x| then i else i + 1;
      var j' := if j < |x| then j else j + 1;
      assert t[i] == s[i'] && t[j] == s[j'];
    }
  }

  /** Deleting the entry of key k from a sorted sequence. */
  lemma {:induction false} RemoveBetween<V>(x: seq<(int, V)>, y: seq<(int, V)>, k: int, v: V)
    requires Sorted(x + [(k, v)] + y)
    ensures Sorted(x + y)
    ensures ToMap(x + y) == ToMap(x + [(k, v)] + y) - {k}
  {
    SplitBounds(x, y, k, v);
    MissingKey(x, k);
    MissingKey(y, k);
    ToMapAppend(x, y);
    ToMapMiddle(x, y, k, v);
  }

  /** Replacing the value of the entry of key k. */
  lemma {:induction false} Overwrite<V>(x: seq<(int, V)>, y: seq<(int, V)>, k: int, v: V, v': V)
    requires Sorted(x + [(k, v)] + y)
    ensures Sorted(x + [(k, v')] + y)
    ensures ToMap(x + [(k, v')] + y) == ToMap(x + [(k, v)] + y)[k := v']
  {
    SplitBounds(x, y, k, v);
    InsertBetween(x, y, k, v);
    InsertBetween(x, y, k, v');
  }

  /** In a sorted sequence, the entry just before the entry of key k2 holds the largest key below k2. */
  lemma {:induction false} LargestBelow<V>(s: seq<(int, V)>, x: seq<(int, V)>, y: seq<(int, V)>, k1: int, v1: V, k2: int)
    requires s == x + [(k1, v1)] + y && Sorted(s) && y != [] && y[0].0 == k2
    ensures k1 < k2 && k1 in ToMap(s) && ToMap(s)[k1] == v1
    ensures forall k | k in ToMap(s) && k < k2 :: k <= k1
  {
    SplitBounds(x, y, k1, v1);
    MissingKey(y, k1);
    ToMapMiddle(x, y, k1, v1);
    assert s[|x|] == (k1, v1) && s[|x| + 1] == y[0];
    forall k | k in ToMap(s) && k < k2
      ensures k <= k1
    {
      ToMapKeys(s, k);
      var j :| 0 <= j < |s| && s[j].0 == k;
      if j < |x| {
        assert s[j].0 < s[|x|].0;
      }
    }
  }

  /** Regrouping the parts of a sequence around two adjacent entries. */
  lemma {:induction false} Regroup<T>(a: seq<T>, b: seq<T>, l: seq<T>, m: seq<T>, n: seq<T>, y: seq<T>)
    ensures (a + (b + (l + m))) + n + y == (a + b + l) + m + (n + y)
  {
  }
}
