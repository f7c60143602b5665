/**
  Python dictionaries keyed by strings, as the source builds them: an
  association list that keeps insertion order, where assigning to an
  existing key replaces its value in place and assigning to a new key
  appends it.
 */
module PyDict {

  type Dict<V> = seq<(string, V)>

  /** The keys of `d` (`d.keys()`). */
  function Keys<V>(d: Dict<V>): set<string>
    decreases |d|
  {
    if d == [] then {} else {d[0].0} + Keys(d[1..])
  }

  /** A key is a key exactly when some entry carries it. */
  lemma {:induction false} KeysAt<V>(d: Dict<V>, k: string)
    ensures k in Keys(d) <==> exists i :: 0 <= i < |d| && d[i].0 == k
    decreases |d|
  {
    if d != [] {
      KeysAt(d[1..], k);
      if k in Keys(d[1..]) {
        var i :| 0 <= i < |d| - 1 && d[1..][i].0 == k;
        assert d[i + 1].0 == k;
      }
      if exists i :: 0 <= i < |d| && d[i].0 == k {
        var i :| 0 <= i < |d| && d[i].0 == k;
        if i > 0 { assert d[1..][i - 1].0 == k; }
      }
    }
  }

  /** `d[k]`, defined only when `k` is a key: the value of its first entry. */
  function Get<V>(d: Dict<V>, k: string): V
    requires k in Keys(d)
    decreases |d|
  {
    if d[0].0 == k then d[0].1 else Get(d[1..], k)
  }

  /** `d[k] = v`: replaces the value of an existing key where it stands, or appends a new key. */
  function Assign<V>(d: Dict<V>, k: string, v: V): (r: Dict<V>)
    ensures Keys(r) == Keys(d) + {k}
    ensures Get(r, k) == v
    ensures forall k' :: k' in Keys(d) && k' != k ==> Get(r, k') == Get(d, k')
    decreases |d|
  {
    if d == [] then [(k, v)]
    else if d[0].0 == k then
      var r := [(k, v)] + d[1..];
      assert r[1..] == d[1..];
      r
    else
      var rest := Assign(d[1..], k, v);
      var r := [d[0]] + rest;
      assert r[1..] == rest;
      r
  }

  /**
    Assignment keeps the order of the keys: a new key is appended, and an
    existing key keeps its position, where only its value changes.
   */
  lemma AssignInPlace<V>(d: Dict<V>, k: string, v: V)
    ensures k !in Keys(d) ==> Assign(d, k, v) == d + [(k, v)]
    ensures k in Keys(d) ==>
      exists i :: 0 <= i < |d| && d[i].0 == k && (forall j :: 0 <= j < i ==> d[j].0 != k) && Assign(d, k, v) == d[i := (k, v)]
  {
    if k in Keys(d) {
      var i := AssignExisting(d, k, v);
    } else {
      AssignNew(d, k, v);
    }
  }

  lemma {:induction false} AssignNew<V>(d: Dict<V>, k: string, v: V)
    requires k !in Keys(d)
    ensures Assign(d, k, v) == d + [(k, v)]
    decreases |d|
  {
    if d != [] {
      AssignNew(d[1..], k, v);
      assert d + [(k, v)] == [d[0]] + (d[1..] + [(k, v)]);
    }
  }

  lemma {:induction false} AssignExisting<V>(d: Dict<V>, k: string, v: V) returns (i: nat)
    requires k in Keys(d)
    ensures i < |d| && d[i].0 == k && (forall j :: 0 <= j < i ==> d[j].0 != k) && Assign(d, k, v) == d[i := (k, v)]
    decreases |d|
  {
    if d[0].0 == k {
      i := 0;
      assert Assign(d, k, v) == d[0 := (k, v)];
    } else {
      var i' := AssignExisting(d[1..], k, v);
      i := i' + 1;
      assert Assign(d, k, v) == [d[0]] + d[1..][i' := (k, v)];
      assert Assign(d, k, v) == d[i := (k, v)];
      forall j | 0 < j < i ensures d[j].0 != k {
        assert d[1..][j - 1] == d[j];
      }
    }
  }

  /** `d.pop(k)` when `k` is present, and `d` unchanged when it is not. */
  function Remove<V>(d: Dict<V>, k: string): (r: Dict<V>)
    ensures Keys(r) == Keys(d) - {k}
    ensures forall k' :: k' in Keys(r) ==> Get(r, k') == Get(d, k')
    decreases |d|
  {
    if d == [] then []
    else
      var rest := Remove(d[1..], k);
      if d[0].0 == k then rest
      else
        var r := [d[0]] + rest;
        assert r[1..] == rest;
        r
  }

  /** Removing a key keeps every entry with another key. */
  lemma {:induction false} RemoveKeeps<V>(d: Dict<V>, k: string, i: nat)
    requires i < |d| && d[i].0 != k
    ensures d[i] in Remove(d, k)
    decreases |d|
  {
    if i > 0 {
      assert d[1..][i - 1] == d[i];
      RemoveKeeps(d[1..], k, i - 1);
    }
  }

  /** Removing an absent key changes nothing, so `if k in d: d.pop(k)` is `Remove`. */
  lemma {:induction false} RemoveAbsent<V>(d: Dict<V>, k: string)
    requires k !in Keys(d)
    ensures Remove(d, k) == d
    decreases |d|
  {
    if d != [] {
      RemoveAbsent(d[1..], k);
    }
  }
}
