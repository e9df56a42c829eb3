/** Python's insertion-ordered `dict`, as a sequence of entries. Assigning to a
    key that is already present replaces its value where it stands; assigning
    to a new key appends it at the end. */
module OrderedDicts {
  import opened Wrappers

  datatype Entry<K, V> = Entry(key: K, value: V)

  type Dict<K, V> = seq<Entry<K, V>>

  /** The keys in iteration order. */
  function Keys<K, V>(d: Dict<K, V>): (ks: seq<K>)
    ensures |ks| == |d|
  {
    seq(|d|, i requires 0 <= i < |d| => d[i].key)
  }

  ghost predicate DistinctKeys<K, V>(d: Dict<K, V>)
  {
    forall i, j :: 0 <= i < j < |d| ==> d[i].key != d[j].key
  }

  /** `d.get(k)`: the value of the first entry with key `k`. */
  function Get<K(==), V>(d: Dict<K, V>, k: K): (r: Option<V>)
    ensures r.Some? <==> k in Keys(d)
    ensures r.Some? ==> exists i :: 0 <= i < |d| && d[i] == Entry(k, r.value) && forall j :: 0 <= j < i ==> d[j].key != k
  {
    if |d| == 0 then None
    else
      assert Keys(d) == [d[0].key] + Keys(d[1..]);
      if d[0].key == k then Some(d[0].value)
      else
        assert forall i :: 1 <= i < |d| ==> d[1..][i - 1] == d[i];
        Get(d[1..], k)
  }

  /** In a dictionary with distinct keys the entry holding `k` is the one `Get` finds. */
  lemma {:induction false} GetAt<K, V>(d: Dict<K, V>, i: nat)
    requires DistinctKeys(d) && i < |d|
    ensures Get(d, d[i].key) == Some(d[i].value)
  {
    if i > 0 {
      assert d[0].key != d[i].key;
      GetAt(d[1..], i - 1);
    }
  }

  /** `d[k] = v`: the keys stay where they are, and a new key goes last. */
  function Assign<K(==), V>(d: Dict<K, V>, k: K, v: V): (r: Dict<K, V>)
    ensures Keys(r) == if k in Keys(d) then Keys(d) else Keys(d) + [k]
    ensures k !in Keys(d) ==> r == d + [Entry(k, v)]
  {
    if |d| == 0 then [Entry(k, v)]
    else
      assert Keys(d) == [d[0].key] + Keys(d[1..]);
      if d[0].key == k then
        var r := [Entry(k, v)] + d[1..];
        assert Keys(r) == [k] + Keys(d[1..]);
        r
      else
        var rest := Assign(d[1..], k, v);
        var r := [d[0]] + rest;
        assert Keys(r) == [d[0].key] + Keys(rest);
        assert d == [d[0]] + d[1..];
        r
  }

  /** After `d[k] = v`, `k` holds `v` and every other key holds what it held. */
  lemma {:induction false} AssignGet<K, V>(d: Dict<K, V>, k: K, v: V, k': K)
    ensures Get(Assign(d, k, v), k') == if k' == k then Some(v) else Get(d, k')
  {
    if |d| > 0 && d[0].key != k {
      var rest := Assign(d[1..], k, v);
      AssignGet(d[1..], k, v, k');
      assert ([d[0]] + rest)[1..] == rest;
    }
  }

  /** Assignment never introduces a second entry for a key. */
  lemma AssignDistinct<K, V>(d: Dict<K, V>, k: K, v: V)
    requires DistinctKeys(d)
    ensures DistinctKeys(Assign(d, k, v))
  {
    var r := Assign(d, k, v);
    forall i, j | 0 <= i < j < |r|
      ensures r[i].key != r[j].key
    {
      assert Keys(r)[i] == r[i].key && Keys(r)[j] == r[j].key;
      if j < |d| {
        assert Keys(d)[i] == d[i].key && Keys(d)[j] == d[j].key;
      } else {
        assert Keys(d)[i] == d[i].key;
      }
    }
  }

  /** The dictionary built by assigning `entries` in order, starting from `{}`. */
  function AssignAll<K(==), V>(entries: seq<Entry<K, V>>): (d: Dict<K, V>)
  {
    if |entries| == 0 then []
    else
      var n := |entries| - 1;
      Assign(AssignAll(entries[..n]), entries[n].key, entries[n].value)
  }

  /** The keys in order of first occurrence, each once. */
  function Dedup<K(==)>(ks: seq<K>): (unique: seq<K>)
  {
    if |ks| == 0 then []
    else
      var n := |ks| - 1;
      var seen := Dedup(ks[..n]);
      if ks[n] in seen then seen else seen + [ks[n]]
  }

  /** The value of the last of `entries` with key `k`. */
  function LastValue<K(==), V>(entries: seq<Entry<K, V>>, k: K): (r: Option<V>)
    ensures r.Some? ==> exists i :: 0 <= i < |entries| && entries[i] == Entry(k, r.value)
  {
    if |entries| == 0 then None
    else
      var n := |entries| - 1;
      if entries[n].key == k then Some(entries[n].value) else LastValue(entries[..n], k)
  }

  /** Assigning keys one after another keeps each key once, at the place of its
      first assignment. */
  lemma {:induction false} AssignAllKeys<K, V>(entries: seq<Entry<K, V>>)
    ensures DistinctKeys(AssignAll(entries))
    ensures Keys(AssignAll(entries)) == Dedup(Keys(entries))
  {
    if |entries| > 0 {
      var n := |entries| - 1;
      var d := AssignAll(entries[..n]);
      AssignAllKeys(entries[..n]);
      var ks := Keys(entries);
      assert Keys(entries[..n]) == ks[..n];
      assert ks[n] == entries[n].key;
      assert Keys(d) == Dedup(ks[..n]);
      AssignDistinct(d, entries[n].key, entries[n].value);
    }
  }

  /** Assigning keys one after another: the later assignment to a key wins. */
  lemma {:induction false} AssignAllGet<K, V>(entries: seq<Entry<K, V>>, k: K)
    ensures Get(AssignAll(entries), k) == LastValue(entries, k)
  {
    if |entries| > 0 {
      var n := |entries| - 1;
      AssignAllGet(entries[..n], k);
      AssignGet(AssignAll(entries[..n]), entries[n].key, entries[n].value, k);
    }
  }

  /** `LastValue` finds the entry at `i` when no later entry has the same key. */
  lemma {:induction false} LastValueAt<K, V>(entries: seq<Entry<K, V>>, i: nat)
    requires i < |entries|
    requires forall j :: i < j < |entries| ==> entries[j].key != entries[i].key
    ensures LastValue(entries, entries[i].key) == Some(entries[i].value)
  {
    var n := |entries| - 1;
    if i < n {
      LastValueAt(entries[..n], i);
    }
  }

  /** Removing repetitions keeps exactly the same keys. */
  lemma {:induction false} DedupMembers<K>(ks: seq<K>)
    ensures forall k :: k in Dedup(ks) <==> k in ks
  {
    if |ks| > 0 {
      var n := |ks| - 1;
      DedupMembers(ks[..n]);
      assert ks == ks[..n] + [ks[n]];
    }
  }
}
