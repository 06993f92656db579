/**
 * The `std::map<std::string, V>` registries (an object's properties and functions, the
 * class factory's creators) as association lists kept in key order, the iteration order of
 * a std::map. Keys compare as `std::string` does: lexicographically by unsigned byte.
 */
module Registries {
  import opened Options
  import opened NetTypes

  datatype Entry<V> = Entry(key: Name, value: V)

  /** `std::less<std::string>`. */
  predicate Less(a: Name, b: Name)
    decreases |a|
  {
    if |a| == 0 then |b| > 0
    else if |b| == 0 then false
    else a[0] < b[0] || (a[0] == b[0] && Less(a[1..], b[1..]))
  }

  lemma {:induction false} LessIrreflexive(a: Name)
    ensures !Less(a, a)
    decreases |a|
  {
    if |a| > 0 {
      LessIrreflexive(a[1..]);
    }
  }

  lemma {:induction false} LessTransitive(a: Name, b: Name, c: Name)
    requires Less(a, b) && Less(b, c)
    ensures Less(a, c)
    decreases |a|
  {
    if |a| > 0 && a[0] == b[0] && b[0] == c[0] {
      LessTransitive(a[1..], b[1..], c[1..]);
    }
  }

  /** Two different names are ordered one way or the other. */
  lemma {:induction false} LessTotal(a: Name, b: Name)
    requires a != b
    ensures Less(a, b) || Less(b, a)
    decreases |a|
  {
    if |a| > 0 && |b| > 0 && a[0] == b[0] {
      assert a == [a[0]] + a[1..] && b == [b[0]] + b[1..];
      LessTotal(a[1..], b[1..]);
    }
  }

  lemma {:induction false} LessAsymmetric(a: Name, b: Name)
    requires Less(a, b)
    ensures !Less(b, a)
    decreases |a|
  {
    if |a| > 0 && |b| > 0 && a[0] == b[0] {
      LessAsymmetric(a[1..], b[1..]);
    }
  }

  /** Keys strictly increase, so each key occurs once. */
  predicate Sorted<V>(r: seq<Entry<V>>)
  {
    forall i, j {:trigger Less(r[i].key, r[j].key)} :: 0 <= i < j < |r| ==> Less(r[i].key, r[j].key)
  }

  predicate HasKey<V>(r: seq<Entry<V>>, k: Name)
  {
    exists i :: 0 <= i < |r| && r[i].key == k
  }

  /** The keys in iteration order. */
  function Keys<V>(r: seq<Entry<V>>): (ks: seq<Name>)
    ensures |ks| == |r| && forall i :: 0 <= i < |r| ==> ks[i] == r[i].key
  {
    if r == [] then [] else [r[0].key] + Keys(r[1..])
  }

  /** Scan in iteration order for the first entry named `k` (`GetProperty`, `GetFunction`). */
  function Find<V>(r: seq<Entry<V>>, k: Name): (o: Option<V>)
    ensures o.Some? <==> HasKey(r, k)
    ensures o.Some? ==> Entry(k, o.value) in r
  {
    if r == [] then None
    else if r[0].key == k then Some(r[0].value)
    else
      assert forall i :: 1 <= i < |r| ==> r[i] == r[1..][i - 1];
      Find(r[1..], k)
  }

  /** The `for (item : map) if (item.first == name) return item.second;` scan of `GetProperty`/`GetFunction`. */
  method Lookup<V>(r: seq<Entry<V>>, k: Name) returns (o: Option<V>)
    ensures o == Find(r, k)
  {
    var i := 0;
    while i < |r|
      invariant i <= |r| && Find(r[i..], k) == Find(r, k)
    {
      assert r[i..][1..] == r[i + 1..];
      if r[i].key == k {
        return Some(r[i].value);
      }
      i := i + 1;
    }
    return None;
  }

  /** In a sorted registry the scan finds exactly the value stored under the key. */
  lemma {:induction false} FindStored<V>(r: seq<Entry<V>>, k: Name, v: V)
    requires Sorted(r) && Entry(k, v) in r
    ensures Find(r, k) == Some(v)
  {
    if r[0] != Entry(k, v) {
      var i :| 0 <= i < |r| && r[i] == Entry(k, v);
      LessIrreflexive(k);
      assert Less(r[0].key, r[i].key);
      assert r[1..][i - 1] == Entry(k, v);
      FindStored(r[1..], k, v);
    }
  }

  /** `_map[k] = v` for a key that is not present: the new entry goes to its place in key order. */
  function Insert<V>(r: seq<Entry<V>>, k: Name, v: V): (r': seq<Entry<V>>)
    ensures |r'| == |r| + 1
  {
    if r == [] then [Entry(k, v)]
    else if Less(k, r[0].key) then [Entry(k, v)] + r
    else [r[0]] + Insert(r[1..], k, v)
  }

  /** An insertion keeps every entry and adds exactly the new one. */
  lemma {:induction false} InsertEntries<V>(r: seq<Entry<V>>, k: Name, v: V)
    ensures Entry(k, v) in Insert(r, k, v)
    ensures forall i :: 0 <= i < |r| ==> r[i] in Insert(r, k, v)
    ensures forall i :: 0 <= i < |r| + 1 ==> Insert(r, k, v)[i] in r || Insert(r, k, v)[i] == Entry(k, v)
  {
    if r != [] && !Less(k, r[0].key) {
      var tail := Insert(r[1..], k, v);
      InsertEntries(r[1..], k, v);
      assert Insert(r, k, v) == [r[0]] + tail;
      assert forall i :: 1 <= i < |r| ==> r[i] == r[1..][i - 1];
      assert forall i :: 1 <= i < |r| + 1 ==> Insert(r, k, v)[i] == tail[i - 1];
    }
  }

  lemma {:induction false} InsertSorted<V>(r: seq<Entry<V>>, k: Name, v: V)
    requires Sorted(r) && !HasKey(r, k)
    ensures Sorted(Insert(r, k, v))
  {
    if r == [] {
    } else if Less(k, r[0].key) {
      forall j | 0 < j < |r| ensures Less(k, r[j].key) {
        LessTransitive(k, r[0].key, r[j].key);
      }
    } else {
      assert r[0].key != k;
      LessTotal(k, r[0].key);
      assert forall i :: 0 <= i < |r[1..]| ==> r[1..][i] == r[i + 1];
      var tail := Insert(r[1..], k, v);
      InsertSorted(r[1..], k, v);
      InsertEntries(r[1..], k, v);
      forall j | 0 <= j < |tail| ensures Less(r[0].key, tail[j].key) {
        if tail[j] != Entry(k, v) {
          var i :| 0 <= i < |r[1..]| && r[1..][i] == tail[j];
          assert r[i + 1] == tail[j];
        }
      }
      SortedCons(r[0], tail);
    }
  }

  /** An entry ordered before every key of a sorted registry can go in front of it. */
  lemma SortedCons<V>(x: Entry<V>, r: seq<Entry<V>>)
    requires Sorted(r) && forall j :: 0 <= j < |r| ==> Less(x.key, r[j].key)
    ensures Sorted([x] + r)
  {
    var r' := [x] + r;
    forall i, j | 0 <= i < j < |r'| ensures Less(r'[i].key, r'[j].key) {
      assert r'[j] == r[j - 1];
      if i > 0 {
        assert r'[i] == r[i - 1];
      }
    }
  }

  /** After an insertion the scan finds the new value under its key and the old values under every other key. */
  lemma {:induction false} FindInsert<V>(r: seq<Entry<V>>, k: Name, v: V, k': Name)
    requires Sorted(r) && !HasKey(r, k)
    ensures Find(Insert(r, k, v), k') == if k' == k then Some(v) else Find(r, k')
  {
    if r != [] && !Less(k, r[0].key) {
      assert forall i :: 0 <= i < |r[1..]| ==> r[1..][i] == r[i + 1];
      FindInsert(r[1..], k, v, k');
    }
  }

  /**
   * `RegisterProperty` / `RegisterFunction` / `RegisterClass`: refuses a name that is already
   * registered and leaves the registry as it was; otherwise adds the entry and succeeds.
   */
  function Register<V>(r: seq<Entry<V>>, k: Name, v: V): (res: (bool, seq<Entry<V>>))
    requires Sorted(r)
    ensures res.0 <==> Find(r, k).None?
    ensures !res.0 ==> res.1 == r
    ensures Sorted(res.1)
    ensures res.0 ==> |res.1| == |r| + 1
    ensures forall i :: 0 <= i < |res.1| ==> res.1[i] in r || res.1[i] == Entry(k, v)
  {
    if Find(r, k).Some? then (false, r)
    else
      InsertSorted(r, k, v);
      InsertEntries(r, k, v);
      (true, Insert(r, k, v))
  }

  /** What a lookup sees after a registration. */
  lemma FindRegister<V>(r: seq<Entry<V>>, k: Name, v: V, k': Name)
    requires Sorted(r)
    ensures var (ok, r') := Register(r, k, v);
      Find(r', k') == if ok && k' == k then Some(v) else Find(r, k')
  {
    if Find(r, k).None? {
      FindInsert(r, k, v, k');
    }
  }

  /** Registering the same name twice: the second registration fails and changes nothing. */
  lemma RegisterTwice<V>(r: seq<Entry<V>>, k: Name, v: V, w: V)
    requires Sorted(r)
    ensures var r1 := Register(r, k, v).1;
      Register(r1, k, w) == (false, r1) && Find(r1, k).Some?
  {
    FindRegister(r, k, v, k);
  }

  /** The stored object behind an existing key is replaced (a property receiving a decoded value). */
  function Update<V>(r: seq<Entry<V>>, k: Name, v: V): (r': seq<Entry<V>>)
    ensures Keys(r') == Keys(r)
    ensures |r'| == |r| && forall i :: 0 <= i < |r| ==> r'[i] == if r[i].key == k then Entry(k, v) else r[i]
  {
    if r == [] then []
    else [if r[0].key == k then Entry(k, v) else r[0]] + Update(r[1..], k, v)
  }

  lemma {:induction false} UpdateSorted<V>(r: seq<Entry<V>>, k: Name, v: V)
    requires Sorted(r)
    ensures Sorted(Update(r, k, v))
  {
    var r' := Update(r, k, v);
    assert Keys(r') == Keys(r);
    forall i, j | 0 <= i < j < |r'| ensures Less(r'[i].key, r'[j].key) {
      assert r'[i].key == Keys(r')[i] == Keys(r)[i] == r[i].key;
      assert r'[j].key == Keys(r')[j] == Keys(r)[j] == r[j].key;
    }
  }

  lemma {:induction false} FindUpdate<V>(r: seq<Entry<V>>, k: Name, v: V, k': Name)
    ensures Find(Update(r, k, v), k') == if k' == k && HasKey(r, k) then Some(v) else Find(r, k')
  {
    if r != [] {
      assert HasKey(r, k) <==> r[0].key == k || HasKey(r[1..], k) by {
        if HasKey(r, k) && r[0].key != k {
          var i :| 0 <= i < |r| && r[i].key == k;
          assert r[1..][i - 1].key == k;
        }
        if HasKey(r[1..], k) {
          var i :| 0 <= i < |r[1..]| && r[1..][i].key == k;
          assert r[i + 1].key == k;
        }
      }
      FindUpdate(r[1..], k, v, k');
    }
  }
}
