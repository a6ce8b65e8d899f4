/** The response cache of `performSearch` (app.js:12, 75-90): a map from `query-page` keys to
    ranked, limited result lists that remembers insertion order, holding at most 20 entries
    and evicting the oldest first. The map is a sequence of entries in insertion order. */
module Cache {
  import opened Text
  import opened Results

  const MaxEntries: nat := 20

  datatype Entry = Entry(key: string, results: seq<Ranked>)

  /** `${query}-${page}`: the query, a dash, and the page in decimal; for a page of at
      least 0 no further dash follows. */
  function CacheKey(query: string, page: int): (key: string)
    ensures query + "-" <= key
    ensures page >= 0 ==> '-' !in key[|query| + 1..]
  {
    query + "-" + IntToString(page)
  }

  predicate HasKey(entries: seq<Entry>, key: string) {
    exists i | 0 <= i < |entries| :: entries[i].key == key
  }

  /** No key occurs twice, as in a `Map`. */
  predicate DistinctKeys(entries: seq<Entry>) {
    forall i, j :: 0 <= i < j < |entries| ==> entries[i].key != entries[j].key
  }

  predicate Valid(entries: seq<Entry>) {
    |entries| <= MaxEntries && DistinctKeys(entries)
  }

  /** `cache.has(key) ? cache.get(key) : undefined` */
  function Lookup(entries: seq<Entry>, key: string): (r: Option<seq<Ranked>>)
    ensures r.None? <==> !HasKey(entries, key)
    ensures r.Some? ==> Entry(key, r.value) in entries
  {
    if entries == [] then None
    else if entries[0].key == key then Some(entries[0].results)
    else
      var r := Lookup(entries[1..], key);
      assert HasKey(entries, key) <==> HasKey(entries[1..], key) by {
        if HasKey(entries, key) {
          var i :| 0 <= i < |entries| && entries[i].key == key;
          assert entries[1..][i - 1].key == key;
        }
        if HasKey(entries[1..], key) {
          var i :| 0 <= i < |entries[1..]| && entries[1..][i].key == key;
          assert entries[i + 1].key == key;
        }
      }
      r
  }

  /** `cache.set(key, value)`: an existing key keeps its place and takes the new value; a
      new key goes last. */
  function Set(entries: seq<Entry>, key: string, value: seq<Ranked>): (r: seq<Entry>)
    ensures |r| == if HasKey(entries, key) then |entries| else |entries| + 1
    ensures HasKey(r, key)
  {
    if entries == [] then
      var r := [Entry(key, value)];
      assert r[0].key == key;
      r
    else if entries[0].key == key then
      var r := [Entry(key, value)] + entries[1..];
      assert r[0].key == key;
      r
    else
      var r := [entries[0]] + Set(entries[1..], key, value);
      assert HasKey(entries, key) <==> HasKey(entries[1..], key) by {
        if HasKey(entries, key) {
          var i :| 0 <= i < |entries| && entries[i].key == key;
          assert entries[1..][i - 1].key == key;
        }
        if HasKey(entries[1..], key) {
          var i :| 0 <= i < |entries[1..]| && entries[1..][i].key == key;
          assert entries[i + 1].key == key;
        }
      }
      var i :| 0 <= i < |r[1..]| && r[1..][i].key == key;
      assert r[i + 1].key == key;
      r
  }

  /** The cache after storing `value` under `key`: set, then drop the oldest entry when
      the size passes 20. */
  function Inserted(entries: seq<Entry>, key: string, value: seq<Ranked>): (r: seq<Entry>)
    ensures |entries| <= MaxEntries ==> 1 <= |r| <= MaxEntries
  {
    var s := Set(entries, key, value);
    if |s| > MaxEntries then s[1..] else s
  }

  // ---------------------------------------------------------------------------
  // What setting a key does

  /** The set key maps to the new value; every other key keeps its own. */
  lemma {:induction false} SetLookup(entries: seq<Entry>, key: string, value: seq<Ranked>, other: string)
    ensures Lookup(Set(entries, key, value), key) == Some(value)
    ensures other != key ==> Lookup(Set(entries, key, value), other) == Lookup(entries, other)
  {
    if entries != [] && entries[0].key != key {
      SetLookup(entries[1..], key, value, other);
      var r := Set(entries, key, value);
      assert r[1..] == Set(entries[1..], key, value);
    }
  }

  /** The keys after a set are the old keys, plus the new one at the end. */
  lemma {:induction false} SetKeys(entries: seq<Entry>, key: string, value: seq<Ranked>)
    ensures forall k :: HasKey(Set(entries, key, value), k) <==> HasKey(entries, k) || k == key
    ensures !HasKey(entries, key) ==> Set(entries, key, value) == entries + [Entry(key, value)]
    ensures HasKey(entries, key) ==> forall i :: 0 <= i < |entries| ==> Set(entries, key, value)[i].key == entries[i].key
  {
    var r := Set(entries, key, value);
    forall k ensures HasKey(r, k) <==> HasKey(entries, k) || k == key {
      SetLookup(entries, key, value, k);
    }
    if entries != [] && entries[0].key != key {
      SetKeys(entries[1..], key, value);
      assert r[1..] == Set(entries[1..], key, value);
      if !HasKey(entries, key) {
        assert entries == [entries[0]] + entries[1..];
      } else {
        assert HasKey(entries[1..], key) by {
          var i :| 0 <= i < |entries| && entries[i].key == key;
          assert entries[1..][i - 1].key == key;
        }
        forall i | 0 <= i < |entries| ensures r[i].key == entries[i].key {
          if i > 0 {
            assert r[i] == r[1..][i - 1];
          }
        }
      }
    } else if entries != [] {
      assert HasKey(entries, key) by {
        assert entries[0].key == key;
      }
    }
  }

  lemma SetDistinct(entries: seq<Entry>, key: string, value: seq<Ranked>)
    requires DistinctKeys(entries)
    ensures DistinctKeys(Set(entries, key, value))
  {
    SetKeys(entries, key, value);
    var r := Set(entries, key, value);
    if !HasKey(entries, key) {
      forall i, j | 0 <= i < j < |r| ensures r[i].key != r[j].key {
        if j == |entries| {
          assert r[i] == entries[i];
        } else {
          assert r[i] == entries[i] && r[j] == entries[j];
        }
      }
    }
  }

  // ---------------------------------------------------------------------------
  // What storing a response does

  /** Storing keeps the cache within 20 entries and its keys distinct. */
  lemma InsertedValid(entries: seq<Entry>, key: string, value: seq<Ranked>)
    requires Valid(entries)
    ensures Valid(Inserted(entries, key, value))
  {
    SetDistinct(entries, key, value);
  }

  /** A response just stored is found under its key. */
  lemma InsertedFinds(entries: seq<Entry>, key: string, value: seq<Ranked>)
    requires |entries| <= MaxEntries
    ensures Lookup(Inserted(entries, key, value), key) == Some(value)
  {
    SetLookup(entries, key, value, key);
    SetKeys(entries, key, value);
    var s := Set(entries, key, value);
    if |s| > MaxEntries {
      assert s == entries + [Entry(key, value)];
      assert s[0].key != key;
    }
  }

  /** Storing a new key in a full cache evicts exactly the oldest entry (a `Map` iterates
      its keys in insertion order) and appends the new one. */
  lemma InsertedEvictsOldest(entries: seq<Entry>, key: string, value: seq<Ranked>)
    requires |entries| == MaxEntries && !HasKey(entries, key)
    ensures Inserted(entries, key, value) == entries[1..] + [Entry(key, value)]
  {
    SetKeys(entries, key, value);
  }

  /** Storing changes no other key's response, except the oldest key's when it is evicted. */
  lemma InsertedKeepsOthers(entries: seq<Entry>, key: string, value: seq<Ranked>, other: string)
    requires Valid(entries) && other != key
    requires !(|entries| == MaxEntries && !HasKey(entries, key) && entries[0].key == other)
    ensures Lookup(Inserted(entries, key, value), other) == Lookup(entries, other)
  {
    SetLookup(entries, key, value, other);
    SetKeys(entries, key, value);
    var s := Set(entries, key, value);
    if |s| > MaxEntries {
      assert s == entries + [Entry(key, value)];
      assert s[0].key != other;
    }
  }

  /** The oldest key of a full cache is gone after a new key is stored. */
  lemma InsertedForgetsOldest(entries: seq<Entry>, key: string, value: seq<Ranked>)
    requires Valid(entries) && |entries| == MaxEntries && !HasKey(entries, key)
    ensures Lookup(Inserted(entries, key, value), entries[0].key) == None
  {
    InsertedEvictsOldest(entries, key, value);
    var r := Inserted(entries, key, value);
    forall i | 0 <= i < |r| ensures r[i].key != entries[0].key {
      if i < |r| - 1 {
        assert r[i] == entries[i + 1];
      }
    }
  }

  // ---------------------------------------------------------------------------
  // Keys

  /** Text of the form `a-b` with no `-` in `b` splits at its last `-` in one way only. */
  lemma DashSplitsOnce(a: string, b: string, c: string, d: string)
    requires '-' !in b && '-' !in d
    requires a + "-" + b == c + "-" + d
    ensures |b| == |d|
  {
    var s := a + "-" + b;
    assert s[|s| - |b| - 1] == '-';
    assert s[|s| - |d| - 1] == '-';
    assert forall i :: 0 <= i < |d| ==> s[|s| - |d| + i] == d[i];
    assert forall i :: 0 <= i < |b| ==> s[|s| - |b| + i] == b[i];
  }

  /** Different searches with non-negative pages have different keys: the page's digits
      follow the last `-` of the key. */
  lemma CacheKeyInjective(q1: string, p1: int, q2: string, p2: int)
    requires p1 >= 0 && p2 >= 0
    requires CacheKey(q1, p1) == CacheKey(q2, p2)
    ensures q1 == q2 && p1 == p2
  {
    var d1, d2 := IntToString(p1), IntToString(p2);
    var s := CacheKey(q1, p1);
    assert s == q1 + "-" + d1 && s == q2 + "-" + d2;
    DashSplitsOnce(q1, d1, q2, d2);
    assert d1 == s[|s| - |d1|..] == d2;
    assert q1 == s[..|q1|] == q2;
    NatToStringInjective(p1, p2);
  }

  /** With a negative page the keys collide: the search for `a` on page -1 and the search
      for `a-` on page 1 share the key `a--1`. */
  lemma NegativePageKeysCollide()
    ensures CacheKey("a", -1) == CacheKey("a-", 1)
  {
  }
}
