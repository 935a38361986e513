/**
 `std::map<string, V>` and `std::multimap<string, V>` as their entries in iteration order, so
 that code whose result depends on that order can be followed exactly.
 */
module OrderedMaps {
  import opened Options

  type Entries<V> = seq<(string, V)>

  // ---- the order of keys

  predicate Less(a: string, b: string) {
    if b == "" then false
    else if a == "" then true
    else a[0] < b[0] || (a[0] == b[0] && Less(a[1..], b[1..]))
  }

  /** The order of `std::string`: a proper prefix, or smaller at the first place where they differ. */
  lemma {:induction false} LessIs(a: string, b: string)
    ensures Less(a, b) <==>
            || (|a| < |b| && a == b[..|a|])
            || exists i: nat :: i < |a| && i < |b| && a[..i] == b[..i] && a[i] < b[i]
  {
    if a != "" && b != "" {
      LessIs(a[1..], b[1..]);
      if a[0] == b[0] {
        SameStart(a, b, |a|);
        forall i: nat | i < |a| && i < |b| ensures a[..i] == b[..i] <==> i == 0 || a[1..][..i - 1] == b[1..][..i - 1] {
          if i > 0 { SameStart(a, b, i); }
        }
        if i: nat :| i < |a[1..]| && i < |b[1..]| && a[1..][..i] == b[1..][..i] && a[1..][i] < b[1..][i] {
          assert a[..i + 1] == b[..i + 1] && a[i + 1] < b[i + 1];
        }
        if i: nat :| i < |a| && i < |b| && a[..i] == b[..i] && a[i] < b[i] {
          assert i > 0 && a[1..][i - 1] < b[1..][i - 1];
        }
      } else if a[0] < b[0] {
        assert a[..0] == b[..0];
      } else {
        assert forall i: nat | 0 < i <= |a| && i <= |b| :: a[..i][0] != b[..i][0];
      }
    }
  }

  lemma SameStart(a: string, b: string, i: nat)
    requires 0 < i <= |a| && b != "" && a[0] == b[0]
    ensures i <= |b| ==> (a[..i] == b[..i] <==> a[1..][..i - 1] == b[1..][..i - 1])
  {
    if i <= |b| { assert a[..i] == [a[0]] + a[1..][..i - 1] && b[..i] == [b[0]] + b[1..][..i - 1]; }
  }

  lemma {:induction false} LessTotal(a: string, b: string)
    ensures Less(a, b) || Less(b, a) || a == b
    ensures !(Less(a, b) && Less(b, a)) && !Less(a, a)
  {
    if a != "" && b != "" {
      LessTotal(a[1..], b[1..]);
      assert a == [a[0]] + a[1..] && b == [b[0]] + b[1..];
    }
    if a != "" { LessTotal(a[1..], a[1..]); }
  }

  lemma {:induction false} LessTransitive(a: string, b: string, c: string)
    requires Less(a, b) && Less(b, c)
    ensures Less(a, c)
  {
    if a != "" && a[0] == b[0] == c[0] { LessTransitive(a[1..], b[1..], c[1..]); }
  }

  lemma {:induction false} LessPrefixed(p: string, a: string, b: string)
    ensures Less(p + a, p + b) <==> Less(a, b)
  {
    if p == "" {
      assert p + a == a && p + b == b;
    } else {
      assert (p + a)[1..] == p[1..] + a && (p + b)[1..] == p[1..] + b;
      LessPrefixed(p[1..], a, b);
    }
  }

  ghost predicate Ascending<V>(m: Entries<V>) {
    forall i, j | 0 <= i < j < |m| :: Less(m[i].0, m[j].0)
  }

  // ---- lookup and insertion

  function Get<V>(m: Entries<V>, key: string): Option<V> {
    if m == [] then None else if m[0].0 == key then Some(m[0].1) else Get(m[1..], key)
  }

  /** `multimap::insert`: after every entry whose key is not greater. */
  function InsertMulti<V>(m: Entries<V>, key: string, v: V): Entries<V> {
    if m == [] || Less(key, m[0].0) then [(key, v)] + m else [m[0]] + InsertMulti(m[1..], key, v)
  }

  /** `map::insert`: nothing changes when the key is present. */
  function Insert<V>(m: Entries<V>, key: string, v: V): Entries<V> {
    if Get(m, key).Some? then m else InsertMulti(m, key, v)
  }

  /** `map::insert` of a range. */
  function InsertAll<V>(m: Entries<V>, more: Entries<V>): Entries<V>
    decreases |more|
  {
    if more == [] then m else InsertAll(Insert(m, more[0].0, more[0].1), more[1..])
  }

  /** Replaces the value of the first entry with the key. */
  function Replace<V>(m: Entries<V>, key: string, v: V): Entries<V> {
    if m == [] then [] else if m[0].0 == key then [(key, v)] + m[1..] else [m[0]] + Replace(m[1..], key, v)
  }

  // ---- what they do to lookups and to the order

  ghost predicate HasKey<V>(m: Entries<V>, key: string) {
    exists i :: 0 <= i < |m| && m[i].0 == key
  }

  lemma {:induction false} GetHasKey<V>(m: Entries<V>, key: string)
    ensures Get(m, key).Some? <==> HasKey(m, key)
  {
    if m != [] {
      GetHasKey(m[1..], key);
      if HasKey(m, key) && m[0].0 != key {
        var i :| 0 <= i < |m| && m[i].0 == key;
        assert m[1..][i - 1].0 == key;
      }
      if HasKey(m[1..], key) {
        var i :| 0 <= i < |m[1..]| && m[1..][i].0 == key;
        assert m[i + 1].0 == key;
      }
    }
  }

  lemma {:induction false} GetInserted<V>(m: Entries<V>, key: string, v: V, k: string)
    requires Get(m, key).None?
    ensures Get(InsertMulti(m, key, v), k) == if k == key then Some(v) else Get(m, k)
    decreases |m|
  {
    if m != [] && !Less(key, m[0].0) { GetInserted(m[1..], key, v, k); }
    assert m == [] || Less(key, m[0].0) ==> ([(key, v)] + m)[1..] == m;
    assert m != [] ==> ([m[0]] + InsertMulti(m[1..], key, v))[1..] == InsertMulti(m[1..], key, v);
  }

  /** Every key of the result is the new key or an old one. */
  lemma {:induction false} InsertedKeys<V>(m: Entries<V>, key: string, v: V, i: nat)
    requires i < |InsertMulti(m, key, v)|
    ensures InsertMulti(m, key, v)[i].0 == key || HasKey(m, InsertMulti(m, key, v)[i].0)
    decreases |m|
  {
    var r := InsertMulti(m, key, v);
    if m == [] || Less(key, m[0].0) {
      if i > 0 { assert m[i - 1].0 == r[i].0; }
    } else if i == 0 {
      assert m[0].0 == r[0].0;
    } else {
      InsertedKeys(m[1..], key, v, i - 1);
      if HasKey(m[1..], r[i].0) {
        var j :| 0 <= j < |m[1..]| && m[1..][j].0 == r[i].0;
        assert m[j + 1].0 == r[i].0;
      }
    }
  }

  lemma {:induction false} InsertAscending<V>(m: Entries<V>, key: string, v: V)
    requires Ascending(m) && Get(m, key).None?
    ensures Ascending(InsertMulti(m, key, v))
    decreases |m|
  {
    var r := InsertMulti(m, key, v);
    if m == [] {
    } else if Less(key, m[0].0) {
      forall j | 0 < j < |m| ensures Less(key, m[j].0) { LessTransitive(key, m[0].0, m[j].0); }
    } else {
      var rest := InsertMulti(m[1..], key, v);
      InsertAscending(m[1..], key, v);
      LessTotal(m[0].0, key);
      forall j | 0 <= j < |rest| ensures Less(m[0].0, rest[j].0) {
        InsertedKeys(m[1..], key, v, j);
        if rest[j].0 != key {
          var i :| 0 <= i < |m[1..]| && m[1..][i].0 == rest[j].0;
          assert m[i + 1].0 == rest[j].0;
        }
      }
    }
  }

  lemma {:induction false} InsertLast<V>(m: Entries<V>, key: string, v: V)
    requires forall i | 0 <= i < |m| :: Less(m[i].0, key)
    ensures Insert(m, key, v) == m + [(key, v)]
    decreases |m|
  {
    if m != [] {
      LessTotal(m[0].0, key);
      InsertLast(m[1..], key, v);
      GetHasKey(m, key); GetHasKey(m[1..], key);
    }
  }

  lemma {:induction false} GetReplaced<V>(m: Entries<V>, key: string, v: V, k: string)
    requires Get(m, key).Some?
    ensures Get(Replace(m, key, v), k) == if k == key then Some(v) else Get(m, k)
    decreases |m|
  {
    if m[0].0 == key {
      assert ([(key, v)] + m[1..])[1..] == m[1..];
    } else {
      GetReplaced(m[1..], key, v, k);
      assert ([m[0]] + Replace(m[1..], key, v))[1..] == Replace(m[1..], key, v);
    }
  }

  lemma {:induction false} ReplaceKeys<V>(m: Entries<V>, key: string, v: V)
    ensures |Replace(m, key, v)| == |m|
    ensures forall i | 0 <= i < |m| :: Replace(m, key, v)[i].0 == m[i].0
    decreases |m|
  {
    if m != [] && m[0].0 != key { ReplaceKeys(m[1..], key, v); }
  }

  /** A range insert keeps what was there; of the rest the first entry of a key counts. */
  lemma {:induction false} GetInsertAll<V>(m: Entries<V>, more: Entries<V>, k: string)
    ensures Get(InsertAll(m, more), k) == if Get(m, k).Some? then Get(m, k) else Get(more, k)
    decreases |more|
  {
    if more != [] {
      var (key, v) := more[0];
      if Get(m, key).None? { GetInserted(m, key, v, k); }
      GetInsertAll(Insert(m, key, v), more[1..], k);
    }
  }

  lemma {:induction false} InsertAllAscending<V>(m: Entries<V>, more: Entries<V>)
    requires Ascending(m)
    ensures Ascending(InsertAll(m, more))
    decreases |more|
  {
    if more != [] {
      var (key, v) := more[0];
      if Get(m, key).None? { InsertAscending(m, key, v); }
      InsertAllAscending(Insert(m, key, v), more[1..]);
    }
  }

  lemma {:induction false} GetAppended<V>(a: Entries<V>, b: Entries<V>, k: string)
    ensures Get(a + b, k) == if Get(a, k).Some? then Get(a, k) else Get(b, k)
    decreases |a|
  {
    if a == [] {
      assert a + b == b;
    } else {
      assert (a + b)[1..] == a[1..] + b;
      GetAppended(a[1..], b, k);
    }
  }

  lemma {:induction false} GetAscending<V>(m: Entries<V>, i: nat)
    requires Ascending(m) && i < |m|
    ensures Get(m, m[i].0) == Some(m[i].1)
    decreases |m|
  {
    if i > 0 {
      LessTotal(m[0].0, m[i].0);
      GetAscending(m[1..], i - 1);
    }
  }

  /** Ascending entries are determined by their lookups. */
  lemma {:induction false} SameLookups<V>(a: Entries<V>, b: Entries<V>)
    requires Ascending(a) && Ascending(b)
    requires forall k :: Get(a, k) == Get(b, k)
    ensures a == b
    decreases |a|
  {
    if a == [] {
      assert b == [] || Get(a, b[0].0) == Get(b, b[0].0);
    } else {
      assert Get(a, a[0].0) == Get(b, a[0].0);
      assert b != [] && Get(a, b[0].0) == Get(b, b[0].0);
      FirstKey(a, b[0].0); FirstKey(b, a[0].0); LessTotal(a[0].0, b[0].0);
      forall k ensures Get(a[1..], k) == Get(b[1..], k) {
        assert Get(a, k) == Get(b, k);
        if k == a[0].0 { NotLater(a); NotLater(b); }
      }
      SameLookups(a[1..], b[1..]);
      assert a == [a[0]] + a[1..] && b == [b[0]] + b[1..];
    }
  }

  lemma FirstKey<V>(m: Entries<V>, k: string)
    requires Ascending(m) && Get(m, k).Some?
    ensures m[0].0 == k || Less(m[0].0, k)
  {
    GetHasKey(m, k);
  }

  lemma NotLater<V>(m: Entries<V>)
    requires Ascending(m) && m != []
    ensures Get(m[1..], m[0].0).None?
  {
    GetHasKey(m[1..], m[0].0);
    if HasKey(m[1..], m[0].0) {
      var i :| 0 <= i < |m[1..]| && m[1..][i].0 == m[0].0;
      assert Less(m[0].0, m[i + 1].0);
      LessTotal(m[0].0, m[0].0);
    }
  }
}
