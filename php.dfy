/** The pieces of PHP's value semantics that the handlers rely on: null,
    `empty()`, string truthiness, `basename()`, and the insertion-ordered
    array with its `$a[$k] = $v` and `array_values` operations. */
module Php {

  /** A value that may be PHP `null`: an unset session key, a missing form
      field, a nullable column, a `fetch` that found no row. */
  datatype Option<T> = None | Some(value: T)

  /** `empty($s)` for a string: true for "" and also for "0". */
  predicate Empty(s: string)
  {
    s == "" || s == "0"
  }

  /** The truth value of a string in an `if`: exactly the strings that are not `empty`. */
  predicate Truthy(s: string)
  {
    !Empty(s)
  }

  // ---------------------------------------------------------------------------
  // basename()

  /** The path with every trailing '/' removed, as `basename` does first. */
  function TrimTrailingSlashes(s: string): (r: string)
    ensures r <= s
    ensures r == [] || r[|r| - 1] != '/'
    ensures forall i :: |r| <= i < |s| ==> s[i] == '/'
    ensures '/' !in s ==> r == s
  {
    if s == [] || s[|s| - 1] != '/' then s else TrimTrailingSlashes(s[..|s| - 1])
  }

  /** The longest suffix of `s` that holds no '/'. */
  function AfterLastSlash(s: string): (r: string)
    ensures '/' !in r
    ensures |r| <= |s| && r == s[|s| - |r|..]
    ensures |r| < |s| ==> s[|s| - |r| - 1] == '/'
    ensures '/' !in s ==> r == s
  {
    if s == [] || s[|s| - 1] == '/' then [] else AfterLastSlash(s[..|s| - 1]) + [s[|s| - 1]]
  }

  /** `c` starts at index `k` of `path`, right after a '/' or at the start, and
      nothing but '/' follows it. */
  predicate LastComponentAt(path: string, c: string, k: int)
  {
    && 0 <= k <= |path| - |c|
    && c == path[k..k + |c|]
    && (k == 0 || path[k - 1] == '/')
    && forall i :: k + |c| <= i < |path| ==> path[i] == '/'
  }

  /** `basename($path)` with '/' as the only separator: the last path
      component once trailing slashes are dropped. */
  function Basename(path: string): (r: string)
    ensures '/' !in r
    ensures '/' !in path ==> r == path
    ensures exists k :: LastComponentAt(path, r, k)
    ensures r == [] ==> forall i :: 0 <= i < |path| ==> path[i] == '/'
  {
    var trimmed := TrimTrailingSlashes(path);
    var r := AfterLastSlash(trimmed);
    var k := |trimmed| - |r|;
    assert r == path[k..k + |r|];
    assert k == 0 || path[k - 1] == '/' by {
      if k > 0 { assert path[k - 1] == trimmed[k - 1]; }
    }
    assert LastComponentAt(path, r, k);
    r
  }

  // ---------------------------------------------------------------------------
  // Insertion-ordered arrays

  /** The keys of an ordered array, in order. */
  function Keys<K, V>(m: seq<(K, V)>): seq<K>
  {
    seq(|m|, i requires 0 <= i < |m| => m[i].0)
  }

  /** `array_values($m)`: the values, in key order. */
  function Values<K, V>(m: seq<(K, V)>): (r: seq<V>)
    ensures |r| == |m|
    ensures forall i :: 0 <= i < |m| ==> r[i] == m[i].1
  {
    seq(|m|, i requires 0 <= i < |m| => m[i].1)
  }

  /** A PHP array never holds one key twice. */
  predicate DistinctKeys<K(==), V>(m: seq<(K, V)>)
  {
    forall i, j :: 0 <= i < j < |m| ==> m[i].0 != m[j].0
  }

  /** `isset`-style key test (`array_key_exists`). */
  predicate HasKey<K(==), V>(m: seq<(K, V)>, k: K)
  {
    exists i :: 0 <= i < |m| && m[i].0 == k
  }

  /** The position of key `k`. */
  function IndexOf<K(==), V>(m: seq<(K, V)>, k: K): (i: nat)
    requires HasKey(m, k)
    ensures i < |m| && m[i].0 == k
    ensures forall j :: 0 <= j < i ==> m[j].0 != k
  {
    if m[0].0 == k then 0
    else
      assert HasKey(m[1..], k) by {
        var j :| 0 <= j < |m| && m[j].0 == k;
        assert m[1..][j - 1].0 == k;
      }
      IndexOf(m[1..], k) + 1
  }

  /** `$m[$k] = $v`: an existing key keeps its position and takes the new
      value; a new key is appended after all the others. */
  function Put<K(==), V>(m: seq<(K, V)>, k: K, v: V): (r: seq<(K, V)>)
    requires DistinctKeys(m)
    ensures DistinctKeys(r)
    ensures HasKey(r, k)
    ensures HasKey(m, k) ==> |r| == |m|
    ensures !HasKey(m, k) ==> r == m + [(k, v)]
    ensures forall i :: 0 <= i < |m| ==> r[i] == (if m[i].0 == k then (k, v) else m[i])
  {
    if HasKey(m, k) then
      var i := IndexOf(m, k);
      var r := m[i := (k, v)];
      assert r[i].0 == k;
      r
    else
      var r := m + [(k, v)];
      assert r[|m|].0 == k;
      r
  }

  /** `foreach ($rows as [$k, $v]) { $m[$k] = $v; }`. */
  function PutAll<K(==), V>(m: seq<(K, V)>, rows: seq<(K, V)>): (r: seq<(K, V)>)
    requires DistinctKeys(m)
    ensures DistinctKeys(r)
    ensures |m| <= |r| <= |m| + |rows|
    decreases |rows|
  {
    if rows == [] then m
    else
      var last := rows[|rows| - 1];
      Put(PutAll(m, rows[..|rows| - 1]), last.0, last.1)
  }

  /** After `$m[$k] = $v`, `array_values` gives the old values with `v` in
      place of the key's old value, or appended when the key is new. */
  lemma ValuesOfPut<K, V>(m: seq<(K, V)>, k: K, v: V)
    requires DistinctKeys(m)
    ensures HasKey(m, k) ==> Values(Put(m, k, v)) == Values(m)[IndexOf(m, k) := v]
    ensures !HasKey(m, k) ==> Values(Put(m, k, v)) == Values(m) + [v]
  {
  }

  /** The value the last row with key `k` carries, or `absent` when no row has that key. */
  function LastValue<K(==), V>(rows: seq<(K, V)>, k: K, absent: V): V
    decreases |rows|
  {
    if rows == [] then absent
    else if rows[|rows| - 1].0 == k then rows[|rows| - 1].1
    else LastValue(rows[..|rows| - 1], k, absent)
  }

  /** With distinct keys among the rows, the last row for `k` is the only one. */
  lemma {:induction false} LastValueOfDistinct<K, V>(rows: seq<(K, V)>, j: nat, absent: V)
    requires DistinctKeys(rows) && j < |rows|
    ensures LastValue(rows, rows[j].0, absent) == rows[j].1
    decreases |rows|
  {
    if j < |rows| - 1 {
      var init := rows[..|rows| - 1];
      assert init[j] == rows[j];
      LastValueOfDistinct(init, j, absent);
    }
  }

  /** A key no row carries keeps its old value. */
  lemma {:induction false} LastValueAbsent<K, V>(rows: seq<(K, V)>, k: K, absent: V)
    requires !HasKey(rows, k)
    ensures LastValue(rows, k, absent) == absent
    decreases |rows|
  {
    if rows != [] {
      var init := rows[..|rows| - 1];
      assert !HasKey(init, k) by {
        forall i | 0 <= i < |init| ensures init[i].0 != k { assert init[i] == rows[i]; }
      }
      LastValueAbsent(init, k, absent);
    }
  }

  /** Overwriting keeps every pre-existing entry at its position with its key,
      and gives it the value of the last row for that key (or its old value). */
  lemma {:induction false} PutAllPrefix<K, V>(m: seq<(K, V)>, rows: seq<(K, V)>)
    requires DistinctKeys(m)
    ensures |PutAll(m, rows)| >= |m|
    ensures forall i :: 0 <= i < |m| ==> PutAll(m, rows)[i] == (m[i].0, LastValue(rows, m[i].0, m[i].1))
    decreases |rows|
  {
    if rows != [] {
      PutAllPrefix(m, rows[..|rows| - 1]);
    }
  }

  /** Every row key is a key of the result, and every appended entry comes from a row. */
  lemma {:induction false} PutAllKeys<K, V>(m: seq<(K, V)>, rows: seq<(K, V)>)
    requires DistinctKeys(m)
    ensures forall i :: 0 <= i < |rows| ==> HasKey(PutAll(m, rows), rows[i].0)
    ensures forall j :: |m| <= j < |PutAll(m, rows)| ==> HasKey(rows, PutAll(m, rows)[j].0)
    decreases |rows|
  {
    if rows != [] {
      var init := rows[..|rows| - 1];
      var last := rows[|rows| - 1];
      var p := PutAll(m, init);
      var r := PutAll(m, rows);
      PutAllKeys(m, init);
      PutAllPrefix(m, init);
      assert r == Put(p, last.0, last.1);
      forall i | 0 <= i < |rows| ensures HasKey(r, rows[i].0) {
        if i < |rows| - 1 {
          assert rows[i] == init[i];
          var j :| 0 <= j < |p| && p[j].0 == rows[i].0;
          assert r[j].0 == p[j].0;
        }
      }
      forall j | |m| <= j < |r| ensures HasKey(rows, r[j].0) {
        if j < |p| {
          if r[j].0 != last.0 {
            assert r[j] == p[j];
            var i :| 0 <= i < |init| && init[i].0 == p[j].0;
            assert rows[i] == init[i];
          }
        }
        assert HasKey(rows, last.0) by { assert rows[|rows| - 1].0 == last.0; }
      }
    }
  }

  /** Overwriting leaves the array at its length exactly when every row key
      was already present; any other row appends a trailing entry. */
  lemma PutAllLength<K, V>(m: seq<(K, V)>, rows: seq<(K, V)>)
    requires DistinctKeys(m)
    ensures |PutAll(m, rows)| == |m| <==> forall i :: 0 <= i < |rows| ==> HasKey(m, rows[i].0)
  {
    var r := PutAll(m, rows);
    PutAllPrefix(m, rows);
    PutAllKeys(m, rows);
    if |r| == |m| {
      forall i | 0 <= i < |rows| ensures HasKey(m, rows[i].0) {
        var j :| 0 <= j < |r| && r[j].0 == rows[i].0;
        assert m[j].0 == r[j].0;
      }
    }
  }
}
