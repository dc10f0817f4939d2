/** Shared vocabulary: Option/Result, the error kinds the component raises,
    PHP-style truthiness, and ordered string-keyed arrays (PHP's associative
    arrays keep insertion order, and assigning to an existing key keeps its
    position). */
module Common {

  datatype Option<+T> = None | Some(value: T)

  /** The exceptions raised by the modelled code, one constructor per message. */
  datatype Error =
    | UnsupportedWrapper(name: string)          // "<name> is not a supported file wrapper"
    | MissingFile(fileName: string)             // "<file> is missing."
    | UnknownDependencyType(depType: string)    // "Unknown dependency type: <type>"
    | CurrentVersionNotFound(version: string, fileName: string)
    | MissingPackageXml(path: string)           // placeArchive without a package.xml
    | EnvironmentNotSet                         // "You need to set the environment first!"
    | PackageXmlPathNotSet                      // "You need to set the package.xml path first!"
    | SetupIncomplete                           // "You need to set the factory, the environment and ..."

  datatype Result<+T> = Ok(value: T) | Err(error: Error)

  /** PHP's empty() on a string: only "" and "0" are empty. */
  predicate Empty(s: string) {
    s == "" || s == "0"
  }

  /** PHP truthiness of a possibly-null string argument. */
  predicate Truthy(s: Option<string>) {
    s.Some? && !Empty(s.value)
  }

  /** An ordered associative array with string keys. */
  type Assoc<V> = seq<(string, V)>

  function Keys<V>(m: Assoc<V>): set<string> {
    if m == [] then {} else {m[0].0} + Keys(m[1..])
  }

  /** No key occurs twice: what a PHP array always satisfies. */
  predicate UniqueKeys<V>(m: Assoc<V>) {
    forall i, j :: 0 <= i < j < |m| ==> m[i].0 != m[j].0
  }

  /** `$m[$k]`, or None when the key is absent. */
  function Lookup<V>(m: Assoc<V>, k: string): Option<V> {
    if m == [] then None
    else if m[0].0 == k then Some(m[0].1)
    else Lookup(m[1..], k)
  }

  /** A key reads back a value exactly when it is a key, and then that pair is in the array. */
  lemma LookupKeys<V>(m: Assoc<V>, k: string)
    ensures Lookup(m, k).None? <==> k !in Keys(m)
    ensures Lookup(m, k).Some? ==> (k, Lookup(m, k).value) in m
  {
  }

  /** Appending pairs never changes what an existing key reads as. */
  lemma {:induction false} LookupPrefix<V>(m: Assoc<V>, m': Assoc<V>, k: string)
    requires |m| <= |m'| && m'[..|m|] == m && k in Keys(m)
    ensures Lookup(m', k) == Lookup(m, k)
  {
    if m[0].0 != k {
      assert m'[1..][..|m[1..]|] == m[1..];
      LookupPrefix(m[1..], m'[1..], k);
    }
  }

  /** `$m[$k] = $v`: replaces in place when the key exists, appends otherwise. */
  function Put<V>(m: Assoc<V>, k: string, v: V): Assoc<V> {
    if m == [] then [(k, v)]
    else if m[0].0 == k then [(k, v)] + m[1..]
    else [m[0]] + Put(m[1..], k, v)
  }

  lemma PutKeys<V>(m: Assoc<V>, k: string, v: V)
    ensures Keys(Put(m, k, v)) == Keys(m) + {k}
    ensures k in Keys(m) ==> |Put(m, k, v)| == |m|
    ensures k !in Keys(m) ==> Put(m, k, v) == m + [(k, v)]
  {
  }

  lemma {:induction false} PutUnique<V>(m: Assoc<V>, k: string, v: V)
    requires UniqueKeys(m)
    ensures UniqueKeys(Put(m, k, v))
  {
    if m != [] && m[0].0 != k {
      var t := m[1..];
      assert UniqueKeys(t) by {
        forall i, j | 0 <= i < j < |t| ensures t[i].0 != t[j].0 {
          assert t[i] == m[i + 1] && t[j] == m[j + 1];
        }
      }
      PutUnique(t, k, v);
      PutKeys(t, k, v);
      if m[0].0 in Keys(t) {
        var i := KeyIndex(t, m[0].0);
        assert false;
      }
      var r := Put(m, k, v);
      assert r == [m[0]] + Put(t, k, v);
      forall i, j | 0 <= i < j < |r| ensures r[i].0 != r[j].0 {
        KeysOf(Put(t, k, v), j - 1);
        if i > 0 {
          assert r[i] == Put(t, k, v)[i - 1];
        }
      }
    }
  }

  lemma {:induction false} KeysOf<V>(m: Assoc<V>, i: nat)
    requires i < |m|
    ensures m[i].0 in Keys(m)
  {
    if i > 0 { KeysOf(m[1..], i - 1); }
  }

  /** Conversely, every key sits at some index. */
  lemma {:induction false} KeyIndex<V>(m: Assoc<V>, k: string) returns (i: nat)
    requires k in Keys(m)
    ensures i < |m| && m[i].0 == k
  {
    if m[0].0 == k {
      i := 0;
    } else {
      var j := KeyIndex(m[1..], k);
      i := j + 1;
    }
  }

  /** The tail of a unique-keyed array is unique-keyed and lacks the head's key. */
  lemma UniqueTail<V>(m: Assoc<V>)
    requires UniqueKeys(m) && m != []
    ensures UniqueKeys(m[1..]) && m[0].0 !in Keys(m[1..])
  {
    assert UniqueKeys(m[1..]) by {
      forall x, y | 0 <= x < y < |m[1..]| ensures m[1..][x].0 != m[1..][y].0 {
        assert m[1..][x] == m[x + 1] && m[1..][y] == m[y + 1];
      }
    }
    if m[0].0 in Keys(m[1..]) {
      var i := KeyIndex(m[1..], m[0].0);
      assert false;
    }
  }

  /** The key of every pair is a key. */
  lemma PairKey<V>(m: Assoc<V>, p: (string, V))
    requires p in m
    ensures p.0 in Keys(m)
  {
    var i :| 0 <= i < |m| && m[i] == p;
    KeysOf(m, i);
  }

  /** The value just written is the one read back; other keys keep theirs. */
  lemma {:induction false} LookupPut<V>(m: Assoc<V>, k: string, v: V, k': string)
    ensures Lookup(Put(m, k, v), k') == if k' == k then Some(v) else Lookup(m, k')
  {
    if m != [] && m[0].0 != k {
      LookupPut(m[1..], k, v, k');
    }
  }

  /** `array_merge($a, $b)` for string keys: keys of $b override those of $a
      (keeping $a's position) and new keys are appended in $b's order. */
  function Merge<V>(a: Assoc<V>, b: Assoc<V>): Assoc<V>
    decreases |b|
  {
    if b == [] then a else Merge(Put(a, b[0].0, b[0].1), b[1..])
  }

  /** Later arrays win: a key of $b reads as its last value in $b, any other key as in $a. */
  lemma {:induction false} LookupMerge<V>(a: Assoc<V>, b: Assoc<V>, k: string)
    ensures Lookup(Merge(a, b), k) == if k in Keys(b) then LastLookup(b, k) else Lookup(a, k)
    decreases |b|
  {
    if b != [] {
      LookupMerge(Put(a, b[0].0, b[0].1), b[1..], k);
      LookupPut(a, b[0].0, b[0].1, k);
    }
  }

  /** Merging one more pair is one more assignment. */
  lemma {:induction false} MergeSnoc<V>(a: Assoc<V>, b: Assoc<V>, k: string, v: V)
    ensures Merge(a, b + [(k, v)]) == Put(Merge(a, b), k, v)
    decreases |b|
  {
    if b == [] {
      assert b + [(k, v)] == [(k, v)];
    } else {
      assert (b + [(k, v)])[1..] == b[1..] + [(k, v)];
      MergeSnoc(Put(a, b[0].0, b[0].1), b[1..], k, v);
    }
  }

  lemma {:induction false} MergeKeys<V>(a: Assoc<V>, b: Assoc<V>)
    ensures Keys(Merge(a, b)) == Keys(a) + Keys(b)
    decreases |b|
  {
    if b != [] {
      PutKeys(a, b[0].0, b[0].1);
      MergeKeys(Put(a, b[0].0, b[0].1), b[1..]);
    }
  }

  lemma {:induction false} MergeUnique<V>(a: Assoc<V>, b: Assoc<V>)
    requires UniqueKeys(a)
    ensures UniqueKeys(Merge(a, b))
    decreases |b|
  {
    if b != [] {
      PutUnique(a, b[0].0, b[0].1);
      MergeUnique(Put(a, b[0].0, b[0].1), b[1..]);
    }
  }

  /** With unique keys, the pair at position i is what its key reads. */
  lemma {:induction false} LookupAt<V>(m: Assoc<V>, i: nat)
    requires UniqueKeys(m) && i < |m|
    ensures Lookup(m, m[i].0) == Some(m[i].1)
  {
    if i > 0 {
      assert m[0].0 != m[i].0;
      assert UniqueKeys(m[1..]) by {
        forall x, y | 0 <= x < y < |m[1..]| ensures m[1..][x].0 != m[1..][y].0 {
          assert m[1..][x] == m[x + 1] && m[1..][y] == m[y + 1];
        }
      }
      LookupAt(m[1..], i - 1);
    }
  }

  /** Assigning an existing key of a unique-keyed array changes that position only. */
  lemma {:induction false} PutPresent<V>(m: Assoc<V>, k: string, v: V, i: nat)
    requires UniqueKeys(m) && k in Keys(m) && i < |m|
    ensures |Put(m, k, v)| == |m|
    ensures Put(m, k, v)[i] == (m[i].0, if m[i].0 == k then v else m[i].1)
  {
    PutKeys(m, k, v);
    if m[0].0 == k {
      if i > 0 {
        assert m[0].0 != m[i].0;
      }
    } else {
      assert UniqueKeys(m[1..]) by {
        forall x, y | 0 <= x < y < |m[1..]| ensures m[1..][x].0 != m[1..][y].0 {
          assert m[1..][x] == m[x + 1] && m[1..][y] == m[y + 1];
        }
      }
      if i > 0 {
        PutPresent(m[1..], k, v, i - 1);
      }
    }
  }

  /** Merging keys that are all present rewrites values in place: position i keeps
      its key and takes the last value b gives it. */
  lemma {:induction false} MergePresent<V>(a: Assoc<V>, b: Assoc<V>, i: nat)
    requires UniqueKeys(a) && Keys(b) <= Keys(a) && i < |a|
    ensures |Merge(a, b)| == |a|
    ensures Merge(a, b)[i].0 == a[i].0
    ensures a[i].0 in Keys(b) ==> LastLookup(b, a[i].0) == Some(Merge(a, b)[i].1)
    ensures a[i].0 !in Keys(b) ==> Merge(a, b)[i].1 == a[i].1
    decreases |b|
  {
    if b != [] {
      var a' := Put(a, b[0].0, b[0].1);
      PutPresent(a, b[0].0, b[0].1, i);
      PutUnique(a, b[0].0, b[0].1);
      PutKeys(a, b[0].0, b[0].1);
      MergePresent(a', b[1..], i);
    }
  }

  /** `array_merge(array_merge($a, $b), $b) == array_merge($a, $b)`. */
  lemma MergeIdempotent<V>(a: Assoc<V>, b: Assoc<V>)
    requires UniqueKeys(a)
    ensures Merge(Merge(a, b), b) == Merge(a, b)
  {
    var x := Merge(a, b);
    MergeUnique(a, b);
    MergeKeys(a, b);
    if |x| > 0 {
      MergePresent(x, b, 0);
    }
    forall i | 0 <= i < |x| ensures Merge(x, b)[i] == x[i] {
      MergePresent(x, b, i);
      if x[i].0 in Keys(b) {
        LookupAt(x, i);
        LookupMerge(a, b, x[i].0);
      }
    }
  }

  /** The value of the LAST occurrence of k (what repeated assignments leave). */
  function LastLookup<V>(m: Assoc<V>, k: string): Option<V> {
    if m == [] then None
    else if k in Keys(m[1..]) then LastLookup(m[1..], k)
    else if m[0].0 == k then Some(m[0].1)
    else None
  }

  /** `unset($m[$k])`. */
  function Unset<V>(m: Assoc<V>, k: string): Assoc<V> {
    if m == [] then []
    else if m[0].0 == k then Unset(m[1..], k)
    else [m[0]] + Unset(m[1..], k)
  }

  /** `unset` keeps only pairs of the array, none under the removed key, and
      keeps keys unique. */
  lemma {:induction false} UnsetKeeps<V>(m: Assoc<V>, k: string)
    ensures forall p :: p in Unset(m, k) ==> p in m && p.0 != k
    ensures UniqueKeys(m) ==> UniqueKeys(Unset(m, k))
  {
    if m != [] {
      UnsetKeeps(m[1..], k);
      var u := Unset(m[1..], k);
      if UniqueKeys(m) {
        UniqueTail(m);
        if m[0].0 != k {
          var r := [m[0]] + u;
          assert r[1..] == u;
          forall i | 1 <= i < |r| ensures r[i].0 != r[0].0 {
            assert r[i] in u;
            PairKey(m[1..], r[i]);
          }
          forall x, y | 0 <= x < y < |r| ensures r[x].0 != r[y].0 {
            if x > 0 {
              assert r[x] == u[x - 1] && r[y] == u[y - 1];
            }
          }
        }
      }
    }
  }

  /** After `unset`, the key is gone and every other key reads as before. */
  lemma {:induction false} UnsetLookup<V>(m: Assoc<V>, k: string, k': string)
    ensures k !in Keys(Unset(m, k))
    ensures k' != k ==> Lookup(Unset(m, k), k') == Lookup(m, k')
  {
    if m != [] {
      UnsetLookup(m[1..], k, k');
    }
  }

  /** The index of the first newline at or after `from` (|s| when there is none):
      where a `.*` started at `from` stops matching. */
  function LineEnd(s: string, from: nat): (e: nat)
    requires from <= |s|
    ensures from <= e <= |s|
    ensures forall i :: from <= i < e ==> s[i] != '\n'
    ensures e < |s| ==> s[e] == '\n'
    decreases |s| - from
  {
    if from == |s| || s[from] == '\n' then from else LineEnd(s, from + 1)
  }

  /** `implode($sep, $parts)`. */
  function Join(parts: seq<string>, sep: string): (r: string)
    ensures parts == [] ==> r == ""
    ensures |parts| == 1 ==> r == parts[0]
  {
    if parts == [] then ""
    else if |parts| == 1 then parts[0]
    else parts[0] + sep + Join(parts[1..], sep)
  }
}
