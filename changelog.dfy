/** changelog.yml as `nextVersion` changes it: a release-version-keyed array of
    entries, kept ordered from the newest version down. */
module Changelog {
  import opened Common

  /** One release's entry: its date, stabilities, notes and anything else the
      file holds for it (api version, license), which is copied as it is. */
  datatype Entry = Entry(date: string, releaseState: string, apiState: string, notes: string,
                         rest: Assoc<string>)

  type Log = Assoc<Entry>

  /** `version_compare($a, $b) <= 0`, the order `uksort` is given. */
  type VersionLe = (string, string) -> bool

  ghost predicate Total(le: VersionLe) {
    forall a, b :: le(a, b) || le(b, a)
  }

  /** Newest first: each version is at least the one after it. */
  predicate Descending(le: VersionLe, log: Log) {
    forall i :: 0 <= i < |log| - 1 ==> le(log[i + 1].0, log[i].0)
  }

  /** Places an entry in front of the first one whose version it is at least. */
  function Insert(le: VersionLe, p: (string, Entry), log: Log): (r: Log)
    ensures multiset(r) == multiset(log) + multiset{p}
    ensures |r| == |log| + 1
  {
    if log == [] then [p]
    else if le(log[0].0, p.0) then [p] + log
    else
      assert log == [log[0]] + log[1..];
      [log[0]] + Insert(le, p, log[1..])
  }

  /** `uksort($changelog, fn($a, $b) => version_compare($b, $a))`, written as an
      insertion sort. */
  function SortDescending(le: VersionLe, log: Log): (r: Log)
    ensures multiset(r) == multiset(log)
    ensures |r| == |log|
  {
    if log == [] then []
    else
      assert log == [log[0]] + log[1..];
      Insert(le, log[0], SortDescending(le, log[1..]))
  }

  lemma {:induction false} InsertDescending(le: VersionLe, p: (string, Entry), log: Log)
    requires Total(le) && Descending(le, log)
    ensures Descending(le, Insert(le, p, log))
    ensures log != [] ==> Insert(le, p, log)[0] == p || Insert(le, p, log)[0] == log[0]
  {
    if log != [] && !le(log[0].0, p.0) {
      assert Descending(le, log[1..]) by {
        forall i | 0 <= i < |log[1..]| - 1 ensures le(log[1..][i + 1].0, log[1..][i].0) {
          assert log[1..][i + 1] == log[i + 2] && log[1..][i] == log[i + 1];
        }
      }
      InsertDescending(le, p, log[1..]);
      var tail := Insert(le, p, log[1..]);
      assert le(p.0, log[0].0);
      if log[1..] != [] {
        assert tail[0] == p || tail[0] == log[1];
      }
    }
  }

  /** The sort leaves the log newest first. */
  lemma {:induction false} SortDescendingSorted(le: VersionLe, log: Log)
    requires Total(le)
    ensures Descending(le, SortDescending(le, log))
  {
    if log != [] {
      SortDescendingSorted(le, log[1..]);
      InsertDescending(le, log[0], SortDescending(le, log[1..]));
    }
  }

  /** With unique keys, reading a key is finding its pair. */
  lemma {:induction false} LookupIn(m: Log, k: string, v: Entry)
    requires UniqueKeys(m)
    ensures Lookup(m, k) == Some(v) <==> (k, v) in m
  {
    if m != [] {
      UniqueTail(m);
      LookupIn(m[1..], k, v);
      if m[0].0 == k && (k, v) in m[1..] {
        PairKey(m[1..], (k, v));
        assert false;
      }
    }
  }

  /** Insertion adds the entry's key and keeps keys unique when it is new. */
  lemma {:induction false} InsertKeys(le: VersionLe, p: (string, Entry), log: Log)
    ensures Keys(Insert(le, p, log)) == Keys(log) + {p.0}
    ensures UniqueKeys(log) && p.0 !in Keys(log) ==> UniqueKeys(Insert(le, p, log))
  {
    if log == [] {
    } else if le(log[0].0, p.0) {
      var r := [p] + log;
      assert r[1..] == log;
      if UniqueKeys(log) && p.0 !in Keys(log) {
        forall i | 1 <= i < |r| ensures r[i].0 != p.0 {
          KeysOf(log, i - 1);
        }
      }
    } else {
      InsertKeys(le, p, log[1..]);
      var r := [log[0]] + Insert(le, p, log[1..]);
      assert r[1..] == Insert(le, p, log[1..]);
      if UniqueKeys(log) && p.0 !in Keys(log) {
        UniqueTail(log);
        forall i | 1 <= i < |r| ensures r[i].0 != r[0].0 {
          KeysOf(r[1..], i - 1);
        }
        assert UniqueKeys(r) by {
          forall x, y | 0 <= x < y < |r| ensures r[x].0 != r[y].0 {
            if x > 0 {
              assert r[x] == r[1..][x - 1] && r[y] == r[1..][y - 1];
            }
          }
        }
      }
    }
  }

  lemma {:induction false} SortKeys(le: VersionLe, log: Log)
    ensures Keys(SortDescending(le, log)) == Keys(log)
    ensures UniqueKeys(log) ==> UniqueKeys(SortDescending(le, log))
  {
    if log != [] {
      SortKeys(le, log[1..]);
      InsertKeys(le, log[0], SortDescending(le, log[1..]));
      if UniqueKeys(log) {
        UniqueTail(log);
      }
    }
  }

  /** Sorting keeps every key and what it reads as. */
  lemma SortKeepsLookup(le: VersionLe, log: Log, k: string)
    requires UniqueKeys(log)
    ensures UniqueKeys(SortDescending(le, log))
    ensures Keys(SortDescending(le, log)) == Keys(log)
    ensures Lookup(SortDescending(le, log), k) == Lookup(log, k)
  {
    var s := SortDescending(le, log);
    SortKeys(le, log);
    LookupKeys(log, k);
    LookupKeys(s, k);
    if Lookup(log, k).Some? {
      var v := Lookup(log, k).value;
      LookupIn(log, k, v);
      assert (k, v) in multiset(s);
      LookupIn(s, k, v);
    }
  }

  /** The changelog after `nextVersion`: the current release's entry, copied with
      the initial note as its notes and with the stabilities replaced by the
      truthy arguments, is stored under the new version and the log re-sorted.
      Fails when the current version has no entry; `fileName` is the file's
      name, for the message. */
  function AdvanceChangelog(log: Log, current: string, version: string, note: string,
                            stabilityApi: Option<string>, stabilityRelease: Option<string>,
                            le: VersionLe, fileName: string): Result<Log>
  {
    match Lookup(log, current)
    case None => Err(CurrentVersionNotFound(current, fileName))
    case Some(entry) =>
      Ok(SortDescending(le, Put(log, version, NextEntry(entry, note, stabilityApi, stabilityRelease))))
  }

  function NextEntry(entry: Entry, note: string, stabilityApi: Option<string>,
                     stabilityRelease: Option<string>): Entry
  {
    entry.(notes := "\n" + note,
           releaseState := if Truthy(stabilityRelease) then stabilityRelease.value else entry.releaseState,
           apiState := if Truthy(stabilityApi) then stabilityApi.value else entry.apiState)
  }

  /** What `nextVersion` promises of the changelog: it fails exactly when the
      current version is missing; otherwise the log is newest first, holds the
      old keys and the new version, reads the new entry under the new version
      and every other version as before. */
  lemma AdvanceChangelogSpec(log: Log, current: string, version: string, note: string,
                             stabilityApi: Option<string>, stabilityRelease: Option<string>,
                             le: VersionLe, fileName: string, k: string)
    requires UniqueKeys(log) && Total(le)
    ensures var r := AdvanceChangelog(log, current, version, note, stabilityApi, stabilityRelease, le, fileName);
            (r.Err? <==> current !in Keys(log)) &&
            (r.Err? ==> r.error == CurrentVersionNotFound(current, fileName))
    ensures var r := AdvanceChangelog(log, current, version, note, stabilityApi, stabilityRelease, le, fileName);
            r.Ok? ==>
              var next := NextEntry(Lookup(log, current).value, note, stabilityApi, stabilityRelease);
              Descending(le, r.value) && UniqueKeys(r.value) &&
              Keys(r.value) == Keys(log) + {version} &&
              Lookup(r.value, k) == (if k == version then Some(next) else Lookup(log, k))
  {
    LookupKeys(log, current);
    if Lookup(log, current).Some? {
      var next := NextEntry(Lookup(log, current).value, note, stabilityApi, stabilityRelease);
      var put := Put(log, version, next);
      PutUnique(log, version, next);
      PutKeys(log, version, next);
      LookupPut(log, version, next, k);
      SortKeepsLookup(le, put, k);
      SortDescendingSorted(le, put);
    }
  }
}
