/** composer.json as `updateComposerFromHordeYml` rebuilds it from `.horde.yml`. */
module Composer {
  import opened Common
  import opened Descriptor

  /** The JSON values the rebuilt document holds. */
  datatype Json =
    | JStr(s: string)
    | JNull
    | JList(items: seq<Json>)
    | JObj(fields: Assoc<Json>)

  /** PHP truthiness of an array value, as `array_filter` without a callback
      tests it: "", "0", null and empty arrays are false. */
  predicate JTruthy(v: Json) {
    match v
    case JStr(s) => !Empty(s)
    case JNull => false
    case JList(items) => items != []
    case JObj(fields) => fields != []
  }

  /** ASCII lower-casing (Horde_String::lower on ASCII text). */
  function LowerChar(c: char): char {
    if 'A' <= c <= 'Z' then (c as int - 'A' as int + 'a' as int) as char else c
  }

  function PackageSlug(id: string): (r: string)
    ensures |r| == |id|
    ensures forall i :: 0 <= i < |r| ==> r[i] == (if id[i] == '_' then '-' else LowerChar(id[i]))
  {
    if id == [] then []
    else [if id[0] == '_' then '-' else LowerChar(id[0])] + PackageSlug(id[1..])
  }

  /** 'horde/' followed by the lower-cased id with '_' replaced by '-'. */
  function ComposerName(id: string): (r: string)
    ensures |r| == |id| + 6
  {
    "horde/" + PackageSlug(id)
  }

  /** The name is 'horde/' and then the id with no underscore and no capital
      left, every other character kept. */
  lemma ComposerNameShape(id: string)
    ensures var r := ComposerName(id);
            r[..6] == "horde/" &&
            (forall i :: 6 <= i < |r| ==> r[i] != '_' && !('A' <= r[i] <= 'Z')) &&
            (forall i :: 0 <= i < |id| && id[i] != '_' && !('A' <= id[i] <= 'Z') ==> r[i + 6] == id[i])
  {
    var r := ComposerName(id);
    assert forall i :: 6 <= i < |r| ==> r[i] == PackageSlug(id)[i - 6];
  }

  /** Ids that differ only in letter case, or in '_' against '-', name the same
      composer package; the name is already in its own normal form. */
  lemma ComposerNameNormal(id: string)
    ensures PackageSlug(PackageSlug(id)) == PackageSlug(id)
    ensures ComposerName(PackageSlug(id)) == ComposerName(id)
  {
    var s := PackageSlug(id);
    assert forall i :: 0 <= i < |s| ==> LowerChar(s[i]) == s[i];
  }

  /** The length of the run of ASCII digits that starts `s`. */
  function DigitRun(s: string): (n: nat)
    ensures n <= |s|
    ensures forall i :: 0 <= i < n ==> '0' <= s[i] <= '9'
    ensures n < |s| ==> !('0' <= s[n] <= '9')
  {
    if s != [] && '0' <= s[0] <= '9' then 1 + DigitRun(s[1..]) else 0
  }

  /** `preg_replace('/^(\d+)\..*\/', '$1.*', $release)`: a release that starts
      with digits and a dot becomes "<digits>.*"; the pattern's `.*` stops at
      the first newline, so any later lines are kept. Anything else is
      returned as it is. */
  function ReplaceVersion(release: string): (r: string)
    ensures var n := DigitRun(release);
            !(0 < n < |release| && release[n] == '.') ==> r == release
    ensures var n := DigitRun(release);
            0 < n < |release| && release[n] == '.' ==> r == release[..n] + ".*" + release[LineEnd(release, n + 1)..]
    ensures var n := DigitRun(release);
            0 < n < |release| && release[n] == '.' && '\n' !in release ==> r == release[..n] + ".*"
  {
    var n := DigitRun(release);
    if 0 < n < |release| && release[n] == '.' then
      release[..n] + ".*" + release[LineEnd(release, n + 1)..]
    else release
  }

  /** The replacement is its own fixed point: a "<major>.*" version maps to itself. */
  lemma ReplaceVersionIdempotent(release: string)
    ensures ReplaceVersion(ReplaceVersion(release)) == ReplaceVersion(release)
  {
    var n := DigitRun(release);
    if 0 < n < |release| && release[n] == '.' {
      var e := LineEnd(release, n + 1);
      var rest := release[e..];
      var r := release[..n] + ".*" + rest;
      assert r[..n] == release[..n];
      DigitRunPrefix(release, r, n);
      assert r[n] == '.' && r[n + 1] == '*';
      assert r[n + 2..] == rest;
      assert LineEnd(r, n + 1) == n + 2 by {
        if rest != [] {
          assert rest[0] == '\n';
        }
        assert LineEnd(r, n + 2) == n + 2;
      }
      assert r[..n] + ".*" + r[n + 2..] == r;
    }
  }

  /** Two strings that agree on their first n characters, all digits, and then
      continue with a non-digit have the same digit run. */
  lemma {:induction false} DigitRunPrefix(s: string, t: string, n: nat)
    requires n < |s| && n < |t| && s[..n] == t[..n]
    requires forall i :: 0 <= i < n ==> '0' <= s[i] <= '9'
    requires !('0' <= s[n] <= '9') && !('0' <= t[n] <= '9')
    ensures DigitRun(t) == n
  {
    if n > 0 {
      assert t[0] == s[0];
      assert s[1..][..n - 1] == s[..n][1..] && t[1..][..n - 1] == t[..n][1..];
      DigitRunPrefix(s[1..], t[1..], n - 1);
    }
  }

  /** One `$dependencies[$required][$key] = $version` assignment. */
  datatype Assignment = Assignment(group: string, key: string, value: Option<string>)

  /** What `$dependencies` holds: group ('required', 'optional', ...) to flattened key to version. */
  type Flat = Assoc<Assoc<Option<string>>>

  const InitialFlat: Flat := [("required", []), ("optional", [])]

  /** `$m[$group]`, or the empty array PHP creates on first assignment. */
  function Inner(m: Flat, group: string): Assoc<Option<string>> {
    match Lookup(m, group)
    case Some(inner) => inner
    case None => []
  }

  function Assign(m: Flat, a: Assignment): Flat {
    Put(m, a.group, Put(Inner(m, a.group), a.key, a.value))
  }

  /** The assignments in order. */
  function ApplyAll(m: Flat, xs: seq<Assignment>): Flat
    decreases |xs|
  {
    if xs == [] then m else ApplyAll(Assign(m, xs[0]), xs[1..])
  }

  lemma {:induction false} ApplySnoc(m: Flat, xs: seq<Assignment>, a: Assignment)
    ensures ApplyAll(m, xs + [a]) == Assign(ApplyAll(m, xs), a)
    decreases |xs|
  {
    if xs == [] {
      assert xs + [a] == [a];
    } else {
      assert (xs + [a])[1..] == xs[1..] + [a];
      ApplySnoc(Assign(m, xs[0]), xs[1..], a);
    }
  }

  /** The assignments `updateComposerFromHordeYml` makes for one dependency type:
      a scalar is kept under the type's own key; an array contributes
      "<type>-<package>" keys whose values are the constraint (or the
      'version' of an array spec). */
  function TypeAssignments(group: string, t: string, g: DepGroup): seq<Assignment> {
    match g
    case ScalarGroup(v) => [Assignment(group, t, Some(v))]
    case PackageGroup(pk) => PackageAssignments(group, t, pk)
  }

  function PackageAssignments(group: string, t: string, pk: Assoc<DepSpec>): (r: seq<Assignment>)
    ensures |r| == |pk|
    ensures forall j :: 0 <= j < |pk| ==> r[j] == Assignment(group, t + "-" + pk[j].0, SpecVersion(pk[j].1))
    decreases |pk|
  {
    if pk == [] then []
    else PackageAssignments(group, t, pk[..|pk| - 1]) +
         [Assignment(group, t + "-" + pk[|pk| - 1].0, SpecVersion(pk[|pk| - 1].1))]
  }

  function TypesAssignments(group: string, types: Assoc<DepGroup>): seq<Assignment>
    decreases |types|
  {
    if types == [] then []
    else TypesAssignments(group, types[..|types| - 1]) +
         TypeAssignments(group, types[|types| - 1].0, types[|types| - 1].1)
  }

  function Assignments(deps: Assoc<Assoc<DepGroup>>): seq<Assignment>
    decreases |deps|
  {
    if deps == [] then []
    else Assignments(deps[..|deps| - 1]) + TypesAssignments(deps[|deps| - 1].0, deps[|deps| - 1].1)
  }

  /** The nested `foreach` loops that flatten the dependencies. */
  method FlattenDependencies(deps: Assoc<Assoc<DepGroup>>) returns (r: Flat)
    ensures r == ApplyAll(InitialFlat, Assignments(deps))
  {
    r := InitialFlat;
    var g := 0;
    while g < |deps|
      invariant 0 <= g <= |deps|
      invariant r == ApplyAll(InitialFlat, Assignments(deps[..g]))
    {
      assert deps[..g + 1][..g] == deps[..g];
      ApplyAppend(InitialFlat, Assignments(deps[..g]), TypesAssignments(deps[g].0, deps[g].1));
      r := FlattenTypes(r, deps[g].0, deps[g].1);
      g := g + 1;
    }
    assert deps[..g] == deps;
  }

  method FlattenTypes(start: Flat, group: string, types: Assoc<DepGroup>) returns (r: Flat)
    ensures r == ApplyAll(start, TypesAssignments(group, types))
  {
    r := start;
    var k := 0;
    while k < |types|
      invariant 0 <= k <= |types|
      invariant r == ApplyAll(start, TypesAssignments(group, types[..k]))
    {
      assert types[..k + 1][..k] == types[..k];
      ApplyAppend(start, TypesAssignments(group, types[..k]), TypeAssignments(group, types[k].0, types[k].1));
      r := FlattenType(r, group, types[k].0, types[k].1);
      k := k + 1;
    }
    assert types[..k] == types;
  }

  /** One dependency type: a scalar is stored under the type, an array is
      flattened package by package. */
  method FlattenType(start: Flat, group: string, t: string, g: DepGroup) returns (r: Flat)
    ensures r == ApplyAll(start, TypeAssignments(group, t, g))
  {
    match g
    case ScalarGroup(v) =>
      var a := Assignment(group, t, Some(v));
      ApplySnoc(start, [], a);
      assert [] + [a] == [a];
      r := Assign(start, a);
    case PackageGroup(pk) =>
      r := FlattenPackages(start, group, t, pk);
  }

  method FlattenPackages(start: Flat, group: string, t: string, pk: Assoc<DepSpec>) returns (r: Flat)
    ensures r == ApplyAll(start, PackageAssignments(group, t, pk))
  {
    r := start;
    var j := 0;
    while j < |pk|
      invariant 0 <= j <= |pk|
      invariant r == ApplyAll(start, PackageAssignments(group, t, pk[..j]))
    {
      assert pk[..j + 1][..j] == pk[..j];
      var a := Assignment(group, t + "-" + pk[j].0, SpecVersion(pk[j].1));
      ApplySnoc(start, PackageAssignments(group, t, pk[..j]), a);
      r := Assign(r, a);
      j := j + 1;
    }
    assert pk[..j] == pk;
  }

  lemma {:induction false} ApplyAppend(m: Flat, a: seq<Assignment>, b: seq<Assignment>)
    ensures ApplyAll(m, a + b) == ApplyAll(ApplyAll(m, a), b)
    decreases |a|
  {
    if a == [] {
      assert a + b == b;
    } else {
      assert (a + b)[0] == a[0];
      assert (a + b)[1..] == a[1..] + b;
      ApplyAppend(Assign(m, a[0]), a[1..], b);
    }
  }

  /** The value the last assignment to `group`/`key` writes, if any. */
  function LastAssigned(xs: seq<Assignment>, group: string, key: string): Option<Option<string>> {
    if xs == [] then None
    else match LastAssigned(xs[1..], group, key)
      case Some(v) => Some(v)
      case None =>
        if xs[0].group == group && xs[0].key == key then Some(xs[0].value) else None
  }

  /** After the assignments, a key reads as the last value written to it, and a
      key never written reads as before. */
  lemma {:induction false} ApplyLookup(m: Flat, xs: seq<Assignment>, group: string, key: string)
    ensures Lookup(Inner(ApplyAll(m, xs), group), key) ==
            match LastAssigned(xs, group, key)
            case Some(v) => Some(v)
            case None => Lookup(Inner(m, group), key)
    decreases |xs|
  {
    if xs != [] {
      var a := xs[0];
      ApplyLookup(Assign(m, a), xs[1..], group, key);
      LookupPut(m, a.group, Put(Inner(m, a.group), a.key, a.value), group);
      LookupPut(Inner(m, a.group), a.key, a.value, key);
    }
  }

  lemma {:induction false} LastAssignedAppend(a: seq<Assignment>, b: seq<Assignment>, group: string, key: string)
    ensures LastAssigned(a + b, group, key) ==
            if LastAssigned(b, group, key).Some? then LastAssigned(b, group, key) else LastAssigned(a, group, key)
    decreases |a|
  {
    if a == [] {
      assert a + b == b;
    } else {
      assert (a + b)[0] == a[0];
      assert (a + b)[1..] == a[1..] + b;
      LastAssignedAppend(a[1..], b, group, key);
    }
  }

  lemma {:induction false} LastAssignedSome(xs: seq<Assignment>, i: nat)
    requires i < |xs|
    ensures LastAssigned(xs, xs[i].group, xs[i].key).Some?
    decreases |xs|
  {
    if i > 0 {
      LastAssignedSome(xs[1..], i - 1);
    }
  }

  /** Every dependency of an array-valued type gets its "<type>-<package>" key,
      and every scalar type its own key, in the flattened group. */
  lemma FlattenHasKey(deps: Assoc<Assoc<DepGroup>>, g: nat, k: nat)
    requires g < |deps| && k < |deps[g].1|
    ensures var (group, types) := deps[g];
            var (t, dg) := types[k];
            var flat := Inner(ApplyAll(InitialFlat, Assignments(deps)), group);
            (dg.ScalarGroup? ==> t in Keys(flat)) &&
            (dg.PackageGroup? ==> forall j :: 0 <= j < |dg.packages| ==> t + "-" + dg.packages[j].0 in Keys(flat))
  {
    var (group, types) := deps[g];
    var (t, dg) := types[k];
    var all := Assignments(deps);
    var flat := Inner(ApplyAll(InitialFlat, all), group);
    if dg.ScalarGroup? {
      var i := AssignmentIndex(deps, g, k, 0);
      LastAssignedSome(all, i);
      ApplyLookup(InitialFlat, all, group, t);
      LookupKeys(flat, t);
    } else {
      forall j | 0 <= j < |dg.packages| ensures t + "-" + dg.packages[j].0 in Keys(flat) {
        var key := t + "-" + dg.packages[j].0;
        var i := AssignmentIndex(deps, g, k, j);
        LastAssignedSome(all, i);
        ApplyLookup(InitialFlat, all, group, key);
        LookupKeys(flat, key);
      }
    }
  }

  /** Each assignment a type calls for is among all the assignments. */
  lemma {:induction false} AssignmentIndex(deps: Assoc<Assoc<DepGroup>>, g: nat, k: nat, j: nat)
    returns (i: nat)
    requires g < |deps| && k < |deps[g].1|
    requires j < |TypeAssignments(deps[g].0, deps[g].1[k].0, deps[g].1[k].1)|
    ensures i < |Assignments(deps)|
    ensures Assignments(deps)[i] == TypeAssignments(deps[g].0, deps[g].1[k].0, deps[g].1[k].1)[j]
    decreases |deps|
  {
    var n := |deps| - 1;
    var init := Assignments(deps[..n]);
    var last := TypesAssignments(deps[n].0, deps[n].1);
    assert Assignments(deps) == init + last;
    if g < n {
      assert deps[..n][g] == deps[g];
      i := AssignmentIndex(deps[..n], g, k, j);
      assert (init + last)[i] == init[i];
    } else {
      var i0 := TypeAssignmentIndex(deps[g].0, deps[g].1, k, j);
      i := |init| + i0;
      assert (init + last)[i] == last[i0];
    }
  }

  lemma {:induction false} TypeAssignmentIndex(group: string, types: Assoc<DepGroup>, k: nat, j: nat)
    returns (i: nat)
    requires k < |types| && j < |TypeAssignments(group, types[k].0, types[k].1)|
    ensures i < |TypesAssignments(group, types)|
    ensures TypesAssignments(group, types)[i] == TypeAssignments(group, types[k].0, types[k].1)[j]
    decreases |types|
  {
    var n := |types| - 1;
    var init := TypesAssignments(group, types[..n]);
    var last := TypeAssignments(group, types[n].0, types[n].1);
    assert TypesAssignments(group, types) == init + last;
    if k < n {
      assert types[..n][k] == types[k];
      i := TypeAssignmentIndex(group, types[..n], k, j);
      assert (init + last)[i] == init[i];
    } else {
      i := |init| + j;
      assert (init + last)[i] == last[j];
    }
  }

  /** A single flattened key written once takes the version it was written with. */
  lemma FlattenValue(deps: Assoc<Assoc<DepGroup>>, i: nat)
    requires i < |Assignments(deps)|
    requires var a := Assignments(deps)[i];
             forall j :: 0 <= j < |Assignments(deps)| && j != i ==>
               Assignments(deps)[j].group != a.group || Assignments(deps)[j].key != a.key
    ensures var a := Assignments(deps)[i];
            Lookup(Inner(ApplyAll(InitialFlat, Assignments(deps)), a.group), a.key) == Some(a.value)
  {
    var all := Assignments(deps);
    var a := all[i];
    ApplyLookup(InitialFlat, all, a.group, a.key);
    assert all == all[..i] + [a] + all[i + 1..];
    LastAssignedAppend(all[..i] + [a], all[i + 1..], a.group, a.key);
    LastAssignedAppend(all[..i], [a], a.group, a.key);
    LastAssignedNone(all[i + 1..], a.group, a.key);
  }

  lemma {:induction false} LastAssignedNone(xs: seq<Assignment>, group: string, key: string)
    requires forall j :: 0 <= j < |xs| ==> xs[j].group != group || xs[j].key != key
    ensures LastAssigned(xs, group, key).None?
  {
    if xs != [] {
      LastAssignedNone(xs[1..], group, key);
    }
  }

  /** `array_filter` without a callback: the truthy values, keys and order kept. */
  function FilterFalsy(m: Assoc<Json>): (r: Assoc<Json>)
    ensures forall p :: p in r <==> p in m && JTruthy(p.1)
  {
    if m == [] then []
    else if JTruthy(m[0].1) then [m[0]] + FilterFalsy(m[1..])
    else FilterFalsy(m[1..])
  }

  /** The psr-0 autoload prefix: 'Horde' for Core and the groupware bundles,
      'Horde_<name>' for a library, the name otherwise. */
  function AutoloadPrefix(y: HordeYml): string {
    if y.name == "Core" || StartsWith(y.name, "Horde Groupware") then "Horde"
    else if IsLibrary(y) then "Horde_" + y.name
    else y.name
  }

  /** `strpos($s, $p) === 0`. */
  predicate StartsWith(s: string, p: string) {
    |p| <= |s| && s[..|p|] == p
  }

  function AuthorJson(a: Author): Json {
    JObj([("name", JStr(a.name)), ("email", JStr(a.email)), ("role", JStr(a.role))])
  }

  function AuthorsJson(authors: seq<Author>): (r: seq<Json>)
    ensures |r| == |authors|
    ensures forall i :: 0 <= i < |authors| ==> r[i] == AuthorJson(authors[i])
  {
    if authors == [] then [] else [AuthorJson(authors[0])] + AuthorsJson(authors[1..])
  }

  function VersionsJson(m: Assoc<Option<string>>): (r: Assoc<Json>)
    ensures |r| == |m|
    ensures forall i :: 0 <= i < |m| ==> r[i].0 == m[i].0 && r[i].1 == (if m[i].1.Some? then JStr(m[i].1.value) else JNull)
  {
    if m == [] then []
    else [(m[0].0, if m[0].1.Some? then JStr(m[0].1.value) else JNull)] + VersionsJson(m[1..])
  }

  /** The array handed to `exchangeArray`, before filtering, in its key order;
      `flat` is the flattened dependencies and `today` the `gmdate('Y-m-d')` stamp. */
  function ComposerFields(y: HordeYml, flat: Flat, today: string): Assoc<Json> {
    Identity(y) + Release(y, today) + Requirements(flat) + Packaging(y)
  }

  function Identity(y: HordeYml): Assoc<Json> {
    [("name", JStr(ComposerName(y.id))),
     ("description", JStr(y.full)),
     ("type", JStr(if IsLibrary(y) then "library" else "project")),
     ("homepage", JStr(if y.homepage.Some? then y.homepage.value else "https://www.horde.org"))]
  }

  function Release(y: HordeYml, today: string): Assoc<Json> {
    [("license", JStr(y.licenseIdentifier)),
     ("authors", JList(AuthorsJson(y.authors))),
     ("version", JStr(y.releaseVersion)),
     ("time", JStr(today)),
     ("repositories", JList([JObj([("type", JStr("pear")), ("url", JStr("https://pear.horde.org"))])]))]
  }

  function Requirements(flat: Flat): Assoc<Json> {
    [("require", JObj(VersionsJson(Inner(flat, "required")))),
     ("suggest", JObj(VersionsJson(Inner(flat, "optional"))))]
  }

  /** The `replace` pair (both PEAR names of the package, at the major-version
      constraint) and the psr-0 autoload root. */
  function Packaging(y: HordeYml): Assoc<Json> {
    var prefix := if IsLibrary(y) then "Horde_" else "";
    var v := JStr(ReplaceVersion(y.releaseVersion));
    [("replace", JObj([("pear-pear.horde.org/" + prefix + y.id, v), ("pear-horde/" + prefix + y.id, v)])),
     ("autoload", JObj([("psr-0", JObj([(AutoloadPrefix(y), JStr("lib/"))]))]))]
  }

  /** The whole new composer.json: it depends on `.horde.yml` and the date only,
      never on the file's old content. */
  function ComposerDocument(y: HordeYml, flat: Flat, today: string): Json {
    JObj(FilterFalsy(ComposerFields(y, flat, today)))
  }

  /** What the rebuilt document always says: its name and type, and its
      homepage, the Horde site unless `.horde.yml` gives one. */
  lemma ComposerIdentity(y: HordeYml, flat: Flat, today: string)
    ensures var d := ComposerDocument(y, flat, today).fields;
            ("name", JStr(ComposerName(y.id))) in d &&
            ("type", JStr(if IsLibrary(y) then "library" else "project")) in d &&
            (y.homepage.None? ==> ("homepage", JStr("https://www.horde.org")) in d)
  {
    var id := Identity(y);
    Survives(y, flat, today, id[0]);
    Survives(y, flat, today, id[2]);
    if y.homepage.None? {
      Survives(y, flat, today, id[3]);
    }
  }

  /** Both `replace` keys with the major-version constraint, and the autoload
      prefix, are always present. */
  lemma ComposerPackaging(y: HordeYml, flat: Flat, today: string)
    ensures Packaging(y)[0] in ComposerDocument(y, flat, today).fields
    ensures Packaging(y)[1] in ComposerDocument(y, flat, today).fields
  {
    var p := Packaging(y);
    Survives(y, flat, today, p[0]);
    Survives(y, flat, today, p[1]);
  }

  lemma Survives(y: HordeYml, flat: Flat, today: string, p: (string, Json))
    requires p in Identity(y) || p in Packaging(y)
    requires JTruthy(p.1)
    ensures p in ComposerDocument(y, flat, today).fields
  {
    var f := ComposerFields(y, flat, today);
    assert p in f;
  }
}
