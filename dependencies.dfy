/** The dependency section of package.xml and how `.horde.yml` dependencies are
    projected into it (`_updateDependencies` and `_addDependency` of
    Components_Component_Source). */
module Dependencies {
  import opened Common
  import opened Descriptor

  /** Components_Helper_Version::composerToPear: a composer constraint (or null)
      to the package.xml tags (min, max, exclude, ...) that express it. */
  type ConstraintTranslator = Option<string> -> Assoc<string>

  /** One `<package>`/`<extension>` (or other) element under `<required>` or
      `<optional>`; `attrs` are its child tags in order. */
  datatype DepEntry = DepEntry(required: string, depType: string, attrs: Assoc<string>)

  /** The `<dependencies>` element: the tags of `<required><php>` and the other entries. */
  datatype DependencySection = DependencySection(php: Assoc<string>, entries: seq<DepEntry>)

  predicate KnownType(yamlType: string) {
    yamlType == "php" || yamlType == "pear" || yamlType == "ext"
  }

  /** The fixed, total dependency-type mapping: 'php' adds nothing (it has its
      own slot), 'pear' is a package, 'ext' an extension, anything else fails. */
  function PackageXmlType(yamlType: string): (r: Result<Option<string>>)
    ensures r.Ok? <==> KnownType(yamlType)
    ensures r.Err? ==> r.error == UnknownDependencyType(yamlType)
    ensures r == Ok(None) <==> yamlType == "php"
    ensures r == Ok(Some("package")) <==> yamlType == "pear"
    ensures r == Ok(Some("extension")) <==> yamlType == "ext"
  {
    if yamlType == "php" then Ok(None)
    else if yamlType == "pear" then Ok(Some("package"))
    else if yamlType == "ext" then Ok(Some("extension"))
    else Err(UnknownDependencyType(yamlType))
  }

  /** The `.horde.yml` type that produces a given package.xml type. */
  function YamlType(xmlType: string): (r: Option<string>)
    ensures r.Some? <==> xmlType == "package" || xmlType == "extension"
    ensures r.Some? ==> PackageXmlType(r.value) == Ok(Some(xmlType))
    ensures forall t :: PackageXmlType(t) == Ok(Some(xmlType)) ==> r == Some(t)
  {
    if xmlType == "package" then Some("pear")
    else if xmlType == "extension" then Some("ext")
    else None
  }

  function IndexOf(s: string, c: char): (r: Option<nat>)
    ensures r.Some? ==> r.value < |s| && s[r.value] == c && c !in s[..r.value]
    ensures r.None? ==> c !in s
  {
    if s == [] then None
    else if s[0] == c then Some(0)
    else match IndexOf(s[1..], c)
      case None => None
      case Some(i) => assert s[..i + 1] == [s[0]] + s[1..][..i]; Some(i + 1)
  }

  /** `list($channel, $name) = explode('/', $key)`: the text before the first
      '/', and the text between the first and a second '/'. A key without '/'
      leaves PHP's $name null, written here as "". */
  function SplitPackageKey(key: string): (string, string) {
    match IndexOf(key, '/')
    case None => (key, "")
    case Some(i) =>
      var rest := key[i + 1..];
      match IndexOf(rest, '/')
      case None => (key[..i], rest)
      case Some(j) => (key[..i], rest[..j])
  }

  /** Splitting inverts joining "channel/name". */
  lemma SplitJoin(channel: string, name: string)
    requires '/' !in channel && '/' !in name
    ensures SplitPackageKey(channel + "/" + name) == (channel, name)
  {
    var key := channel + "/" + name;
    assert key[|channel|] == '/';
    assert key[..|channel|] == channel;
    assert key[|channel| + 1..] == name;
    IndexOfFirst(channel, '/', "/" + name);
  }

  lemma {:induction false} IndexOfFirst(prefix: string, c: char, rest: string)
    requires c !in prefix && rest != [] && rest[0] == c
    ensures IndexOf(prefix + rest, c) == Some(|prefix|)
  {
    if prefix != [] {
      assert (prefix + rest)[1..] == prefix[1..] + rest;
      IndexOfFirst(prefix[1..], c, rest);
    }
  }

  /** The attributes of one dependency element: name (and channel for a
      package), then the translated version tags, then any further keys of an
      array spec other than 'version'; later keys override earlier ones. */
  function DependencyAttributes(xmlType: string, key: string, spec: DepSpec,
                                c2p: ConstraintTranslator): Assoc<string> {
    Merge(Merge(BaseAttributes(xmlType, key), c2p(SpecVersion(spec))), ExtraAttributes(spec))
  }

  function BaseAttributes(xmlType: string, key: string): Assoc<string> {
    if xmlType == "package" then
      var (channel, name) := SplitPackageKey(key);
      [("name", name), ("channel", channel)]
    else [("name", key)]
  }

  function ExtraAttributes(spec: DepSpec): Assoc<string> {
    if spec.Detailed? then Unset(spec.fields, "version") else []
  }

  /** Which source an attribute value comes from: the spec's extra keys win
      over the translated version tags, which win over name/channel; the
      spec's own 'version' key never becomes an attribute. */
  lemma AttributePrecedence(xmlType: string, key: string, spec: DepSpec,
                            c2p: ConstraintTranslator, k: string)
    ensures var attrs := DependencyAttributes(xmlType, key, spec, c2p);
            var tags := c2p(SpecVersion(spec));
            var extra := ExtraAttributes(spec);
            Lookup(attrs, k) ==
              if k in Keys(extra) then LastLookup(extra, k)
              else if k in Keys(tags) then LastLookup(tags, k)
              else Lookup(BaseAttributes(xmlType, key), k)
    ensures "version" !in Keys(ExtraAttributes(spec))
  {
    var tags := c2p(SpecVersion(spec));
    var extra := ExtraAttributes(spec);
    LookupMerge(Merge(BaseAttributes(xmlType, key), tags), extra, k);
    LookupMerge(BaseAttributes(xmlType, key), tags, k);
    if spec.Detailed? {
      UnsetLookup(spec.fields, "version", k);
    }
  }

  /** For a plain "channel/name" constraint whose translation sets neither
      tag, the element carries exactly that name and channel. */
  lemma PackageNameAndChannel(channel: string, name: string, version: string,
                              c2p: ConstraintTranslator)
    requires '/' !in channel && '/' !in name
    requires "name" !in Keys(c2p(Some(version))) && "channel" !in Keys(c2p(Some(version)))
    ensures var attrs := DependencyAttributes("package", channel + "/" + name, Constraint(version), c2p);
            Lookup(attrs, "name") == Some(name) && Lookup(attrs, "channel") == Some(channel)
  {
    SplitJoin(channel, name);
    AttributePrecedence("package", channel + "/" + name, Constraint(version), c2p, "name");
    AttributePrecedence("package", channel + "/" + name, Constraint(version), c2p, "channel");
  }

  /** How one dependency becomes an element's attribute list, given the
      package.xml type, the `.horde.yml` key and the spec. */
  type ElementBuilder = (string, string, DepSpec) -> Assoc<string>

  /** The builder `_addDependency` uses: `DependencyAttributes` under the translator. */
  function Builder(c2p: ConstraintTranslator): ElementBuilder {
    (xmlType: string, key: string, spec: DepSpec) => DependencyAttributes(xmlType, key, spec, c2p)
  }

  /** The elements one `.horde.yml` dependency type contributes. */
  function TypeEntries(required: string, yamlType: string, group: DepGroup,
                       build: ElementBuilder): Result<seq<DepEntry>> {
    match PackageXmlType(yamlType)
    case Err(e) => Err(e)
    case Ok(None) => Ok([])
    case Ok(Some(t)) =>
      match group
      case ScalarGroup(_) => Ok([])   // foreach over a string adds nothing
      case PackageGroup(pk) => Ok(PackageEntries(required, t, pk, build))
  }

  /** One element per dependency of the group, in the group's order. */
  function PackageEntries(required: string, xmlType: string, pk: Assoc<DepSpec>,
                          build: ElementBuilder): (r: seq<DepEntry>)
    ensures |r| == |pk|
    decreases |pk|
  {
    if pk == [] then []
    else PackageEntries(required, xmlType, pk[..|pk| - 1], build) +
         [DepEntry(required, xmlType, build(xmlType, pk[|pk| - 1].0, pk[|pk| - 1].1))]
  }

  /** `_addDependency`: appends one element per dependency of the group, after
      checking the type. */
  method AddDependency(entries: seq<DepEntry>, required: string, yamlType: string,
                       group: DepGroup, build: ElementBuilder)
    returns (r: Result<seq<DepEntry>>)
    ensures TypeEntries(required, yamlType, group, build).Err? ==>
              r == Err(UnknownDependencyType(yamlType))
    ensures TypeEntries(required, yamlType, group, build).Ok? ==>
              r == Ok(entries + TypeEntries(required, yamlType, group, build).value)
  {
    var t: string;
    match PackageXmlType(yamlType) {
      case Err(e) => return Err(e);
      case Ok(None) =>
        assert entries + [] == entries;
        return Ok(entries);
      case Ok(Some(x)) => t := x;
    }
    if group.ScalarGroup? {
      assert entries + [] == entries;
      return Ok(entries);
    }
    var pk := group.packages;
    var acc := entries;
    var i := 0;
    while i < |pk|
      invariant 0 <= i <= |pk|
      invariant acc == entries + PackageEntries(required, t, pk[..i], build)
    {
      assert pk[..i + 1][..i] == pk[..i];
      acc := acc + [DepEntry(required, t, build(t, pk[i].0, pk[i].1))];
      i := i + 1;
    }
    assert pk[..|pk|] == pk;
    return Ok(acc);
  }

  /** What a pass of `_addDependency` calls leaves: the elements added so far
      and the error that stopped it, if any. */
  datatype Added = Added(entries: seq<DepEntry>, error: Option<Error>)

  function TypesEntries(required: string, types: Assoc<DepGroup>, build: ElementBuilder): Added
    decreases |types|
  {
    if types == [] then Added([], None)
    else
      Then(TypesEntries(required, types[..|types| - 1], build),
           TypeEntries(required, types[|types| - 1].0, types[|types| - 1].1, build))
  }

  /** One more `_addDependency` call, unless an earlier one has thrown. */
  function Then(p: Added, next: Result<seq<DepEntry>>): Added {
    if p.error.Some? then p
    else match next
      case Err(e) => Added(p.entries, Some(e))
      case Ok(es) => Added(p.entries + es, None)
  }

  lemma TypesAdvance(required: string, types: Assoc<DepGroup>, k: nat, build: ElementBuilder)
    requires k < |types|
    requires TypesEntries(required, types[..k], build).error.None?
    ensures var p := TypesEntries(required, types[..k], build);
            var next := TypeEntries(required, types[k].0, types[k].1, build);
            TypesEntries(required, types[..k + 1], build) ==
              if next.Err? then Added(p.entries, Some(next.error)) else Added(p.entries + next.value, None)
  {
    assert types[..k + 1][..k] == types[..k];
  }

  function GroupsEntries(deps: Assoc<Assoc<DepGroup>>, build: ElementBuilder): Added
    decreases |deps|
  {
    if deps == [] then Added([], None)
    else
      var p := GroupsEntries(deps[..|deps| - 1], build);
      if p.error.Some? then p
      else
        var q := TypesEntries(deps[|deps| - 1].0, deps[|deps| - 1].1, build);
        Added(p.entries + q.entries, q.error)
  }

  lemma GroupsAdvance(deps: Assoc<Assoc<DepGroup>>, g: nat, build: ElementBuilder)
    requires g < |deps|
    requires GroupsEntries(deps[..g], build).error.None?
    ensures var p := GroupsEntries(deps[..g], build);
            var q := TypesEntries(deps[g].0, deps[g].1, build);
            GroupsEntries(deps[..g + 1], build) == Added(p.entries + q.entries, q.error)
  {
    assert deps[..g + 1][..g] == deps[..g];
  }

  /** A required package/extension element, or any optional one: what
      `_updateDependencies` deletes before re-adding. */
  predicate Stale(e: DepEntry) {
    e.required == "optional" ||
    (e.required == "required" && (e.depType == "package" || e.depType == "extension"))
  }

  /** The elements removed by one `while (findNode(required/<t>))` loop. */
  function DropRequired(entries: seq<DepEntry>, t: string): (r: seq<DepEntry>)
    ensures forall x :: x in r <==> x in entries && !(x.required == "required" && x.depType == t)
  {
    if entries == [] then []
    else if entries[0].required == "required" && entries[0].depType == t then DropRequired(entries[1..], t)
    else [entries[0]] + DropRequired(entries[1..], t)
  }

  /** Removing the `<optional>` node removes every optional element. */
  function DropOptional(entries: seq<DepEntry>): (r: seq<DepEntry>)
    ensures forall x :: x in r <==> x in entries && x.required != "optional"
  {
    if entries == [] then []
    else if entries[0].required == "optional" then DropOptional(entries[1..])
    else [entries[0]] + DropOptional(entries[1..])
  }

  function Kept(entries: seq<DepEntry>): seq<DepEntry> {
    DropOptional(DropRequired(DropRequired(entries, "package"), "extension"))
  }

  /** Exactly the non-stale elements survive the removal loops. */
  lemma KeptIsNotStale(entries: seq<DepEntry>, x: DepEntry)
    ensures x in Kept(entries) <==> x in entries && !Stale(x)
  {
  }

  function FirstRequired(entries: seq<DepEntry>, t: string): (r: Option<nat>)
    ensures r.Some? ==> r.value < |entries| && entries[r.value].required == "required" &&
                        entries[r.value].depType == t &&
                        DropRequired(entries[..r.value], t) == entries[..r.value]
    ensures r.None? ==> DropRequired(entries, t) == entries
  {
    if entries == [] then None
    else if entries[0].required == "required" && entries[0].depType == t then Some(0)
    else match FirstRequired(entries[1..], t)
      case None => None
      case Some(i) =>
        assert entries[..i + 1] == [entries[0]] + entries[1..][..i];
        Some(i + 1)
  }

  lemma {:induction false} DropRequiredAppend(a: seq<DepEntry>, b: seq<DepEntry>, t: string)
    ensures DropRequired(a + b, t) == DropRequired(a, t) + DropRequired(b, t)
  {
    if a != [] {
      assert (a + b)[0] == a[0];
      assert (a + b)[1..] == a[1..] + b;
      DropRequiredAppend(a[1..], b, t);
    } else {
      assert a + b == b;
    }
  }

  lemma DropRequiredRemove(r: seq<DepEntry>, i: nat, t: string)
    requires i < |r| && r[i].required == "required" && r[i].depType == t
    ensures DropRequired(r[..i] + r[i + 1..], t) == DropRequired(r, t)
  {
    assert r == r[..i] + ([r[i]] + r[i + 1..]);
    DropRequiredAppend(r[..i], [r[i]] + r[i + 1..], t);
    DropRequiredAppend(r[..i], r[i + 1..], t);
    assert ([r[i]] + r[i + 1..])[1..] == r[i + 1..];
  }

  /** `while ($node = findNode('.../p:required/p:<t>')) remove $node`. */
  method RemoveRequired(entries: seq<DepEntry>, t: string) returns (r: seq<DepEntry>)
    ensures r == DropRequired(entries, t)
  {
    r := entries;
    var found := FirstRequired(r, t);
    while found.Some?
      invariant DropRequired(r, t) == DropRequired(entries, t)
      invariant found == FirstRequired(r, t)
      decreases |r|
    {
      var i := found.value;
      DropRequiredRemove(r, i, t);
      r := r[..i] + r[i + 1..];
      found := FirstRequired(r, t);
    }
  }

  /** `$dependencies['required']['php']`, null when absent or not a string. */
  function PhpConstraint(deps: Assoc<Assoc<DepGroup>>): Option<string> {
    match Lookup(deps, "required")
    case None => None
    case Some(types) =>
      match Lookup(types, "php")
      case Some(group) => if group.ScalarGroup? then Some(group.value) else None
      case None => None
  }

  /** The dependency section after `_updateDependencies`, with the error that
      aborted it (elements added before the error stay in the in-memory tree). */
  function SyncDependencies(section: DependencySection, deps: Assoc<Assoc<DepGroup>>,
                            c2p: ConstraintTranslator): (DependencySection, Option<Error>) {
    var added := GroupsEntries(deps, Builder(c2p));
    (DependencySection(Merge(section.php, c2p(PhpConstraint(deps))),
                       Kept(section.entries) + added.entries),
     added.error)
  }

  /** `_updateDependencies`: remove the stale elements, rewrite the PHP tags,
      then add every type of every group in `.horde.yml` order. */
  method UpdateDependencies(section: DependencySection, deps: Assoc<Assoc<DepGroup>>,
                            c2p: ConstraintTranslator)
    returns (r: DependencySection, err: Option<Error>)
    ensures (r, err) == SyncDependencies(section, deps, c2p)
  {
    var entries := RemoveRequired(section.entries, "package");
    entries := RemoveRequired(entries, "extension");
    entries := DropOptional(entries);
    var tags := c2p(PhpConstraint(deps));
    var php := section.php;
    var n := 0;
    while n < |tags|
      invariant 0 <= n <= |tags|
      invariant php == Merge(section.php, tags[..n])
    {
      assert tags[..n + 1] == tags[..n] + [tags[n]];
      MergeSnoc(section.php, tags[..n], tags[n].0, tags[n].1);
      php := Put(php, tags[n].0, tags[n].1);
      n := n + 1;
    }
    assert tags[..|tags|] == tags;
    var added;
    added, err := AddGroups(entries, deps, Builder(c2p));
    r := DependencySection(php, added);
  }

  /** The `foreach ($dependencies as $required => $dependencyTypes)` loop. */
  method AddGroups(entries: seq<DepEntry>, deps: Assoc<Assoc<DepGroup>>, build: ElementBuilder)
    returns (r: seq<DepEntry>, err: Option<Error>)
    ensures r == entries + GroupsEntries(deps, build).entries
    ensures err == GroupsEntries(deps, build).error
  {
    r := entries;
    var g := 0;
    while g < |deps|
      invariant 0 <= g <= |deps|
      invariant r == entries + GroupsEntries(deps[..g], build).entries
      invariant GroupsEntries(deps[..g], build).error.None?
    {
      var e;
      r, e := AddGroup(entries, r, deps, g, build);
      if e.Some? {
        GroupsErrorPrefix(deps, g + 1, build);
        return r, e;
      }
      g := g + 1;
    }
    assert deps[..g] == deps;
    return r, None;
  }

  /** One iteration of the outer loop: the types of group `g`. */
  method AddGroup(entries: seq<DepEntry>, acc: seq<DepEntry>, deps: Assoc<Assoc<DepGroup>>, g: nat,
                  build: ElementBuilder)
    returns (r: seq<DepEntry>, err: Option<Error>)
    requires g < |deps|
    requires acc == entries + GroupsEntries(deps[..g], build).entries
    requires GroupsEntries(deps[..g], build).error.None?
    ensures r == entries + GroupsEntries(deps[..g + 1], build).entries
    ensures err == GroupsEntries(deps[..g + 1], build).error
  {
    GroupsAdvance(deps, g, build);
    r, err := AddTypes(acc, deps[g].0, deps[g].1, build);
  }

  /** The `foreach ($dependencyTypes as $type => $deps)` loop. */
  method AddTypes(entries: seq<DepEntry>, required: string, types: Assoc<DepGroup>,
                  build: ElementBuilder)
    returns (r: seq<DepEntry>, err: Option<Error>)
    ensures r == entries + TypesEntries(required, types, build).entries
    ensures err == TypesEntries(required, types, build).error
  {
    r := entries;
    var k := 0;
    while k < |types|
      invariant 0 <= k <= |types|
      invariant r == entries + TypesEntries(required, types[..k], build).entries
      invariant TypesEntries(required, types[..k], build).error.None?
    {
      TypesAdvance(required, types, k, build);
      var step := AddDependency(r, required, types[k].0, types[k].1, build);
      if step.Err? {
        TypesErrorPrefix(required, types, k + 1, build);
        return r, Some(step.error);
      }
      r := step.value;
      k := k + 1;
    }
    assert types[..k] == types;
    return r, None;
  }

  /** An error in a prefix is the error of the whole list, and nothing after it is added. */
  lemma {:induction false} TypesErrorPrefix(required: string, types: Assoc<DepGroup>, k: nat,
                                            build: ElementBuilder)
    requires k <= |types|
    requires TypesEntries(required, types[..k], build).error.Some?
    ensures TypesEntries(required, types, build) == TypesEntries(required, types[..k], build)
    decreases |types| - k
  {
    if k < |types| {
      assert types[..k + 1][..k] == types[..k];
      TypesErrorPrefix(required, types, k + 1, build);
    } else {
      assert types[..k] == types;
    }
  }

  lemma {:induction false} GroupsErrorPrefix(deps: Assoc<Assoc<DepGroup>>, g: nat, build: ElementBuilder)
    requires g <= |deps|
    requires GroupsEntries(deps[..g], build).error.Some?
    ensures GroupsEntries(deps, build) == GroupsEntries(deps[..g], build)
    decreases |deps| - g
  {
    if g < |deps| {
      assert deps[..g + 1][..g] == deps[..g];
      GroupsErrorPrefix(deps, g + 1, build);
    } else {
      assert deps[..g] == deps;
    }
  }

  /** The element for the j-th dependency of a group sits at position j. */
  lemma {:induction false} PackageEntryAt(required: string, xmlType: string, pk: Assoc<DepSpec>,
                                          build: ElementBuilder, j: nat)
    requires j < |pk|
    ensures PackageEntries(required, xmlType, pk, build)[j] ==
            DepEntry(required, xmlType, build(xmlType, pk[j].0, pk[j].1))
    decreases |pk|
  {
    if j < |pk| - 1 {
      PackageEntryAt(required, xmlType, pk[..|pk| - 1], build, j);
    }
  }

  /** An element a pass adds for the group under `required`: a package or an extension. */
  predicate Generated(required: string, e: DepEntry) {
    e.required == required && (e.depType == "package" || e.depType == "extension")
  }

  lemma {:induction false} TypesGenerated(required: string, types: Assoc<DepGroup>, build: ElementBuilder)
    ensures forall e :: e in TypesEntries(required, types, build).entries ==> Generated(required, e)
    decreases |types|
  {
    if types != [] {
      var n := |types| - 1;
      TypesGenerated(required, types[..n], build);
      var next := TypeEntries(required, types[n].0, types[n].1, build);
      if next.Ok? && PackageXmlType(types[n].0).value.Some? && types[n].1.PackageGroup? {
        var t := PackageXmlType(types[n].0).value.value;
        forall e | e in next.value ensures Generated(required, e) {
          var j :| 0 <= j < |next.value| && next.value[j] == e;
          PackageEntryAt(required, t, types[n].1.packages, build, j);
        }
      }
    }
  }

  lemma {:induction false} GroupsGenerated(deps: Assoc<Assoc<DepGroup>>, build: ElementBuilder)
    ensures forall e :: e in GroupsEntries(deps, build).entries ==>
              exists g :: 0 <= g < |deps| && Generated(deps[g].0, e)
    decreases |deps|
  {
    if deps != [] {
      var n := |deps| - 1;
      GroupsGenerated(deps[..n], build);
      TypesGenerated(deps[n].0, deps[n].1, build);
      forall e | e in GroupsEntries(deps, build).entries
        ensures exists g :: 0 <= g < |deps| && Generated(deps[g].0, e)
      {
        if e in GroupsEntries(deps[..n], build).entries {
          var g :| 0 <= g < n && Generated(deps[..n][g].0, e);
          assert deps[..n][g] == deps[g];
        } else {
          assert Generated(deps[n].0, e);
        }
      }
    }
  }

  /** A pass over one group's types fails exactly when a type is unknown, and
      then with the first unknown type. */
  lemma {:induction false} TypesError(required: string, types: Assoc<DepGroup>, build: ElementBuilder)
    ensures TypesEntries(required, types, build).error.None? <==>
            forall k :: 0 <= k < |types| ==> KnownType(types[k].0)
    ensures TypesEntries(required, types, build).error.Some? ==>
            exists k :: 0 <= k < |types| && !KnownType(types[k].0) &&
                        (forall j :: 0 <= j < k ==> KnownType(types[j].0)) &&
                        TypesEntries(required, types, build).error.value == UnknownDependencyType(types[k].0)
    decreases |types|
  {
    if types != [] {
      var n := |types| - 1;
      var init := types[..n];
      TypesError(required, init, build);
      assert forall k :: 0 <= k < n ==> init[k] == types[k];
      if TypesEntries(required, init, build).error.Some? {
        var k :| 0 <= k < n && !KnownType(init[k].0) &&
                 (forall j :: 0 <= j < k ==> KnownType(init[j].0)) &&
                 TypesEntries(required, init, build).error.value == UnknownDependencyType(init[k].0);
        assert !KnownType(types[k].0);
      }
    }
  }

  /** The whole pass fails exactly when some group holds an unknown type, and the
      error names one of them. */
  lemma {:induction false} GroupsError(deps: Assoc<Assoc<DepGroup>>, build: ElementBuilder)
    ensures GroupsEntries(deps, build).error.None? <==>
            forall g, k :: 0 <= g < |deps| && 0 <= k < |deps[g].1| ==> KnownType(deps[g].1[k].0)
    ensures GroupsEntries(deps, build).error.Some? ==>
            exists g, k :: 0 <= g < |deps| && 0 <= k < |deps[g].1| && !KnownType(deps[g].1[k].0) &&
                           GroupsEntries(deps, build).error.value == UnknownDependencyType(deps[g].1[k].0)
    decreases |deps|
  {
    if deps != [] {
      var n := |deps| - 1;
      var init := deps[..n];
      GroupsError(init, build);
      TypesError(deps[n].0, deps[n].1, build);
      assert forall g :: 0 <= g < n ==> init[g] == deps[g];
      if GroupsEntries(init, build).error.Some? {
        var g, k :| 0 <= g < n && 0 <= k < |init[g].1| && !KnownType(init[g].1[k].0) &&
                    GroupsEntries(init, build).error.value == UnknownDependencyType(init[g].1[k].0);
        assert !KnownType(deps[g].1[k].0);
      } else if TypesEntries(deps[n].0, deps[n].1, build).error.Some? {
        var k :| 0 <= k < |deps[n].1| && !KnownType(deps[n].1[k].0) &&
                 TypesEntries(deps[n].0, deps[n].1, build).error.value == UnknownDependencyType(deps[n].1[k].0);
        assert !KnownType(deps[n].1[k].0);
      }
    }
  }

  /** The package.xml type a known, non-php `.horde.yml` type becomes. */
  function ElementType(yamlType: string): string {
    if yamlType == "pear" then "package" else "extension"
  }

  /** Without an error, every dependency of every pear/ext group has its element. */
  lemma {:induction false} TypesComplete(required: string, types: Assoc<DepGroup>, build: ElementBuilder,
                                         k: nat, j: nat)
    requires TypesEntries(required, types, build).error.None?
    requires k < |types| && (types[k].0 == "pear" || types[k].0 == "ext") && types[k].1.PackageGroup?
    requires j < |types[k].1.packages|
    ensures var t := ElementType(types[k].0);
            var dep := types[k].1.packages[j];
            DepEntry(required, t, build(t, dep.0, dep.1)) in TypesEntries(required, types, build).entries
    decreases |types|
  {
    var n := |types| - 1;
    if k < n {
      assert types[..n][k] == types[k];
      TypesComplete(required, types[..n], build, k, j);
    } else {
      PackageEntryAt(required, ElementType(types[k].0), types[k].1.packages, build, j);
    }
  }

  lemma {:induction false} GroupsComplete(deps: Assoc<Assoc<DepGroup>>, build: ElementBuilder,
                                          g: nat, k: nat, j: nat)
    requires GroupsEntries(deps, build).error.None?
    requires g < |deps| && k < |deps[g].1|
    requires (deps[g].1[k].0 == "pear" || deps[g].1[k].0 == "ext") && deps[g].1[k].1.PackageGroup?
    requires j < |deps[g].1[k].1.packages|
    ensures var t := ElementType(deps[g].1[k].0);
            var dep := deps[g].1[k].1.packages[j];
            DepEntry(deps[g].0, t, build(t, dep.0, dep.1)) in GroupsEntries(deps, build).entries
    decreases |deps|
  {
    var n := |deps| - 1;
    if g < n {
      assert deps[..n][g] == deps[g];
      GroupsComplete(deps[..n], build, g, k, j);
    } else {
      TypesComplete(deps[g].0, deps[g].1, build, k, j);
    }
  }

  lemma {:induction false} DropOptionalAppend(a: seq<DepEntry>, b: seq<DepEntry>)
    ensures DropOptional(a + b) == DropOptional(a) + DropOptional(b)
  {
    if a != [] {
      assert (a + b)[0] == a[0];
      assert (a + b)[1..] == a[1..] + b;
      DropOptionalAppend(a[1..], b);
    } else {
      assert a + b == b;
    }
  }

  lemma {:induction false} DropRequiredNone(entries: seq<DepEntry>, t: string)
    requires forall x :: x in entries ==> !(x.required == "required" && x.depType == t)
    ensures DropRequired(entries, t) == entries
  {
    if entries != [] {
      assert entries[0] in entries;
      assert forall x :: x in entries[1..] ==> x in entries;
      DropRequiredNone(entries[1..], t);
    }
  }

  lemma {:induction false} DropOptionalNone(entries: seq<DepEntry>)
    requires forall x :: x in entries ==> x.required != "optional"
    ensures DropOptional(entries) == entries
  {
    if entries != [] {
      assert entries[0] in entries;
      assert forall x :: x in entries[1..] ==> x in entries;
      DropOptionalNone(entries[1..]);
    }
  }

  /** The removal keeps every element that is not stale, in order. */
  lemma KeptFixed(entries: seq<DepEntry>)
    requires forall x :: x in entries ==> !Stale(x)
    ensures Kept(entries) == entries
  {
    DropRequiredNone(entries, "package");
    DropRequiredNone(entries, "extension");
    DropOptionalNone(entries);
  }

  lemma KeptAppend(a: seq<DepEntry>, b: seq<DepEntry>)
    ensures Kept(a + b) == Kept(a) + Kept(b)
  {
    DropRequiredAppend(a, b, "package");
    DropRequiredAppend(DropRequired(a, "package"), DropRequired(b, "package"), "extension");
    DropOptionalAppend(DropRequired(DropRequired(a, "package"), "extension"),
                       DropRequired(DropRequired(b, "package"), "extension"));
  }

  /** Stale elements all go. */
  lemma {:induction false} KeptStale(entries: seq<DepEntry>)
    requires forall x :: x in entries ==> Stale(x)
    ensures Kept(entries) == []
  {
    if entries != [] {
      assert entries == [entries[0]] + entries[1..];
      assert entries[0] in entries;
      assert forall x :: x in entries[1..] ==> x in entries;
      KeptAppend([entries[0]], entries[1..]);
      KeptStale(entries[1..]);
    }
  }

  /** Running `_updateDependencies` a second time with the same `.horde.yml`
      changes nothing: the elements it added are exactly what it removes first,
      and rewriting the PHP tags again leaves them as they are. */
  lemma SyncIdempotent(section: DependencySection, deps: Assoc<Assoc<DepGroup>>, c2p: ConstraintTranslator)
    requires UniqueKeys(section.php)
    requires forall g :: 0 <= g < |deps| ==> deps[g].0 == "required" || deps[g].0 == "optional"
    ensures SyncDependencies(SyncDependencies(section, deps, c2p).0, deps, c2p) ==
            SyncDependencies(section, deps, c2p)
  {
    var added := GroupsEntries(deps, Builder(c2p)).entries;
    GroupsGenerated(deps, Builder(c2p));
    KeptAppend(Kept(section.entries), added);
    forall x | x in Kept(section.entries) ensures !Stale(x) {
      KeptIsNotStale(section.entries, x);
    }
    KeptFixed(Kept(section.entries));
    KeptStale(added);
    assert Kept(section.entries) + [] == Kept(section.entries);
    MergeIdempotent(section.php, c2p(PhpConstraint(deps)));
  }
}
