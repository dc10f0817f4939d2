/** The parts of a package.xml tree that `updatePackageFromHordeYml` rewrites, and
    that rewrite as a function of the old tree and `.horde.yml`. */
module PackageXmlModel {
  import opened Common
  import opened Descriptor
  import opened Dependencies

  /** package.xml, abstracted from its DOM: the text nodes the synchronisation
      touches, the license's uri attribute (absent or set), the lead/developer
      elements, the dependency section, whether a `<providesextension>` node is
      present (a PECL package) and the file list. */
  datatype PackageXml = PackageXml(
    name: string,
    summary: string,
    description: string,
    releaseVersion: string,
    apiVersion: string,
    releaseState: string,
    apiState: string,
    date: string,
    license: string,
    licenseUri: Option<string>,
    authors: seq<Author>,
    deps: DependencySection,
    providesExtension: bool,
    contents: seq<string>)

  /** The `<name>` a descriptor gives: libraries are prefixed with "Horde_". */
  function PackageName(y: HordeYml): (r: string)
    ensures IsLibrary(y) ==> r == "Horde_" + y.id
    ensures !IsLibrary(y) ==> r == y.id
  {
    if IsLibrary(y) then "Horde_" + y.id else y.id
  }

  /** The tree after `updatePackageFromHordeYml`, with the error that aborted it.
      `changelogDate` is the date of the current release's changelog entry when
      a changelog file exists (None otherwise); `validatePear` is
      Components_Helper_Version::validatePear. The dependency section is rebuilt
      only when `.horde.yml` lists dependencies; on an error the tree keeps what
      was already written. */
  function SyncPackageXml(x: PackageXml, y: HordeYml, changelogDate: Option<string>,
                          validatePear: string -> string, c2p: ConstraintTranslator)
    : (PackageXml, Option<Error>)
  {
    var texts := x.(
      name := PackageName(y),
      summary := y.full,
      description := y.description,
      releaseVersion := validatePear(y.releaseVersion),
      apiVersion := validatePear(y.apiVersion),
      releaseState := y.releaseState,
      apiState := y.apiState,
      date := if changelogDate.Some? then changelogDate.value else x.date,
      license := y.licenseIdentifier,
      licenseUri := if !Empty(y.licenseUri) then Some(y.licenseUri) else x.licenseUri,
      authors := y.authors);
    if y.dependencies == [] then (texts, None)
    else
      var (section, err) := SyncDependencies(x.deps, y.dependencies, c2p);
      (texts.(deps := section), err)
  }

  /** What a descriptor demands of a package.xml for the rewrite to be a fixed point. */
  predicate WellFormed(y: HordeYml) {
    forall g :: 0 <= g < |y.dependencies| ==>
      y.dependencies[g].0 == "required" || y.dependencies[g].0 == "optional"
  }

  /** Synchronising twice from the same `.horde.yml` gives what one pass gives:
      every field is rewritten to a value that depends on `.horde.yml` alone,
      the license uri is set again to the same value or kept, and the
      dependency section is a fixed point (see `SyncIdempotent`). */
  lemma SyncPackageIdempotent(x: PackageXml, y: HordeYml, changelogDate: Option<string>,
                              validatePear: string -> string, c2p: ConstraintTranslator)
    requires UniqueKeys(x.deps.php) && WellFormed(y)
    ensures var once := SyncPackageXml(x, y, changelogDate, validatePear, c2p);
            SyncPackageXml(once.0, y, changelogDate, validatePear, c2p) == once
  {
    if y.dependencies != [] {
      SyncIdempotent(x.deps, y.dependencies, c2p);
    }
  }

  /** The fields `.horde.yml` does not describe (the PECL marker and the file
      list) are untouched, and the rewrite fails exactly when `.horde.yml` lists
      dependencies under an unknown type. */
  lemma SyncPackageFrame(x: PackageXml, y: HordeYml, changelogDate: Option<string>,
                         validatePear: string -> string, c2p: ConstraintTranslator)
    ensures var (r, err) := SyncPackageXml(x, y, changelogDate, validatePear, c2p);
            r.providesExtension == x.providesExtension && r.contents == x.contents &&
            (err.None? <==> forall g, k :: 0 <= g < |y.dependencies| && 0 <= k < |y.dependencies[g].1| ==>
                                             KnownType(y.dependencies[g].1[k].0))
  {
    if y.dependencies != [] {
      GroupsError(y.dependencies, Builder(c2p));
    }
  }

  /** After a successful rewrite, every pear/ext dependency of `.horde.yml`
      has its element, built by `DependencyAttributes`. */
  lemma SyncPackageComplete(x: PackageXml, y: HordeYml, changelogDate: Option<string>,
                            validatePear: string -> string, c2p: ConstraintTranslator,
                            g: nat, k: nat, j: nat)
    requires SyncPackageXml(x, y, changelogDate, validatePear, c2p).1.None?
    requires g < |y.dependencies| && k < |y.dependencies[g].1|
    requires var (t, group) := y.dependencies[g].1[k];
             (t == "pear" || t == "ext") && group.PackageGroup? && j < |group.packages|
    ensures var r := SyncPackageXml(x, y, changelogDate, validatePear, c2p).0;
            var (t, group) := y.dependencies[g].1[k];
            var (key, spec) := group.packages[j];
            var xt := ElementType(t);
            DepEntry(y.dependencies[g].0, xt, DependencyAttributes(xt, key, spec, c2p)) in r.deps.entries
  {
    GroupsComplete(y.dependencies, Builder(c2p), g, k, j);
  }
}
