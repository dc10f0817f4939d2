/** The canonical `.horde.yml` descriptor, as far as the synchronisation reads it. */
module Descriptor {
  import opened Common

  datatype Author = Author(name: string, user: string, email: string, active: bool, role: string)

  /** One dependency's constraint: a plain version string, or an array holding a
      'version' key and further attributes (for example 'optional' or 'providesextension'). */
  datatype DepSpec =
    | Constraint(version: string)
    | Detailed(fields: Assoc<string>)

  /** The value under one dependency type: usually an array of name => spec;
      for 'php' (and occasionally others) a bare constraint string. */
  datatype DepGroup =
    | ScalarGroup(value: string)
    | PackageGroup(packages: Assoc<DepSpec>)

  /** The fields of `.horde.yml`. `dependencies` maps 'required'/'optional' to
      dependency types to groups; keys keep the file's order. */
  datatype HordeYml = HordeYml(
    id: string,
    name: string,
    kind: string,                 // the 'type' key: library, application, ...
    full: string,                 // the one-line summary
    description: string,
    homepage: Option<string>,
    releaseVersion: string,
    apiVersion: string,
    releaseState: string,
    apiState: string,
    licenseIdentifier: string,
    licenseUri: string,           // "" when the file gives none
    authors: seq<Author>,
    dependencies: Assoc<Assoc<DepGroup>>)

  /** `$version['version']` for an array spec, the string itself otherwise
      (None is PHP's null for an array without a 'version' key). */
  function SpecVersion(spec: DepSpec): Option<string> {
    match spec
    case Constraint(v) => Some(v)
    case Detailed(fields) => Lookup(fields, "version")
  }

  /** What a wrapper over a missing `.horde.yml` holds: every field empty. */
  const EmptyHordeYml: HordeYml :=
    HordeYml("", "", "", "", "", None, "", "", "", "", "", "", [], [])

  predicate IsLibrary(y: HordeYml) {
    y.kind == "library"
  }
}
