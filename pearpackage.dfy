/** `Components_Pear_Package`: the PEAR package handle of a component. It is
    set up with an installation environment, a factory and the paths to the
    package.xml and the .tgz file, loads its package representations lazily
    and at most once each, and generates snapshot and release archives. */
module PearPackage {
  import opened Common
  import opened Archive

  /** The factory of PEAR objects; only whether one is set matters here. */
  datatype Factory = Factory(id: string)

  /** A line written to the output handler. What the PEAR generator prints
      is not modelled. */
  datatype OutputLine = OkLine(text: string) | FailLine(text: string)

  /** The report of a generation: the archive when the result is truthy,
      otherwise the error lines. */
  function Report(what: string, result: Option<string>, errors: seq<string>): (line: OutputLine)
    ensures line.OkLine? <==> Truthy(result)
    ensures line.OkLine? ==> line.text == "Generated " + what + " " + result.value
    ensures line.FailLine? ==> line.text == "Generating " + what + " failed with:\n\n" + Join(errors, "\n")
  {
    if Truthy(result) then OkLine("Generated " + what + " " + result.value)
    else FailLine("Generating " + what + " failed with:\n\n" + Join(errors, "\n"))
  }

  /** A possibly-null path concatenated into a message: PHP's `.` turns
      null into the empty string. */
  function PathText(path: Option<string>): string {
    match path
    case Some(p) => p
    case None => ""
  }

  class Package {
    var environment: Option<string>
    var factory: Option<Factory>
    var xmlPath: Option<string>
    var tgzPath: Option<string>
    /** `$_package_file`, with the release, date and time set on it since. */
    var packageFile: Option<PackageFile>
    /** `$_package_rw_file`. */
    var rwFile: Option<PackageFile>
    /** Every package representation the factory has built, in order. */
    var packageLoads: seq<Origin>
    var rwLoads: seq<Origin>
    /** The package.xml paths written by `writePackageFile`. */
    var written: seq<Option<string>>
    var cwd: string
    var messages: seq<OutputLine>

    /** Each representation is built at most once, and the memo is the one
        built (up to the release, date and time set on it). */
    ghost predicate Valid()
      reads this
    {
      |packageLoads| <= 1 && (packageFile.Some? <==> |packageLoads| == 1) &&
      (packageFile.Some? ==> packageFile.value.origin == packageLoads[0]) &&
      |rwLoads| <= 1 && (rwFile.Some? <==> |rwLoads| == 1) &&
      (rwFile.Some? ==> rwFile.value.origin == rwLoads[0] && rwFile.value.origin.Writable?)
    }

    /** The constructor: nothing set or loaded yet. */
    constructor (cwd: string)
      ensures Valid()
      ensures environment.None? && factory.None? && xmlPath.None? && tgzPath.None?
      ensures packageFile.None? && rwFile.None? && packageLoads == [] && rwLoads == []
      ensures written == [] && messages == [] && this.cwd == cwd
    {
      environment, factory, xmlPath, tgzPath := None, None, None, None;
      packageFile, rwFile := None, None;
      packageLoads, rwLoads, written := [], [], [];
      this.cwd := cwd;
      messages := [];
    }

    /** `setEnvironment($environment)`. */
    method SetEnvironment(env: string)
      modifies this
      ensures environment == Some(env)
      ensures factory == old(factory) && xmlPath == old(xmlPath) && tgzPath == old(tgzPath)
      ensures packageFile == old(packageFile) && rwFile == old(rwFile)
      ensures packageLoads == old(packageLoads) && rwLoads == old(rwLoads)
      ensures written == old(written) && cwd == old(cwd) && messages == old(messages)
    {
      environment := Some(env);
    }

    /** `setFactory($factory)`. */
    method SetFactory(f: Factory)
      modifies this
      ensures factory == Some(f)
      ensures environment == old(environment) && xmlPath == old(xmlPath) && tgzPath == old(tgzPath)
      ensures packageFile == old(packageFile) && rwFile == old(rwFile)
      ensures packageLoads == old(packageLoads) && rwLoads == old(rwLoads)
      ensures written == old(written) && cwd == old(cwd) && messages == old(messages)
    {
      factory := Some(f);
    }

    /** `setPackageXml($package_xml_path)`; the path may be null. */
    method SetPackageXml(path: Option<string>)
      modifies this
      ensures xmlPath == path
      ensures environment == old(environment) && factory == old(factory) && tgzPath == old(tgzPath)
      ensures packageFile == old(packageFile) && rwFile == old(rwFile)
      ensures packageLoads == old(packageLoads) && rwLoads == old(rwLoads)
      ensures written == old(written) && cwd == old(cwd) && messages == old(messages)
    {
      xmlPath := path;
    }

    /** `setPackageTgz($package_tgz_path)`; the path may be null. */
    method SetPackageTgz(path: Option<string>)
      modifies this
      ensures tgzPath == path
      ensures environment == old(environment) && factory == old(factory) && xmlPath == old(xmlPath)
      ensures packageFile == old(packageFile) && rwFile == old(rwFile)
      ensures packageLoads == old(packageLoads) && rwLoads == old(rwLoads)
      ensures written == old(written) && cwd == old(cwd) && messages == old(messages)
    {
      tgzPath := path;
    }

    /** `getEnvironment()`: the environment last set, or an error before one is. */
    method GetEnvironment() returns (r: Result<string>)
      ensures r.Err? <==> environment.None?
      ensures r.Err? ==> r.error == EnvironmentNotSet
      ensures r.Ok? ==> Some(r.value) == environment
    {
      if environment.None? {
        return Err(EnvironmentNotSet);
      }
      return Ok(environment.value);
    }

    /** `getPackageXml()`: the package.xml path last set, or an error before
        one is. */
    method GetPackageXml() returns (r: Result<string>)
      ensures r.Err? <==> xmlPath.None?
      ensures r.Err? ==> r.error == PackageXmlPathNotSet
      ensures r.Ok? ==> Some(r.value) == xmlPath
    {
      if xmlPath.None? {
        return Err(PackageXmlPathNotSet);
      }
      return Ok(xmlPath.value);
    }

    /** The condition `_checkSetup` enforces: an environment, a factory and
        at least one of the two paths. */
    predicate SetupComplete()
      reads this
    {
      environment.Some? && factory.Some? && (xmlPath.Some? || tgzPath.Some?)
    }

    /** `_checkSetup()`. */
    method CheckSetup() returns (err: Option<Error>)
      ensures err.None? <==> SetupComplete()
      ensures err.Some? ==> err.value == SetupIncomplete
    {
      if environment.None? || (xmlPath.None? && tgzPath.None?) || factory.None? {
        return Some(SetupIncomplete);
      }
      return None;
    }

    /** Where `_getPackageFile` loads from: package.xml when its path is not
        empty, otherwise the .tgz file, in the environment. */
    function PackageOrigin(): (o: Origin)
      requires environment.Some?
      reads this
      ensures o.env == environment.value
      ensures o.FromXml? <==> Truthy(xmlPath)
      ensures o.FromXml? ==> o.path == xmlPath
      ensures o.FromTgz? ==> o.path == tgzPath
    {
      if Truthy(xmlPath) then FromXml(xmlPath, environment.value) else FromTgz(tgzPath, environment.value)
    }

    /** `_getPackageFile()`: fails unless set up; otherwise the memoised
        representation, built on the first call only. */
    method GetPackageFile() returns (r: Result<PackageFile>)
      requires Valid()
      modifies this
      ensures Valid()
      ensures r.Err? <==> !SetupComplete()
      ensures r.Err? ==> r.error == SetupIncomplete && packageFile == old(packageFile) && packageLoads == old(packageLoads)
      ensures r.Ok? ==> packageFile == Some(r.value)
      ensures r.Ok? && old(packageFile).Some? ==> r.value == old(packageFile).value && packageLoads == old(packageLoads)
      ensures r.Ok? && old(packageFile).None? ==>
                r.value == PackageFile(PackageOrigin(), None, None, None) && packageLoads == [PackageOrigin()]
      ensures environment == old(environment) && factory == old(factory)
      ensures xmlPath == old(xmlPath) && tgzPath == old(tgzPath)
      ensures rwFile == old(rwFile) && rwLoads == old(rwLoads)
      ensures written == old(written) && cwd == old(cwd) && messages == old(messages)
    {
      var err := CheckSetup();
      if err.Some? {
        return Err(err.value);
      }
      if packageFile.None? {
        var origin := PackageOrigin();
        packageFile := Some(PackageFile(origin, None, None, None));
        packageLoads := packageLoads + [origin];
      }
      return Ok(packageFile.value);
    }

    /** `_getPackageRwFile()`: fails unless set up; otherwise the memoised
        writable representation of package.xml, built on the first call only. */
    method GetPackageRwFile() returns (r: Result<PackageFile>)
      requires Valid()
      modifies this
      ensures Valid()
      ensures r.Err? <==> !SetupComplete()
      ensures r.Err? ==> r.error == SetupIncomplete && rwFile == old(rwFile) && rwLoads == old(rwLoads)
      ensures r.Ok? ==> rwFile == Some(r.value)
      ensures r.Ok? && old(rwFile).Some? ==> r.value == old(rwFile).value && rwLoads == old(rwLoads)
      ensures r.Ok? && old(rwFile).None? ==>
                r.value == PackageFile(Writable(xmlPath, environment.value), None, None, None) &&
                rwLoads == [Writable(xmlPath, environment.value)]
      ensures environment == old(environment) && factory == old(factory)
      ensures xmlPath == old(xmlPath) && tgzPath == old(tgzPath)
      ensures packageFile == old(packageFile) && packageLoads == old(packageLoads)
      ensures written == old(written) && cwd == old(cwd) && messages == old(messages)
    {
      var err := CheckSetup();
      if err.Some? {
        return Err(err.value);
      }
      if rwFile.None? {
        var origin := Writable(xmlPath, environment.value);
        rwFile := Some(PackageFile(origin, None, None, None));
        rwLoads := rwLoads + [origin];
      }
      return Ok(rwFile.value);
    }

    /** `generateSnapshot($version, $archive_dir)`: the memoised package gets
        the snapshot version, the date and the time, the generator runs in
        `archiveDir`, its PEAR error is caught, the working directory is
        restored whatever the outcome, and the outcome is reported.
        `today` and `now` are the formatted clock readings. */
    method GenerateSnapshot(version: string, archiveDir: string, today: string, now: string, generate: Generator)
      returns (r: Result<Option<string>>)
      requires Valid()
      modifies this
      ensures Valid()
      ensures environment == old(environment) && factory == old(factory) && xmlPath == old(xmlPath) && tgzPath == old(tgzPath)
      ensures cwd == old(cwd)
      ensures r.Err? <==> !SetupComplete()
      ensures r.Err? ==> r.error == SetupIncomplete && messages == old(messages) && packageFile == old(packageFile)
      ensures r.Ok? ==>
                packageFile.Some? &&
                packageFile.value.release == Some(version) &&
                packageFile.value.date == Some(today) && packageFile.value.time == Some(now) &&
                packageFile.value.origin == (if old(packageFile).Some? then old(packageFile).value.origin else PackageOrigin()) &&
                exists errors :: Caught(generate(packageFile.value, archiveDir), r.value, errors) &&
                                 messages == old(messages) + [Report("snapshot", r.value, errors)]
      ensures r.Ok? && old(packageFile).Some? ==> packageLoads == old(packageLoads)
      ensures r.Ok? && old(packageFile).None? ==> packageLoads == [PackageOrigin()]
      ensures r.Err? ==> packageLoads == old(packageLoads)
      ensures rwFile == old(rwFile) && rwLoads == old(rwLoads) && written == old(written)
    {
      var pkg := GetPackageFile();
      if pkg.Err? {
        return Err(pkg.error);
      }
      var p := pkg.value.(release := Some(version), date := Some(today), time := Some(now));
      packageFile := Some(p);
      var oldDir := cwd;
      cwd := archiveDir;
      var result, errors := CatchPearError(generate(p, cwd));
      cwd := oldDir;
      messages := messages + [Report("snapshot", result, errors)];
      assert Caught(generate(packageFile.value, archiveDir), result, errors);
      return Ok(result);
    }

    /** `updatePackageFile('update')`: the writable representation is written
        back to package.xml and the success is reported. Refreshing its
        contents is not modelled. */
    method UpdatePackageFile() returns (err: Option<Error>)
      requires Valid()
      modifies this
      ensures Valid()
      ensures environment == old(environment) && factory == old(factory) && xmlPath == old(xmlPath) && tgzPath == old(tgzPath)
      ensures err.None? <==> SetupComplete()
      ensures err.Some? ==> err.value == SetupIncomplete && written == old(written) && messages == old(messages)
      ensures err.None? ==> rwFile.Some? && written == old(written) + [rwFile.value.origin.path] &&
                            messages == old(messages) + [OkLine("Successfully updated " + PathText(xmlPath))]
      ensures packageFile == old(packageFile) && packageLoads == old(packageLoads) && cwd == old(cwd)
      ensures old(rwFile).Some? ==> rwFile == old(rwFile) && rwLoads == old(rwLoads)
      ensures err.Some? ==> rwFile == old(rwFile) && rwLoads == old(rwLoads)
      ensures err.None? && old(rwFile).None? ==>
                rwFile == Some(PackageFile(Writable(xmlPath, environment.value), None, None, None)) &&
                rwLoads == [Writable(xmlPath, environment.value)]
    {
      var rw := GetPackageRwFile();
      if rw.Err? {
        return Some(rw.error);
      }
      written := written + [rw.value.origin.path];
      messages := messages + [OkLine("Successfully updated " + PathText(xmlPath))];
      return None;
    }

    /** `generateRelease($manual)`: unless `manual`, package.xml is updated
        first; then the generator runs on the memoised package in the working
        directory, its PEAR error is caught and the outcome is reported. */
    method GenerateRelease(manual: bool, generate: Generator) returns (r: Result<Option<string>>)
      requires Valid()
      modifies this
      ensures Valid()
      ensures environment == old(environment) && factory == old(factory) && xmlPath == old(xmlPath) && tgzPath == old(tgzPath)
      ensures cwd == old(cwd)
      ensures r.Err? <==> !SetupComplete()
      ensures r.Err? ==> r.error == SetupIncomplete && messages == old(messages) && written == old(written)
      ensures r.Err? ==> packageFile == old(packageFile) && packageLoads == old(packageLoads) &&
                         rwFile == old(rwFile) && rwLoads == old(rwLoads)
      ensures manual ==> written == old(written) && rwFile == old(rwFile) && rwLoads == old(rwLoads)
      ensures !manual && r.Ok? ==> rwFile.Some? && written == old(written) + [rwFile.value.origin.path]
      ensures !manual && r.Ok? && old(rwFile).Some? ==> rwFile == old(rwFile) && rwLoads == old(rwLoads)
      ensures !manual && r.Ok? && old(rwFile).None? ==>
                rwFile == Some(PackageFile(Writable(xmlPath, environment.value), None, None, None)) &&
                rwLoads == [Writable(xmlPath, environment.value)]
      ensures r.Ok? ==>
                packageFile.Some? &&
                (old(packageFile).Some? ==> packageFile == old(packageFile) && packageLoads == old(packageLoads)) &&
                (old(packageFile).None? ==>
                   packageFile == Some(PackageFile(PackageOrigin(), None, None, None)) && packageLoads == [PackageOrigin()]) &&
                exists errors :: Caught(generate(packageFile.value, cwd), r.value, errors) &&
                                 messages == old(messages) +
                                   (if manual then [] else [OkLine("Successfully updated " + PathText(xmlPath))]) +
                                   [Report("release package", r.value, errors)]
    {
      if !manual {
        var err := UpdatePackageFile();
        if err.Some? {
          return Err(err.value);
        }
      }
      var pkg := GetPackageFile();
      if pkg.Err? {
        return Err(pkg.error);
      }
      var result, errors := CatchPearError(generate(pkg.value, cwd));
      messages := messages + [Report("release package", result, errors)];
      assert Caught(generate(packageFile.value, cwd), result, errors);
      return Ok(result);
    }
  }
}
