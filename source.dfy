/** Components_Component_Source: a component checked out in a directory, with
    its lazily opened file wrappers and the operations that rewrite
    package.xml, composer.json and the changelog from `.horde.yml`. */
module SourceComponent {
  import opened Common
  import opened Descriptor
  import opened Dependencies
  import opened PackageXmlModel
  import opened Composer
  import opened Changelog
  import opened Archive

  /** The files `getWrapper` can wrap. */
  datatype Kind =
    | HordeYmlFile
    | ComposerJsonFile
    | PackageXmlFile
    | ChangelogYmlFile
    | ChangesFile
    | ApplicationPhpFile

  /** The name a wrapper is asked for by, which is also its key in the cache. */
  function KindName(k: Kind): string {
    match k
    case HordeYmlFile => "HordeYml"
    case ComposerJsonFile => "ComposerJson"
    case PackageXmlFile => "PackageXml"
    case ChangelogYmlFile => "ChangelogYml"
    case ChangesFile => "Changes"
    case ApplicationPhpFile => "ApplicationPhp"
  }

  /** The `switch ($file)` of `getWrapper`: the wrapper a name selects, if any. */
  function KindOfName(name: string): (r: Option<Kind>)
    ensures r.Some? ==> KindName(r.value) == name
    ensures r.None? <==> forall k: Kind :: KindName(k) != name
  {
    if name == "HordeYml" then Some(HordeYmlFile)
    else if name == "ComposerJson" then Some(ComposerJsonFile)
    else if name == "PackageXml" then Some(PackageXmlFile)
    else if name == "ChangelogYml" then Some(ChangelogYmlFile)
    else if name == "Changes" then Some(ChangesFile)
    else if name == "ApplicationPhp" then Some(ApplicationPhpFile)
    else None
  }

  /** A wrapped file: which one, and the directory it is opened in. */
  datatype Loc = Loc(kind: Kind, dir: string)

  /** What a wrapper holds, one variant per kind of file. Changes and
      Application.php are reduced to their text and their version. */
  datatype Content =
    | YmlDoc(yml: HordeYml)
    | ComposerDoc(json: Json)
    | XmlDoc(xml: PackageXml)
    | LogDoc(log: Log)
    | ChangesDoc(text: string)
    | AppDoc(version: string)

  predicate Fits(k: Kind, content: Content) {
    match k
    case HordeYmlFile => content.YmlDoc?
    case ComposerJsonFile => content.ComposerDoc?
    case PackageXmlFile => content.XmlDoc?
    case ChangelogYmlFile => content.LogDoc?
    case ChangesFile => content.ChangesDoc?
    case ApplicationPhpFile => content.AppDoc?
  }

  const EmptyPackageXml: PackageXml :=
    PackageXml("", "", "", "", "", "", "", "", "", None, [], DependencySection([], []), false, [])

  /** What a wrapper over a file that does not exist holds. */
  function EmptyContent(k: Kind): (r: Content)
    ensures Fits(k, r)
  {
    match k
    case HordeYmlFile => YmlDoc(EmptyHordeYml)
    case ComposerJsonFile => ComposerDoc(JObj([]))
    case PackageXmlFile => XmlDoc(EmptyPackageXml)
    case ChangelogYmlFile => LogDoc([])
    case ChangesFile => ChangesDoc("")
    case ApplicationPhpFile => AppDoc("")
  }

  /** The files on disk, each as its wrapper reads it. */
  type Disk = map<Loc, Content>

  predicate DiskFits(disk: Disk) {
    forall l | l in disk :: Fits(l.kind, disk[l])
  }

  /** A file wrapper: the file it wraps and what it holds now. */
  datatype Handle = Handle(loc: Loc, content: Content)

  /** A freshly constructed wrapper: the file's content, or the empty one. */
  function Open(disk: Disk, l: Loc): Handle {
    Handle(l, if l in disk then disk[l] else EmptyContent(l.kind))
  }

  function YmlOf(content: Content): HordeYml {
    if content.YmlDoc? then content.yml else EmptyHordeYml
  }

  function XmlOf(content: Content): PackageXml {
    if content.XmlDoc? then content.xml else EmptyPackageXml
  }

  function LogOf(content: Content): Log {
    if content.LogDoc? then content.log else []
  }

  /** `$this->_wrappers`: the opened wrappers by name, in the order they were
      opened. */
  type Wrappers = Assoc<Handle>

  /** Each cached wrapper sits under its own name and holds its kind of content. */
  predicate WrappersFit(w: Wrappers) {
    UniqueKeys(w) &&
    forall i :: 0 <= i < |w| ==> w[i].0 == KindName(w[i].1.loc.kind) && Fits(w[i].1.loc.kind, w[i].1.content)
  }

  /** `str_replace('_', '/', $id)`. */
  function Slashed(id: string): (r: string)
    ensures |r| == |id|
    ensures forall i :: 0 <= i < |id| ==> r[i] == if id[i] == '_' then '/' else id[i]
  {
    if id == [] then [] else [if id[0] == '_' then '/' else id[0]] + Slashed(id[1..])
  }

  /** Storing a wrapper under its own name keeps the cache well formed. */
  lemma {:induction false} StoreFits(w: Wrappers, name: string, h: Handle)
    requires WrappersFit(w)
    requires name == KindName(h.loc.kind) && Fits(h.loc.kind, h.content)
    ensures WrappersFit(Put(w, name, h))
    ensures Lookup(Put(w, name, h), name) == Some(h)
  {
    PutUnique(w, name, h);
    PutKeys(w, name, h);
    LookupPut(w, name, h, name);
    var r := Put(w, name, h);
    forall i | 0 <= i < |r| ensures r[i].0 == KindName(r[i].1.loc.kind) && Fits(r[i].1.loc.kind, r[i].1.content) {
      if name in Keys(w) {
        PutPresent(w, name, h, i);
        assert r[i] == if w[i].0 == name then (name, h) else w[i];
      } else {
        assert r == w + [(name, h)];
        assert r[i] == if i < |w| then w[i] else (name, h);
      }
    }
  }

  /** Dropping a wrapper from the cache keeps it well formed. */
  lemma UnsetFits(w: Wrappers, name: string)
    requires WrappersFit(w)
    ensures WrappersFit(Unset(w, name))
  {
    UnsetKeeps(w, name);
    var u := Unset(w, name);
    forall i | 0 <= i < |u| ensures u[i].0 == KindName(u[i].1.loc.kind) && Fits(u[i].1.loc.kind, u[i].1.content) {
      assert u[i] in w;
      var j :| 0 <= j < |w| && w[j] == u[i];
    }
  }

  /** A cached wrapper holds its kind of content. */
  lemma LookupFits(w: Wrappers, name: string)
    requires WrappersFit(w) && Lookup(w, name).Some?
    ensures Fits(Lookup(w, name).value.loc.kind, Lookup(w, name).value.content)
  {
    LookupKeys(w, name);
    var j :| 0 <= j < |w| && w[j] == (name, Lookup(w, name).value);
  }

  /** The disk after the named wrappers, in turn, have written their files. */
  function SaveNamed(disk: Disk, w: Wrappers, names: seq<string>): Disk
    decreases |names|
  {
    if names == [] then disk
    else
      var d := SaveNamed(disk, w, names[..|names| - 1]);
      match Lookup(w, names[|names| - 1])
      case Some(h) => d[h.loc := h.content]
      case None => d
  }

  /** Saving named wrappers keeps every file's kind of content, writes each
      named wrapper so that its file reads back as the wrapper holds it (the
      later of two wrappers of one file wins, and cached wrappers have
      distinct files), and writes no file of an unnamed wrapper. */
  lemma {:induction false} SaveNamedSpec(disk: Disk, w: Wrappers, names: seq<string>)
    requires WrappersFit(w) && DiskFits(disk)
    ensures DiskFits(SaveNamed(disk, w, names))
    ensures forall n :: n in names && Lookup(w, n).Some? ==>
              Open(SaveNamed(disk, w, names), Lookup(w, n).value.loc) == Lookup(w, n).value
    ensures forall l :: (forall n :: n in names && Lookup(w, n).Some? ==> Lookup(w, n).value.loc != l) ==>
              (l in SaveNamed(disk, w, names) <==> l in disk) &&
              (l in disk ==> SaveNamed(disk, w, names)[l] == disk[l])
    decreases |names|
  {
    if names != [] {
      var m := |names| - 1;
      var last := names[m];
      SaveNamedSpec(disk, w, names[..m]);
      assert forall n :: n in names <==> n in names[..m] || n == last;
      if Lookup(w, last).Some? {
        LookupFits(w, last);
        forall n | n in names[..m] && Lookup(w, n).Some? && n != last
          ensures Lookup(w, n).value.loc != Lookup(w, last).value.loc
        {
          DistinctLookups(w, n, last);
        }
      }
    }
  }

  /** Two names cached in well-formed wrappers wrap different files. */
  lemma DistinctLookups(w: Wrappers, a: string, b: string)
    requires WrappersFit(w) && Lookup(w, a).Some? && Lookup(w, b).Some? && a != b
    ensures Lookup(w, a).value.loc != Lookup(w, b).value.loc
  {
    LookupKeys(w, a);
    LookupKeys(w, b);
    var i :| 0 <= i < |w| && w[i] == (a, Lookup(w, a).value);
    var j :| 0 <= j < |w| && w[j] == (b, Lookup(w, b).value);
  }

  /** The local paths of the named wrappers, for the result message. */
  function Paths(w: Wrappers, names: seq<string>, localPath: Loc -> string): (r: seq<string>)
    ensures |r| == |names|
    ensures forall i :: 0 <= i < |names| ==>
              r[i] == match Lookup(w, names[i]) case Some(h) => localPath(h.loc) case None => ""
  {
    if names == [] then []
    else [match Lookup(w, names[0]) case Some(h) => localPath(h.loc) case None => ""] + Paths(w, names[1..], localPath)
  }

  /** The message of `nextVersion`. */
  function NextVersionMessage(version: string, note: string, api: Option<string>, rel: Option<string>,
                              pretend: bool, list: string): string
  {
    (if pretend then "Would add next version \"" + version + "\" with the initial note \"" + note + "\" to " + list + " now."
     else "Added next version \"" + version + "\" with the initial note \"" + note + "\" to " + list + ".") +
    (if rel.Some? then " Release stability: \"" + rel.value + "\"." else "") +
    (if api.Some? then " API stability: \"" + api.value + "\"." else "")
  }

  /** Storing under one name keeps every other cached wrapper. */
  lemma PutKeeps(w: Wrappers, name: string, h: Handle, k: string)
    requires k != name && k in Keys(w)
    ensures k in Keys(Put(w, name, h)) && Lookup(Put(w, name, h), k) == Lookup(w, k)
  {
    PutKeys(w, name, h);
    LookupPut(w, name, h, k);
  }

  /** The collaborators whose code is not part of this model. */
  datatype Collaborators = Collaborators(
    validatePear: string -> string,                               // Components_Helper_Version::validatePear
    composerToPear: ConstraintTranslator,                         // Components_Helper_Version::composerToPear
    versionLe: VersionLe,                                         // version_compare($a, $b) <= 0
    pearToHordeWithBranch: (Option<string>, string) -> string,    // Components_Helper_Version::pearToHordeWithBranch
    branch: string,                                               // the release notes' branch
    render: Handle -> string,                                     // a wrapper's string form
    diff: (Handle, Option<Content>) -> string,                    // a wrapper's diff against its file
    localPath: Loc -> string,                                     // getLocalPath($this->_directory)
    fileName: Loc -> string,                                      // getFileName()
    fullPath: Loc -> string,                                      // getFullPath()
    packageTemplate: bool -> PackageXml,                          // create(Theme)PackageFile, by theme
    contentList: bool -> seq<string>,                             // create(Theme)ContentList, by theme
    archiveEnvironment: string)                                   // the PEAR environment of _getPackageFile()

  /** The disk after each wrapper in turn has written its content to its file. */
  function SaveAll(disk: Disk, w: Wrappers): Disk
    decreases |w|
  {
    if w == [] then disk
    else
      var last := w[|w| - 1].1;
      SaveAll(disk, w[..|w| - 1])[last.loc := last.content]
  }

  lemma FitsPrefix(w: Wrappers, n: nat)
    requires WrappersFit(w) && n <= |w|
    ensures WrappersFit(w[..n])
  {
    assert forall i :: 0 <= i < n ==> w[..n][i] == w[i];
  }

  /** Wrappers under different names wrap different files. */
  lemma DistinctFiles(w: Wrappers, i: nat, j: nat)
    requires WrappersFit(w) && i < j < |w|
    ensures w[i].1.loc != w[j].1.loc
  {
    assert w[i].0 != w[j].0;
  }

  lemma {:induction false} SaveAllFits(disk: Disk, w: Wrappers)
    requires WrappersFit(w) && DiskFits(disk)
    ensures DiskFits(SaveAll(disk, w))
    decreases |w|
  {
    if w != [] {
      FitsPrefix(w, |w| - 1);
      SaveAllFits(disk, w[..|w| - 1]);
    }
  }

  /** A file no wrapper wraps is untouched by the saves. */
  lemma {:induction false} SaveAllFrame(disk: Disk, w: Wrappers, l: Loc)
    requires forall i :: 0 <= i < |w| ==> w[i].1.loc != l
    ensures l in SaveAll(disk, w) <==> l in disk
    ensures l in disk ==> SaveAll(disk, w)[l] == disk[l]
    decreases |w|
  {
    if w != [] {
      var n := |w| - 1;
      assert forall i :: 0 <= i < n ==> w[..n][i] == w[i];
      SaveAllFrame(disk, w[..n], l);
    }
  }

  /** Each saved wrapper's file reads back as the wrapper holds it. */
  lemma {:induction false} SaveAllReadsBack(disk: Disk, w: Wrappers, i: nat)
    requires WrappersFit(w) && i < |w|
    ensures Open(SaveAll(disk, w), w[i].1.loc) == w[i].1
    decreases |w|
  {
    var n := |w| - 1;
    if i < n {
      FitsPrefix(w, n);
      assert w[..n][i] == w[i];
      SaveAllReadsBack(disk, w[..n], i);
      DistinctFiles(w, i, n);
    }
  }

  /** After the saves, every saved wrapper's file holds what the wrapper
      held, files no wrapper wraps are untouched, and every file still holds
      its kind of content. */
  lemma SaveAllSpec(disk: Disk, w: Wrappers)
    requires WrappersFit(w) && DiskFits(disk)
    ensures DiskFits(SaveAll(disk, w))
    ensures forall i :: 0 <= i < |w| ==> Open(SaveAll(disk, w), w[i].1.loc) == w[i].1
    ensures forall l :: (forall i :: 0 <= i < |w| ==> w[i].1.loc != l) ==>
              (l in SaveAll(disk, w) <==> l in disk) && (l in disk ==> SaveAll(disk, w)[l] == disk[l])
  {
    SaveAllFits(disk, w);
    forall i | 0 <= i < |w| ensures Open(SaveAll(disk, w), w[i].1.loc) == w[i].1 {
      SaveAllReadsBack(disk, w, i);
    }
    forall l | forall i :: 0 <= i < |w| ==> w[i].1.loc != l
      ensures (l in SaveAll(disk, w) <==> l in disk) && (l in disk ==> SaveAll(disk, w)[l] == disk[l])
    {
      SaveAllFrame(disk, w, l);
    }
  }

  /** What `updatePackage` returns: the printed wrappers, the diff, or true
      after saving. */
  datatype Outcome = Printed(text: string) | Diffed(text: string) | Applied

  /** What `placeArchive` returns: the archive path (None: false) and the
      error lines. The captured PEAR output is not modelled. */
  datatype Archived = Archived(result: Option<string>, errors: seq<string>)

  class Source {
    /** The component directory (already resolved by realpath). */
    const directory: string
    /** The directories that exist, for `is_dir`. */
    const dirs: set<string>
    /** The other paths that exist, for `file_exists`. */
    const files: set<string>
    const c: Collaborators

    var disk: Disk
    var wrappers: Wrappers
    var cwd: string

    ghost predicate Valid()
      reads this
    {
      DiskFits(disk) && WrappersFit(wrappers)
    }

    constructor (directory: string, dirs: set<string>, files: set<string>, c: Collaborators,
                 disk: Disk, cwd: string)
      requires DiskFits(disk)
      ensures Valid()
      ensures this.directory == directory && this.dirs == dirs && this.files == files && this.c == c
      ensures this.disk == disk && this.wrappers == [] && this.cwd == cwd
    {
      this.directory := directory;
      this.dirs := dirs;
      this.files := files;
      this.c := c;
      this.disk := disk;
      this.wrappers := [];
      this.cwd := cwd;
    }

    /** `getDocDirectory` once the descriptor is read: doc/ if it is a
        directory, else docs/ if that is one, else doc/; a library then
        descends into Horde/ and its id with '_' as '/'. */
    function DocDirectoryOf(y: HordeYml): (r: string)
      ensures StartsWith(r, directory + "/doc")
      ensures StartsWith(r, directory + "/docs") <==> directory + "/doc" !in dirs && directory + "/docs" in dirs
      ensures !IsLibrary(y) ==> r == directory + "/doc" || r == directory + "/docs"
      ensures IsLibrary(y) ==> exists base :: base in {directory + "/doc", directory + "/docs"} && r == base + "/Horde/" + Slashed(y.id)
    {
      var base := if directory + "/doc" in dirs then directory + "/doc"
                  else if directory + "/docs" in dirs then directory + "/docs"
                  else directory + "/doc";
      var r := if IsLibrary(y) then base + "/Horde/" + Slashed(y.id) else base;
      assert r[..|directory + "/doc"|] == directory + "/doc";
      assert base == directory + "/doc" ==> !StartsWith(r, directory + "/docs") by {
        if base == directory + "/doc" && |r| >= |directory + "/docs"| {
          assert r[|directory| + 4] == '/';
          assert (directory + "/docs")[|directory| + 4] == 's';
        }
      }
      assert base == directory + "/docs" ==> r[..|directory + "/docs"|] == directory + "/docs";
      r
    }

    /** The wrappers and the outcome `getWrapper($name)` leaves, given the disk
        and the wrappers opened so far. A cached wrapper is returned as it is.
        Otherwise the wrapper is opened and stored under its name; the
        descriptor's wrapper is stored before a missing file is reported; the
        changelog and CHANGES wrappers live in the doc directory, for which
        the descriptor is opened first; any other name is refused. */
    function Fetch(disk: Disk, w: Wrappers, name: string): (Wrappers, Result<Handle>)
      decreases if name == "HordeYml" then 0 else 1
    {
      match Lookup(w, name)
      case Some(h) => (w, Ok(h))
      case None =>
        match KindOfName(name)
        case None => (w, Err(UnsupportedWrapper(name)))
        case Some(k) =>
          if k == ChangelogYmlFile || k == ChangesFile then
            var (w1, y) := Fetch(disk, w, "HordeYml");
            if y.Err? then (w1, Err(y.error))
            else
              var h := Open(disk, Loc(k, DocDirectoryOf(YmlOf(y.value.content))));
              (Put(w1, name, h), Ok(h))
          else
            var h := Open(disk, Loc(k, directory));
            (Put(w, name, h),
             if k == HordeYmlFile && h.loc !in disk then Err(MissingFile(c.fileName(h.loc))) else Ok(h))
    }

    /** What `getWrapper` does to the cache: it keeps its wrappers and their
        order and gains at most the requested one and the descriptor; a
        successful call leaves the wrapper it returns cached, and a request
        for the descriptor caches it even when its file is missing. */
    lemma FetchStore(disk: Disk, w: Wrappers, name: string)
      requires WrappersFit(w) && DiskFits(disk)
      ensures var (w1, r) := Fetch(disk, w, name);
              WrappersFit(w1) && |w| <= |w1| && w1[..|w|] == w &&
              (forall n :: n in Keys(w1) ==> n in Keys(w) || n == name || n == "HordeYml") &&
              (r.Ok? ==> Lookup(w1, name) == Some(r.value)) &&
              (name == "HordeYml" ==> "HordeYml" in Keys(w1))
      decreases if name == "HordeYml" then 0 else 1
    {
      LookupKeys(w, name);
      if Lookup(w, name).None? && KindOfName(name).Some? {
        var k := KindOfName(name).value;
        if k == ChangelogYmlFile || k == ChangesFile {
          FetchStore(disk, w, "HordeYml");
          var (w1, y) := Fetch(disk, w, "HordeYml");
          if y.Ok? {
            StorePrefix(w, w1, name, Open(disk, Loc(k, DocDirectoryOf(YmlOf(y.value.content)))));
          }
        } else {
          StorePrefix(w, w, name, Open(disk, Loc(k, directory)));
        }
      }
    }

    /** Storing a new wrapper behind a cache that extends `w`. */
    lemma StorePrefix(w: Wrappers, w1: Wrappers, name: string, h: Handle)
      requires WrappersFit(w1) && |w| <= |w1| && w1[..|w|] == w
      requires name !in Keys(w1)
      requires name == KindName(h.loc.kind) && Fits(h.loc.kind, h.content)
      ensures WrappersFit(Put(w1, name, h)) && Lookup(Put(w1, name, h), name) == Some(h)
      ensures |w| <= |Put(w1, name, h)| && Put(w1, name, h)[..|w|] == w
      ensures Keys(Put(w1, name, h)) == Keys(w1) + {name}
    {
      StoreFits(w1, name, h);
      PutKeys(w1, name, h);
      assert (w1 + [(name, h)])[..|w|] == w1[..|w|];
    }

    /** What `getWrapper` returns: a cached wrapper as it is, without opening
        it again; for an unsupported name the error and an unchanged cache;
        otherwise a wrapper of the requested kind, and the only error is the
        descriptor's missing file. */
    lemma FetchOutcome(disk: Disk, w: Wrappers, name: string)
      requires WrappersFit(w) && DiskFits(disk)
      ensures var (w1, r) := Fetch(disk, w, name);
              (name in Keys(w) ==> w1 == w && Lookup(w, name).Some? && r == Ok(Lookup(w, name).value)) &&
              (KindOfName(name).None? ==> w1 == w && r == Err(UnsupportedWrapper(name))) &&
              (r.Ok? ==> KindOfName(name) == Some(r.value.loc.kind)) &&
              (r.Err? && KindOfName(name).Some? ==>
                 r.error == MissingFile(c.fileName(Loc(HordeYmlFile, directory))) &&
                 "HordeYml" !in Keys(w) && Loc(HordeYmlFile, directory) !in disk)
      decreases if name == "HordeYml" then 0 else 1
    {
      LookupKeys(w, name);
      if Lookup(w, name).None? {
        if KindOfName(name).Some? {
          var k := KindOfName(name).value;
          if k == ChangelogYmlFile || k == ChangesFile {
            FetchOutcome(disk, w, "HordeYml");
          }
        } else {
          NeverCached(w, name);
        }
      }
    }

    /** Only supported names are ever cached. */
    lemma NeverCached(w: Wrappers, name: string)
      requires WrappersFit(w) && KindOfName(name).None?
      ensures name !in Keys(w)
    {
      if name in Keys(w) {
        var i := KeyIndex(w, name);
        assert false;
      }
    }

    /** A second request for a wrapper the first one cached returns the same
        wrapper and changes nothing; after a failed request for the
        descriptor, a second one succeeds with the stored wrapper. */
    lemma FetchTwice(disk: Disk, w: Wrappers, name: string)
      requires WrappersFit(w) && DiskFits(disk)
      ensures var (w1, r) := Fetch(disk, w, name);
              (r.Ok? ==> Fetch(disk, w1, name) == (w1, r)) &&
              (name == "HordeYml" ==> Fetch(disk, w1, name).1.Ok? && Fetch(disk, w1, name).0 == w1)
    {
      FetchStore(disk, w, name);
      var (w1, r) := Fetch(disk, w, name);
      LookupKeys(w1, name);
      if r.Ok? {
        assert Lookup(w1, name) == Some(r.value);
      }
    }

    /** `getWrapper($file)`. */
    method GetWrapper(name: string) returns (r: Result<Handle>)
      requires Valid()
      modifies this
      ensures Valid()
      ensures (wrappers, r) == old(Fetch(disk, wrappers, name))
      ensures r.Ok? ==> KindOfName(name) == Some(r.value.loc.kind)
      ensures disk == old(disk) && cwd == old(cwd)
      decreases if name == "HordeYml" then 0 else 2
    {
      FetchStore(disk, wrappers, name);
      FetchOutcome(disk, wrappers, name);
      var cached := Lookup(wrappers, name);
      if cached.Some? {
        return Ok(cached.value);
      }
      var kind := KindOfName(name);
      if kind.None? {
        return Err(UnsupportedWrapper(name));
      }
      var k := kind.value;
      if k == ChangelogYmlFile || k == ChangesFile {
        var dir := GetDocDirectory();
        if dir.Err? {
          return Err(dir.error);
        }
        var h := Open(disk, Loc(k, dir.value));
        wrappers := Put(wrappers, name, h);
        return Ok(h);
      }
      var h := Open(disk, Loc(k, directory));
      wrappers := Put(wrappers, name, h);
      if k == HordeYmlFile && h.loc !in disk {
        return Err(MissingFile(c.fileName(h.loc)));
      }
      return Ok(h);
    }

    /** `getDocDirectory()`: opens the descriptor (failing as that does). */
    method GetDocDirectory() returns (r: Result<string>)
      requires Valid()
      modifies this
      ensures Valid()
      ensures var (w, y) := old(Fetch(disk, wrappers, "HordeYml"));
              wrappers == w &&
              r == if y.Ok? then Ok(DocDirectoryOf(YmlOf(y.value.content))) else Err(y.error)
      ensures disk == old(disk) && cwd == old(cwd)
      decreases 1
    {
      var info := GetWrapper("HordeYml");
      if info.Err? {
        return Err(info.error);
      }
      return Ok(DocDirectoryOf(YmlOf(info.value.content)));
    }

    /** A wrapper's diff against the file it wraps. */
    function WrapperDiff(disk: Disk, h: Handle): string {
      c.diff(h, if h.loc in disk then Some(disk[h.loc]) else None)
    }

    /** One wrapper's part of the 'diff' output: nothing for an empty diff,
        otherwise two header lines naming its local path and the diff. */
    function DiffSection(disk: Disk, h: Handle): string {
      var d := WrapperDiff(disk, h);
      if Empty(d) then ""
      else "--- a/" + c.localPath(h.loc) + "\n" + "--- b/" + c.localPath(h.loc) + "\n" + d
    }

    /** The 'diff' output: the sections of the wrappers in cache order. */
    function DiffText(disk: Disk, w: Wrappers): string
      decreases |w|
    {
      if w == [] then "" else DiffText(disk, w[..|w| - 1]) + DiffSection(disk, w[|w| - 1].1)
    }

    /** The diff output is empty exactly when every wrapper's diff is empty. */
    lemma {:induction false} DiffEmpty(disk: Disk, w: Wrappers)
      ensures DiffText(disk, w) == "" <==> forall i :: 0 <= i < |w| ==> Empty(WrapperDiff(disk, w[i].1))
      decreases |w|
    {
      if w != [] {
        var n := |w| - 1;
        DiffEmpty(disk, w[..n]);
        assert forall i :: 0 <= i < n ==> w[..n][i] == w[i];
        var sec := DiffSection(disk, w[n].1);
        assert !Empty(WrapperDiff(disk, w[n].1)) ==> |sec| > 0;
        assert DiffText(disk, w) == DiffText(disk, w[..n]) + sec;
      }
    }

    /** The foreach of the 'diff' action. */
    method DiffWrappers() returns (d: string)
      ensures d == DiffText(disk, wrappers)
    {
      d := "";
      var i := 0;
      while i < |wrappers|
        invariant 0 <= i <= |wrappers|
        invariant d == DiffText(disk, wrappers[..i])
      {
        assert wrappers[..i + 1][..i] == wrappers[..i];
        var h := wrappers[i].1;
        var tmp := WrapperDiff(disk, h);
        if !Empty(tmp) {
          var path := c.localPath(h.loc);
          d := d + ("--- a/" + path + "\n" + "--- b/" + path + "\n" + WrapperDiff(disk, h));
        }
        i := i + 1;
      }
      assert wrappers[..i] == wrappers;
    }

    /** The wrappers' string forms, in cache order. */
    function Renders(w: Wrappers): (r: seq<string>)
      ensures |r| == |w|
      ensures forall i :: 0 <= i < |w| ==> r[i] == c.render(w[i].1)
    {
      if w == [] then [] else [c.render(w[0].1)] + Renders(w[1..])
    }

    /** `saveWrappers()`: every cached wrapper writes its file, in cache order. */
    method SaveWrappers()
      requires Valid()
      modifies this
      ensures Valid()
      ensures disk == SaveAll(old(disk), wrappers)
      ensures wrappers == old(wrappers) && cwd == old(cwd)
    {
      SaveAllSpec(disk, wrappers);
      var w, d := wrappers, disk;
      var i := 0;
      while i < |w|
        invariant 0 <= i <= |w|
        invariant d == SaveAll(old(disk), w[..i])
      {
        assert w[..i + 1][..i] == w[..i];
        var h := w[i].1;
        d := d[h.loc := h.content];
        i := i + 1;
      }
      assert w[..i] == w;
      disk := d;
    }

    /** The release date `updatePackageFromHordeYml` writes: when changelog.yml
        exists in the doc directory, the date of the release's entry (the
        empty text when it has none); otherwise no date. */
    function ReleaseDate(disk: Disk, w: Wrappers, y: HordeYml): (Wrappers, Result<Option<string>>) {
      if Loc(ChangelogYmlFile, DocDirectoryOf(y)) !in disk then (w, Ok(None))
      else
        var (w1, lr) := Fetch(disk, w, "ChangelogYml");
        if lr.Err? then (w1, Err(lr.error))
        else
          match Lookup(LogOf(lr.value.content), y.releaseVersion)
          case Some(e) => (w1, Ok(Some(e.date)))
          case None => (w1, Ok(Some("")))
    }

    /** The release date lookup of `updatePackageFromHordeYml`. */
    method GetReleaseDate(y: HordeYml) returns (r: Result<Option<string>>)
      requires Valid()
      modifies this
      ensures Valid()
      ensures (wrappers, r) == old(ReleaseDate(disk, wrappers, y))
      ensures disk == old(disk) && cwd == old(cwd)
    {
      if Loc(ChangelogYmlFile, DocDirectoryOf(y)) !in disk {
        return Ok(None);
      }
      var lr := GetWrapper("ChangelogYml");
      if lr.Err? {
        return Err(lr.error);
      }
      match Lookup(LogOf(lr.value.content), y.releaseVersion)
      case Some(e) => r := Ok(Some(e.date));
      case None => r := Ok(Some(""));
    }

    /** The cache and outcome of `updatePackageFromHordeYml`: the package.xml
        wrapper is rewritten by `SyncPackageXml` from the descriptor, even
        when the dependency rewrite then fails. */
    function SyncedPackageXml(disk: Disk, w: Wrappers): (Wrappers, Result<Handle>) {
      var (w1, xr) := Fetch(disk, w, "PackageXml");
      if xr.Err? then (w1, xr)
      else
        var (w2, yr) := Fetch(disk, w1, "HordeYml");
        if yr.Err? then (w2, Err(yr.error))
        else
          var y := YmlOf(yr.value.content);
          var (w3, date) := ReleaseDate(disk, w2, y);
          if date.Err? then (w3, Err(date.error))
          else
            var (x, err) := SyncPackageXml(XmlOf(xr.value.content), y, date.value, c.validatePear, c.composerToPear);
            var h := Handle(xr.value.loc, XmlDoc(x));
            (Put(w3, "PackageXml", h), if err.Some? then Err(err.value) else Ok(h))
    }

    /** `updatePackageFromHordeYml()`. */
    method UpdatePackageFromHordeYml() returns (r: Result<Handle>)
      requires Valid()
      modifies this
      ensures Valid()
      ensures (wrappers, r) == old(SyncedPackageXml(disk, wrappers))
      ensures r.Ok? ==> r.value.loc.kind == PackageXmlFile
      ensures disk == old(disk) && cwd == old(cwd)
    {
      var xr := GetWrapper("PackageXml");
      if xr.Err? {
        return xr;
      }
      var yr := GetWrapper("HordeYml");
      if yr.Err? {
        return Err(yr.error);
      }
      var y := YmlOf(yr.value.content);
      var dr := GetReleaseDate(y);
      if dr.Err? {
        return Err(dr.error);
      }
      var date := dr.value;
      var x := XmlOf(xr.value.content);
      var texts := SyncPackageXml(x, y, date, c.validatePear, c.composerToPear).0.(deps := x.deps);
      var err: Option<Error> := None;
      if y.dependencies != [] {
        var section;
        section, err := UpdateDependencies(x.deps, y.dependencies, c.composerToPear);
        texts := texts.(deps := section);
      }
      assert (texts, err) == SyncPackageXml(x, y, date, c.validatePear, c.composerToPear);
      var h := Handle(xr.value.loc, XmlDoc(texts));
      StoreFits(wrappers, "PackageXml", h);
      wrappers := Put(wrappers, "PackageXml", h);
      if err.Some? {
        return Err(err.value);
      }
      return Ok(h);
    }

    /** The cache and outcome of `updateComposerFromHordeYml`: the composer.json
        wrapper holds the document built from the descriptor alone. */
    function SyncedComposer(disk: Disk, w: Wrappers, today: string): (Wrappers, Result<Handle>) {
      var (w1, yr) := Fetch(disk, w, "HordeYml");
      if yr.Err? then (w1, Err(yr.error))
      else
        var y := YmlOf(yr.value.content);
        var (w2, jr) := Fetch(disk, w1, "ComposerJson");
        if jr.Err? then (w2, jr)
        else
          var flat := ApplyAll(InitialFlat, Assignments(y.dependencies));
          var h := Handle(jr.value.loc, ComposerDoc(ComposerDocument(y, flat, today)));
          (Put(w2, "ComposerJson", h), Ok(h))
    }

    /** `updateComposerFromHordeYml()`; `today` is `gmdate('Y-m-d')`. */
    method UpdateComposerFromHordeYml(today: string) returns (r: Result<Handle>)
      requires Valid()
      modifies this
      ensures Valid()
      ensures (wrappers, r) == old(SyncedComposer(disk, wrappers, today))
      ensures disk == old(disk) && cwd == old(cwd)
    {
      var yr := GetWrapper("HordeYml");
      if yr.Err? {
        return Err(yr.error);
      }
      var y := YmlOf(yr.value.content);
      var flat := FlattenDependencies(y.dependencies);
      var jr := GetWrapper("ComposerJson");
      if jr.Err? {
        return jr;
      }
      var h := Handle(jr.value.loc, ComposerDoc(ComposerDocument(y, flat, today)));
      StoreFits(wrappers, "ComposerJson", h);
      wrappers := Put(wrappers, "ComposerJson", h);
      return Ok(h);
    }

    lemma ReleaseDateFits(disk: Disk, w: Wrappers, y: HordeYml)
      requires WrappersFit(w) && DiskFits(disk)
      ensures WrappersFit(ReleaseDate(disk, w, y).0)
    {
      FetchStore(disk, w, "ChangelogYml");
    }

    /** The package.xml rewrite keeps the cache well formed and caches the
        wrapper it returns. */
    lemma SyncedPackageFits(disk: Disk, w: Wrappers)
      requires WrappersFit(w) && DiskFits(disk)
      ensures var (w1, r) := SyncedPackageXml(disk, w);
              WrappersFit(w1) &&
              (r.Ok? ==> r.value.loc.kind == PackageXmlFile && Lookup(w1, "PackageXml") == Some(r.value))
    {
      FetchStore(disk, w, "PackageXml");
      FetchOutcome(disk, w, "PackageXml");
      var (w1, xr) := Fetch(disk, w, "PackageXml");
      if xr.Ok? {
        FetchStore(disk, w1, "HordeYml");
        var (w2, yr) := Fetch(disk, w1, "HordeYml");
        if yr.Ok? {
          var y := YmlOf(yr.value.content);
          ReleaseDateFits(disk, w2, y);
          var (w3, date) := ReleaseDate(disk, w2, y);
          if date.Ok? {
            var (x, err) := SyncPackageXml(XmlOf(xr.value.content), y, date.value, c.validatePear, c.composerToPear);
            StoreFits(w3, "PackageXml", Handle(xr.value.loc, XmlDoc(x)));
          }
        }
      }
    }

    /** The composer.json rewrite keeps the cache well formed. */
    lemma SyncedComposerFits(disk: Disk, w: Wrappers, today: string)
      requires WrappersFit(w) && DiskFits(disk)
      ensures WrappersFit(SyncedComposer(disk, w, today).0)
    {
      FetchStore(disk, w, "HordeYml");
      var (w1, yr) := Fetch(disk, w, "HordeYml");
      if yr.Ok? {
        FetchStore(disk, w1, "ComposerJson");
        FetchOutcome(disk, w1, "ComposerJson");
        var (w2, jr) := Fetch(disk, w1, "ComposerJson");
        if jr.Ok? {
          var y := YmlOf(yr.value.content);
          var flat := ApplyAll(InitialFlat, Assignments(y.dependencies));
          StoreFits(w2, "ComposerJson", Handle(jr.value.loc, ComposerDoc(ComposerDocument(y, flat, today))));
        }
      }
    }

    /** A missing package.xml is created from the (theme) template, and its
        wrapper is dropped so that it is opened again. */
    function CreatedPackageFile(disk: Disk, w: Wrappers, l: Loc, theme: bool): (Disk, Wrappers) {
      if l in disk then (disk, w) else (disk[l := XmlDoc(c.packageTemplate(theme))], Unset(w, "PackageXml"))
    }

    /** Creating package.xml changes no existing file, adds only the template
        and keeps the cache well formed. */
    lemma CreatedPackageSpec(disk: Disk, w: Wrappers, l: Loc, theme: bool)
      requires WrappersFit(w) && DiskFits(disk) && l.kind == PackageXmlFile
      ensures var (d1, w1) := CreatedPackageFile(disk, w, l, theme);
              DiskFits(d1) && WrappersFit(w1) &&
              (forall l' :: l' in disk ==> l' in d1 && d1[l'] == disk[l']) &&
              (forall l' :: l' in d1 && l' !in disk ==> l' == l && d1[l'] == XmlDoc(c.packageTemplate(theme)))
    {
      UnsetFits(w, "PackageXml");
    }

    /** Everything `updatePackage` does before acting: a missing package.xml
        is created from the (theme) template and its wrapper dropped, then
        package.xml is rewritten from the descriptor and, unless the package
        provides an extension, given the (theme) content list and followed
        by the composer.json rewrite. */
    function PreparedPackage(disk: Disk, w: Wrappers, theme: bool, today: string): (Disk, Wrappers, Option<Error>) {
      var (w1, xr) := Fetch(disk, w, "PackageXml");
      if xr.Err? then (disk, w1, Some(xr.error))
      else
        var (d1, w2) := CreatedPackageFile(disk, w1, xr.value.loc, theme);
        var (w3, pr) := SyncedPackageXml(d1, w2);
        if pr.Err? then (d1, w3, Some(pr.error))
        else
          var x := XmlOf(pr.value.content);
          if x.providesExtension then (d1, w3, None)
          else
            var h := Handle(pr.value.loc, XmlDoc(x.(contents := c.contentList(theme))));
            var (w4, cr) := SyncedComposer(d1, Put(w3, "PackageXml", h), today);
            (d1, w4, if cr.Err? then Some(cr.error) else None)
    }

    /** What `updatePackage($action, $options)` leaves on disk, in the cache
        and as its result. */
    function UpdatedPackage(disk: Disk, w: Wrappers, action: string, theme: bool, today: string): (Disk, Wrappers, Result<Outcome>) {
      var (d1, w1, err) := PreparedPackage(disk, w, theme, today);
      if err.Some? then (d1, w1, Err(err.value))
      else if action == "print" then (d1, w1, Ok(Printed(Join(Renders(w1), "===\n"))))
      else if action == "diff" then (d1, w1, Ok(Diffed(DiffText(d1, w1))))
      else (SaveAll(d1, w1), w1, Ok(Applied))
    }

    /** Before acting, `updatePackage` keeps the cache and the files well
        formed, changes no existing file, and creates at most the template
        package.xml. */
    lemma PreparedSpec(disk: Disk, w: Wrappers, theme: bool, today: string)
      requires WrappersFit(w) && DiskFits(disk)
      ensures var (d1, w1, err) := PreparedPackage(disk, w, theme, today);
              DiskFits(d1) && WrappersFit(w1) &&
              (forall l :: l in disk ==> l in d1 && d1[l] == disk[l]) &&
              (forall l :: l in d1 && l !in disk ==> l.kind == PackageXmlFile && d1[l] == XmlDoc(c.packageTemplate(theme)))
    {
      FetchStore(disk, w, "PackageXml");
      FetchOutcome(disk, w, "PackageXml");
      var (w1, xr) := Fetch(disk, w, "PackageXml");
      if xr.Ok? {
        CreatedPackageSpec(disk, w1, xr.value.loc, theme);
        var (d1, w2) := CreatedPackageFile(disk, w1, xr.value.loc, theme);
        SyncedPackageFits(d1, w2);
        var (w3, pr) := SyncedPackageXml(d1, w2);
        if pr.Ok? {
          var x := XmlOf(pr.value.content);
          var h := Handle(pr.value.loc, XmlDoc(x.(contents := c.contentList(theme))));
          StoreFits(w3, "PackageXml", h);
          SyncedComposerFits(d1, Put(w3, "PackageXml", h), today);
        }
      }
    }

    /** `updatePackage`: a failed rewrite and the 'print' and 'diff' actions
        write no file beyond the template package.xml; 'diff' reports nothing
        exactly when no wrapper differs from its file; any other action saves
        every cached wrapper, so that each file reads back as its wrapper
        holds it, and changes no file that no wrapper wraps. */
    lemma UpdatedPackageSpec(disk: Disk, w: Wrappers, action: string, theme: bool, today: string)
      requires WrappersFit(w) && DiskFits(disk)
      ensures var (d1, w1, r) := UpdatedPackage(disk, w, action, theme, today);
              DiskFits(d1) && WrappersFit(w1) &&
              (r.Err? || action == "print" || action == "diff" ==>
                 (forall l :: l in disk ==> l in d1 && d1[l] == disk[l]) &&
                 (forall l :: l in d1 && l !in disk ==> l.kind == PackageXmlFile && d1[l] == XmlDoc(c.packageTemplate(theme)))) &&
              (r.Ok? && r.value.Diffed? ==>
                 (r.value.text == "" <==> forall i :: 0 <= i < |w1| ==> Empty(WrapperDiff(d1, w1[i].1)))) &&
              (r == Ok(Applied) ==>
                 (forall i :: 0 <= i < |w1| ==> Open(d1, w1[i].1.loc) == w1[i].1) &&
                 (forall l :: l in disk && (forall i :: 0 <= i < |w1| ==> w1[i].1.loc != l) ==> l in d1 && d1[l] == disk[l]))
    {
      PreparedSpec(disk, w, theme, today);
      var (d1, w1, err) := PreparedPackage(disk, w, theme, today);
      DiffEmpty(d1, w1);
      SaveAllSpec(d1, w1);
    }

    /** `updatePackage` up to its switch. */
    method PreparePackage(theme: bool, today: string) returns (err: Option<Error>)
      requires Valid()
      modifies this
      ensures Valid()
      ensures (disk, wrappers, err) == old(PreparedPackage(disk, wrappers, theme, today))
      ensures cwd == old(cwd)
    {
      var xr := GetWrapper("PackageXml");
      if xr.Err? {
        return Some(xr.error);
      }
      if xr.value.loc !in disk {
        disk := disk[xr.value.loc := XmlDoc(c.packageTemplate(theme))];
        UnsetFits(wrappers, "PackageXml");
        wrappers := Unset(wrappers, "PackageXml");
      }
      var pr := UpdatePackageFromHordeYml();
      if pr.Err? {
        return Some(pr.error);
      }
      var x := XmlOf(pr.value.content);
      if !x.providesExtension {
        var h := Handle(pr.value.loc, XmlDoc(x.(contents := c.contentList(theme))));
        StoreFits(wrappers, "PackageXml", h);
        wrappers := Put(wrappers, "PackageXml", h);
        var cr := UpdateComposerFromHordeYml(today);
        if cr.Err? {
          return Some(cr.error);
        }
      }
      return None;
    }

    /** `updatePackage($action, $options)`; `theme` is whether the 'theme'
        option is set. */
    method UpdatePackage(action: string, theme: bool, today: string) returns (r: Result<Outcome>)
      requires Valid()
      modifies this
      ensures Valid()
      ensures (disk, wrappers, r) == old(UpdatedPackage(disk, wrappers, action, theme, today))
      ensures cwd == old(cwd)
    {
      var err := PreparePackage(theme, today);
      if err.Some? {
        return Err(err.value);
      }
      if action == "print" {
        r := Ok(Printed(Join(Renders(wrappers), "===\n")));
      } else if action == "diff" {
        var d := DiffWrappers();
        r := Ok(Diffed(d));
      } else {
        SaveWrappers();
        r := Ok(Applied);
      }
    }

    /** The new version numbers in the descriptor: each one that is truthy. */
    function Versioned(y: HordeYml, rel: Option<string>, api: Option<string>): (r: HordeYml)
      ensures r.releaseVersion == (if Truthy(rel) then rel.value else y.releaseVersion)
      ensures r.apiVersion == (if Truthy(api) then api.value else y.apiVersion)
      ensures r.(releaseVersion := y.releaseVersion, apiVersion := y.apiVersion) == y
    {
      y.(releaseVersion := if Truthy(rel) then rel.value else y.releaseVersion,
         apiVersion := if Truthy(api) then api.value else y.apiVersion)
    }

    /** The cache and the names of the updated wrappers after `_setVersion`:
        the descriptor gets the new version numbers, package.xml is rewritten
        from it, and CHANGES and Application.php are listed when their files
        exist, the latter with the Horde version of `rel` on the branch. */
    function VersionSet(disk: Disk, w: Wrappers, rel: Option<string>, api: Option<string>): (Wrappers, Result<seq<string>>) {
      var (w1, yr) := Fetch(disk, w, "HordeYml");
      if yr.Err? then (w1, Err(yr.error))
      else
        var h := Handle(yr.value.loc, YmlDoc(Versioned(YmlOf(yr.value.content), rel, api)));
        var (w2, pr) := SyncedPackageXml(disk, Put(w1, "HordeYml", h));
        if pr.Err? then (w2, Err(pr.error))
        else VersionSetTail(disk, w2, rel)
    }

    /** The CHANGES and Application.php part of `_setVersion`. */
    function VersionSetTail(disk: Disk, w: Wrappers, rel: Option<string>): (Wrappers, Result<seq<string>>) {
      var (w1, cr) := Fetch(disk, w, "Changes");
      if cr.Err? then (w1, Err(cr.error))
      else
        var changes := if cr.value.loc in disk then ["Changes"] else [];
        var (w2, ar) := Fetch(disk, w1, "ApplicationPhp");
        if ar.Err? then (w2, Err(ar.error))
        else if ar.value.loc !in disk then (w2, Ok(["HordeYml", "PackageXml"] + changes))
        else
          var h := Handle(ar.value.loc, AppDoc(c.pearToHordeWithBranch(rel, c.branch)));
          (Put(w2, "ApplicationPhp", h), Ok(["HordeYml", "PackageXml"] + changes + ["ApplicationPhp"]))
    }

    /** `_setVersion($rel_version, $api_version)`: the names of the updated
        wrappers. */
    method SetVersion(rel: Option<string>, api: Option<string>) returns (r: Result<seq<string>>)
      requires Valid()
      modifies this
      ensures Valid()
      ensures (wrappers, r) == old(VersionSet(disk, wrappers, rel, api))
      ensures disk == old(disk) && cwd == old(cwd)
    {
      var yr := GetWrapper("HordeYml");
      if yr.Err? {
        return Err(yr.error);
      }
      var h := Handle(yr.value.loc, YmlDoc(Versioned(YmlOf(yr.value.content), rel, api)));
      StoreFits(wrappers, "HordeYml", h);
      wrappers := Put(wrappers, "HordeYml", h);
      var pr := UpdatePackageFromHordeYml();
      if pr.Err? {
        return Err(pr.error);
      }
      r := SetVersionTail(rel);
    }

    method SetVersionTail(rel: Option<string>) returns (r: Result<seq<string>>)
      requires Valid()
      modifies this
      ensures Valid()
      ensures (wrappers, r) == old(VersionSetTail(disk, wrappers, rel))
      ensures disk == old(disk) && cwd == old(cwd)
    {
      var cr := GetWrapper("Changes");
      if cr.Err? {
        return Err(cr.error);
      }
      var changes := if cr.value.loc in disk then ["Changes"] else [];
      var ar := GetWrapper("ApplicationPhp");
      if ar.Err? {
        return Err(ar.error);
      }
      if ar.value.loc !in disk {
        return Ok(["HordeYml", "PackageXml"] + changes);
      }
      var h := Handle(ar.value.loc, AppDoc(c.pearToHordeWithBranch(rel, c.branch)));
      StoreFits(wrappers, "ApplicationPhp", h);
      wrappers := Put(wrappers, "ApplicationPhp", h);
      return Ok(["HordeYml", "PackageXml"] + changes + ["ApplicationPhp"]);
    }

    /** The files, cache and message after `nextVersion`: the changelog
        advanced to the new version (failing when the descriptor's release
        has no entry), `_setVersion` with the new version, and, unless only
        pretending, every updated wrapper saved. */
    function NextVersionState(disk: Disk, w: Wrappers, version: string, note: string,
                              api: Option<string>, rel: Option<string>, pretend: bool): (Disk, Wrappers, Result<string>)
    {
      var (w1, lr) := Fetch(disk, w, "ChangelogYml");
      if lr.Err? then (disk, w1, Err(lr.error))
      else
        var (w2, yr) := Fetch(disk, w1, "HordeYml");
        if yr.Err? then (disk, w2, Err(yr.error))
        else
          var next := AdvanceChangelog(LogOf(lr.value.content), YmlOf(yr.value.content).releaseVersion,
                                       version, note, api, rel, c.versionLe, c.fileName(lr.value.loc));
          if next.Err? then (disk, w2, Err(next.error))
          else NextVersionFinish(disk, w2, lr.value.loc, next.value, version, note, api, rel, pretend)
    }

    /** `nextVersion` once the changelog is advanced: the advanced log is
        cached, `_setVersion` runs, and the updated wrappers and the changelog
        are saved unless only pretending. */
    function NextVersionFinish(disk: Disk, w: Wrappers, l: Loc, log: Log, version: string, note: string,
                               api: Option<string>, rel: Option<string>, pretend: bool): (Disk, Wrappers, Result<string>)
    {
      var w3 := Put(w, "ChangelogYml", Handle(l, LogDoc(log)));
      var (w4, ur) := VersionSet(disk, w3, Some(version), None);
      if ur.Err? then (disk, w4, Err(ur.error))
      else
        var updated := ur.value + ["ChangelogYml"];
        var list := Join(Paths(w4, updated, c.localPath), ", ");
        (if pretend then disk else SaveNamed(disk, w4, updated), w4,
         Ok(NextVersionMessage(version, note, api, rel, pretend, list)))
    }

    /** Saves the named wrappers in turn. */
    method SaveWrappersNamed(names: seq<string>)
      requires Valid()
      modifies this
      ensures Valid()
      ensures disk == SaveNamed(old(disk), wrappers, names)
      ensures wrappers == old(wrappers) && cwd == old(cwd)
    {
      SaveNamedSpec(disk, wrappers, names);
      var d := disk;
      var i := 0;
      while i < |names|
        invariant 0 <= i <= |names|
        invariant d == SaveNamed(old(disk), wrappers, names[..i])
      {
        assert names[..i + 1][..i] == names[..i];
        var cached := Lookup(wrappers, names[i]);
        if cached.Some? {
          d := d[cached.value.loc := cached.value.content];
        }
        i := i + 1;
      }
      assert names[..i] == names;
      disk := d;
    }

    /** `nextVersion($version, $initial_note, $stability_api,
        $stability_release, $options)`; `pretend` is whether the 'pretend'
        option is set. */
    method NextVersion(version: string, note: string, api: Option<string>, rel: Option<string>, pretend: bool)
      returns (r: Result<string>)
      requires Valid()
      modifies this
      ensures Valid()
      ensures (disk, wrappers, r) == old(NextVersionState(disk, wrappers, version, note, api, rel, pretend))
      ensures cwd == old(cwd)
    {
      var lr := GetWrapper("ChangelogYml");
      if lr.Err? {
        return Err(lr.error);
      }
      var yr := GetWrapper("HordeYml");
      if yr.Err? {
        return Err(yr.error);
      }
      var next := AdvanceChangelog(LogOf(lr.value.content), YmlOf(yr.value.content).releaseVersion,
                                   version, note, api, rel, c.versionLe, c.fileName(lr.value.loc));
      if next.Err? {
        return Err(next.error);
      }
      r := FinishNextVersion(lr.value.loc, next.value, version, note, api, rel, pretend);
    }

    method FinishNextVersion(l: Loc, log: Log, version: string, note: string,
                             api: Option<string>, rel: Option<string>, pretend: bool) returns (r: Result<string>)
      requires Valid() && l.kind == ChangelogYmlFile
      modifies this
      ensures Valid()
      ensures (disk, wrappers, r) == old(NextVersionFinish(disk, wrappers, l, log, version, note, api, rel, pretend))
      ensures cwd == old(cwd)
    {
      var h := Handle(l, LogDoc(log));
      StoreFits(wrappers, "ChangelogYml", h);
      wrappers := Put(wrappers, "ChangelogYml", h);
      var ur := SetVersion(Some(version), None);
      if ur.Err? {
        return Err(ur.error);
      }
      var updated := ur.value + ["ChangelogYml"];
      var list := Join(Paths(wrappers, updated, c.localPath), ", ");
      if !pretend {
        SaveWrappersNamed(updated);
      }
      r := Ok(NextVersionMessage(version, note, api, rel, pretend, list));
    }

    /** `getWrapper` never changes a wrapper already cached. */
    lemma FetchKeeps(disk: Disk, w: Wrappers, name: string, k: string)
      requires WrappersFit(w) && DiskFits(disk) && k in Keys(w)
      ensures k in Keys(Fetch(disk, w, name).0) && Lookup(Fetch(disk, w, name).0, k) == Lookup(w, k)
    {
      FetchStore(disk, w, name);
      var w1 := Fetch(disk, w, name).0;
      LookupPrefix(w, w1, k);
      LookupKeys(w, k);
      LookupKeys(w1, k);
    }

    lemma ReleaseDateKeeps(disk: Disk, w: Wrappers, y: HordeYml, k: string)
      requires WrappersFit(w) && DiskFits(disk) && k in Keys(w)
      ensures k in Keys(ReleaseDate(disk, w, y).0) && Lookup(ReleaseDate(disk, w, y).0, k) == Lookup(w, k)
    {
      FetchKeeps(disk, w, "ChangelogYml", k);
    }

    /** The package.xml rewrite changes no cached wrapper but package.xml's. */
    lemma SyncedPackageKeeps(disk: Disk, w: Wrappers, k: string)
      requires WrappersFit(w) && DiskFits(disk) && k in Keys(w) && k != "PackageXml"
      ensures var w1 := SyncedPackageXml(disk, w).0;
              k in Keys(w1) && Lookup(w1, k) == Lookup(w, k)
    {
      FetchStore(disk, w, "PackageXml");
      FetchKeeps(disk, w, "PackageXml", k);
      var (w1, xr) := Fetch(disk, w, "PackageXml");
      if xr.Ok? {
        FetchStore(disk, w1, "HordeYml");
        FetchKeeps(disk, w1, "HordeYml", k);
        var (w2, yr) := Fetch(disk, w1, "HordeYml");
        if yr.Ok? {
          var y := YmlOf(yr.value.content);
          ReleaseDateKeeps(disk, w2, y, k);
          var (w3, date) := ReleaseDate(disk, w2, y);
          if date.Ok? {
            var (x, err) := SyncPackageXml(XmlOf(xr.value.content), y, date.value, c.validatePear, c.composerToPear);
            PutKeeps(w3, "PackageXml", Handle(xr.value.loc, XmlDoc(x)), k);
          }
        }
      }
    }

    /** The CHANGES and Application.php part of `_setVersion` keeps the cache
        well formed and changes no cached wrapper but Application.php's. */
    lemma VersionSetTailKeeps(disk: Disk, w: Wrappers, rel: Option<string>, k: string)
      requires WrappersFit(w) && DiskFits(disk)
      ensures var w1 := VersionSetTail(disk, w, rel).0;
              WrappersFit(w1) &&
              (k in Keys(w) && k != "ApplicationPhp" ==> k in Keys(w1) && Lookup(w1, k) == Lookup(w, k))
    {
      FetchStore(disk, w, "Changes");
      var (w1, cr) := Fetch(disk, w, "Changes");
      if k in Keys(w) {
        FetchKeeps(disk, w, "Changes", k);
      }
      if cr.Ok? {
        FetchStore(disk, w1, "ApplicationPhp");
        FetchOutcome(disk, w1, "ApplicationPhp");
        var (w2, ar) := Fetch(disk, w1, "ApplicationPhp");
        if k in Keys(w) {
          FetchKeeps(disk, w1, "ApplicationPhp", k);
        }
        if ar.Ok? && ar.value.loc in disk {
          var h := Handle(ar.value.loc, AppDoc(c.pearToHordeWithBranch(rel, c.branch)));
          StoreFits(w2, "ApplicationPhp", h);
          if k in Keys(w) && k != "ApplicationPhp" {
            PutKeeps(w2, "ApplicationPhp", h, k);
          }
        }
      }
    }

    /** `_setVersion` keeps the cache well formed and changes no cached wrapper
        but those of the descriptor, package.xml and Application.php. */
    lemma VersionSetKeeps(disk: Disk, w: Wrappers, rel: Option<string>, api: Option<string>, k: string)
      requires WrappersFit(w) && DiskFits(disk)
      ensures var w1 := VersionSet(disk, w, rel, api).0;
              WrappersFit(w1) &&
              (k in Keys(w) && k !in {"HordeYml", "PackageXml", "ApplicationPhp"} ==>
                 k in Keys(w1) && Lookup(w1, k) == Lookup(w, k))
    {
      FetchStore(disk, w, "HordeYml");
      FetchOutcome(disk, w, "HordeYml");
      var (w1, yr) := Fetch(disk, w, "HordeYml");
      var keep := k in Keys(w) && k !in {"HordeYml", "PackageXml", "ApplicationPhp"};
      if keep {
        FetchKeeps(disk, w, "HordeYml", k);
      }
      if yr.Ok? {
        var h := Handle(yr.value.loc, YmlDoc(Versioned(YmlOf(yr.value.content), rel, api)));
        StoreFits(w1, "HordeYml", h);
        var w2 := Put(w1, "HordeYml", h);
        SyncedPackageFits(disk, w2);
        if keep {
          PutKeeps(w1, "HordeYml", h, k);
          SyncedPackageKeeps(disk, w2, k);
        }
        var (w3, pr) := SyncedPackageXml(disk, w2);
        if pr.Ok? {
          VersionSetTailKeeps(disk, w3, rel, k);
        }
      }
    }

    /** `nextVersion`: a failure or a pretend run writes no file; on success
        the cached changelog holds the current release's log advanced to the
        new version; a real run saves it, so that the changelog file then
        reads back as the advanced log; files and cache stay well formed. */
    lemma NextVersionSpec(disk: Disk, w: Wrappers, version: string, note: string,
                          api: Option<string>, rel: Option<string>, pretend: bool)
      requires WrappersFit(w) && DiskFits(disk)
      ensures var (d1, w1, r) := NextVersionState(disk, w, version, note, api, rel, pretend);
              DiskFits(d1) && WrappersFit(w1) && (r.Err? || pretend ==> d1 == disk)
      ensures var (d1, w1, r) := NextVersionState(disk, w, version, note, api, rel, pretend);
              var (wa, lr) := Fetch(disk, w, "ChangelogYml");
              var (wb, yr) := Fetch(disk, wa, "HordeYml");
              r.Ok? ==>
                lr.Ok? && yr.Ok? &&
                var next := AdvanceChangelog(LogOf(lr.value.content), YmlOf(yr.value.content).releaseVersion,
                                             version, note, api, rel, c.versionLe, c.fileName(lr.value.loc));
                next.Ok? && Lookup(w1, "ChangelogYml") == Some(Handle(lr.value.loc, LogDoc(next.value))) &&
                (!pretend ==> Open(d1, lr.value.loc) == Handle(lr.value.loc, LogDoc(next.value)))
    {
      FetchStore(disk, w, "ChangelogYml");
      var (w1, lr) := Fetch(disk, w, "ChangelogYml");
      if lr.Ok? {
        FetchStore(disk, w1, "HordeYml");
        FetchOutcome(disk, w, "ChangelogYml");
        var (w2, yr) := Fetch(disk, w1, "HordeYml");
        if yr.Ok? {
          var next := AdvanceChangelog(LogOf(lr.value.content), YmlOf(yr.value.content).releaseVersion,
                                       version, note, api, rel, c.versionLe, c.fileName(lr.value.loc));
          if next.Ok? {
            NextVersionTail(disk, w2, lr.value.loc, next.value, version, note, api, rel, pretend);
          }
        }
      }
    }

    /** The part of `nextVersion` after the changelog has been advanced. */
    lemma NextVersionTail(disk: Disk, w: Wrappers, l: Loc, log: Log, version: string, note: string,
                          api: Option<string>, rel: Option<string>, pretend: bool)
      requires WrappersFit(w) && DiskFits(disk) && l.kind == ChangelogYmlFile
      ensures var (d1, w1, r) := NextVersionFinish(disk, w, l, log, version, note, api, rel, pretend);
              DiskFits(d1) && WrappersFit(w1) && (r.Err? || pretend ==> d1 == disk) &&
              Lookup(w1, "ChangelogYml") == Some(Handle(l, LogDoc(log))) &&
              (r.Ok? && !pretend ==> Open(d1, l) == Handle(l, LogDoc(log)))
    {
      var h := Handle(l, LogDoc(log));
      StoreFits(w, "ChangelogYml", h);
      var w3 := Put(w, "ChangelogYml", h);
      PutKeys(w, "ChangelogYml", h);
      VersionSetKeeps(disk, w3, Some(version), None, "ChangelogYml");
      var (w4, ur) := VersionSet(disk, w3, Some(version), None);
      if ur.Ok? {
        var names := ur.value + ["ChangelogYml"];
        assert "ChangelogYml" in names;
        SaveNamedSpec(disk, w4, names);
      }
    }

    /** The package file `placeArchive` hands to the generator: read from
        package.xml in the archive environment, its release version the
        snapshot version of package.xml's (or that version itself when it is
        to be kept), with the given date and time. */
    function ArchivePackage(l: Loc, x: PackageXml, keepVersion: bool, stamp: string, today: string, now: string): (p: PackageFile)
      ensures p.origin == FromXml(Some(c.fullPath(l)), c.archiveEnvironment)
      ensures keepVersion ==> p.release == Some(x.releaseVersion)
      ensures !keepVersion ==> p.release == Some(SnapshotVersion(x.releaseVersion, stamp))
      ensures p.date == Some(today) && p.time == Some(now)
    {
      var version := if keepVersion then x.releaseVersion else SnapshotVersion(x.releaseVersion, stamp);
      PackageFile(FromXml(Some(c.fullPath(l)), c.archiveEnvironment), Some(version), Some(today), Some(now))
    }

    /** `getWrapper('PackageXml')` always succeeds. */
    lemma PackageXmlFetched(disk: Disk, w: Wrappers)
      requires WrappersFit(w) && DiskFits(disk)
      ensures Fetch(disk, w, "PackageXml").1.Ok?
    {
      FetchOutcome(disk, w, "PackageXml");
    }

    /** `placeArchive($destination, $options)`: fails when package.xml is
        missing; otherwise runs the generator in `destination` on the archive
        package, catches its PEAR error, and restores the working directory.
        `stamp`, `today` and `now` are the formatted clock readings. */
    method PlaceArchive(destination: string, keepVersion: bool, stamp: string, today: string, now: string,
                        generate: Generator) returns (r: Result<Archived>)
      requires Valid()
      modifies this
      ensures Valid()
      ensures disk == old(disk) && cwd == old(cwd)
      ensures var (w, xr) := old(Fetch(disk, wrappers, "PackageXml"));
              wrappers == w && xr.Ok? &&
              (r.Err? <==> xr.value.loc !in disk) &&
              (r.Err? ==> r.error == MissingPackageXml(c.fullPath(xr.value.loc))) &&
              (r.Ok? ==> Caught(generate(ArchivePackage(xr.value.loc, XmlOf(xr.value.content), keepVersion, stamp, today, now),
                                         destination),
                                r.value.result, r.value.errors))
    {
      PackageXmlFetched(disk, wrappers);
      var xr := GetWrapper("PackageXml");
      assert xr.Ok?;
      var l := xr.value.loc;
      if l !in disk {
        return Err(MissingPackageXml(c.fullPath(l)));
      }
      var x := XmlOf(xr.value.content);
      var version := if keepVersion then x.releaseVersion else SnapshotVersion(x.releaseVersion, stamp);
      var pkg := PackageFile(FromXml(Some(c.fullPath(l)), c.archiveEnvironment), Some(version), Some(today), Some(now));
      var oldDir := cwd;
      cwd := destination;
      var result, errors := CatchPearError(generate(pkg, cwd));
      cwd := oldDir;
      r := Ok(Archived(result, errors));
    }

    /** `file_exists`: a file or a directory. */
    predicate Present(path: string) {
      path in files || path in dirs
    }

    /** A file in a directory of the component. */
    function NotesPath(sub: string, name: string): string {
      directory + "/" + sub + "/" + name
    }

    /** The release notes locations in the order they are tried: release.yml
        before RELEASE_NOTES, docs/ before doc/. */
    function NotesCandidates(): seq<string> {
      [NotesPath("docs", "release.yml"), NotesPath("doc", "release.yml"),
       NotesPath("docs", "RELEASE_NOTES"), NotesPath("doc", "RELEASE_NOTES")]
    }

    /** `getReleaseNotesPath()`: the first location that exists, or false
        (None) when none does. */
    method GetReleaseNotesPath() returns (r: Option<string>)
      ensures r.None? <==> forall k :: 0 <= k < |NotesCandidates()| ==> !Present(NotesCandidates()[k])
      ensures r.Some? ==> exists k :: 0 <= k < |NotesCandidates()| && r.value == NotesCandidates()[k] &&
                            Present(r.value) && forall j :: 0 <= j < k ==> !Present(NotesCandidates()[j])
    {
      var names := ["release.yml", "RELEASE_NOTES"];
      var subdirs := ["docs", "doc"];
      var i := 0;
      while i < 2
        invariant 0 <= i <= 2
        invariant forall k :: 0 <= k < 2 * i ==> !Present(NotesCandidates()[k])
      {
        var j := 0;
        while j < 2
          invariant 0 <= j <= 2
          invariant forall k :: 0 <= k < 2 * i + j ==> !Present(NotesCandidates()[k])
        {
          var path := NotesPath(subdirs[j], names[i]);
          assert path == NotesCandidates()[2 * i + j] by {
            assert i == 0 || i == 1;
            assert j == 0 || j == 1;
          }
          if Present(path) {
            return Some(path);
          }
          j := j + 1;
        }
        i := i + 1;
      }
      return None;
    }
  }
}
