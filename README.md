# horde_components: component metadata synchronisation, modelled in Dafny

This project models two classes of the Horde `components` release tool.

`Components_Component_Source` is a component checked out from source. It keeps
a lazily filled, name-keyed cache of file wrappers: `.horde.yml`,
`composer.json`, `package.xml`, `changelog.yml`, `CHANGES` and
`Application.php`. From the canonical `.horde.yml` descriptor it rebuilds
`package.xml` and `composer.json`, then prints, diffs or saves the wrappers in
cache order. It also:
- advances `changelog.yml` to a next version;
- sets version numbers across the files;
- builds snapshot archives;
- chooses the documentation and release-notes paths.

`Components_Pear_Package` is the PEAR package handle:
- setters, with the checks the class enforces before it does any work;
- the memoised package representations;
- snapshot and release generation with the caught-PEAR-error list.

Modules:
- `Common` holds PHP's ordered arrays with string keys (`Assoc`): assignment,
  `unset`, `array_merge` and reading a key. It also holds PHP truthiness,
  `implode`, and the error kinds the code raises.
- `Descriptor` holds the `.horde.yml` fields.
- `Dependencies` holds the dependency section of package.xml, with
  `_updateDependencies` and `_addDependency`.
- `PackageXmlModel` holds the rest of the package.xml rewrite.
- `Composer` holds the composer.json construction, with the dependency
  flattening loops.
- `Changelog` holds the next-version transition of changelog.yml.
- `Archive` holds the snapshot version regex, the PEAR package file and the
  error list of a failed generation.
- `SourceComponent` holds the class `Source`. The disk is a map from file
  locations to typed contents. The wrapper cache is an ordered array of
  handles that maps method fields change. Every method is proved equal to a
  specification function of the old state.
- `PearPackage` holds the class `Package` with its fields and memos.

Collaborators whose code is not part of this model are parameters: fields of
`SourceComponent.Collaborators`, or a `Generator` function for the PEAR
generator. They are:
- `Components_Helper_Version::validatePear`, `composerToPear` and
  `pearToHordeWithBranch`;
- `version_compare`;
- a wrapper's string form, diff, local path, file name and full path;
- the package.xml templates and content lists of the factory;
- the PEAR generator.

The clock readings (`gmdate`, `strftime`, `date`) are string parameters. The
working directory is a field that `chdir` sets.

## Model

| member | source | states |
|---|---|---|
| Common.LookupPut | lib/Components/Component/Source.php:1070-1073 | after `$m[$k] = $v`, `$k` reads `$v` and every other key reads as before |
| Common.LookupMerge | lib/Components/Component/Source.php:365-369 | `array_merge` with string keys: a key of the later array reads its last value there, any other key reads as in the earlier array |
| Common.MergeIdempotent | lib/Components/Component/Source.php:315-320 | merging the same keyed array twice gives what merging it once gives (rewriting the PHP tags twice is a fixed point) |
| Common.UnsetLookup | lib/Components/Component/Source.php:177 | after `unset($m[$k])` the key is absent and every other key reads as before |
| Dependencies.PackageXmlType | lib/Components/Component/Source.php:340-353 | 'php' adds nothing, 'pear' becomes 'package', 'ext' becomes 'extension', and any other type is the "Unknown dependency type" error |
| Dependencies.YamlType | lib/Components/Component/Source.php:340-353 | the inverse mapping: 'package' comes only from 'pear', 'extension' only from 'ext', and no other package.xml type comes from any `.horde.yml` type |
| Dependencies.SplitJoin | lib/Components/Component/Source.php:364 | `explode('/')` of "channel/name", where the channel has no slash, gives the channel and the name back |
| Dependencies.AttributePrecedence | lib/Components/Component/Source.php:354-378 | each attribute comes from the spec's extra keys (with 'version' removed) if it is one, else from the translated constraint, else it is name (and channel for packages) |
| Dependencies.PackageNameAndChannel | lib/Components/Component/Source.php:363-370 | for a plain "channel/name" dependency whose translated constraint sets neither key, the name attribute is the name and the channel attribute is the channel |
| Dependencies.AddDependency | lib/Components/Component/Source.php:338-381 | appends the elements the type calls for (none for 'php'), or fails with "Unknown dependency type" for an unknown type |
| Dependencies.RemoveRequired | lib/Components/Component/Source.php:301-305 | the `while (findNode)` loop leaves exactly the elements that are not required elements of the type |
| Dependencies.KeptIsNotStale | lib/Components/Component/Source.php:300-311 | an element survives the removals exactly when it is in the list and is neither a required package/extension nor optional |
| Dependencies.UpdateDependencies | lib/Components/Component/Source.php:298-326 | the loops compute `SyncDependencies`: stale elements removed, PHP tags rewritten, then the generated elements appended or the first error |
| Dependencies.AddGroups | lib/Components/Component/Source.php:321-325 | the outer `foreach` over 'required'/'optional' equals the pass `GroupsEntries` |
| Dependencies.AddTypes | lib/Components/Component/Source.php:322-324 | the inner `foreach` over types equals the pass `TypesEntries`, stopping at the first error |
| Dependencies.GroupsError | lib/Components/Component/Source.php:321-325 | the whole pass fails exactly when some group holds an unknown type, and then with the "Unknown dependency type" error of one such type |
| Dependencies.GroupsComplete | lib/Components/Component/Source.php:321-380 | without an error, every dependency of every pear/ext type has its element with the attributes `DependencyAttributes` builds |
| Dependencies.KeptStale | lib/Components/Component/Source.php:300-311 | a list of stale elements only is emptied by the removals |
| Dependencies.SyncIdempotent | lib/Components/Component/Source.php:298-326 | a second `_updateDependencies` from the same descriptor gives the section the first one gave |
| PackageXmlModel.PackageName | lib/Components/Component/Source.php:233-236 | libraries are named "Horde_" + id, anything else is named by its id |
| PackageXmlModel.SyncPackageIdempotent | lib/Components/Component/Source.php:227-290 | rebuilding package.xml twice from the same descriptor and changelog date gives what one rebuild gives |
| PackageXmlModel.SyncPackageFrame | lib/Components/Component/Source.php:227-290 | the rewrite keeps the PECL marker and the file list, and it fails exactly when some dependency type of the descriptor is unknown |
| PackageXmlModel.SyncPackageComplete | lib/Components/Component/Source.php:284-287 | after a successful rewrite, each pear/ext dependency of the descriptor has its element |
| Composer.PackageSlug | lib/Components/Component/Source.php:393 | the id with each '_' replaced by '-' and each ASCII capital lower-cased, character for character |
| Composer.ComposerNameShape | lib/Components/Component/Source.php:392-393 | the name is "horde/" and then the id with no '_' and no ASCII capital left, every other character kept |
| Composer.ComposerNameNormal | lib/Components/Component/Source.php:392-393 | ids that differ only in ASCII case or in '_' against '-' give the same name |
| Composer.ReplaceVersion | lib/Components/Component/Source.php:394-398 | a release that starts with digits and a '.' becomes "<digits>.*" followed by whatever comes from the first newline after the dot onwards (nothing for a one-line release); any other release is unchanged |
| Composer.ReplaceVersionIdempotent | lib/Components/Component/Source.php:394-398 | applying the replacement to its own result changes nothing |
| Composer.FlattenDependencies | lib/Components/Component/Source.php:400-414 | the three nested loops leave exactly what the assignments `Assignments(deps)` leave, starting from empty 'required' and 'optional' |
| Composer.FlattenTypes | lib/Components/Component/Source.php:402-413 | the loop over one group's types performs that group's assignments in order |
| Composer.FlattenType | lib/Components/Component/Source.php:403-412 | a scalar type is stored under its own key; an array type is flattened package by package |
| Composer.FlattenPackages | lib/Components/Component/Source.php:407-412 | each package is stored under "type-package" with its version, and an array spec contributes its 'version' |
| Composer.ApplyLookup | lib/Components/Component/Source.php:400-414 | after the assignments a key reads as the last value assigned to it, or as before when none was |
| Composer.FlattenHasKey | lib/Components/Component/Source.php:400-414 | every scalar type is a key of its group, and every package of an array type has its "type-package" key |
| Composer.FlattenValue | lib/Components/Component/Source.php:400-414 | a flattened key that is assigned once reads the version it was assigned |
| Composer.FilterFalsy | lib/Components/Component/Source.php:438 | `array_filter` without a callback: exactly the pairs with a truthy value survive |
| Composer.AuthorsJson | lib/Components/Component/Source.php:415-422 | one entry per author, in order, holding name, email and role |
| Composer.ComposerIdentity | lib/Components/Component/Source.php:432-442 | the document always holds the name and the type ('library' or 'project'), and the homepage https://www.horde.org when the descriptor has none |
| Composer.ComposerPackaging | lib/Components/Component/Source.php:423-459 | the document always holds `replace`, with both PEAR names at the major-version constraint, and the psr-0 `autoload` prefix ('Horde' for Core and the groupware bundles, "Horde_" + name for libraries, the name otherwise) |
| Composer.Survives | lib/Components/Component/Source.php:438-460 | every truthy identity, replace or autoload field that is built appears in the filtered document |
| Changelog.Insert | lib/Components/Component/Source.php:782-787 | one insertion step of the sort: the entries plus the new one, as a multiset |
| Changelog.SortDescending | lib/Components/Component/Source.php:782-787 | the sort is a permutation of the log |
| Changelog.SortDescendingSorted | lib/Components/Component/Source.php:782-787 | after the sort every version is at least the one after it, for a total version order |
| Changelog.SortKeepsLookup | lib/Components/Component/Source.php:782-787 | the sort keeps every key, keeps keys unique, and keeps what each key reads |
| Changelog.AdvanceChangelogSpec | lib/Components/Component/Source.php:762-787 | fails exactly when the current release is not a key; otherwise the new version reads the current entry with notes "\n" + note and each stability overridden only when truthy, the log is sorted newest first, and every other version reads as before |
| Archive.SnapshotOneLine | lib/Components/Component/Source.php:907-912 | on a one-line version: everything up to the end of the first run of digits and dots, then "dev" and the stamp; a version without digits or dots is unchanged |
| Archive.SnapshotIdempotent | lib/Components/Component/Source.php:907-912 | stamping a stamped version again with the same stamp changes nothing |
| Archive.CollectErrors | lib/Components/Component/Source.php:939-946 | the error list is the message, an empty line, then each warning's message or 'Unknown Error', in order |
| Archive.CatchPearError | lib/Components/Component/Source.php:934-946 | a generated archive is returned with no errors; a PEAR error gives false and the error list |
| Archive.CaughtUnique | lib/Components/Component/Source.php:934-946 | the outcome of the generator determines the result and the error list |
| SourceComponent.StoreFits | lib/Components/Component/Source.php:1070-1113 | storing a handle under its own kind's name keeps the cache well formed, and the name then reads that handle |
| SourceComponent.SaveAllSpec | lib/Components/Component/Source.php:1119-1124 | after saving, every cached wrapper's file reads back as the wrapper holds it, every file no wrapper wraps is untouched, and every file still holds its kind of content |
| SourceComponent.SaveNamedSpec | lib/Components/Component/Source.php:801-805 | saving the updated wrappers: each one named and cached reads back from its file, and every other file is untouched |
| SourceComponent.Paths | lib/Components/Component/Source.php:1133-1145 | one local path per updated wrapper, in order |
| SourceComponent.Source.constructor | lib/Components/Component/Source.php:65-75 | a component starts with an empty wrapper cache over its directory |
| SourceComponent.Source.DocDirectoryOf | lib/Components/Component/Source.php:1045-1059 | doc/ if it is a directory, else docs/ if that is one, else doc/; for a library, descends into Horde/ and the id with '_' as '/' |
| SourceComponent.Source.GetDocDirectory | lib/Components/Component/Source.php:1045-1059 | opens the descriptor (and fails as that does), then returns `DocDirectoryOf` it |
| SourceComponent.Source.FetchStore | lib/Components/Component/Source.php:1068-1114 | `getWrapper` keeps every cached wrapper, adds only the requested one (and the descriptor for doc-directory files), and caches the descriptor even when its file is missing |
| SourceComponent.Source.FetchOutcome | lib/Components/Component/Source.php:1068-1114 | a cached wrapper is returned as it is with the cache unchanged; an unsupported name is refused with the cache unchanged; a returned handle is of the requested kind; the only other failure is a missing `.horde.yml` that was not cached |
| SourceComponent.Source.NeverCached | lib/Components/Component/Source.php:1107-1110 | an unsupported name is never in the cache |
| SourceComponent.Source.FetchTwice | lib/Components/Component/Source.php:1068-1114 | a second request for a wrapper the first one returned gives the same handle and leaves the cache as it was; after a failed request for `.horde.yml`, which still cached it, a second request succeeds |
| SourceComponent.Source.FetchKeeps | lib/Components/Component/Source.php:1068-1114 | `getWrapper` never changes a wrapper that is already cached |
| SourceComponent.Source.GetWrapper | lib/Components/Component/Source.php:1068-1114 | the cache and result are those of `Fetch`; a returned handle is of the requested kind, and no file changes |
| SourceComponent.Source.DiffEmpty | lib/Components/Component/Source.php:198-209 | the diff output is "" exactly when every cached wrapper's diff is empty |
| SourceComponent.Source.DiffWrappers | lib/Components/Component/Source.php:199-209 | the loop returns the headed sections "--- a/P\n--- b/P\n" + diff of the differing wrappers, in cache order |
| SourceComponent.Source.Renders | lib/Components/Component/Source.php:197 | one string form per cached wrapper, in cache order |
| SourceComponent.Source.SaveWrappers | lib/Components/Component/Source.php:1119-1124 | the disk afterwards is the old disk with each cached wrapper written in cache order; the cache is unchanged |
| SourceComponent.Source.GetReleaseDate | lib/Components/Component/Source.php:248-255 | with changelog.yml present, the date of the current release's entry, or "" when it has none; otherwise no date |
| SourceComponent.Source.ReleaseDateFits | lib/Components/Component/Source.php:248-255 | the date lookup keeps the cache well formed |
| SourceComponent.Source.SyncedPackageFits | lib/Components/Component/Source.php:227-290 | the package.xml rebuild keeps the cache well formed and caches the package.xml it returns |
| SourceComponent.Source.SyncedPackageKeeps | lib/Components/Component/Source.php:227-290 | the package.xml rebuild changes no cached wrapper other than package.xml |
| SourceComponent.Source.UpdatePackageFromHordeYml | lib/Components/Component/Source.php:227-290 | caches and returns the package.xml rebuilt from the descriptor and the changelog date, or the first error; no file changes |
| SourceComponent.Source.SyncedComposerFits | lib/Components/Component/Source.php:389-463 | the composer.json rebuild keeps the cache well formed |
| SourceComponent.Source.UpdateComposerFromHordeYml | lib/Components/Component/Source.php:389-463 | caches and returns composer.json holding `ComposerDocument` of the descriptor, the flattened dependencies and the date; no file changes |
| SourceComponent.Source.CreatedPackageSpec | lib/Components/Component/Source.php:171-178 | creating a missing package.xml writes only the template and drops its cached wrapper |
| SourceComponent.Source.PreparedSpec | lib/Components/Component/Source.php:169-193 | before the switch, existing files are unchanged, the only new file is the package.xml template, and the cache and files stay well formed |
| SourceComponent.Source.PreparePackage | lib/Components/Component/Source.php:169-193 | the files, cache and error are those of `PreparedPackage` |
| SourceComponent.Source.UpdatedPackageSpec | lib/Components/Component/Source.php:169-219 | an error, 'print' or 'diff' writes nothing beyond the template; 'diff' is "" exactly when no wrapper differs; any other action saves every wrapper so each reads back, and leaves other existing files as they were |
| SourceComponent.Source.UpdatePackage | lib/Components/Component/Source.php:169-219 | 'print' is the string forms joined with "===\n", 'diff' is the diff text, anything else saves every wrapper and succeeds |
| SourceComponent.Source.Versioned | lib/Components/Component/Source.php:671-677 | the descriptor takes each truthy new version, and nothing else changes |
| SourceComponent.Source.VersionSetKeeps | lib/Components/Component/Source.php:668-706 | `_setVersion` keeps the cache well formed and changes no cached wrapper other than the descriptor, package.xml and Application.php |
| SourceComponent.Source.VersionSetTailKeeps | lib/Components/Component/Source.php:684-703 | the CHANGES and Application.php part changes no cached wrapper other than Application.php |
| SourceComponent.Source.SetVersion | lib/Components/Component/Source.php:668-706 | the cache and names of the updated wrappers are those of `VersionSet`: descriptor, package.xml, then CHANGES and Application.php when they exist |
| SourceComponent.Source.SetVersionTail | lib/Components/Component/Source.php:684-703 | CHANGES is listed when it exists; Application.php gets the Horde version of the release on the branch when it exists |
| SourceComponent.Source.SaveWrappersNamed | lib/Components/Component/Source.php:803-805 | the disk afterwards is that of `SaveNamed` over the updated wrappers |
| SourceComponent.Source.NextVersion | lib/Components/Component/Source.php:754-828 | the files, cache and message are those of `NextVersionState` |
| SourceComponent.Source.FinishNextVersion | lib/Components/Component/Source.php:789-825 | the tail of `nextVersion` computes `NextVersionFinish` |
| SourceComponent.Source.NextVersionSpec | lib/Components/Component/Source.php:754-828 | a failure or a pretend run writes no file; on success the cached changelog is the advanced log, and without pretend it reads back from disk; files and cache stay well formed |
| SourceComponent.Source.ArchivePackage | lib/Components/Component/Source.php:907-926 | the package file is read from package.xml in the environment, with the snapshot (or kept) version, the date and the time |
| SourceComponent.Source.PackageXmlFetched | lib/Components/Component/Source.php:1005-1008 | fetching the package.xml wrapper never fails, whether or not its file exists |
| SourceComponent.Source.PlaceArchive | lib/Components/Component/Source.php:895-951 | fails exactly when package.xml is missing; otherwise the generator's outcome is caught into result and errors, and the working directory is restored |
| SourceComponent.Source.GetReleaseNotesPath | lib/Components/Component/Source.php:128-139 | false exactly when no candidate exists; otherwise the first candidate that exists |
| PearPackage.Report | lib/Components/Pear/Package.php:447-453 | a truthy result is reported as "Generated <what> <result>", anything else as the failure with the error lines joined by newlines |
| PearPackage.Package.constructor | lib/Components/Pear/Package.php:84-87 | nothing is set or loaded yet |
| PearPackage.Package.SetEnvironment | lib/Components/Pear/Package.php:96-99 | sets the environment and nothing else |
| PearPackage.Package.SetFactory | lib/Components/Pear/Package.php:108-111 | sets the factory and nothing else |
| PearPackage.Package.SetPackageXml | lib/Components/Pear/Package.php:133-136 | sets the package.xml path, possibly null, and nothing else |
| PearPackage.Package.SetPackageTgz | lib/Components/Pear/Package.php:158-161 | sets the .tgz path, possibly null, and nothing else |
| PearPackage.Package.GetEnvironment | lib/Components/Pear/Package.php:118-124 | fails exactly when no environment is set; otherwise returns the one last set |
| PearPackage.Package.GetPackageXml | lib/Components/Pear/Package.php:143-149 | fails exactly when no package.xml path is set; otherwise returns the one last set |
| PearPackage.Package.CheckSetup | lib/Components/Pear/Package.php:223-231 | succeeds exactly when the environment and the factory are set and at least one of the two paths is |
| PearPackage.Package.PackageOrigin | lib/Components/Pear/Package.php:184-194 | loads from package.xml exactly when its path is not empty, otherwise from the .tgz path, in the environment |
| PearPackage.Package.GetPackageFile | lib/Components/Pear/Package.php:180-197 | fails exactly when not set up; the first successful call builds the representation once, and later calls return the memo without building again |
| PearPackage.Package.GetPackageRwFile | lib/Components/Pear/Package.php:204-214 | the same for the writable package.xml representation |
| PearPackage.Package.GenerateSnapshot | lib/Components/Pear/Package.php:422-455 | the setup is unchanged and is the error condition; the memo (loaded from the setup's origin if new) gets the snapshot version, date and time; the outcome is caught into result and errors and reported; the working directory is restored whatever the outcome |
| PearPackage.Package.UpdatePackageFile | lib/Components/Pear/Package.php:367-391 | the setup is unchanged and is the error condition; an error changes nothing; otherwise the writable representation of the package.xml path (built once) is written back to that path and "Successfully updated <path>" is reported |
| PearPackage.Package.GenerateRelease | lib/Components/Pear/Package.php:464-495 | the setup is unchanged and is the error condition; an error leaves both memos as they were; unless manual, the writable representation of the package.xml path is written back first; then the generator runs on the memo, loaded once from the setup's origin, and its outcome is caught and reported |

## Left out

- XML, YAML and JSON are abstract values. The package.xml DOM, its whitespace handling, and the order of new elements relative to kept ones are not modelled: `package.xml` is a record of the rewritten text nodes plus the list of dependency elements.
- The removal of `<optional>` removes the first such node in the source. The model (`Dependencies.DropOptional`) removes every optional element, because a package.xml has at most one `<optional>` node.
- A wrapper's string form, its unified diff, and its local path, file name and full path are collaborator functions. So are `Components_Helper_Version` and `version_compare`, whose code is not part of this model.
- I/O:
  - `file_exists` and `is_dir` are the sets `files` and `dirs`;
  - file contents are the `disk` map;
  - the clocks are string parameters;
  - `chdir`/`getcwd` act on the `cwd` field.
- The output buffering and the captured PEAR output of `placeArchive`, `generateSnapshot` and `generateRelease` are not modelled. `createDestination` (which makes the directory) and the logger options are not modelled either.
- The `commit` option, which hands the wrappers to a VCS helper, is not modelled.
- The changelog helper (`Components_Helper_ChangeLog`) is not part of this model:
  - its `changelogFileExists()` is modelled as the presence of changelog.yml in the doc directory;
  - its `updateChanges()` is not modelled, so only the listing of CHANGES is;
  - the `updatePackage($xml)` it runs in `nextVersion` is not modelled.
- `updatePackage` also calls `updateContents` with the factory's content list. It is modelled as storing that list in package.xml; its rules are not modelled.
- `getVersion()` (used by `placeArchive`) is modelled as package.xml's release version. `getName()` only appears in an error message, which is modelled as the error kind with the path.
- `_getPackageFile` of `Source` chooses a PEAR configuration from the 'pearrc' option. The model takes the resulting environment as the collaborator `archiveEnvironment`.
- `PearPackage.Package.UpdatePackageFile`: only the default action is modelled. 'print' and 'diff' print a debug dump or a unified diff through PEAR and Text_Diff. The refresh of the contents (`createContents()->update()`) is also not modelled.
- `PearPackage.Package.GetEnvironment`: the source throws `Component_Exception` on lines 121 and 146, not `Components_Exception`. That class is not defined, so the failure is a fatal error rather than a catchable exception. Both methods model it as the error kind.
- Composer.ComposerName: `Horde_String::lower` is modelled on ASCII letters only.
- Changelog.SortDescending: `uksort` is modelled as an insertion sort. Its order among versions that compare equal may differ from PHP's sort.
- PHP integer-like string keys (which PHP turns into integers inside arrays) are not modelled: every key is a string.
- The `$updated` list of `nextVersion` and `_setVersion` is modelled by wrapper names. Saving it therefore saves each named cached wrapper.
- Dependencies.PhpConstraint: an array-valued `php` entry under 'required' is handed to `composerToPear` as null. The translator takes a constraint string or null, and what the PHP helper does with an array is not part of this model.
- Dependencies.SplitPackageKey: a dependency key without '/' gets the name ""; PHP leaves the name null and raises a notice, which the model does not reproduce.
