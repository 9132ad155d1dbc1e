# geonames:seed — a Dafny model of the seed command's file selection and acquisition

The `geonames:seed` console command downloads the GeoNames dump into a
working directory and then hands two of the files to the importer. This
project models what the command decides and does. The parts are:

- **the catalogue** (`$files`): an ordered map from logical names (`names`,
  `alternate`, `hierarchy`, …) to download locations, and the two mode edits
  of it. Development mode swaps `names` for the cities15000 archive and drops
  `alternate`. Country mode checks the code length, upper-cases the code and
  fills it into the per-country template.
- **the option guard**: development together with a non-null country is
  refused, before anything touches the disk.
- **the acquisition loop** over the catalogue, in catalogue order. An entry
  is skipped when `fileExists` finds it or its `.zip`→`.txt` counterpart.
  Otherwise the file is opened for writing (this can fail) and downloaded.
  A name ending in `zip` is then extracted and the archive deleted.
- **the reset** of the working directory (`--wipe-files`, then make it if
  missing), the `--fetch-only` exit, and the two importer calls (names, then
  countries).

Modules:

- `FileNames` (`file_names.dfy`) holds the pure string operations the
  command uses: PHP `basename`, `str_replace('.zip', '.txt', …)` (every
  non-overlapping occurrence, left to right), the `"zip"` suffix test and
  ASCII `strtoupper`.
- `Catalogue` (`catalogue.dfy`) holds the PHP ordered array as a sequence of
  `(key, url)` entries. Assigning an existing key replaces it in place;
  assigning a new key appends; `unset` removes the pair. The shipped
  catalogue, the development URL and the country template are here, with
  the two mode edits as functions on catalogues.
- `Acquisition` (`acquisition.dfy`) specifies the loop. The working
  directory is a set of file names. Every call to the outside world
  (delete/make directory, download, unzip, the importer) is an `Effect`.
  `Step` is one pass of the loop body; `Acquire` is the loop over a list of
  locations, stopping at the first file that cannot be opened.
- `Seed` (`seed_command.dfy`) defines `Run`, one whole `fire` as a function
  of the catalogue, the directory and the options. It also holds the class
  `SeedCommand`, whose fields are the catalogue, the directory, whether the
  directory exists, and the log of effects. Its methods change them in
  place, as the command does. The `foreach` is a `while` loop proved against
  `Acquire`, and `Fire` is proved against `Run`.
- `SeedRuns` (`seed_runs.dfy`) proves facts about whole runs over the
  shipped catalogue in each mode. It gives the file the names importer
  reads, shows that no two selected files can be taken for one another (so a
  wiped run downloads every entry), and shows that a second run downloads
  nothing.

The storage path is a constant of the command object, `path`. Which files
cannot be opened for writing is a parameter, `unwritable`.

## Model

| member | source | states |
|---|---|---|
| FileNames.BasenameOfLocation | src/Ipalaus/EloquentGeonames/Commands/SeedCommand.php:132 | the basename of `dir/` followed by a name without `/` is that name |
| FileNames.BasenameHasNoSlash | src/Ipalaus/EloquentGeonames/Commands/SeedCommand.php:132 | a basename never contains `/` |
| FileNames.AfterLastSlashIsComponent | src/Ipalaus/EloquentGeonames/Commands/SeedCommand.php:132 | the last path component has no `/` and is a suffix of the path |
| FileNames.ReplaceAll | src/Ipalaus/EloquentGeonames/Commands/SeedCommand.php:229 | `str_replace` with a replacement as long as the pattern keeps the string's length |
| FileNames.NoZipLeft | src/Ipalaus/EloquentGeonames/Commands/SeedCommand.php:229 | after `str_replace('.zip', '.txt', …)` no `.zip` is left anywhere in the name |
| FileNames.ZipToTxtIdempotent | src/Ipalaus/EloquentGeonames/Commands/SeedCommand.php:246 | renaming a renamed name changes nothing |
| FileNames.ZipToTxtIdentity | src/Ipalaus/EloquentGeonames/Commands/SeedCommand.php:246 | a name with no `.zip` in it is not renamed |
| FileNames.ZipToTxtChanges | src/Ipalaus/EloquentGeonames/Commands/SeedCommand.php:229 | a name containing `.zip` always gets a different name |
| FileNames.ZipToTxtHead | src/Ipalaus/EloquentGeonames/Commands/SeedCommand.php:229 | a renamed name starting with anything but `.` starts with the original's first character, and the rest is the rename of the original's rest |
| FileNames.ZipToTxtKeepsHead | src/Ipalaus/EloquentGeonames/Commands/SeedCommand.php:229 | the rename keeps the length and the first two characters when neither of them is `.` |
| FileNames.ZipToTxtOfArchive | src/Ipalaus/EloquentGeonames/Commands/SeedCommand.php:229 | `stem.zip` becomes `stem.txt` when no `.zip` starts inside the stem |
| FileNames.ArchiveOfPlainStem | src/Ipalaus/EloquentGeonames/Commands/SeedCommand.php:157 | `stem.zip` becomes `stem.txt` for a stem without `p` |
| FileNames.OccursAtEnd | src/Ipalaus/EloquentGeonames/Commands/SeedCommand.php:145 | a name that ends with a pattern contains it |
| FileNames.NoPNoZip | src/Ipalaus/EloquentGeonames/Commands/SeedCommand.php:229 | a name without `p` holds no `.zip` |
| FileNames.Upper | src/Ipalaus/EloquentGeonames/Commands/SeedCommand.php:188 | `strtoupper` keeps the length |
| FileNames.UpperHasNoLowerCase | src/Ipalaus/EloquentGeonames/Commands/SeedCommand.php:188 | after `strtoupper` no ASCII lower-case letter is left |
| FileNames.UpperKeepsNoSlash | src/Ipalaus/EloquentGeonames/Commands/SeedCommand.php:188 | `strtoupper` introduces no `/` |
| Catalogue.LookupAt | src/Ipalaus/EloquentGeonames/Commands/SeedCommand.php:55-64 | in a map with unique keys, looking up an entry's key gives that entry's URL |
| Catalogue.LookupAbsent | src/Ipalaus/EloquentGeonames/Commands/SeedCommand.php:157 | a key not in the map reads as null |
| Catalogue.LookupFound | src/Ipalaus/EloquentGeonames/Commands/SeedCommand.php:157 | a lookup finds a value exactly when the key is in the map |
| Catalogue.AssignInPlace | src/Ipalaus/EloquentGeonames/Commands/SeedCommand.php:171 | assigning an existing key keeps the length and replaces that entry at its position; all other entries are unchanged |
| Catalogue.AssignKeepsKeys | src/Ipalaus/EloquentGeonames/Commands/SeedCommand.php:171 | assigning an existing key keeps the keys and their order |
| Catalogue.AssignAppends | src/Ipalaus/EloquentGeonames/Commands/SeedCommand.php:171 | assigning a new key appends the pair at the end |
| Catalogue.AssignLookup | src/Ipalaus/EloquentGeonames/Commands/SeedCommand.php:171 | after the assignment the key reads as the new value and every other key as before |
| Catalogue.UnsetAbsent | src/Ipalaus/EloquentGeonames/Commands/SeedCommand.php:173 | unsetting a missing key changes nothing |
| Catalogue.UnsetAt | src/Ipalaus/EloquentGeonames/Commands/SeedCommand.php:173 | unsetting a key removes exactly its pair and keeps the others in order |
| Catalogue.UnsetLookup | src/Ipalaus/EloquentGeonames/Commands/SeedCommand.php:173 | after `unset` the key reads as null and every other key as before |
| Catalogue.UniqueKeysOfSubsequence | src/Ipalaus/EloquentGeonames/Commands/SeedCommand.php:173 | removing a pair keeps the keys unique |
| Catalogue.AssignUnsetUnique | src/Ipalaus/EloquentGeonames/Commands/SeedCommand.php:169-174 | assignment and `unset` keep the keys unique |
| Catalogue.KeysOfRemoval | src/Ipalaus/EloquentGeonames/Commands/SeedCommand.php:173 | the keys after removing a pair are the old keys without that one |
| Catalogue.AssignThenUnsetLookup | src/Ipalaus/EloquentGeonames/Commands/SeedCommand.php:169-174 | assigning one key and unsetting another: the first reads as the new value, the second is gone, and every other key reads as before |
| Catalogue.AssignThenUnsetKeys | src/Ipalaus/EloquentGeonames/Commands/SeedCommand.php:169-174 | the keys afterwards are the old keys in the old order with the unset key removed |
| Catalogue.DevelopmentCatalogue | src/Ipalaus/EloquentGeonames/Commands/SeedCommand.php:169-174 | `setDevelopment`: `names` is the cities15000 URL, no `alternate` is left, every other key keeps its URL, and the keys keep their order (`alternate` dropped) |
| Catalogue.DevelopmentDefault | src/Ipalaus/EloquentGeonames/Commands/SeedCommand.php:169-174 | on the shipped catalogue, development mode gives cities15000 in first place followed by the catalogue from `hierarchy` on |
| Catalogue.CountryCatalogue | src/Ipalaus/EloquentGeonames/Commands/SeedCommand.php:182-189 | `setCountry` refuses exactly the codes longer than 2; otherwise `names` is the template filled with the upper-cased code, the keys are unchanged and every other entry is unchanged |
| Acquisition.FileExistsOfPlainName | src/Ipalaus/EloquentGeonames/Commands/SeedCommand.php:240-251 | for a name holding no `.zip`, `fileExists` is plain membership in the directory |
| Acquisition.FileExistsOfRenamed | src/Ipalaus/EloquentGeonames/Commands/SeedCommand.php:246 | `fileExists` for a renamed name checks that name only |
| Acquisition.Extracted | src/Ipalaus/EloquentGeonames/Commands/SeedCommand.php:220-230 | after extraction the archive is gone and its `.txt` name is present (when it differs); nothing else changes |
| Acquisition.Step | src/Ipalaus/EloquentGeonames/Commands/SeedCommand.php:131-149 | one pass of the loop body. An existing file is skipped with no effect and no change. It fails exactly on an unwritable missing file, with no change. Otherwise it downloads; a name ending in `zip` is then extracted (the directory becomes `Extracted`: the archive is gone and its `.txt` name is present), and any other name is added, alone, to the directory |
| Acquisition.AcquireOnlyFetches | src/Ipalaus/EloquentGeonames/Commands/SeedCommand.php:131-149 | the loop only downloads and unzips |
| Acquisition.AcquireStopsAtFailure | src/Ipalaus/EloquentGeonames/Commands/SeedCommand.php:198-202 | once one file cannot be opened, the rest of the loop does not run |
| Acquisition.AcquireKeeps | src/Ipalaus/EloquentGeonames/Commands/SeedCommand.php:131-149 | the loop never removes a file that was already there |
| Acquisition.AcquireLeavesPresent | src/Ipalaus/EloquentGeonames/Commands/SeedCommand.php:131-149 | after a loop that did not fail, `fileExists` finds every entry whose name settles |
| Acquisition.AcquireAllPresent | src/Ipalaus/EloquentGeonames/Commands/SeedCommand.php:134-138 | when every entry exists, the loop does and changes nothing |
| Acquisition.AcquireRerun | src/Ipalaus/EloquentGeonames/Commands/SeedCommand.php:131-149 | running the loop again over the directory it left downloads nothing |
| Acquisition.ProducedMember | src/Ipalaus/EloquentGeonames/Commands/SeedCommand.php:131-149 | every name the loop can produce is an entry's basename or its renamed form |
| Acquisition.AcquireFromEmpty | src/Ipalaus/EloquentGeonames/Commands/SeedCommand.php:123-149 | from an empty directory, with names that cannot be confused and all writable, the loop does not fail, downloads every entry in order (unzipping archives), and leaves exactly `Unpacked`: no archive's own name is left |
| Acquisition.Unpacked | src/Ipalaus/EloquentGeonames/Commands/SeedCommand.php:144-148 | what a complete loop leaves is contained in the names it can produce |
| Acquisition.UnpackedContents | src/Ipalaus/EloquentGeonames/Commands/SeedCommand.php:144-148 | with names that cannot be confused, no archive's own name is left, its `.txt` file is (when the rename changes the name), and every file that is not an archive is present |
| Seed.SeedCommand.FetchOne | src/Ipalaus/EloquentGeonames/Commands/SeedCommand.php:132-148 | the loop body changes the directory and the log exactly as `Step` says, and reports the open failure |
| Seed.Select | src/Ipalaus/EloquentGeonames/Commands/SeedCommand.php:108-117 | development with a non-null country is refused; a truthy code longer than 2 is refused; with neither mode the catalogue is unchanged |
| Seed.Run | src/Ipalaus/EloquentGeonames/Commands/SeedCommand.php:101-161 | a refused selection makes no effect and changes no state. A run downloads the selected catalogue. It imports exactly when not fetch-only and the loop did not fail; it stops after fetching exactly when fetch-only and the loop did not fail |
| Seed.RunFetchOnlyImportsNothing | src/Ipalaus/EloquentGeonames/Commands/SeedCommand.php:152-155 | with fetch-only no importer call happens |
| Seed.RunImportOrder | src/Ipalaus/EloquentGeonames/Commands/SeedCommand.php:157-160 | a completed run ends with the names import of the `.zip`→`.txt` basename of `names`, then the countries import of `countryInfo.txt`, and nothing earlier calls the importer |
| Seed.RunWipe | src/Ipalaus/EloquentGeonames/Commands/SeedCommand.php:122-131 | with wipe-files the directory is deleted and made again before any download, and the loop starts from an empty directory |
| Seed.RunWipeDownloadsAll | src/Ipalaus/EloquentGeonames/Commands/SeedCommand.php:122-149 | with wipe-files, names that cannot be confused and all writable, every selected entry is downloaded in order, then the imports follow unless fetch-only; the directory left is the unpacked files and holds no archive |
| Seed.SeedCommand.constructor | src/Ipalaus/EloquentGeonames/Commands/SeedCommand.php:55-64 | the command starts with the shipped catalogue, the given working directory and an empty log |
| Seed.SeedCommand.SetDevelopment | src/Ipalaus/EloquentGeonames/Commands/SeedCommand.php:169-174 | the catalogue becomes its development form (`names` → cities15000, `alternate` dropped), and the catalogue keeps unique keys with `names` present |
| Seed.SeedCommand.SetCountry | src/Ipalaus/EloquentGeonames/Commands/SeedCommand.php:182-189 | it fails exactly for codes longer than 2, leaving the catalogue unchanged; otherwise the catalogue becomes its country form |
| Seed.SeedCommand.DownloadFile | src/Ipalaus/EloquentGeonames/Commands/SeedCommand.php:198-211 | it fails exactly when the file cannot be opened, changing nothing; otherwise the file is added and the download is logged |
| Seed.SeedCommand.ExtractZip | src/Ipalaus/EloquentGeonames/Commands/SeedCommand.php:220-230 | it returns the `.zip`→`.txt` name, leaves the extracted directory and logs the unzip |
| Seed.SeedCommand.FetchFiles | src/Ipalaus/EloquentGeonames/Commands/SeedCommand.php:131-149 | the loop leaves the directory as `Acquire` does, logs exactly `Acquire`'s effects, and succeeds exactly when `Acquire` does not fail |
| Seed.SeedCommand.ApplyMode | src/Ipalaus/EloquentGeonames/Commands/SeedCommand.php:108-117 | the catalogue becomes the selected one, or on a refusal stays as it was and the refusal is returned |
| Seed.SeedCommand.ResetDirectory | src/Ipalaus/EloquentGeonames/Commands/SeedCommand.php:122-128 | a wipe empties the directory and logs the deletion; a missing directory is made and logged; afterwards the directory exists |
| Seed.SeedCommand.Fire | src/Ipalaus/EloquentGeonames/Commands/SeedCommand.php:101-161 | the outcome, catalogue, directory and log are exactly those of `Run` from the old state |
| Seed.SeedCommand.FetchAndImport | src/Ipalaus/EloquentGeonames/Commands/SeedCommand.php:122-160 | after selection, the reset, loop, fetch-only exit and imports leave exactly the state `Run` describes |
| Seed.SeedCommand.ImportAll | src/Ipalaus/EloquentGeonames/Commands/SeedCommand.php:157-160 | the names import and then the countries import are logged |
| SeedRuns.CatalogueBasenames | src/Ipalaus/EloquentGeonames/Commands/SeedCommand.php:55-64 | the shipped catalogue downloads eight files with the listed basenames, in order |
| SeedRuns.DevelopmentBasenames | src/Ipalaus/EloquentGeonames/Commands/SeedCommand.php:71 | the development catalogue downloads seven files with the listed basenames, in order |
| SeedRuns.FullNamesPlain | src/Ipalaus/EloquentGeonames/Commands/SeedCommand.php:55-64 | every shipped basename is non-empty, has no `/`, and is either a `.zip` archive or fails the archive test |
| SeedRuns.DevelopmentNamesPlain | src/Ipalaus/EloquentGeonames/Commands/SeedCommand.php:71 | the same holds for the development basenames |
| SeedRuns.ArchiveNamesPlain | src/Ipalaus/EloquentGeonames/Commands/SeedCommand.php:56-58 | the archives the catalogues name are plain `.zip` names |
| SeedRuns.TextNamesPlain | src/Ipalaus/EloquentGeonames/Commands/SeedCommand.php:59-63 | the text files the catalogue names are plain names that fail the archive test |
| SeedRuns.DumpLocations | src/Ipalaus/EloquentGeonames/Commands/SeedCommand.php:132 | a plain name in the dump directory is its location's basename |
| SeedRuns.DistinguishableApart | src/Ipalaus/EloquentGeonames/Commands/SeedCommand.php:134 | names of different lengths, or with different first two characters that are not `.`, are never mistaken for one another by `fileExists` |
| SeedRuns.DistinctByTable | src/Ipalaus/EloquentGeonames/Commands/SeedCommand.php:131-138 | locations whose basenames are pairwise distinguishable cannot be confused |
| SeedRuns.SettlesByExtension | src/Ipalaus/EloquentGeonames/Commands/SeedCommand.php:145 | a name ending in `.zip`, or one that fails the archive test, stays findable once fetched |
| SeedRuns.CountryName | src/Ipalaus/EloquentGeonames/Commands/SeedCommand.php:188 | a per-country archive's basename has at most 6 characters and ends in `.zip` |
| SeedRuns.UnambiguousByTable | src/Ipalaus/EloquentGeonames/Commands/SeedCommand.php:131-149 | a table of plain, pairwise distinguishable basenames cannot be confused and stays findable once fetched |
| SeedRuns.FullSelection | src/Ipalaus/EloquentGeonames/Commands/SeedCommand.php:55-64 | the full catalogue's files cannot be confused and all stay findable once fetched |
| SeedRuns.DevelopmentSelection | src/Ipalaus/EloquentGeonames/Commands/SeedCommand.php:169-174 | the same for the development catalogue |
| SeedRuns.CountrySelection | src/Ipalaus/EloquentGeonames/Commands/SeedCommand.php:182-189 | the same for every per-country catalogue |
| SeedRuns.SelectionsAreUnambiguous | src/Ipalaus/EloquentGeonames/Commands/SeedCommand.php:108-117 | whatever mode the options select, the files cannot be confused and all stay findable once fetched |
| SeedRuns.NamesFileOfArchive | src/Ipalaus/EloquentGeonames/Commands/SeedCommand.php:157 | a `names` entry at `…/dump/stem.zip` is imported from `stem.txt` |
| SeedRuns.ShippedNamesFile | src/Ipalaus/EloquentGeonames/Commands/SeedCommand.php:157 | names are imported from `allCountries.txt`, from `cities15000.txt` in development mode, and from the upper-cased code plus `.txt` for a country |
| SeedRuns.ShippedWipeDownloadsAll | src/Ipalaus/EloquentGeonames/Commands/SeedCommand.php:122-160 | with wipe-files over the shipped catalogue and every file writable, the run deletes and makes the directory, downloads every selected entry in order, and then imports (or stops, with fetch-only); afterwards no archive is left in the directory |
| SeedRuns.SecondRunDownloadsNothing | src/Ipalaus/EloquentGeonames/Commands/SeedCommand.php:131-138 | running again without wiping, on the directory a run left behind, downloads nothing, leaves the directory as it was, has the same outcome and repeats only the imports |

## Left out

- Seed.SeedCommand.ResetDirectory: `deleteDirectory` (line 123) and
  `makeDirectory` (line 127) are assumed to succeed, because their results
  are ignored by the command and the filesystem is not modelled. A failed
  delete would leave files that the loop then skips; a failed make would
  surface as the open failure of line 200. `Seed.RunWipe`,
  `Seed.RunWipeDownloadsAll` and `SeedRuns.ShippedWipeDownloadsAll` rely on
  this when they start the loop from an empty directory.
- The HTTP transfer (curl, lines 205-210) is an abstract effect: a
  download adds the basename to the directory and is logged. Transfer
  errors and file contents are not modelled.
- The ZIP library (lines 222-225) is also abstract. Extraction is assumed
  to yield exactly the `.zip`→`.txt` name that line 229 returns. What the
  archive really holds, and failures to open or extract it, are not
  modelled.
- Console option parsing, `getOptions`, the `line` output and the storage
  path lookup are left out. The options are a datatype and the storage path
  is the object's `path`.
- The importer (`names`, `countries`) is modelled only as the two logged
  calls, with their tables and paths. Its parsing and upserting happen
  outside this command; the importer class is not part of this model.
- The Eloquent models and the seeders are not part of this model. They hold
  no logic that the command uses.
- Exceptions are modelled as `Failed` outcomes. An exception thrown by
  `downloadFile` keeps the changes made before it, as the real run does.
- `force` is accepted in `Options` and read nowhere, as in the command.
- `strlen` and `strtoupper` are modelled on characters, with ASCII case
  mapping only. Multi-byte codes are not modelled.
- Seed.SeedCommand.GetFiles: it has no contract of its own. It returns the
  catalogue field, and the loop is proved over `Urls(GetFiles())`.
- SeedRuns.ShippedNamesFile: it gives the country-mode names file only for
  a code without `/`. A code such as `a/` makes `basename` cut inside the
  template.
- Acquisition.AcquireLeavesPresent, Acquisition.AcquireRerun and
  SeedRuns.SecondRunDownloadsNothing cover only names that settle. A name
  ending in `zip` with no `.zip` in it would be extracted and then deleted
  under its own name. Neither catalogue contains such a name.
