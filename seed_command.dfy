/**
 * The `geonames:seed` console command: option guard, mode edits of the
 * catalogue, working-directory reset, the acquisition loop, the fetch-only
 * exit and the two importer calls.
 */
module Seed {
  import opened Wrappers
  import opened FileNames
  import opened Catalogue
  import opened Acquisition

  /** The command's options; `country` is null (None) unless given. */
  datatype Options = Options(
    country: Option<string>,
    development: bool,
    fetchOnly: bool,
    force: bool,
    wipeFiles: bool)

  datatype Error =
    | ConflictingSelection   // development and a country at once
    | CountryFormat          // a country code longer than two characters
    | Unwritable(path: string)  // a download target could not be opened

  datatype Outcome = Imported | Fetched | Failed(error: Error)

  /** PHP's truth value of a string: "" and "0" are false. */
  predicate Truthy(s: string)
  {
    s != "" && s != "0"
  }

  /**
   * The guard and the mode edits of `fire`: refuse development together with
   * any non-null country, apply development mode, then apply a truthy country.
   */
  function Select(files: Files, opts: Options): (r: Result<Files, Error>)
    ensures r == Failure(ConflictingSelection) <==> opts.development && opts.country.Some?
    ensures r == Failure(CountryFormat) <==>
      !opts.development && opts.country.Some? && Truthy(opts.country.value) && |opts.country.value| > 2
    ensures r.Failure? ==> r.error.ConflictingSelection? || r.error.CountryFormat?
    ensures !opts.development && (opts.country.None? || !Truthy(opts.country.value)) ==> r == Success(files)
  {
    if opts.development && opts.country.Some? then Failure(ConflictingSelection)
    else
      var f := if opts.development then WithDevelopment(files) else files;
      if opts.country.Some? && Truthy(opts.country.value) then
        match WithCountry(f, opts.country.value)
        case None => Failure(CountryFormat)
        case Some(g) => Success(g)
      else Success(f)
  }

  /** The names file the importer reads: the `.zip`→`.txt` form of the `names` basename. */
  function NamesFile(files: Files): (r: string)
  {
    match Lookup(files, "names")
    case Some(u) => ZipToTxt(Basename(u))
    case None => ""   // PHP: an unset key reads as null, whose basename is ""
  }

  /** The importer calls of the tail of `fire`, names first. */
  function Imports(path: string, files: Files): (r: seq<Effect>)
  {
    [ImportNames("geonames_names", path + "/" + NamesFile(files)),
     ImportCountries("geonames_countries", path + "/countryInfo.txt")]
  }

  /** The directory reset before the loop: the effects and the directory the loop starts from. */
  function ResetEffects(dirExists: bool, wipeFiles: bool): (r: seq<Effect>)
  {
    if wipeFiles then [DeleteDirectory, MakeDirectory]
    else if !dirExists then [MakeDirectory]
    else []
  }

  function StartDir(dir: set<string>, dirExists: bool, wipeFiles: bool): (r: set<string>)
  {
    if wipeFiles || !dirExists then {} else dir
  }

  datatype RunResult = RunResult(
    outcome: Outcome,
    files: Files,
    dir: set<string>,
    dirExists: bool,
    effects: seq<Effect>)

  /**
   * One run of `fire` from catalogue `files` and a working directory `dir`
   * (existing or not), with the options `opts`; `unwritable` are the file
   * names that cannot be opened for writing. The `force` option is never read.
   */
  function Run(files: Files, dir: set<string>, dirExists: bool, path: string,
               opts: Options, unwritable: set<string>): (r: RunResult)
    ensures opts.development && opts.country.Some? ==>
      r == RunResult(Failed(ConflictingSelection), files, dir, dirExists, [])
    ensures r.outcome == Failed(ConflictingSelection) || r.outcome == Failed(CountryFormat) ==>
      r.effects == [] && r.dir == dir && r.dirExists == dirExists && r.files == files
    ensures r.outcome == Failed(CountryFormat) <==> Select(files, opts) == Failure(CountryFormat)
    ensures Select(files, opts).Success? ==> r.files == Select(files, opts).value && r.dirExists
    ensures r.outcome == Imported <==>
      !opts.fetchOnly && Select(files, opts).Success? &&
      !Acquire(StartDir(dir, dirExists, opts.wipeFiles), Urls(Select(files, opts).value), unwritable).failed
    ensures r.outcome == Fetched <==>
      opts.fetchOnly && Select(files, opts).Success? &&
      !Acquire(StartDir(dir, dirExists, opts.wipeFiles), Urls(Select(files, opts).value), unwritable).failed
  {
    match Select(files, opts)
    case Failure(e) => RunResult(Failed(e), files, dir, dirExists, [])
    case Success(sel) => RunSelected(sel, dir, dirExists, path, opts, unwritable)
  }

  /** The part of a run after the mode has selected the catalogue `sel`. */
  function RunSelected(sel: Files, dir: set<string>, dirExists: bool, path: string,
                       opts: Options, unwritable: set<string>): (r: RunResult)
  {
    var acq := Acquire(StartDir(dir, dirExists, opts.wipeFiles), Urls(sel), unwritable);
    var fetched := ResetEffects(dirExists, opts.wipeFiles) + acq.effects;
    if acq.failed then RunResult(Failed(Unwritable(path)), sel, acq.dir, true, fetched)
    else if opts.fetchOnly then RunResult(Fetched, sel, acq.dir, true, fetched)
    else RunResult(Imported, sel, acq.dir, true, fetched + Imports(path, sel))
  }

  /** With fetch-only set, the importer is never called. */
  lemma RunFetchOnlyImportsNothing(files: Files, dir: set<string>, dirExists: bool, path: string,
                                   opts: Options, unwritable: set<string>)
    requires opts.fetchOnly
    ensures forall e :: e in Run(files, dir, dirExists, path, opts, unwritable).effects ==>
      !e.ImportNames? && !e.ImportCountries?
  {
    if Select(files, opts).Success? {
      AcquireOnlyFetches(StartDir(dir, dirExists, opts.wipeFiles), Urls(Select(files, opts).value), unwritable);
    }
  }

  /**
   * A completed run ends with exactly two importer calls, names from the
   * `.zip`→`.txt` form of the `names` basename strictly before countries from
   * `countryInfo.txt`, and nothing before them calls the importer.
   */
  lemma RunImportOrder(files: Files, dir: set<string>, dirExists: bool, path: string,
                       opts: Options, unwritable: set<string>)
    requires Run(files, dir, dirExists, path, opts, unwritable).outcome == Imported
    ensures var r := Run(files, dir, dirExists, path, opts, unwritable);
      var n := |r.effects|;
      n >= 2 &&
      r.effects[n - 2] == ImportNames("geonames_names", path + "/" + NamesFile(r.files)) &&
      r.effects[n - 1] == ImportCountries("geonames_countries", path + "/countryInfo.txt") &&
      forall i :: 0 <= i < n - 2 ==> !r.effects[i].ImportNames? && !r.effects[i].ImportCountries?
  {
    var sel := Select(files, opts).value;
    var d0 := StartDir(dir, dirExists, opts.wipeFiles);
    AcquireOnlyFetches(d0, Urls(sel), unwritable);
    var r := Run(files, dir, dirExists, path, opts, unwritable);
    var fetched := ResetEffects(dirExists, opts.wipeFiles) + Acquire(d0, Urls(sel), unwritable).effects;
    assert r.effects == fetched + Imports(path, sel);
    forall i | 0 <= i < |fetched| ensures !fetched[i].ImportNames? && !fetched[i].ImportCountries? {
      if i >= |ResetEffects(dirExists, opts.wipeFiles)| {
        assert fetched[i] in Acquire(d0, Urls(sel), unwritable).effects;
      }
    }
  }

  /**
   * With wipe-files set, the directory is deleted and made again before any
   * download, and the loop starts from an empty directory.
   */
  lemma RunWipe(files: Files, dir: set<string>, dirExists: bool, path: string,
                opts: Options, unwritable: set<string>)
    requires opts.wipeFiles && Select(files, opts).Success?
    ensures var r := Run(files, dir, dirExists, path, opts, unwritable);
      var acq := Acquire({}, Urls(Select(files, opts).value), unwritable);
      r.effects == [DeleteDirectory, MakeDirectory] + acq.effects +
        (if r.outcome == Imported then Imports(path, r.files) else []) &&
      r.dir == acq.dir
  {
  }

  /**
   * With wipe-files set, distinct file names and every target writable,
   * every entry of the selected catalogue is downloaded, in catalogue order,
   * and the directory ends up holding the unpacked files and no archive.
   */
  lemma RunWipeDownloadsAll(files: Files, dir: set<string>, dirExists: bool, path: string,
                            opts: Options, unwritable: set<string>)
    requires opts.wipeFiles && Select(files, opts).Success?
    requires DistinctNames(Urls(Select(files, opts).value))
    requires forall i :: 0 <= i < |Select(files, opts).value| ==>
      Basename(Select(files, opts).value[i].url) !in unwritable
    ensures var r := Run(files, dir, dirExists, path, opts, unwritable);
      var ex := Expected(Urls(Select(files, opts).value));
      r.outcome != Failed(Unwritable(path)) &&
      r.effects == [DeleteDirectory, MakeDirectory] + ex +
        (if opts.fetchOnly then [] else Imports(path, r.files)) &&
      r.dir == Unpacked(Urls(Select(files, opts).value))
    ensures var r := Run(files, dir, dirExists, path, opts, unwritable);
      var us := Urls(Select(files, opts).value);
      forall i :: 0 <= i < |us| && IsZip(Basename(us[i])) ==> Basename(us[i]) !in r.dir
  {
    var us := Urls(Select(files, opts).value);
    AcquireFromEmpty(us, unwritable);
    RunWipe(files, dir, dirExists, path, opts, unwritable);
  }

  lemma AppendAssociates<T>(a: seq<T>, b: seq<T>, c: seq<T>)
    ensures (a + b) + c == a + (b + c)
  {
  }

  /**
   * The `seed` command object: the catalogue it edits in place, the working
   * directory it fills, and the calls it has made to the outside world.
   */
  class SeedCommand {
    var files: Files
    var dir: set<string>
    var dirExists: bool
    var trace: seq<Effect>
    const path: string

    ghost predicate Valid()
      reads this
    {
      UniqueKeys(files) && "names" in Keys(files) && (!dirExists ==> dir == {})
    }

    constructor (path: string, dir: set<string>, dirExists: bool)
      requires !dirExists ==> dir == {}
      ensures Valid()
      ensures this.files == DefaultFiles && this.path == path
      ensures this.dir == dir && this.dirExists == dirExists && this.trace == []
    {
      this.files := DefaultFiles;
      this.path := path;
      this.dir := dir;
      this.dirExists := dirExists;
      this.trace := [];
      assert Keys(DefaultFiles)[0] == "names";
    }

    /** The catalogue to download. */
    function GetFiles(): (r: Files)
      reads this
    {
      files
    }

    /** `setDevelopment`: the cities15000 names file, and no alternate names. */
    method SetDevelopment()
      requires Valid()
      modifies this`files
      ensures Valid()
      ensures files == WithDevelopment(old(files))
    {
      files := Assign(files, "names", DevelopmentUrl);
      files := Unset(files, "alternate");
      DevelopmentCatalogue(old(files));
      LookupFound(files, "names");
    }

    /** `setCountry`: refuse a code longer than two characters, else the per-country names file. */
    method SetCountry(country: string) returns (ok: bool)
      requires Valid()
      modifies this`files
      ensures Valid()
      ensures ok <==> |country| <= 2
      ensures ok ==> WithCountry(old(files), country) == Some(files)
      ensures !ok ==> files == old(files)
    {
      if |country| > 2 {
        return false;
      }
      CountryCatalogue(files, country);
      files := Assign(files, "names", CountryUrl(Upper(country)));
      ok := true;
    }

    /**
     * `downloadFile`: open `filename` in the working directory for writing
     * (failing when it cannot be opened) and fetch `url` into it.
     */
    method DownloadFile(url: string, filename: string, unwritable: set<string>) returns (ok: bool)
      modifies this`dir, this`trace
      ensures ok <==> filename !in unwritable
      ensures ok ==> dir == old(dir) + {filename} && trace == old(trace) + [Download(url, filename)]
      ensures !ok ==> dir == old(dir) && trace == old(trace)
    {
      if filename in unwritable {
        return false;
      }
      dir := dir + {filename};
      trace := trace + [Download(url, filename)];
      ok := true;
    }

    /** `extractZip`: extract the archive into the directory, delete it, return the text name. */
    method ExtractZip(filename: string) returns (name: string)
      modifies this`dir, this`trace
      ensures name == ZipToTxt(filename)
      ensures dir == Extracted(old(dir), filename)
      ensures trace == old(trace) + [Unzip(filename)]
    {
      trace := trace + [Unzip(filename)];
      dir := dir + {ZipToTxt(filename)};
      dir := dir - {filename};
      name := ZipToTxt(filename);
    }

    /**
     * One pass of the `foreach` body for the location `url`: skip it when the
     * file exists, otherwise download it and extract an archive; `written`
     * is false when the file cannot be opened for writing.
     */
    method FetchOne(url: string, unwritable: set<string>) returns (written: bool)
      modifies this`dir, this`trace
      ensures var s := Step(old(dir), url, unwritable);
        written == !s.failed && dir == s.dir && trace == old(trace) + s.effects
    {
      var filename := Basename(url);
      if FileExists(dir, filename) {
        return true;
      }
      written := DownloadFile(url, filename, unwritable);
      if written && IsZip(filename) {
        filename := ExtractZip(filename);
      }
    }

    /**
     * The `foreach` of `fire`: every location in order, stopping at the
     * first file that cannot be opened for writing.
     */
    method FetchFiles(urls: seq<string>, unwritable: set<string>) returns (ok: bool)
      modifies this`dir, this`trace
      ensures var a := Acquire(old(dir), urls, unwritable);
        ok == !a.failed && dir == a.dir && trace == old(trace) + a.effects
    {
      ghost var d0, t0 := dir, trace;
      var i := 0;
      while i < |urls|
        invariant 0 <= i <= |urls|
        invariant !Acquire(d0, urls[..i], unwritable).failed
        invariant dir == Acquire(d0, urls[..i], unwritable).dir
        invariant trace == t0 + Acquire(d0, urls[..i], unwritable).effects
      {
        ghost var a := Acquire(d0, urls[..i], unwritable);
        ghost var t1 := trace;
        assert urls[..i + 1][..i] == urls[..i];
        var written := FetchOne(urls[i], unwritable);
        if !written {
          AcquireStopsAtFailure(d0, urls, i + 1, unwritable);
          return false;
        }
        AppendAssociates(t0, a.effects, trace[|t1|..]);
        i := i + 1;
      }
      assert urls[..i] == urls;
      ok := true;
    }

    /**
     * The first part of `fire`: refuse development together with a non-null
     * country, then apply development mode and a truthy country.
     */
    method ApplyMode(opts: Options) returns (err: Option<Error>)
      requires Valid()
      modifies this`files
      ensures Valid()
      ensures err.None? <==> Select(old(files), opts).Success?
      ensures err.None? ==> files == Select(old(files), opts).value
      ensures err.Some? ==> Select(old(files), opts) == Failure(err.value) && files == old(files)
    {
      var country := opts.country;
      if opts.development && country.Some? {
        return Some(ConflictingSelection);
      }
      if opts.development {
        SetDevelopment();
      }
      if country.Some? && Truthy(country.value) {
        var ok := SetCountry(country.value);
        if !ok {
          return Some(CountryFormat);
        }
      }
      err := None;
    }

    /** Delete the working directory when asked to, then make sure it exists. */
    method ResetDirectory(wipeFiles: bool)
      requires Valid()
      modifies this`dir, this`dirExists, this`trace
      ensures Valid() && dirExists
      ensures dir == StartDir(old(dir), old(dirExists), wipeFiles)
      ensures trace == old(trace) + ResetEffects(old(dirExists), wipeFiles)
    {
      if wipeFiles {
        dir := {};
        dirExists := false;
        trace := trace + [DeleteDirectory];
      }
      if !dirExists {
        dirExists := true;
        trace := trace + [MakeDirectory];
      }
    }

    /** `fire`: one run of the command. */
    method Fire(opts: Options, unwritable: set<string>) returns (outcome: Outcome)
      requires Valid()
      modifies this
      ensures Valid()
      ensures var r := Run(old(files), old(dir), old(dirExists), path, opts, unwritable);
        outcome == r.outcome && files == r.files && dir == r.dir &&
        dirExists == r.dirExists && trace == old(trace) + r.effects
    {
      var err := ApplyMode(opts);
      if err.Some? {
        return Failed(err.value);
      }
      outcome := FetchAndImport(opts, unwritable);
    }

    /**
     * The rest of `fire` once the catalogue is selected: reset the directory,
     * fetch every file, and unless fetch-only, import names then countries.
     */
    method FetchAndImport(opts: Options, unwritable: set<string>) returns (outcome: Outcome)
      requires Valid()
      modifies this`dir, this`dirExists, this`trace
      ensures Valid()
      ensures var r := RunSelected(files, old(dir), old(dirExists), path, opts, unwritable);
        outcome == r.outcome && files == r.files && dir == r.dir &&
        dirExists == r.dirExists && trace == old(trace) + r.effects
    {
      ghost var r := RunSelected(files, dir, dirExists, path, opts, unwritable);
      ghost var reset := ResetEffects(dirExists, opts.wipeFiles);
      ResetDirectory(opts.wipeFiles);
      ghost var t1, acq := trace, Acquire(dir, Urls(files), unwritable);
      var fetched := FetchFiles(Urls(GetFiles()), unwritable);
      assert trace == t1 + acq.effects;
      AppendAssociates(old(trace), reset, acq.effects);
      if !fetched {
        assert r == RunResult(Failed(Unwritable(path)), files, acq.dir, true, reset + acq.effects);
        return Failed(Unwritable(path));
      }
      if opts.fetchOnly {
        assert r == RunResult(Fetched, files, acq.dir, true, reset + acq.effects);
        return Fetched;
      }
      ImportAll();
      AppendAssociates(old(trace), reset + acq.effects, Imports(path, files));
      assert r == RunResult(Imported, files, acq.dir, true, reset + acq.effects + Imports(path, files));
      outcome := Imported;
    }

    /** The tail of `fire`: import the names file, then the country information. */
    method ImportAll()
      modifies this`trace
      ensures trace == old(trace) + Imports(path, files)
    {
      var namesFile := NamesFile(files);
      trace := trace + [ImportNames("geonames_names", path + "/" + namesFile)];
      trace := trace + [ImportCountries("geonames_countries", path + "/countryInfo.txt")];
    }
  }
}
