/**
 * Properties of whole runs of the seed command over the shipped catalogue:
 * the file the names importer reads in each mode, that no two selected
 * files can be taken for each other (so a wiped run downloads every entry),
 * and that a second run over the directory a first run left behind
 * downloads nothing.
 */
module SeedRuns {
  import opened Wrappers
  import opened FileNames
  import opened Catalogue
  import opened Acquisition
  import opened Seed

  /** The basenames of the full catalogue, in order. */
  const FullNames: seq<string> := [
    "allCountries.zip", "alternateNames.zip", "hierarchy.zip", "admin1CodesASCII.txt",
    "admin2Codes.txt", "featureCodes_en.txt", "timeZones.txt", "countryInfo.txt"]

  /** A file of the dump directory is found under its own name. */
  lemma DumpLocation(name: string)
    requires name != [] && '/' !in name
    ensures Basename(DumpUrl + name) == name
  {
    BasenameOfLocation(DumpUrl, name);
  }

  /** A plain file name: non-empty, no `/`, and either an archive ending in `.zip` or no archive. */
  predicate PlainName(name: string)
  {
    name != [] && '/' !in name && (EndsWith(name, ".zip") || !IsZip(name))
  }

  /** Files of the dump directory are found under their own names. */
  lemma DumpLocations(names: seq<string>)
    requires forall i :: 0 <= i < |names| ==> PlainName(names[i])
    ensures forall i :: 0 <= i < |names| ==> Basename(DumpUrl + names[i]) == names[i]
  {
    forall i | 0 <= i < |names| ensures Basename(DumpUrl + names[i]) == names[i] {
      DumpLocation(names[i]);
    }
  }

  /** The archives of the dump directory the catalogues name are plain names. */
  lemma ArchiveNamesPlain(name: string)
    requires name == "allCountries.zip" || name == "alternateNames.zip" ||
      name == "hierarchy.zip" || name == "cities15000.zip"
    ensures PlainName(name)
  {
  }

  /** The text files of the dump directory the catalogues name are plain names. */
  lemma TextNamesPlain(name: string)
    requires name == "admin1CodesASCII.txt" || name == "admin2Codes.txt" ||
      name == "featureCodes_en.txt" || name == "timeZones.txt" || name == "countryInfo.txt"
    ensures PlainName(name)
  {
  }

  /** The full catalogue's names are plain. */
  lemma FullNamesPlain()
    ensures forall i :: 0 <= i < 8 ==> PlainName(FullNames[i])
  {
    forall i | 0 <= i < 8 ensures PlainName(FullNames[i]) {
      if i < 3 {
        ArchiveNamesPlain(FullNames[i]);
      } else {
        TextNamesPlain(FullNames[i]);
      }
    }
  }

  /** The full catalogue downloads eight files, whose basenames are `FullNames`. */
  lemma CatalogueBasenames()
    ensures |Urls(DefaultFiles)| == 8
    ensures forall i :: 0 <= i < 8 ==> Basename(Urls(DefaultFiles)[i]) == FullNames[i]
  {
    var us := Urls(DefaultFiles);
    FullNamesPlain();
    DumpLocations(FullNames);
    forall i | 0 <= i < 8 ensures Basename(us[i]) == FullNames[i] {
      assert us[i] == DumpUrl + FullNames[i];
    }
  }

  /**
   * Two names told apart by their length, or by first two characters that
   * hold no `.`: the rename keeps both, so neither name nor its renamed form
   * can meet the other's.
   */
  predicate Distinguishable(a: string, b: string)
  {
    |a| != |b| ||
    (|a| >= 2 && |b| >= 2 && a[0] != '.' && a[1] != '.' && b[0] != '.' && b[1] != '.' &&
     (a[0] != b[0] || a[1] != b[1]))
  }

  lemma DistinguishableApart(a: string, b: string)
    requires Distinguishable(a, b)
    ensures Apart(a, b)
  {
    if |a| == |b| {
      ZipToTxtKeepsHead(a);
      ZipToTxtKeepsHead(b);
    } else {
      assert |ZipToTxt(a)| == |a| && |ZipToTxt(b)| == |b|;
    }
  }

  /** The full catalogue's names are pairwise distinguishable. */
  lemma FullDistinguishable()
    ensures forall i, j :: 0 <= i < j < 8 ==> Distinguishable(FullNames[i], FullNames[j])
  {
  }

  /** Locations whose basenames are pairwise distinguishable have distinct names. */
  lemma DistinctByTable(urls: seq<string>, names: seq<string>)
    requires |urls| == |names|
    requires forall i :: 0 <= i < |urls| ==> Basename(urls[i]) == names[i]
    requires forall i, j :: 0 <= i < j < |names| ==> Distinguishable(names[i], names[j])
    ensures DistinctNames(urls)
  {
    forall i, j | 0 <= i < j < |urls| ensures Apart(Basename(urls[i]), Basename(urls[j])) {
      DistinguishableApart(names[i], names[j]);
    }
  }

  /** A name that either ends in `.zip` or fails the archive test is always left findable. */
  lemma SettlesByExtension(name: string)
    requires EndsWith(name, ".zip") || !IsZip(name)
    ensures Settles(name)
  {
    if EndsWith(name, ".zip") {
      OccursAtEnd(name, ".zip");
      ZipToTxtChanges(name);
    }
  }

  /** The basename of a per-country archive: shorter than any catalogue name, and ending in `.zip`. */
  lemma CountryName(code: string)
    requires |code| <= 2
    ensures var b := Basename(CountryUrl(Upper(code)));
      |b| <= 6 && EndsWith(b, ".zip")
  {
    var u := Upper(code);
    assert CountryUrl(u) == DumpUrl + (u + ".zip");
    assert (DumpUrl + (u + ".zip"))[|DumpUrl + (u + ".zip")| - 1] == 'p';
    AfterLastSlashJoin(DumpUrl, u + ".zip");
    AfterLastSlashAppend(u, ".zip");
    AfterLastSlashIsComponent(u);
    var b := Basename(CountryUrl(u));
    assert b == AfterLastSlash(u) + ".zip";
    assert b[|b| - 4..] == ".zip";
  }

  /** The basenames of the development catalogue, in order. */
  const DevelopmentNames: seq<string> := [
    "cities15000.zip", "hierarchy.zip", "admin1CodesASCII.txt",
    "admin2Codes.txt", "featureCodes_en.txt", "timeZones.txt", "countryInfo.txt"]

  /** The development catalogue's names are plain. */
  lemma DevelopmentNamesPlain()
    ensures forall i :: 0 <= i < 7 ==> PlainName(DevelopmentNames[i])
  {
    FullNamesPlain();
    ArchiveNamesPlain(DevelopmentNames[0]);
    assert forall i :: 1 <= i < 7 ==> DevelopmentNames[i] == FullNames[i + 1];
  }

  /** The development catalogue's names are pairwise distinguishable. */
  lemma DevelopmentDistinguishable()
    ensures forall i, j :: 0 <= i < j < 7 ==> Distinguishable(DevelopmentNames[i], DevelopmentNames[j])
  {
  }

  /** The development catalogue downloads seven files, whose basenames are `DevelopmentNames`. */
  lemma DevelopmentBasenames()
    ensures |Urls(WithDevelopment(DefaultFiles))| == 7
    ensures forall i :: 0 <= i < 7 ==> Basename(Urls(WithDevelopment(DefaultFiles))[i]) == DevelopmentNames[i]
  {
    DevelopmentDefault();
    var us := Urls(WithDevelopment(DefaultFiles));
    CatalogueBasenames();
    var dev := "cities15000.zip";
    ArchiveNamesPlain(dev);
    DumpLocation(dev);
    forall i | 0 <= i < 7 ensures Basename(us[i]) == DevelopmentNames[i] {
      if i > 0 {
        assert us[i] == Urls(DefaultFiles)[i + 1];
        assert DevelopmentNames[i] == FullNames[i + 1];
      } else {
        assert us[0] == DumpUrl + dev && DevelopmentNames[0] == dev;
      }
    }
  }

  /**
   * A download list a run can be trusted with: no file can be taken for
   * another, and every name settles (a run leaves it findable).
   */
  predicate Unambiguous(urls: seq<string>)
  {
    DistinctNames(urls) && forall i :: 0 <= i < |urls| ==> Settles(Basename(urls[i]))
  }

  /** Locations whose basenames form a table of plain, pairwise distinguishable names are unambiguous. */
  lemma UnambiguousByTable(urls: seq<string>, names: seq<string>)
    requires |urls| == |names|
    requires forall i :: 0 <= i < |urls| ==> Basename(urls[i]) == names[i]
    requires forall i :: 0 <= i < |names| ==> PlainName(names[i])
    requires forall i, j :: 0 <= i < j < |names| ==> Distinguishable(names[i], names[j])
    ensures Unambiguous(urls)
  {
    DistinctByTable(urls, names);
    forall i | 0 <= i < |urls| ensures Settles(Basename(urls[i])) {
      SettlesByExtension(names[i]);
    }
  }

  lemma FullSelection()
    ensures Unambiguous(Urls(DefaultFiles))
  {
    CatalogueBasenames();
    FullNamesPlain();
    FullDistinguishable();
    UnambiguousByTable(Urls(DefaultFiles), FullNames);
  }

  lemma DevelopmentSelection()
    ensures Unambiguous(Urls(WithDevelopment(DefaultFiles)))
  {
    DevelopmentBasenames();
    DevelopmentNamesPlain();
    DevelopmentDistinguishable();
    UnambiguousByTable(Urls(WithDevelopment(DefaultFiles)), DevelopmentNames);
  }

  lemma CountrySelection(code: string)
    requires |code| <= 2
    ensures Unambiguous(Urls(Assign(DefaultFiles, "names", CountryUrl(Upper(code)))))
  {
    var cu := CountryUrl(Upper(code));
    var sel := Assign(DefaultFiles, "names", cu);
    assert sel == [Entry("names", cu)] + DefaultFiles[1..];
    var urls := Urls(sel);
    var full := Urls(DefaultFiles);
    CatalogueBasenames();
    FullNamesPlain();
    CountryName(code);
    var names := [Basename(cu)] + FullNames[1..];
    forall i | 0 <= i < |urls| ensures Basename(urls[i]) == names[i] {
      if i > 0 { assert urls[i] == full[i]; }
    }
    BasenameHasNoSlash(cu);
    forall i | 0 <= i < |names| ensures PlainName(names[i]) {
      if i > 0 { assert names[i] == FullNames[i]; }
    }
    forall i, j | 0 <= i < j < |names| ensures Distinguishable(names[i], names[j]) {
      if i > 0 {
        FullDistinguishable();
        assert names[i] == FullNames[i] && names[j] == FullNames[j];
      } else {
        assert |FullNames[j]| >= 13;
      }
    }
    UnambiguousByTable(urls, names);
  }

  /** Whatever mode the options select from the shipped catalogue, the download list is unambiguous. */
  lemma SelectionsAreUnambiguous(opts: Options)
    requires Select(DefaultFiles, opts).Success?
    ensures Unambiguous(Urls(Select(DefaultFiles, opts).value))
  {
    if opts.country.Some? && Truthy(opts.country.value) {
      CountrySelection(opts.country.value);
    } else if opts.development {
      DevelopmentSelection();
    } else {
      FullSelection();
    }
  }

  /** A catalogue whose `names` entry is the archive `stem.zip` of the dump directory imports `stem.txt`. */
  lemma NamesFileOfArchive(files: Files, stem: string)
    requires stem != [] && 'p' !in stem && '/' !in stem
    requires Lookup(files, "names") == Some(DumpUrl + (stem + ".zip"))
    ensures NamesFile(files) == stem + ".txt"
  {
    assert '/' !in stem + ".zip" by {
      forall i | 0 <= i < |stem| + 4 ensures (stem + ".zip")[i] != '/' {
        if i < |stem| { assert stem[i] in stem; }
      }
    }
    DumpLocation(stem + ".zip");
    ArchiveOfPlainStem(stem);
  }

  /**
   * The file the names importer reads: `allCountries.txt` for the full
   * catalogue, `cities15000.txt` in development mode, and the upper-cased
   * country code with `.txt` for a country.
   */
  lemma ShippedNamesFile(opts: Options)
    requires Select(DefaultFiles, opts).Success?
    ensures var sel := Select(DefaultFiles, opts).value;
      if opts.country.Some? && Truthy(opts.country.value) then
        '/' !in opts.country.value ==> NamesFile(sel) == Upper(opts.country.value) + ".txt"
      else if opts.development then NamesFile(sel) == "cities15000.txt"
      else NamesFile(sel) == "allCountries.txt"
  {
    var sel := Select(DefaultFiles, opts).value;
    if opts.country.Some? && Truthy(opts.country.value) {
      var code := opts.country.value;
      var u := Upper(code);
      AssignLookup(DefaultFiles, "names", CountryUrl(u), "names");
      if '/' !in code {
        UpperKeepsNoSlash(code);
        UpperHasNoLowerCase(code);
        assert CountryUrl(u) == DumpUrl + (u + ".zip");
        NamesFileOfArchive(sel, u);
      }
    } else if opts.development {
      DevelopmentDefault();
      var stem := "cities15000";
      assert stem + ".zip" == "cities15000.zip";
      assert sel[0] == Entry("names", DumpUrl + "cities15000.zip");
      assert Lookup(sel, "names") == Some(DumpUrl + (stem + ".zip"));
      NamesFileOfArchive(sel, stem);
      assert stem + ".txt" == "cities15000.txt";
    } else {
      var stem := "allCountries";
      assert stem + ".zip" == "allCountries.zip";
      assert sel[0] == Entry("names", DumpUrl + "allCountries.zip");
      assert Lookup(sel, "names") == Some(DumpUrl + (stem + ".zip"));
      NamesFileOfArchive(sel, stem);
      assert stem + ".txt" == "allCountries.txt";
    }
  }

  /**
   * A run with `--wipe-files` over the shipped catalogue, with every target
   * writable, deletes and makes the directory and then downloads every
   * selected entry in order before importing (unless fetch-only).
   */
  lemma ShippedWipeDownloadsAll(dir: set<string>, dirExists: bool, path: string, opts: Options)
    requires opts.wipeFiles && Select(DefaultFiles, opts).Success?
    ensures var r := Run(DefaultFiles, dir, dirExists, path, opts, {});
      r.outcome == (if opts.fetchOnly then Fetched else Imported) &&
      r.effects == [DeleteDirectory, MakeDirectory] +
        Expected(Urls(Select(DefaultFiles, opts).value)) +
        (if opts.fetchOnly then [] else Imports(path, r.files)) &&
      r.dir == Unpacked(Urls(Select(DefaultFiles, opts).value))
    ensures var r := Run(DefaultFiles, dir, dirExists, path, opts, {});
      var us := Urls(Select(DefaultFiles, opts).value);
      forall i :: 0 <= i < |us| && IsZip(Basename(us[i])) ==> Basename(us[i]) !in r.dir
  {
    SelectionsAreUnambiguous(opts);
    RunWipeDownloadsAll(DefaultFiles, dir, dirExists, path, opts, {});
  }

  /**
   * Running the command again, without wiping, on the directory a
   * successful run left behind downloads and extracts nothing: only the
   * importer calls (if any) are repeated.
   */
  lemma SecondRunDownloadsNothing(dir: set<string>, dirExists: bool, path: string,
                                  opts: Options, unwritable: set<string>)
    requires Select(DefaultFiles, opts).Success?
    requires Run(DefaultFiles, dir, dirExists, path, opts, unwritable).outcome != Failed(Unwritable(path))
    ensures var first := Run(DefaultFiles, dir, dirExists, path, opts, unwritable);
      var second := Run(DefaultFiles, first.dir, true, path, opts.(wipeFiles := false), unwritable);
      second.outcome == first.outcome && second.dir == first.dir &&
      second.effects == (if opts.fetchOnly then [] else Imports(path, second.files))
  {
    var sel := Select(DefaultFiles, opts).value;
    var again := opts.(wipeFiles := false);
    assert Select(DefaultFiles, again) == Select(DefaultFiles, opts);
    SelectionsAreUnambiguous(opts);
    AcquireRerun(StartDir(dir, dirExists, opts.wipeFiles), Urls(sel), unwritable);
  }
}
