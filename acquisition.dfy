/**
 * The acquisition loop of the seed command, as a specification: the working
 * directory is the set of file names it holds, and every call the loop makes
 * to the outside (download, unzip, and later the importer) is an Effect.
 * The HTTP transfer and the ZIP library are abstract: a download adds the
 * basename to the directory, an extraction adds the `.zip`→`.txt` name and
 * then deletes the archive.
 */
module Acquisition {
  import opened FileNames

  datatype Effect =
    | DeleteDirectory
    | MakeDirectory
    | Download(url: string, file: string)
    | Unzip(file: string)
    | ImportNames(table: string, file: string)
    | ImportCountries(table: string, file: string)

  /** `fileExists`: the file, or its `.zip`→`.txt` counterpart, is in the directory. */
  predicate FileExists(dir: set<string>, filename: string)
  {
    filename in dir || ZipToTxt(filename) in dir
  }

  /** For a name holding no `.zip`, such as every `.txt` file, `fileExists` is plain membership. */
  lemma FileExistsOfPlainName(dir: set<string>, filename: string)
    requires !Occurs(filename, ".zip")
    ensures FileExists(dir, filename) <==> filename in dir
  {
    ZipToTxtIdentity(filename);
  }

  /** Asking for a renamed name asks for that name only: the rename has nothing left to change. */
  lemma FileExistsOfRenamed(dir: set<string>, filename: string)
    ensures FileExists(dir, ZipToTxt(filename)) <==> ZipToTxt(filename) in dir
  {
    ZipToTxtIdempotent(filename);
  }

  /** The directory after `extractZip(f)`: the text file is extracted, then the archive is deleted. */
  function Extracted(dir: set<string>, f: string): (r: set<string>)
    ensures f !in r
    ensures ZipToTxt(f) != f ==> ZipToTxt(f) in r
    ensures forall x :: x != f && x != ZipToTxt(f) ==> (x in r <==> x in dir)
  {
    (dir + {ZipToTxt(f)}) - {f}
  }

  /**
   * A name the loop leaves findable once it has fetched it: every name except
   * one that ends in `zip` and has no `.zip` to rename (its extraction
   * deletes the only name the check looks for).
   */
  predicate Settles(name: string)
  {
    IsZip(name) ==> ZipToTxt(name) != name
  }

  datatype StepResult = StepResult(dir: set<string>, effects: seq<Effect>, failed: bool)

  /**
   * One pass of the `foreach` body for the location `url`: skip when the
   * file exists, fail when it cannot be opened for writing, otherwise
   * download and, for a name ending in `zip`, extract.
   */
  function Step(dir: set<string>, url: string, unwritable: set<string>): (r: StepResult)
    ensures FileExists(dir, Basename(url)) ==> r == StepResult(dir, [], false)
    ensures r.failed <==> !FileExists(dir, Basename(url)) && Basename(url) in unwritable
    ensures r.failed ==> r.dir == dir && r.effects == []
    ensures !FileExists(dir, Basename(url)) && !r.failed ==>
      r.effects == [Download(url, Basename(url))] + (if IsZip(Basename(url)) then [Unzip(Basename(url))] else [])
    ensures !FileExists(dir, Basename(url)) && !r.failed && IsZip(Basename(url)) ==>
      r.dir == Extracted(dir + {Basename(url)}, Basename(url)) &&
      Basename(url) !in r.dir && (ZipToTxt(Basename(url)) != Basename(url) ==> ZipToTxt(Basename(url)) in r.dir)
    ensures !FileExists(dir, Basename(url)) && !r.failed && !IsZip(Basename(url)) ==>
      r.dir == dir + {Basename(url)}
    ensures dir <= r.dir <= dir + {Basename(url), ZipToTxt(Basename(url))}
    ensures !r.failed && Settles(Basename(url)) ==> FileExists(r.dir, Basename(url))
  {
    var name := Basename(url);
    if FileExists(dir, name) then StepResult(dir, [], false)
    else if name in unwritable then StepResult(dir, [], true)
    else if IsZip(name) then StepResult(Extracted(dir + {name}, name), [Download(url, name), Unzip(name)], false)
    else StepResult(dir + {name}, [Download(url, name)], false)
  }

  datatype Acquired = Acquired(dir: set<string>, effects: seq<Effect>, failed: bool)

  /** The whole loop over `urls` in order, stopping at the first write failure. */
  function Acquire(dir: set<string>, urls: seq<string>, unwritable: set<string>): (r: Acquired)
    decreases |urls|
  {
    if urls == [] then Acquired(dir, [], false)
    else
      var prev := Acquire(dir, urls[..|urls| - 1], unwritable);
      if prev.failed then prev
      else
        var s := Step(prev.dir, urls[|urls| - 1], unwritable);
        Acquired(s.dir, prev.effects + s.effects, s.failed)
  }

  /** The loop only downloads and unzips; it never calls the importer. */
  lemma {:induction false} AcquireOnlyFetches(dir: set<string>, urls: seq<string>, unwritable: set<string>)
    ensures forall e :: e in Acquire(dir, urls, unwritable).effects ==> e.Download? || e.Unzip?
    decreases |urls|
  {
    if urls != [] {
      AcquireOnlyFetches(dir, urls[..|urls| - 1], unwritable);
    }
  }

  /** Once a prefix has failed, the rest of the loop does not run. */
  lemma {:induction false} AcquireStopsAtFailure(dir: set<string>, urls: seq<string>, k: nat, unwritable: set<string>)
    requires k <= |urls|
    requires Acquire(dir, urls[..k], unwritable).failed
    ensures Acquire(dir, urls, unwritable) == Acquire(dir, urls[..k], unwritable)
    decreases |urls|
  {
    if k < |urls| {
      assert urls[..|urls| - 1][..k] == urls[..k];
      AcquireStopsAtFailure(dir, urls[..|urls| - 1], k, unwritable);
    } else {
      assert urls[..k] == urls;
    }
  }

  /** The loop never deletes a file that was already in the directory. */
  lemma {:induction false} AcquireKeeps(dir: set<string>, urls: seq<string>, unwritable: set<string>)
    ensures dir <= Acquire(dir, urls, unwritable).dir
    decreases |urls|
  {
    if urls != [] {
      AcquireKeeps(dir, urls[..|urls| - 1], unwritable);
    }
  }

  /**
   * After a loop that did not fail, every entry whose name settles is found
   * by `fileExists`.
   */
  lemma {:induction false} AcquireLeavesPresent(dir: set<string>, urls: seq<string>, unwritable: set<string>)
    requires !Acquire(dir, urls, unwritable).failed
    ensures forall i :: 0 <= i < |urls| && Settles(Basename(urls[i])) ==>
      FileExists(Acquire(dir, urls, unwritable).dir, Basename(urls[i]))
    decreases |urls|
  {
    if urls != [] {
      var n := |urls| - 1;
      var p := urls[..n];
      var prev := Acquire(dir, p, unwritable);
      AcquireLeavesPresent(dir, p, unwritable);
      assert !prev.failed;
      var s := Step(prev.dir, urls[n], unwritable);
      assert Acquire(dir, urls, unwritable).dir == s.dir;
      assert prev.dir <= s.dir;
      forall i | 0 <= i < |urls| && Settles(Basename(urls[i]))
        ensures FileExists(s.dir, Basename(urls[i]))
      {
        if i < n {
          assert p[i] == urls[i];
          assert FileExists(prev.dir, Basename(urls[i]));
        }
      }
    }
  }

  /** When every entry already exists, the loop downloads and changes nothing. */
  lemma {:induction false} AcquireAllPresent(dir: set<string>, urls: seq<string>, unwritable: set<string>)
    requires forall i :: 0 <= i < |urls| ==> FileExists(dir, Basename(urls[i]))
    ensures Acquire(dir, urls, unwritable) == Acquired(dir, [], false)
    decreases |urls|
  {
    if urls != [] {
      var n := |urls| - 1;
      forall i | 0 <= i < n ensures FileExists(dir, Basename(urls[..n][i])) {
        assert urls[..n][i] == urls[i];
      }
      AcquireAllPresent(dir, urls[..n], unwritable);
    }
  }

  /**
   * Running the loop a second time over the directory the first run left
   * behind downloads nothing and leaves the directory as it is.
   */
  lemma AcquireRerun(dir: set<string>, urls: seq<string>, unwritable: set<string>)
    requires !Acquire(dir, urls, unwritable).failed
    requires forall i :: 0 <= i < |urls| ==> Settles(Basename(urls[i]))
    ensures var d := Acquire(dir, urls, unwritable).dir;
      Acquire(d, urls, unwritable) == Acquired(d, [], false)
  {
    AcquireLeavesPresent(dir, urls, unwritable);
    AcquireAllPresent(Acquire(dir, urls, unwritable).dir, urls, unwritable);
  }

  /** Two names neither of which, nor whose renamed form, can be taken for the other's. */
  predicate Apart(a: string, b: string)
  {
    a != b && a != ZipToTxt(b) && ZipToTxt(a) != b && ZipToTxt(a) != ZipToTxt(b)
  }

  /** No entry's file can be taken for an earlier entry's file. */
  predicate DistinctNames(urls: seq<string>)
  {
    forall i, j :: 0 <= i < j < |urls| ==> Apart(Basename(urls[i]), Basename(urls[j]))
  }

  /** Every name the loop may produce for `urls`. */
  function Produced(urls: seq<string>): (r: set<string>)
    decreases |urls|
  {
    if urls == [] then {}
    else Produced(urls[..|urls| - 1]) + {Basename(urls[|urls| - 1]), ZipToTxt(Basename(urls[|urls| - 1]))}
  }

  lemma {:induction false} ProducedMember(urls: seq<string>, x: string)
    requires x in Produced(urls)
    ensures exists i :: 0 <= i < |urls| && (x == Basename(urls[i]) || x == ZipToTxt(Basename(urls[i])))
    decreases |urls|
  {
    var n := |urls| - 1;
    if x !in {Basename(urls[n]), ZipToTxt(Basename(urls[n]))} {
      ProducedMember(urls[..n], x);
      var i :| 0 <= i < n && (x == Basename(urls[..n][i]) || x == ZipToTxt(Basename(urls[..n][i])));
      assert urls[..n][i] == urls[i];
    }
  }

  /** What a loop that downloads every entry does: download each in order, unzipping archives. */
  function Expected(urls: seq<string>): (r: seq<Effect>)
    decreases |urls|
  {
    if urls == [] then []
    else
      var u := urls[|urls| - 1];
      Expected(urls[..|urls| - 1]) + [Download(u, Basename(u))] + (if IsZip(Basename(u)) then [Unzip(Basename(u))] else [])
  }

  /**
   * What a loop that downloads every entry leaves behind: each file that is
   * not an archive, and each archive's `.txt` file in place of the archive.
   */
  function Unpacked(urls: seq<string>): (r: set<string>)
    ensures r <= Produced(urls)
    decreases |urls|
  {
    if urls == [] then {}
    else
      var b := Basename(urls[|urls| - 1]);
      Unpacked(urls[..|urls| - 1]) + (if IsZip(b) then {ZipToTxt(b)} - {b} else {b})
  }

  /**
   * With names that cannot be confused, no archive is left in `Unpacked`,
   * its `.txt` file is (when the rename changes the name), and every other
   * file is there under its own name.
   */
  lemma {:induction false} UnpackedContents(urls: seq<string>)
    requires DistinctNames(urls)
    ensures forall i :: 0 <= i < |urls| && IsZip(Basename(urls[i])) ==>
      Basename(urls[i]) !in Unpacked(urls) &&
      (ZipToTxt(Basename(urls[i])) != Basename(urls[i]) ==> ZipToTxt(Basename(urls[i])) in Unpacked(urls))
    ensures forall i :: 0 <= i < |urls| && !IsZip(Basename(urls[i])) ==> Basename(urls[i]) in Unpacked(urls)
    decreases |urls|
  {
    if urls != [] {
      var n := |urls| - 1;
      var p := urls[..n];
      assert DistinctNames(p) by {
        forall i, j | 0 <= i < j < n ensures Apart(Basename(p[i]), Basename(p[j])) {
          assert p[i] == urls[i] && p[j] == urls[j];
        }
      }
      UnpackedContents(p);
      var b := Basename(urls[n]);
      assert b !in Unpacked(p) by {
        if b in Unpacked(p) {
          ProducedMember(p, b);
          assert false;
        }
      }
      forall i | 0 <= i < n
        ensures IsZip(Basename(urls[i])) ==>
          Basename(urls[i]) !in Unpacked(urls) &&
          (ZipToTxt(Basename(urls[i])) != Basename(urls[i]) ==> ZipToTxt(Basename(urls[i])) in Unpacked(urls))
        ensures !IsZip(Basename(urls[i])) ==> Basename(urls[i]) in Unpacked(urls)
      {
        assert p[i] == urls[i];
        assert Apart(Basename(urls[i]), b);
      }
    }
  }

  /**
   * From an empty directory (after `wipe-files`), with distinct names and
   * every file writable, every entry is downloaded, in catalogue order, and
   * the directory left is exactly the unpacked files, with no archive in it.
   */
  lemma {:induction false} AcquireFromEmpty(urls: seq<string>, unwritable: set<string>)
    requires DistinctNames(urls)
    requires forall i :: 0 <= i < |urls| ==> Basename(urls[i]) !in unwritable
    ensures !Acquire({}, urls, unwritable).failed
    ensures Acquire({}, urls, unwritable).effects == Expected(urls)
    ensures Acquire({}, urls, unwritable).dir <= Produced(urls)
    ensures Acquire({}, urls, unwritable).dir == Unpacked(urls)
    ensures forall i :: 0 <= i < |urls| && IsZip(Basename(urls[i])) ==>
      Basename(urls[i]) !in Acquire({}, urls, unwritable).dir
    decreases |urls|
  {
    UnpackedContents(urls);
    if urls != [] {
      var n := |urls| - 1;
      var p := urls[..n];
      assert DistinctNames(p) by {
        forall i, j | 0 <= i < j < n ensures Apart(Basename(p[i]), Basename(p[j])) {
          assert p[i] == urls[i] && p[j] == urls[j];
        }
      }
      forall i | 0 <= i < n ensures Basename(p[i]) !in unwritable {
        assert p[i] == urls[i];
      }
      AcquireFromEmpty(p, unwritable);
      var prev := Acquire({}, p, unwritable);
      var b := Basename(urls[n]);
      assert !FileExists(prev.dir, b) by {
        if b in prev.dir {
          ProducedMember(p, b);
          assert false;
        }
        if ZipToTxt(b) in prev.dir {
          ProducedMember(p, ZipToTxt(b));
          assert false;
        }
      }
    }
  }
}
