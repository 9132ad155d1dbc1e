/**
 * The string operations the seed command applies to download locations and
 * file names: PHP's `basename`, `str_replace('.zip', '.txt', …)`, the
 * `substr($f, -3) === "zip"` archive test and `strtoupper`.
 * Strings are sequences of characters, one character per byte (ASCII input).
 */
module FileNames {

  /** `s` with every trailing `/` removed (the first stage of PHP's `basename`). */
  function StripTrailingSlashes(s: string): (r: string)
  {
    if s != [] && s[|s| - 1] == '/' then StripTrailingSlashes(s[..|s| - 1]) else s
  }

  /** The longest suffix of `s` that holds no `/`. */
  function AfterLastSlash(s: string): (r: string)
  {
    if s == [] || s[|s| - 1] == '/' then [] else AfterLastSlash(s[..|s| - 1]) + [s[|s| - 1]]
  }

  /** PHP `basename` on a `/`-separated path: the last non-empty component. */
  function Basename(path: string): (r: string)
  {
    AfterLastSlash(StripTrailingSlashes(path))
  }

  /** The last component holds no `/` and is a suffix of the path it came from. */
  lemma {:induction false} AfterLastSlashIsComponent(s: string)
    ensures '/' !in AfterLastSlash(s)
    ensures |AfterLastSlash(s)| <= |s| && AfterLastSlash(s) == s[|s| - |AfterLastSlash(s)|..]
    decreases |s|
  {
    if s != [] && s[|s| - 1] != '/' {
      var n := |s| - 1;
      AfterLastSlashIsComponent(s[..n]);
      var t := AfterLastSlash(s[..n]);
      assert s[..n][n - |t|..] + [s[n]] == s[n - |t|..];
    }
  }

  /** A basename never holds a `/`. */
  lemma BasenameHasNoSlash(path: string)
    ensures '/' !in Basename(path)
  {
    AfterLastSlashIsComponent(StripTrailingSlashes(path));
  }

  /** Everything after a directory part ending in `/` is searched on its own. */
  lemma {:induction false} AfterLastSlashJoin(dirPart: string, tail: string)
    requires dirPart != [] && dirPart[|dirPart| - 1] == '/'
    ensures AfterLastSlash(dirPart + tail) == AfterLastSlash(tail)
  {
    if tail == [] {
      assert dirPart + tail == dirPart;
    } else {
      var n := |tail| - 1;
      assert (dirPart + tail)[..|dirPart| + n] == dirPart + tail[..n];
      if tail[n] != '/' {
        AfterLastSlashJoin(dirPart, tail[..n]);
      }
    }
  }

  /** A name without `/` is its own last component. */
  lemma {:induction false} AfterLastSlashOfName(name: string)
    requires '/' !in name
    ensures AfterLastSlash(name) == name
  {
    if name != [] {
      var n := |name| - 1;
      assert name[n] in name;
      assert '/' !in name[..n] by {
        forall i | 0 <= i < n ensures name[..n][i] != '/' { assert name[i] in name; }
      }
      AfterLastSlashOfName(name[..n]);
      assert name[..n] + [name[n]] == name;
    }
  }

  /** The basename of a download location `…/name` is `name`. */
  lemma BasenameOfLocation(dirPart: string, name: string)
    requires dirPart != [] && dirPart[|dirPart| - 1] == '/'
    requires name != [] && '/' !in name
    ensures Basename(dirPart + name) == name
  {
    assert name[|name| - 1] in name;
    assert (dirPart + name)[|dirPart + name| - 1] == name[|name| - 1];
    AfterLastSlashJoin(dirPart, name);
    AfterLastSlashOfName(name);
  }

  /** Appending a tail without `/` extends the last component by that tail. */
  lemma {:induction false} AfterLastSlashAppend(s: string, tail: string)
    requires '/' !in tail
    ensures AfterLastSlash(s + tail) == AfterLastSlash(s) + tail
    decreases |tail|
  {
    if tail == [] {
      assert s + tail == s;
    } else {
      var n := |tail| - 1;
      assert tail[n] in tail;
      assert '/' !in tail[..n] by {
        forall i | 0 <= i < n ensures tail[..n][i] != '/' { assert tail[i] in tail; }
      }
      assert (s + tail)[..|s| + n] == s + tail[..n];
      AfterLastSlashAppend(s, tail[..n]);
      assert AfterLastSlash(s) + tail[..n] + [tail[n]] == AfterLastSlash(s) + tail;
    }
  }

  /** `pat` occurs somewhere in `s`. */
  predicate Occurs(s: string, pat: string)
    requires pat != []
    decreases |s|
  {
    |pat| <= |s| && (s[..|pat|] == pat || Occurs(s[1..], pat))
  }

  /**
   * PHP `str_replace(pat, rep, s)`: scans left to right and replaces every
   * non-overlapping occurrence of `pat`, resuming after each replacement.
   */
  function ReplaceAll(s: string, pat: string, rep: string): (r: string)
    requires pat != []
    ensures |rep| == |pat| ==> |r| == |s|
    decreases |s|
  {
    if |s| < |pat| then s
    else if s[..|pat|] == pat then rep + ReplaceAll(s[|pat|..], pat, rep)
    else [s[0]] + ReplaceAll(s[1..], pat, rep)
  }

  /** The decompressed-file name the command derives from an archive name. */
  function ZipToTxt(name: string): (r: string)
  {
    ReplaceAll(name, ".zip", ".txt")
  }

  /** `s` ends with `suffix`; PHP `substr($s, -strlen($suffix)) === $suffix`. */
  predicate EndsWith(s: string, suffix: string)
  {
    |suffix| <= |s| && s[|s| - |suffix|..] == suffix
  }

  /** The archive test of the acquisition loop: the name ends in `zip` (no dot). */
  predicate IsZip(name: string)
  {
    EndsWith(name, "zip")
  }

  function UpperChar(c: char): (r: char)
  {
    if 'a' <= c <= 'z' then (c as int - 32) as char else c
  }

  /** PHP `strtoupper`: ASCII lower-case letters become upper-case, all else is kept. */
  function Upper(s: string): (r: string)
    ensures |r| == |s|
  {
    seq(|s|, i requires 0 <= i < |s| => UpperChar(s[i]))
  }

  /** Upper-casing leaves no lower-case letter, and so no `p`. */
  lemma UpperHasNoLowerCase(s: string)
    ensures forall i :: 0 <= i < |s| ==> !('a' <= Upper(s)[i] <= 'z')
    ensures 'p' !in Upper(s)
  {
  }

  /** If the first character of a renamed string is not `.`, it came unchanged from the input. */
  lemma {:induction false} ZipToTxtHead(t: string)
    requires ZipToTxt(t) != [] && ZipToTxt(t)[0] != '.'
    ensures t != [] && ZipToTxt(t)[0] == t[0] && ZipToTxt(t)[1..] == ZipToTxt(t[1..])
  {
    if |t| < 4 {
      assert ZipToTxt(t[1..]) == t[1..];
    }
  }

  /** A name whose first two characters are not `.` keeps them under the rename. */
  lemma ZipToTxtKeepsHead(t: string)
    requires |t| >= 2 && t[0] != '.' && t[1] != '.'
    ensures |ZipToTxt(t)| == |t| && ZipToTxt(t)[0] == t[0] && ZipToTxt(t)[1] == t[1]
  {
    if |t| >= 4 {
      assert t[..4] != ".zip";
      var u := t[1..];
      assert ZipToTxt(t) == [t[0]] + ZipToTxt(u);
      if |u| >= 4 {
        assert u[..4] != ".zip";
        assert ZipToTxt(u) == [u[0]] + ZipToTxt(u[1..]);
      }
    }
  }

  /** After the rename no `.zip` is left anywhere in the name. */
  lemma {:induction false} NoZipLeft(s: string)
    ensures !Occurs(ZipToTxt(s), ".zip")
    decreases |s|
  {
    var r := ZipToTxt(s);
    if |s| < 4 {
    } else if s[..4] == ".zip" {
      var rest := ZipToTxt(s[4..]);
      NoZipLeft(s[4..]);
      assert r == ".txt" + rest;
      var r1, r2, r3 := r[1..], r[2..], r[3..];
      assert r3[1..] == rest && r3[0] == 't';
      assert !Occurs(r3, ".zip");
      assert r2[1..] == r3 && r2[0] == 'x';
      assert !Occurs(r2, ".zip");
      assert r1[1..] == r2 && r1[0] == 't';
      assert !Occurs(r1, ".zip");
      assert r[1..] == r1 && r[1] == 't';
    } else {
      var rest := ZipToTxt(s[1..]);
      NoZipLeft(s[1..]);
      assert r == [s[0]] + rest;
      assert r[1..] == rest;
      if |r| >= 4 && r[..4] == ".zip" {
        assert rest[0] == 'z';
        ZipToTxtHead(s[1..]);
        assert rest[1..][0] == 'i';
        ZipToTxtHead(s[2..]);
        assert s[1..][1..] == s[2..];
        assert rest[1..][1..][0] == 'p';
        assert s[2..][1..] == s[3..];
        ZipToTxtHead(s[3..]);
        assert false;
      }
    }
  }

  /** A name without `.zip` is not renamed. */
  lemma {:induction false} ZipToTxtIdentity(s: string)
    requires !Occurs(s, ".zip")
    ensures ZipToTxt(s) == s
    decreases |s|
  {
    if |s| >= 4 {
      ZipToTxtIdentity(s[1..]);
      assert [s[0]] + s[1..] == s;
    }
  }

  /** Renaming twice is renaming once. */
  lemma ZipToTxtIdempotent(s: string)
    ensures ZipToTxt(ZipToTxt(s)) == ZipToTxt(s)
  {
    NoZipLeft(s);
    ZipToTxtIdentity(ZipToTxt(s));
  }

  /** A name holding `.zip` always gets a different name. */
  lemma ZipToTxtChanges(s: string)
    requires Occurs(s, ".zip")
    ensures ZipToTxt(s) != s
  {
    NoZipLeft(s);
  }

  /** A string ending in `pat` holds `pat`. */
  lemma {:induction false} OccursAtEnd(s: string, pat: string)
    requires pat != [] && EndsWith(s, pat)
    ensures Occurs(s, pat)
    decreases |s|
  {
    if s[..|pat|] != pat {
      assert s[1..][|s| - 1 - |pat|..] == s[|s| - |pat|..];
      OccursAtEnd(s[1..], pat);
    }
  }

  /** Upper-casing never produces a `/` that was not there. */
  lemma UpperKeepsNoSlash(s: string)
    requires '/' !in s
    ensures '/' !in Upper(s)
  {
    forall i | 0 <= i < |s| ensures Upper(s)[i] != '/' { assert s[i] in s; }
  }

  /** A string without `p` holds no `.zip`. */
  lemma {:induction false} NoPNoZip(s: string)
    requires 'p' !in s
    ensures !Occurs(s, ".zip")
    decreases |s|
  {
    if |s| >= 4 {
      assert s[3] in s;
      assert 'p' !in s[1..] by {
        forall i | 0 <= i < |s| - 1 ensures s[1..][i] != 'p' { assert s[i + 1] in s; }
      }
      NoPNoZip(s[1..]);
    }
  }

  /**
   * `stem.zip` becomes `stem.txt` when no `.zip` starts inside the stem
   * (none of `stem + ".zi"`'s four-character windows is `.zip`).
   */
  lemma {:induction false} ZipToTxtOfArchive(stem: string)
    requires !Occurs(stem + ".zi", ".zip")
    ensures ZipToTxt(stem + ".zip") == stem + ".txt"
    decreases |stem|
  {
    var s := stem + ".zip";
    if stem == [] {
      assert s == ".zip";
      assert s[4..] == [];
    } else {
      assert s[..4] == (stem + ".zi")[..4];
      assert (stem + ".zi")[1..] == stem[1..] + ".zi";
      ZipToTxtOfArchive(stem[1..]);
      assert s[1..] == stem[1..] + ".zip";
      assert [stem[0]] + (stem[1..] + ".txt") == stem + ".txt";
    }
  }

  /** A stem without `p` (all upper-cased codes, the dataset names) renames by its suffix. */
  lemma ArchiveOfPlainStem(stem: string)
    requires 'p' !in stem
    ensures ZipToTxt(stem + ".zip") == stem + ".txt"
  {
    assert 'p' !in stem + ".zi" by {
      forall i | 0 <= i < |stem| + 3 ensures (stem + ".zi")[i] != 'p' {
        if i < |stem| { assert stem[i] in stem; }
      }
    }
    NoPNoZip(stem + ".zi");
    ZipToTxtOfArchive(stem);
  }
}
