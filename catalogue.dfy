/**
 * The seed command's dataset catalogue: a PHP associative array from logical
 * name to download location. PHP arrays keep insertion order, so the
 * catalogue is a sequence of (key, url) entries; assigning an existing key
 * keeps its position, assigning a new key appends, and `unset` drops the pair.
 */
module Catalogue {
  import opened Wrappers
  import opened FileNames

  datatype Entry = Entry(key: string, url: string)

  type Files = seq<Entry>

  /** Where every GeoNames dump file lives. */
  const DumpUrl: string := "http://download.geonames.org/export/dump/"

  /** The full-world catalogue, in declaration order. */
  const DefaultFiles: Files := [
    Entry("names", DumpUrl + "allCountries.zip"),
    Entry("alternate", DumpUrl + "alternateNames.zip"),
    Entry("hierarchy", DumpUrl + "hierarchy.zip"),
    Entry("admin1", DumpUrl + "admin1CodesASCII.txt"),
    Entry("admin2", DumpUrl + "admin2Codes.txt"),
    Entry("feature", DumpUrl + "featureCodes_en.txt"),
    Entry("timezones", DumpUrl + "timeZones.txt"),
    Entry("countries", DumpUrl + "countryInfo.txt")
  ]

  /** The lighter names file: cities above 15000 inhabitants and capitals. */
  const DevelopmentUrl: string := DumpUrl + "cities15000.zip"

  /** The per-country names file: the wildcard `…/dump/%s.zip` filled with `code`. */
  function CountryUrl(code: string): (r: string)
  {
    DumpUrl + code + ".zip"
  }

  /** The keys in order. */
  function Keys(m: Files): (r: seq<string>)
  {
    seq(|m|, i requires 0 <= i < |m| => m[i].key)
  }

  /** No key appears twice, as in every PHP array. */
  predicate UniqueKeys(m: Files)
  {
    forall i, j :: 0 <= i < j < |m| ==> m[i].key != m[j].key
  }

  /** `$files[k]`, or None when the key is not set. */
  function Lookup(m: Files, k: string): (r: Option<string>)
  {
    if m == [] then None
    else if m[0].key == k then Some(m[0].url)
    else Lookup(m[1..], k)
  }

  /** `$files[k] = v`. */
  function Assign(m: Files, k: string, v: string): (r: Files)
  {
    if m == [] then [Entry(k, v)]
    else if m[0].key == k then [Entry(k, v)] + m[1..]
    else [m[0]] + Assign(m[1..], k, v)
  }

  /** `unset($files[k])`. */
  function Unset(m: Files, k: string): (r: Files)
  {
    if m == [] then []
    else if m[0].key == k then Unset(m[1..], k)
    else [m[0]] + Unset(m[1..], k)
  }

  /** The values in iteration order, as `foreach ($files as $file)` visits them. */
  function Urls(m: Files): (r: seq<string>)
  {
    seq(|m|, i requires 0 <= i < |m| => m[i].url)
  }

  /** A set key is found at its position. */
  lemma {:induction false} LookupAt(m: Files, p: nat)
    requires UniqueKeys(m) && p < |m|
    ensures Lookup(m, m[p].key) == Some(m[p].url)
  {
    if p > 0 {
      assert m[0].key != m[p].key;
      assert m[1..][p - 1] == m[p];
      LookupAt(m[1..], p - 1);
    }
  }

  /** A key not among the keys is not found. */
  lemma {:induction false} LookupAbsent(m: Files, k: string)
    requires k !in Keys(m)
    ensures Lookup(m, k) == None
  {
    if m != [] {
      assert Keys(m) == [m[0].key] + Keys(m[1..]);
      LookupAbsent(m[1..], k);
    }
  }

  /**
   * Assigning a key that is already set replaces its value in place: the
   * length and every other entry, with its position, stay as they were.
   */
  lemma {:induction false} AssignInPlace(m: Files, k: string, v: string)
    requires UniqueKeys(m) && k in Keys(m)
    ensures |Assign(m, k, v)| == |m|
    ensures forall i :: 0 <= i < |m| ==>
      Assign(m, k, v)[i] == if m[i].key == k then Entry(k, v) else m[i]
  {
    var r := Assign(m, k, v);
    if m[0].key == k {
      forall i | 0 < i < |m| ensures m[i].key != k { }
    } else {
      assert k in Keys(m[1..]) by {
        var p :| 0 <= p < |m| && Keys(m)[p] == k;
        assert Keys(m[1..])[p - 1] == k;
      }
      AssignInPlace(m[1..], k, v);
      forall i | 0 < i < |m| ensures r[i] == if m[i].key == k then Entry(k, v) else m[i] {
        assert r[i] == Assign(m[1..], k, v)[i - 1];
      }
    }
  }

  /** Assigning a key that is already set keeps the keys and their order. */
  lemma AssignKeepsKeys(m: Files, k: string, v: string)
    requires UniqueKeys(m) && k in Keys(m)
    ensures Keys(Assign(m, k, v)) == Keys(m)
  {
    AssignInPlace(m, k, v);
  }

  /** Assigning a key that is not yet set appends the pair at the end. */
  lemma {:induction false} AssignAppends(m: Files, k: string, v: string)
    requires k !in Keys(m)
    ensures Assign(m, k, v) == m + [Entry(k, v)]
  {
    if m != [] {
      assert Keys(m) == [m[0].key] + Keys(m[1..]);
      AssignAppends(m[1..], k, v);
      assert [m[0]] + (m[1..] + [Entry(k, v)]) == m + [Entry(k, v)];
    }
  }

  /** Removing an absent key changes nothing. */
  lemma {:induction false} UnsetAbsent(m: Files, k: string)
    requires k !in Keys(m)
    ensures Unset(m, k) == m
  {
    if m != [] {
      assert Keys(m) == [m[0].key] + Keys(m[1..]);
      UnsetAbsent(m[1..], k);
      assert [m[0]] + m[1..] == m;
    }
  }

  /** Removing the key found at position p drops exactly that entry; the rest keep their order. */
  lemma {:induction false} UnsetAt(m: Files, p: nat)
    requires UniqueKeys(m) && p < |m|
    ensures Unset(m, m[p].key) == m[..p] + m[p + 1..]
  {
    var k := m[p].key;
    if p == 0 {
      assert k !in Keys(m[1..]) by {
        forall i | 0 <= i < |m| - 1 ensures Keys(m[1..])[i] != k { assert m[1..][i] == m[i + 1]; }
      }
      UnsetAbsent(m[1..], k);
    } else {
      var t := m[1..];
      assert t[p - 1] == m[p];
      assert m[0].key != k;
      assert Unset(m, k) == [m[0]] + Unset(t, k);
      assert UniqueKeys(t) by {
        forall i, j | 0 <= i < j < |t| ensures t[i].key != t[j].key {
          assert t[i] == m[i + 1] && t[j] == m[j + 1];
        }
      }
      UnsetAt(t, p - 1);
      assert [m[0]] + (t[..p - 1] + t[p..]) == m[..p] + m[p + 1..];
    }
  }

  /** Dropping entries keeps the keys unique. */
  lemma UniqueKeysOfSubsequence(m: Files, p: nat)
    requires UniqueKeys(m) && p < |m|
    ensures UniqueKeys(m[..p] + m[p + 1..])
  {
    var r := m[..p] + m[p + 1..];
    forall i, j | 0 <= i < j < |r| ensures r[i].key != r[j].key {
      var i' := if i < p then i else i + 1;
      var j' := if j < p then j else j + 1;
      assert r[i] == m[i'] && r[j] == m[j'];
    }
  }

  /**
   * Development mode, `setDevelopment`: `names` becomes the cities15000
   * archive and `alternate` is removed.
   */
  function WithDevelopment(m: Files): (r: Files)
  {
    Unset(Assign(m, "names", DevelopmentUrl), "alternate")
  }

  /**
   * Country mode, `setCountry`: a code longer than two characters is
   * refused (None); otherwise `names` becomes the per-country archive of the
   * upper-cased code.
   */
  function WithCountry(m: Files, code: string): (r: Option<Files>)
  {
    if |code| > 2 then None else Some(Assign(m, "names", CountryUrl(Upper(code))))
  }

  /** Position of a key among the keys. */
  lemma KeyPosition(m: Files, k: string) returns (p: nat)
    requires k in Keys(m)
    ensures p < |m| && m[p].key == k
  {
    var q :| 0 <= q < |Keys(m)| && Keys(m)[q] == k;
    p := q;
  }

  /** A key is found exactly when it is among the keys. */
  lemma {:induction false} LookupFound(m: Files, k: string)
    ensures Lookup(m, k).Some? <==> k in Keys(m)
  {
    if m != [] {
      assert Keys(m) == [m[0].key] + Keys(m[1..]);
      LookupFound(m[1..], k);
    }
  }

  /** After `$files[k] = v`, k maps to v and every other key to what it did before. */
  lemma {:induction false} AssignLookup(m: Files, k: string, v: string, k': string)
    ensures Lookup(Assign(m, k, v), k') == if k' == k then Some(v) else Lookup(m, k')
  {
    if m != [] && m[0].key != k {
      AssignLookup(m[1..], k, v, k');
    }
  }

  /** After `unset($files[k])`, k is not found and every other key maps as before. */
  lemma {:induction false} UnsetLookup(m: Files, k: string, k': string)
    ensures Lookup(Unset(m, k), k') == if k' == k then None else Lookup(m, k')
  {
    if m != [] {
      UnsetLookup(m[1..], k, k');
    }
  }

  /** Assignment and removal keep the keys unique. */
  lemma AssignUnsetUnique(m: Files, k: string, v: string, k': string)
    requires UniqueKeys(m) && k in Keys(m)
    ensures UniqueKeys(Assign(m, k, v))
    ensures UniqueKeys(Unset(Assign(m, k, v), k'))
  {
    var a := Assign(m, k, v);
    AssignInPlace(m, k, v);
    AssignKeepsKeys(m, k, v);
    if k' in Keys(a) {
      var p := KeyPosition(a, k');
      UnsetAt(a, p);
      UniqueKeysOfSubsequence(a, p);
    } else {
      UnsetAbsent(a, k');
    }
  }

  /** Keys of a catalogue with one entry dropped. */
  lemma KeysOfRemoval(a: Files, p: nat)
    requires p < |a|
    ensures Keys(a[..p] + a[p + 1..]) == Keys(a)[..p] + Keys(a)[p + 1..]
  {
    var r := a[..p] + a[p + 1..];
    assert |Keys(r)| == |Keys(a)[..p] + Keys(a)[p + 1..]|;
    forall i | 0 <= i < |r| ensures Keys(r)[i] == (Keys(a)[..p] + Keys(a)[p + 1..])[i] {
      if i < p { assert r[i] == a[i]; } else { assert r[i] == a[i + 1]; }
    }
  }

  /**
   * Assigning key k and then removing another key d: k maps to the new
   * value, d is gone, and every other key maps as before.
   */
  lemma AssignThenUnsetLookup(m: Files, k: string, v: string, d: string)
    requires UniqueKeys(m) && k in Keys(m) && k != d
    ensures UniqueKeys(Unset(Assign(m, k, v), d))
    ensures Lookup(Unset(Assign(m, k, v), d), k) == Some(v)
    ensures d !in Keys(Unset(Assign(m, k, v), d))
    ensures forall x :: x != k && x != d ==> Lookup(Unset(Assign(m, k, v), d), x) == Lookup(m, x)
  {
    var a := Assign(m, k, v);
    var r := Unset(a, d);
    AssignUnsetUnique(m, k, v, d);
    forall x ensures Lookup(r, x) == if x == d then None else if x == k then Some(v) else Lookup(m, x) {
      UnsetLookup(a, d, x);
      AssignLookup(m, k, v, x);
    }
    LookupFound(r, d);
  }

  /** Assigning key k and then removing d keeps the old keys in the old order, with d dropped. */
  lemma AssignThenUnsetKeys(m: Files, k: string, v: string, d: string)
    requires UniqueKeys(m) && k in Keys(m)
    ensures d !in Keys(m) ==> Keys(Unset(Assign(m, k, v), d)) == Keys(m)
    ensures forall p :: 0 <= p < |m| && m[p].key == d ==>
      Keys(Unset(Assign(m, k, v), d)) == Keys(m)[..p] + Keys(m)[p + 1..]
  {
    var a := Assign(m, k, v);
    var r := Unset(a, d);
    AssignUnsetUnique(m, k, v, d);
    AssignKeepsKeys(m, k, v);
    if d in Keys(m) {
      var p := KeyPosition(m, d);
      assert Keys(a)[p] == d;
      assert a[p].key == d;
      UnsetAt(a, p);
      KeysOfRemoval(a, p);
      forall q | 0 <= q < |m| && m[q].key == d
        ensures Keys(r) == Keys(m)[..q] + Keys(m)[q + 1..]
      {
        assert q == p;
      }
    } else {
      UnsetAbsent(a, d);
      forall q | 0 <= q < |m| ensures m[q].key != d { assert Keys(m)[q] == m[q].key; }
    }
  }

  /**
   * Development mode on a catalogue that has `names`: `names` is the
   * cities15000 archive, no `alternate` key is left, every other key keeps
   * its URL, and the keys are the old ones in the old order with `alternate`
   * dropped (`names` keeps its position).
   */
  lemma DevelopmentCatalogue(m: Files)
    requires UniqueKeys(m) && "names" in Keys(m)
    ensures UniqueKeys(WithDevelopment(m))
    ensures Lookup(WithDevelopment(m), "names") == Some(DevelopmentUrl)
    ensures "alternate" !in Keys(WithDevelopment(m))
    ensures forall k :: k != "names" && k != "alternate" ==>
      Lookup(WithDevelopment(m), k) == Lookup(m, k)
    ensures "alternate" !in Keys(m) ==> Keys(WithDevelopment(m)) == Keys(m)
    ensures forall p :: 0 <= p < |m| && m[p].key == "alternate" ==>
      Keys(WithDevelopment(m)) == Keys(m)[..p] + Keys(m)[p + 1..]
  {
    AssignThenUnsetLookup(m, "names", DevelopmentUrl, "alternate");
    AssignThenUnsetKeys(m, "names", DevelopmentUrl, "alternate");
  }

  /**
   * Country mode refuses exactly the codes longer than two characters;
   * otherwise only `names` changes, in place, to the per-country archive of
   * the upper-cased code, and every other entry is unchanged.
   */
  lemma CountryCatalogue(m: Files, code: string)
    requires UniqueKeys(m) && "names" in Keys(m)
    ensures WithCountry(m, code).None? <==> |code| > 2
    ensures WithCountry(m, code).Some? ==>
      var r := WithCountry(m, code).value;
      UniqueKeys(r) && Keys(r) == Keys(m) &&
      Lookup(r, "names") == Some(DumpUrl + Upper(code) + ".zip") &&
      forall i :: 0 <= i < |m| && m[i].key != "names" ==> r[i] == m[i]
  {
    if |code| <= 2 {
      var u := CountryUrl(Upper(code));
      AssignInPlace(m, "names", u);
      AssignUnsetUnique(m, "names", u, "names");
      AssignLookup(m, "names", u, "names");
      AssignKeepsKeys(m, "names", u);
    }
  }

  /** The development catalogue: `cities15000.zip` in first place, `alternate` gone, the rest in order. */
  lemma DevelopmentDefault()
    ensures WithDevelopment(DefaultFiles) == [Entry("names", DevelopmentUrl)] + DefaultFiles[2..]
  {
    var d := DefaultFiles;
    var a := Assign(d, "names", DevelopmentUrl);
    assert a == [Entry("names", DevelopmentUrl)] + d[1..];
    assert "alternate" !in Keys(d[2..]) by {
      forall i | 0 <= i < 6 ensures Keys(d[2..])[i] != "alternate" {
        assert Keys(d[2..])[i] == d[i + 2].key;
      }
    }
    UnsetAbsent(d[2..], "alternate");
    assert a[1..][1..] == d[2..];
    assert Unset(a, "alternate") == [a[0]] + Unset(a[1..], "alternate");
    assert Unset(a[1..], "alternate") == Unset(d[2..], "alternate");
  }
}
