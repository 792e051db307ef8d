/**
 * Category selection from the upstream catalogs (`parse_geosite_dat`,
 * `parse_geoip_dat` and the dict-to-list step of `main` in
 * scripts/parse_dat.py): keep the entries whose category name matches a
 * requested code without regard to case, keyed by the requested spelling,
 * and work out which requested codes matched nothing. `str.lower` is the
 * parameter `lower`; `Text.Lower`, its ASCII form, is what the two parsers use.
 */
module Selection {
  import opened Wrappers
  import Text
  import opened Catalog

  /** A Python dict with string keys: its keys in insertion order and the value of each key. */
  datatype Dict<T> = Dict(keys: seq<string>, values: map<string, T>)

  /** Each key once, and exactly the keys of the map. */
  ghost predicate Valid<T>(d: Dict<T>) {
    (forall i, j :: 0 <= i < j < |d.keys| ==> d.keys[i] != d.keys[j])
    && (forall k :: k in d.values <==> k in d.keys)
  }

  /** `d[k] = v`: a new key goes last, a key already there keeps its place. */
  function Put<T>(d: Dict<T>, k: string, v: T): (r: Dict<T>)
    requires Valid(d)
    ensures Valid(r)
  {
    Dict(if k in d.values then d.keys else d.keys + [k], d.values[k := v])
  }

  /** The values of the dict in insertion order. */
  function Items<T>(d: Dict<T>): seq<T>
    requires Valid(d)
  {
    seq(|d.keys|, i requires 0 <= i < |d.keys| => d.values[d.keys[i]])
  }

  /** `entry.country_code or entry.code`. */
  function SiteName(e: GeoSite): string {
    if e.countryCode != "" then e.countryCode else e.code
  }

  /** `entry.country_code or entry.code`. */
  function IpName(e: GeoIp): string {
    if e.countryCode != "" then e.countryCode else e.code
  }

  /**
   * `categories_lower.get(key)`: the requested spelling whose lowercase is
   * `key`; when several spellings share it, the dict comprehension keeps the last.
   */
  function Requested(categories: seq<string>, lower: string -> string, key: string): (r: Option<string>)
    ensures r.Some? ==> r.value in categories && lower(r.value) == key
    ensures r.None? ==> forall c :: c in categories ==> lower(c) != key
  {
    if categories == [] then None
    else
      var last := categories[|categories| - 1];
      if lower(last) == key then Some(last) else Requested(categories[..|categories| - 1], lower, key)
  }

  /** `k` is requested at `i` and no later requested code has its lowercase. */
  predicate LastSpelling(categories: seq<string>, lower: string -> string, i: int) {
    0 <= i < |categories| && forall j :: i < j < |categories| ==> lower(categories[j]) != lower(categories[i])
  }

  /** The spelling chosen for a lowercase is the last requested code with that lowercase, and only that one. */
  lemma {:induction false} RequestedIsLast(categories: seq<string>, lower: string -> string, k: string)
    ensures Requested(categories, lower, lower(k)) == Some(k)
        <==> exists i :: LastSpelling(categories, lower, i) && categories[i] == k
  {
    if categories != [] {
      var n := |categories| - 1;
      var prefix := categories[..n];
      RequestedIsLast(prefix, lower, k);
      if Requested(categories, lower, lower(k)) == Some(k) {
        if lower(categories[n]) == lower(k) {
          assert LastSpelling(categories, lower, n);
        } else {
          var i :| LastSpelling(prefix, lower, i) && prefix[i] == k;
          assert categories[i] == k;
          assert LastSpelling(categories, lower, i);
        }
      } else if exists i :: LastSpelling(categories, lower, i) && categories[i] == k {
        var i :| LastSpelling(categories, lower, i) && categories[i] == k;
        if i < n {
          assert lower(categories[n]) != lower(k);
          assert prefix[i] == k;
          assert LastSpelling(prefix, lower, i);
        }
      }
    }
  }

  /**
   * The `extracted` dict after the loop over `entries`: an entry whose name
   * lowercases to a requested code is stored under that code's spelling,
   * replacing an earlier match; any other entry is passed over.
   */
  function Selected<T>(entries: seq<T>, nameOf: T -> string, lower: string -> string, categories: seq<string>): (d: Dict<T>)
    ensures Valid(d)
  {
    if entries == [] then Dict([], map[])
    else
      var d := Selected(entries[..|entries| - 1], nameOf, lower, categories);
      var e := entries[|entries| - 1];
      match Requested(categories, lower, lower(nameOf(e)))
      case None => d
      case Some(k) => Put(d, k, e)
  }

  /** Some entry's name has the lowercase of `k`. */
  predicate Matched<T>(entries: seq<T>, nameOf: T -> string, lower: string -> string, k: string) {
    exists i :: 0 <= i < |entries| && lower(nameOf(entries[i])) == lower(k)
  }

  lemma MatchedNext<T>(entries: seq<T>, nameOf: T -> string, lower: string -> string, k: string)
    requires entries != []
    ensures Matched(entries, nameOf, lower, k)
        <==> Matched(entries[..|entries| - 1], nameOf, lower, k) || lower(nameOf(entries[|entries| - 1])) == lower(k)
  {
    var n := |entries| - 1;
    var prefix := entries[..n];
    if Matched(prefix, nameOf, lower, k) {
      var i :| 0 <= i < n && lower(nameOf(prefix[i])) == lower(k);
      assert entries[i] == prefix[i];
    }
    if Matched(entries, nameOf, lower, k) && lower(nameOf(entries[n])) != lower(k) {
      var i :| 0 <= i < |entries| && lower(nameOf(entries[i])) == lower(k);
      assert prefix[i] == entries[i];
    }
  }

  /**
   * The keys of the result are exactly the spellings the lookup chooses
   * for the lowercase of some entry's name.
   */
  lemma {:induction false} SelectedKeys<T>(entries: seq<T>, nameOf: T -> string, lower: string -> string, categories: seq<string>, k: string)
    ensures k in Selected(entries, nameOf, lower, categories).values
        <==> Requested(categories, lower, lower(k)) == Some(k) && Matched(entries, nameOf, lower, k)
  {
    if entries != [] {
      var n := |entries| - 1;
      SelectedKeys(entries[..n], nameOf, lower, categories, k);
      MatchedNext(entries, nameOf, lower, k);
    }
  }

  /** Entry `i` is the last of `entries` whose name has the lowercase of `k`. */
  predicate LastMatch<T>(entries: seq<T>, nameOf: T -> string, lower: string -> string, k: string, i: int) {
    0 <= i < |entries| && lower(nameOf(entries[i])) == lower(k)
    && forall j :: i < j < |entries| ==> lower(nameOf(entries[j])) != lower(k)
  }

  lemma LastMatchExtend<T>(entries: seq<T>, nameOf: T -> string, lower: string -> string, k: string, i: int)
    requires entries != [] && lower(nameOf(entries[|entries| - 1])) != lower(k)
    requires LastMatch(entries[..|entries| - 1], nameOf, lower, k, i)
    ensures LastMatch(entries, nameOf, lower, k, i)
  {
    var n := |entries| - 1;
    var prefix := entries[..n];
    assert entries[i] == prefix[i];
    forall j | i < j < |entries|
      ensures lower(nameOf(entries[j])) != lower(k)
    {
      if j < n {
        assert entries[j] == prefix[j];
      }
    }
  }

  /**
   * The value stored under a key is the LAST entry whose name matches it:
   * later matches overwrite earlier ones.
   */
  lemma {:induction false} SelectedValue<T>(entries: seq<T>, nameOf: T -> string, lower: string -> string, categories: seq<string>, k: string)
    requires k in Selected(entries, nameOf, lower, categories).values
    ensures exists i :: LastMatch(entries, nameOf, lower, k, i)
                        && Selected(entries, nameOf, lower, categories).values[k] == entries[i]
  {
    var n := |entries| - 1;
    var prefix := entries[..n];
    var e := entries[n];
    var d := Selected(prefix, nameOf, lower, categories);
    if Requested(categories, lower, lower(nameOf(e))) == Some(k) {
      assert LastMatch(entries, nameOf, lower, k, n);
    } else {
      SelectedKeys(entries, nameOf, lower, categories, k);
      assert lower(nameOf(e)) != lower(k);
      assert k in d.values;
      SelectedValue(prefix, nameOf, lower, categories, k);
      var i :| LastMatch(prefix, nameOf, lower, k, i) && d.values[k] == prefix[i];
      LastMatchExtend(entries, nameOf, lower, k, i);
      assert entries[i] == prefix[i];
    }
  }

  /** The lowercases of the requested codes. */
  function LowerSet(categories: seq<string>, lower: string -> string): set<string> {
    set c | c in categories :: lower(c)
  }

  /** Keys with pairwise distinct lowercases have as many lowercases as keys. */
  lemma {:induction false} DistinctLowers(keys: seq<string>, lower: string -> string)
    requires forall i, j :: 0 <= i < j < |keys| ==> lower(keys[i]) != lower(keys[j])
    ensures |LowerSet(keys, lower)| == |keys|
  {
    if keys != [] {
      var n := |keys| - 1;
      var prefix := keys[..n];
      DistinctLowers(prefix, lower);
      var s := LowerSet(prefix, lower);
      assert lower(keys[n]) !in s;
      assert LowerSet(keys, lower) == s + {lower(keys[n])} by {
        forall x | x in LowerSet(keys, lower)
          ensures x in s + {lower(keys[n])}
        {
          var k :| k in keys && lower(k) == x;
          var i :| 0 <= i < |keys| && keys[i] == k;
          if i < n {
            assert prefix[i] == k;
          }
        }
        forall x | x in s
          ensures x in LowerSet(keys, lower)
        {
          var k :| k in prefix && lower(k) == x;
          var i :| 0 <= i < n && prefix[i] == k;
          assert keys[i] == k;
        }
        assert keys[n] in keys;
      }
    }
  }

  lemma {:induction false} SubsetSize(a: set<string>, b: set<string>)
    requires a <= b
    ensures |a| <= |b|
  {
    if a != {} {
      var x :| x in a;
      SubsetSize(a - {x}, b - {x});
    }
  }

  /** The result holds at most one entry per distinct lowercased requested code. */
  lemma SelectedSize<T>(entries: seq<T>, nameOf: T -> string, lower: string -> string, categories: seq<string>)
    ensures |Selected(entries, nameOf, lower, categories).keys| <= |LowerSet(categories, lower)|
  {
    var d := Selected(entries, nameOf, lower, categories);
    forall i, j | 0 <= i < j < |d.keys|
      ensures lower(d.keys[i]) != lower(d.keys[j])
    {
      SelectedKeys(entries, nameOf, lower, categories, d.keys[i]);
      SelectedKeys(entries, nameOf, lower, categories, d.keys[j]);
    }
    DistinctLowers(d.keys, lower);
    forall x | x in LowerSet(d.keys, lower)
      ensures x in LowerSet(categories, lower)
    {
      var k :| k in d.keys && lower(k) == x;
      SelectedKeys(entries, nameOf, lower, categories, k);
    }
    SubsetSize(LowerSet(d.keys, lower), LowerSet(categories, lower));
  }

  /** The category names seen in the loop: `found_categories`. */
  function Found<T>(entries: seq<T>, nameOf: T -> string): set<string> {
    set i | 0 <= i < |entries| :: nameOf(entries[i])
  }

  /**
   * `missing`: the requested codes whose lowercase is the lowercase of no
   * category name, that is of no entry's name.
   */
  function MissingOf<T>(entries: seq<T>, nameOf: T -> string, lower: string -> string, categories: seq<string>): (r: set<string>)
    ensures forall c :: c in r <==>
      c in categories && forall i :: 0 <= i < |entries| ==> lower(nameOf(entries[i])) != lower(c)
  {
    var lowered := set n | n in Found(entries, nameOf) :: lower(n);
    var r := set c | c in categories && lower(c) !in lowered;
    assert forall c :: c in r <==>
      c in categories && forall i :: 0 <= i < |entries| ==> lower(nameOf(entries[i])) != lower(c) by {
      forall c | c in categories && lower(c) in lowered
        ensures exists i :: 0 <= i < |entries| && lower(nameOf(entries[i])) == lower(c)
      {
        var n :| n in Found(entries, nameOf) && lower(n) == lower(c);
        var i :| 0 <= i < |entries| && nameOf(entries[i]) == n;
      }
    }
    r
  }

  /** A requested code is reported missing exactly when nothing was extracted for its lowercase. */
  lemma MissingExact<T>(entries: seq<T>, nameOf: T -> string, lower: string -> string, categories: seq<string>, c: string)
    requires c in categories
    ensures c in MissingOf(entries, nameOf, lower, categories)
        <==> forall k :: k in Selected(entries, nameOf, lower, categories).values ==> lower(k) != lower(c)
  {
    var d := Selected(entries, nameOf, lower, categories);
    var r := Requested(categories, lower, lower(c));
    assert r.Some?;
    SelectedKeys(entries, nameOf, lower, categories, r.value);
    if c !in MissingOf(entries, nameOf, lower, categories) {
      var n :| n in Found(entries, nameOf) && lower(n) == lower(c);
      var i :| 0 <= i < |entries| && nameOf(entries[i]) == n;
      assert Matched(entries, nameOf, lower, r.value);
      assert r.value in d.values;
    } else {
      forall k | k in d.values
        ensures lower(k) != lower(c)
      {
        SelectedKeys(entries, nameOf, lower, categories, k);
      }
    }
  }

  lemma FoundNext<T>(entries: seq<T>, nameOf: T -> string, i: nat)
    requires i < |entries|
    ensures Found(entries[..i + 1], nameOf) == Found(entries[..i], nameOf) + {nameOf(entries[i])}
  {
    var a, b := entries[..i + 1], entries[..i];
    forall x | x in Found(a, nameOf)
      ensures x in Found(b, nameOf) + {nameOf(entries[i])}
    {
      var j :| 0 <= j <= i && nameOf(a[j]) == x;
      if j < i {
        assert a[j] == b[j];
      }
    }
    forall x | x in Found(b, nameOf)
      ensures x in Found(a, nameOf)
    {
      var j :| 0 <= j < i && nameOf(b[j]) == x;
      assert a[j] == b[j];
    }
    assert nameOf(a[i]) in Found(a, nameOf);
  }

  /**
   * The shared body of `parse_geosite_dat` and `parse_geoip_dat` after the
   * catalog is decoded: the selection loop, then the loop over the requested
   * codes that collects the missing ones.
   */
  method Extract<T>(entries: seq<T>, nameOf: T -> string, lower: string -> string, categories: seq<string>)
    returns (extracted: Dict<T>, missing: set<string>)
    ensures extracted == Selected(entries, nameOf, lower, categories)
    ensures missing == MissingOf(entries, nameOf, lower, categories)
  {
    extracted := Dict([], map[]);
    var found: set<string> := {};
    for i := 0 to |entries|
      invariant extracted == Selected(entries[..i], nameOf, lower, categories)
      invariant found == Found(entries[..i], nameOf)
    {
      assert entries[..i + 1][..i] == entries[..i];
      FoundNext(entries, nameOf, i);
      var name := nameOf(entries[i]);
      found := found + {name};
      var original := Requested(categories, lower, lower(name));
      if original.Some? {
        extracted := Put(extracted, original.value, entries[i]);
      }
    }
    assert entries[..|entries|] == entries;
    var foundLower := set n | n in found :: lower(n);
    missing := {};
    for i := 0 to |categories|
      invariant missing == set c | c in categories[..i] && lower(c) !in foundLower
    {
      assert categories[..i + 1] == categories[..i] + [categories[i]];
      if lower(categories[i]) !in foundLower {
        missing := missing + {categories[i]};
      }
    }
    assert categories[..|categories|] == categories;
  }

  /** `parse_geosite_dat` over the decoded upstream entries. */
  method ParseGeoSiteDat(upstream: seq<GeoSite>, categories: seq<string>)
    returns (extracted: Dict<GeoSite>, missing: set<string>)
    ensures extracted == Selected(upstream, SiteName, Text.Lower, categories)
    ensures missing == MissingOf(upstream, SiteName, Text.Lower, categories)
  {
    extracted, missing := Extract(upstream, SiteName, Text.Lower, categories);
  }

  /** `parse_geoip_dat` over the decoded upstream entries. */
  method ParseGeoIpDat(upstream: seq<GeoIp>, categories: seq<string>)
    returns (extracted: Dict<GeoIp>, missing: set<string>)
    ensures extracted == Selected(upstream, IpName, Text.Lower, categories)
    ensures missing == MissingOf(upstream, IpName, Text.Lower, categories)
  {
    extracted, missing := Extract(upstream, IpName, Text.Lower, categories);
  }

  /** The loop of `main` that appends the extracted entries to the output list, in dict order. */
  method ExtractedList<T>(d: Dict<T>) returns (list: seq<T>)
    requires Valid(d)
    ensures list == Items(d)
  {
    list := [];
    for i := 0 to |d.keys|
      invariant list == Items(d)[..i]
    {
      list := list + [d.values[d.keys[i]]];
    }
  }

  /**
   * Every entry of the extracted list is an upstream entry, unchanged, whose
   * name matches a requested code without regard to case.
   */
  lemma ItemsRequested<T>(entries: seq<T>, nameOf: T -> string, lower: string -> string, categories: seq<string>, x: T)
    requires x in Items(Selected(entries, nameOf, lower, categories))
    ensures x in entries
    ensures exists c :: c in categories && lower(c) == lower(nameOf(x))
  {
    var d := Selected(entries, nameOf, lower, categories);
    var p :| 0 <= p < |d.keys| && Items(d)[p] == x;
    var k := d.keys[p];
    SelectedValue(entries, nameOf, lower, categories, k);
    SelectedKeys(entries, nameOf, lower, categories, k);
  }
}
