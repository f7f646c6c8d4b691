/**
 The instance picker (libreddit-instance-picker.py) with its console and
 network parts lifted out: it offers every address key and every country
 found in the catalog, sorted, resolves the user's two numbered answers into
 a key and an optional country, and lists the instances that have a truthy
 value under that key (and that country, when one was chosen).
 */
module Picker {
  import opened Instances
  import Strings

  /** Record keys that are not addresses. */
  const NotAddressKeys: set<string> := {"country", "version", "description"}

  /** Every key of every record except `country`, `version`, `description`. */
  function KeySet(instances: seq<Record>): (keys: set<string>)
    ensures forall k :: k in keys <==> k !in NotAddressKeys && exists i :: 0 <= i < |instances| && k in instances[i]
  {
    if instances == [] then {}
    else
      var rest := KeySet(instances[1..]);
      assert forall i :: 1 <= i < |instances| ==> instances[i] == instances[1..][i - 1];
      (instances[0].Keys - NotAddressKeys) + rest
  }

  /** The catalog schema makes `country` a string; Python's `sorted` could not
      order a mix of strings and booleans. */
  ghost predicate CountriesAreStrings(instances: seq<Record>)
  {
    forall i :: 0 <= i < |instances| && "country" in instances[i] ==> instances[i]["country"].Str?
  }

  /** The distinct `country` values of the records that have one. */
  function CountrySet(instances: seq<Record>): (countries: set<string>)
    requires CountriesAreStrings(instances)
    ensures forall c :: c in countries <==> exists i :: 0 <= i < |instances| && "country" in instances[i] && instances[i]["country"] == Str(c)
  {
    if instances == [] then {}
    else
      var rest := CountrySet(instances[1..]);
      assert forall i :: 1 <= i < |instances| ==> instances[i] == instances[1..][i - 1];
      var here: set<string> := if "country" in instances[0] then {instances[0]["country"].s} else {};
      here + rest
  }

  /** `sorted(address_keys)` */
  method AddressKeys(instances: seq<Record>) returns (keys: seq<string>)
    ensures Strings.StrictlySorted(keys)
    ensures forall k :: k in keys <==> k in KeySet(instances)
  {
    keys := Strings.SortedDistinct(KeySet(instances));
  }

  /** `sorted(countries)` */
  method Countries(instances: seq<Record>) returns (countries: seq<string>)
    requires CountriesAreStrings(instances)
    ensures Strings.StrictlySorted(countries)
    ensures forall c :: c in countries <==> c in CountrySet(instances)
  {
    countries := Strings.SortedDistinct(CountrySet(instances));
  }

  /** `cloudflare` is not excluded, so it is offered as an address type
      whenever some record carries it. */
  lemma CloudflareIsOffered(instances: seq<Record>, i: int)
    requires 0 <= i < |instances| && "cloudflare" in instances[i]
    ensures "cloudflare" in KeySet(instances)
  {
  }

  /** The answer to "Select address type", as `int(key_choice)` parsed it
      (`None` when it raised `ValueError`): `address_keys[n - 1]` under
      Python indexing, else the first key. `None` in the result stands for
      the `IndexError` that ends the script when there are no keys at all. */
  function ResolveKey(keys: seq<string>, answer: Option<int>): (r: Option<string>)
    ensures r.Some? <==> |keys| > 0
    ensures r.Some? ==> r.value in keys
    ensures answer.Some? && 1 <= answer.value <= |keys| ==> r == Some(keys[answer.value - 1])
    ensures answer.Some? && -|keys| < answer.value <= 0 ==> r == Some(keys[|keys| + answer.value - 1])
    ensures |keys| > 0 && (answer.None? || answer.value <= -|keys| || |keys| < answer.value) ==> r == Some(keys[0])
  {
    var chosen := if answer.Some? then PyIndex(keys, answer.value - 1) else None;
    if chosen.Some? then chosen else PyIndex(keys, 0)
  }

  /** The answer to "Select country by number", after `strip()`. */
  datatype CountryAnswer =
    | AllCountries                // exactly "0"
    | Other(number: Option<int>)  // anything else; `int()` of it, if it parses

  /** `None` is "all countries": the answer "0", an answer that is not a
      number, or a number no country stands at. Another number `n` picks
      `countries[n - 1]` under Python indexing, so "00" picks the last one. */
  function ResolveCountry(countries: seq<string>, answer: CountryAnswer): (r: Option<string>)
    ensures r.Some? ==> r.value in countries
    ensures answer.AllCountries? || answer.number.None? ==> r.None?
    ensures answer.Other? && answer.number.Some? ==>
      var n := answer.number.value;
      (r.Some? <==> -|countries| < n <= |countries|)
      && (1 <= n <= |countries| ==> r == Some(countries[n - 1]))
      && (-|countries| < n <= 0 ==> r == Some(countries[|countries| + n - 1]))
  {
    match answer
    case AllCountries => None
    case Other(None) => None
    case Other(Some(n)) => PyIndex(countries, n - 1)
  }

  /** The test of the listing loop for one record. */
  predicate Selected(rec: Record, key: string, country: Option<string>)
  {
    && key in rec && Truthy(rec[key])
    && (country.None? || ("country" in rec && rec["country"] == Str(country.value)))
  }

  /** `a` is `b` with some elements left out, the rest in their order. */
  predicate IsSubsequence<T(==)>(a: seq<T>, b: seq<T>)
    decreases |b|
  {
    if a == [] then true
    else if b == [] then false
    else if a[0] == b[0] then IsSubsequence(a[1..], b[1..])
    else IsSubsequence(a, b[1..])
  }

  /** The instances the picker lists, in catalog order. */
  function Filter(instances: seq<Record>, key: string, country: Option<string>): (r: seq<Record>)
    ensures IsSubsequence(r, instances)
    ensures forall rec :: rec in r <==> rec in instances && Selected(rec, key, country)
  {
    if instances == [] then []
    else
      var rest := Filter(instances[1..], key, country);
      assert forall rec :: rec in instances <==> rec == instances[0] || rec in instances[1..];
      if Selected(instances[0], key, country) then [instances[0]] + rest
      else
        assert rest == [] || Selected(rest[0], key, country);
        rest
  }

  /** Filtering goes record by record: the listing of a concatenation is the
      listings of the parts, one after the other. */
  lemma {:induction false} FilterAppend(a: seq<Record>, b: seq<Record>, key: string, country: Option<string>)
    ensures Filter(a + b, key, country) == Filter(a, key, country) + Filter(b, key, country)
    decreases |a|
  {
    if a != [] {
      assert (a + b)[1..] == a[1..] + b;
      FilterAppend(a[1..], b, key, country);
    } else {
      assert a + b == b;
    }
  }

  /** Everything listed passes the test again: filtering twice changes nothing. */
  lemma {:induction false} FilterIdempotent(instances: seq<Record>, key: string, country: Option<string>)
    ensures Filter(Filter(instances, key, country), key, country) == Filter(instances, key, country)
    decreases |instances|
  {
    if instances != [] {
      FilterIdempotent(instances[1..], key, country);
      var rest := Filter(instances[1..], key, country);
      if Selected(instances[0], key, country) {
        assert ([instances[0]] + rest)[1..] == rest;
      }
    }
  }

  /** Choosing a country only narrows the all-countries listing: the
      listing for `c` is what remains of it after also asking for `c`. */
  lemma {:induction false} CountryNarrows(instances: seq<Record>, key: string, c: string)
    ensures Filter(instances, key, Some(c)) == Filter(Filter(instances, key, None), key, Some(c))
    decreases |instances|
  {
    if instances != [] {
      CountryNarrows(instances[1..], key, c);
      var rest := Filter(instances[1..], key, None);
      if Selected(instances[0], key, None) {
        assert ([instances[0]] + rest)[1..] == rest;
      }
    }
  }

  /** The key picked from the sorted keys is one of them, and any other
      sorted list of the same keys would have given the same pick. */
  lemma KeyChoice(keys: seq<string>, offered: set<string>, answer: Option<int>)
    requires Strings.StrictlySorted(keys) && |keys| > 0
    requires forall k :: k in keys <==> k in offered
    ensures ResolveKey(keys, answer).Some? && ResolveKey(keys, answer).value in offered
    ensures forall ks :: Strings.StrictlySorted(ks) && (forall k :: k in ks <==> k in offered) ==>
      ResolveKey(ks, answer) == ResolveKey(keys, answer)
  {
    Strings.SortedDetermined(keys, offered);
  }

  /** The same for the country. */
  lemma CountryChoice(countries: seq<string>, offered: set<string>, answer: CountryAnswer)
    requires Strings.StrictlySorted(countries)
    requires forall c :: c in countries <==> c in offered
    ensures ResolveCountry(countries, answer).Some? ==> ResolveCountry(countries, answer).value in offered
    ensures forall cs :: Strings.StrictlySorted(cs) && (forall c :: c in cs <==> c in offered) ==>
      ResolveCountry(cs, answer) == ResolveCountry(countries, answer)
  {
    Strings.SortedDetermined(countries, offered);
  }

  /** Every record of the listing, by position, passes the test. */
  lemma ListedSelected(instances: seq<Record>, key: string, country: Option<string>, listed: seq<Record>)
    requires listed == Filter(instances, key, country)
    ensures forall j :: 0 <= j < |listed| ==> Selected(listed[j], key, country) && key in listed[j]
  {
    assert forall j :: 0 <= j < |listed| ==> listed[j] in listed;
  }

  /** What the listing loop prints: `str(item[key])` for each listed record. */
  method Show(listed: seq<Record>, key: string) returns (shown: seq<string>)
    requires forall j :: 0 <= j < |listed| ==> key in listed[j]
    ensures |shown| == |listed|
    ensures forall j :: 0 <= j < |listed| ==> shown[j] == Text(listed[j][key])
  {
    shown := [];
    for j := 0 to |listed|
      invariant |shown| == j
      invariant forall m :: 0 <= m < j ==> shown[m] == Text(listed[m][key])
    {
      shown := shown + [Text(listed[j][key])];
    }
  }

  /** What one run of the picker ends in. */
  datatype Session =
    | Crashed  // no address key to fall back to: the script dies with IndexError
    | Listed(key: string, country: Option<string>, shown: seq<string>)

  /** The script from the first prompt to the listing: `shown` holds what it
      prints for each listed instance, `str(item[selected_key])`. */
  method Pick(catalog: Catalog, keyAnswer: Option<int>, countryAnswer: CountryAnswer) returns (s: Session)
    requires CountriesAreStrings(catalog.instances)
    ensures s.Crashed? <==> KeySet(catalog.instances) == {}
    ensures s.Listed? ==> s.key in KeySet(catalog.instances)
    ensures s.Listed? && s.country.Some? ==> s.country.value in CountrySet(catalog.instances)
    ensures s.Listed? ==>
      var listed := Filter(catalog.instances, s.key, s.country);
      && |s.shown| == |listed|
      && forall j :: 0 <= j < |listed| ==> Selected(listed[j], s.key, s.country) && s.shown[j] == Text(listed[j][s.key])
    ensures s.Listed? ==> forall ks :: Strings.StrictlySorted(ks) && (forall k :: k in ks <==> k in KeySet(catalog.instances)) ==>
      Some(s.key) == ResolveKey(ks, keyAnswer)
    ensures s.Listed? ==> forall cs :: Strings.StrictlySorted(cs) && (forall c :: c in cs <==> c in CountrySet(catalog.instances)) ==>
      s.country == ResolveCountry(cs, countryAnswer)
  {
    var instances := catalog.instances;
    var keys := AddressKeys(instances);
    if |keys| == 0 {
      assert forall k :: k !in KeySet(instances);
      return Crashed;
    }
    var key := ResolveKey(keys, keyAnswer).value;
    KeyChoice(keys, KeySet(instances), keyAnswer);
    var countries := Countries(instances);
    var country := ResolveCountry(countries, countryAnswer);
    CountryChoice(countries, CountrySet(instances), countryAnswer);
    var listed := Filter(instances, key, country);
    ListedSelected(instances, key, country, listed);
    var shown := Show(listed, key);
    return Listed(key, country, shown);
  }
}
