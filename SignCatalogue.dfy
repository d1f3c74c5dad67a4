/** The catalogue of known signs, per country: loaded once from one resource
    of `key: 'category--type--country'` lines per country, and looked up by
    short name or by full name. */
module SignCatalogue {
  import opened Wrappers
  import opened JavaString
  import opened Signs

  /** The countries whose resources are read, in this order. */
  const COUNTRIES: seq<string> := ["au", "br", "ca", "eu", "us"]

  /** One country's signs by short name; every stored sign is one the
      constructor built. */
  type CountryMap = m: map<string, Sign> | forall s :: s in m.Values ==> WellFormed(s)
    witness map[]

  /** Country code to that country's signs. */
  type Catalogue = map<string, CountryMap>

  // ---- loading ----

  /** Why a resource line makes loading fail. */
  datatype LineError =
    | MissingValue            // fewer than two `:`-separated fields
    | BadSignName(value: string)  // the value is not a composite name

  /** Loading stops at the first bad line: the country, the line's index and why. */
  datatype LoadError = LoadError(country: string, lineIndex: nat, reason: LineError)

  /** What one resource line contributes. */
  datatype LineOutcome = Blank | Entry(key: string, sign: Sign) | Malformed(reason: LineError)

  /** The line after removing its `'` characters. */
  function Unquoted(line: string): string {
    RemoveChar(line, '\'')
  }

  /** One line of a resource: an empty line is skipped; any other line has
      its quotes removed and is split on `:`, the trimmed first field is the
      key and the trimmed second field the sign's full name. */
  function ParseLine(line: string): (r: LineOutcome)
    ensures r.Blank? <==> line == ""
  {
    if line == "" then Blank
    else
      var pair := Split(Unquoted(line), ":");
      if |pair| < 2 then Malformed(MissingValue)
      else
        var value := Trim(pair[1]);
        if !IsCompositeName(value) then Malformed(BadSignName(value))
        else Entry(Trim(pair[0]), MakeSign(value))
  }

  /** The sign of an entry is one the constructor built. */
  lemma ParseLineWellFormed(line: string)
    requires ParseLine(line).Entry?
    ensures WellFormed(ParseLine(line).sign)
  {
  }

  /** The entry a line makes is keyed by the trimmed text before the line's
      first `:` and names the sign by the trimmed text between its first and
      second `:` (or the end), all after removing quotes. */
  lemma ParseLineFields(line: string, i: nat)
    requires ParseLine(line).Entry? && IndexFrom(Unquoted(line), ":", 0) == Some(i)
    ensures var q := Unquoted(line);
      && i < |q|
      && ':' !in q[..i]
      && ParseLine(line).key == Trim(q[..i])
      && ParseLine(line).sign.fullName == Trim(FieldFrom(q, ":", i + 1))
  {
    var q := Unquoted(line);
    var pair := Split(q, ":");
    ParseLineEntry(line);
    SplitFirstTwoFields(q, ":", i);
    CharBeforeFirstIndex(q, ':', i);
  }

  /** A line that makes an entry has a `:` once its quotes are removed. */
  lemma ParseLineHasColon(line: string)
    requires ParseLine(line).Entry?
    ensures IndexFrom(Unquoted(line), ":", 0).Some?
  {
    ParseLineEntry(line);
    SplitCases(Unquoted(line), ":");
  }

  /** A non-empty line without a `:` (once its quotes are removed) lacks a
      value. */
  lemma ParseLineNoColon(line: string)
    requires line != "" && IndexFrom(Unquoted(line), ":", 0).None?
    ensures ParseLine(line) == Malformed(MissingValue)
  {
    SplitCases(Unquoted(line), ":");
  }

  /** A non-empty line whose first `:` (once its quotes are removed) is at
      `i` makes an entry exactly when the trimmed text between that `:` and
      the next (or the end) is a composite name. */
  lemma ParseLineEntryIff(line: string, i: nat)
    requires line != "" && IndexFrom(Unquoted(line), ":", 0) == Some(i)
    ensures ParseLine(line).Entry? <==> IsCompositeName(Trim(FieldFrom(Unquoted(line), ":", i + 1)))
  {
    if ParseLine(line).Entry? {
      ParseLineFields(line, i);
      ParseLineWellFormed(line);
    } else if IsCompositeName(Trim(FieldFrom(Unquoted(line), ":", i + 1))) {
      ParseLineEntryWhen(line, i);
    }
  }

  /** A non-empty line whose field after the first `:` trims to a composite
      name makes an entry. */
  lemma ParseLineEntryWhen(line: string, i: nat)
    requires line != "" && IndexFrom(Unquoted(line), ":", 0) == Some(i)
    requires IsCompositeName(Trim(FieldFrom(Unquoted(line), ":", i + 1)))
    ensures ParseLine(line).Entry?
  {
    var q := Unquoted(line);
    PiecesFirstTwo(q, ":", i);
    assert Pieces(q, ":")[1] != "";
    assert |Split(q, ":")| >= 2;
    SplitFirstTwoFields(q, ":", i);
  }

  /** The fields an entry is made of. */
  lemma ParseLineEntry(line: string)
    requires ParseLine(line).Entry?
    ensures |Split(Unquoted(line), ":")| >= 2
    ensures var pair := Split(Unquoted(line), ":");
      ParseLine(line).key == Trim(pair[0]) && ParseLine(line).sign.fullName == Trim(pair[1])
  {
  }

  /** Every entry outcome carries a sign the constructor built. */
  predicate EntriesWellFormed(os: seq<LineOutcome>) {
    forall i :: 0 <= i < |os| && os[i].Entry? ==> WellFormed(os[i].sign)
  }

  /** What each line contributes, in order. */
  function Outcomes(lines: seq<string>): (r: seq<LineOutcome>)
    ensures |r| == |lines|
  {
    if lines == [] then []
    else Outcomes(lines[..|lines| - 1]) + [ParseLine(lines[|lines| - 1])]
  }

  /** Every entry a resource's lines make carries a sign the constructor built. */
  lemma OutcomesWellFormed(lines: seq<string>)
    ensures EntriesWellFormed(Outcomes(lines))
  {
    forall i | 0 <= i < |lines| && Outcomes(lines)[i].Entry?
      ensures WellFormed(Outcomes(lines)[i].sign)
    {
      OutcomesAt(lines, i);
      ParseLineWellFormed(lines[i]);
    }
  }

  lemma {:induction false} OutcomesPrefix(lines: seq<string>, k: nat)
    requires k <= |lines|
    ensures Outcomes(lines[..k]) == Outcomes(lines)[..k]
    decreases |lines|
  {
    if k < |lines| {
      var n := |lines| - 1;
      assert lines[..n][..k] == lines[..k];
      OutcomesPrefix(lines[..n], k);
    } else {
      assert lines[..k] == lines;
    }
  }

  lemma {:induction false} OutcomesAt(lines: seq<string>, i: nat)
    requires i < |lines|
    ensures Outcomes(lines)[i] == ParseLine(lines[i])
  {
    var n := |lines| - 1;
    var init := lines[..n];
    var prev, last := Outcomes(init), ParseLine(lines[n]);
    assert Outcomes(lines) == prev + [last];
    if i < n {
      OutcomesAt(init, i);
      assert init[i] == lines[i] && (prev + [last])[i] == prev[i];
    }
  }

  /** The signs given by a country's line outcomes, taken in order: an entry
      adds its key or replaces the sign an earlier line gave it, a blank line
      changes nothing, and the first malformed line aborts. */
  function ReadLines(country: string, os: seq<LineOutcome>): (r: Result<map<string, Sign>, LoadError>)
    ensures r.Failure? ==> r.error.country == country && r.error.lineIndex < |os|
  {
    if os == [] then Success(map[])
    else
      var n := |os| - 1;
      match ReadLines(country, os[..n])
      case Failure(e) => Failure(e)
      case Success(m) =>
        match os[n]
        case Blank => Success(m)
        case Entry(key, sign) => Success(m[key := sign])
        case Malformed(why) => Failure(LoadError(country, n, why))
  }

  /** Reading stores only signs that the lines carry. */
  lemma {:induction false} ReadLinesWellFormed(country: string, os: seq<LineOutcome>)
    requires EntriesWellFormed(os) && ReadLines(country, os).Success?
    ensures forall s :: s in ReadLines(country, os).value.Values ==> WellFormed(s)
  {
    if os != [] {
      var n := |os| - 1;
      assert EntriesWellFormed(os[..n]) by {
        forall i | 0 <= i < n && os[..n][i].Entry? ensures WellFormed(os[..n][i].sign) {
          assert os[..n][i] == os[i];
        }
      }
      ReadLinesWellFormed(country, os[..n]);
    }
  }

  /** One country's resource lines read into its map of signs. */
  function ParseLines(country: string, lines: seq<string>): (r: Result<CountryMap, LoadError>)
    ensures r == ReadLines(country, Outcomes(lines))
  {
    match ReadLines(country, Outcomes(lines))
    case Failure(e) => Failure(e)
    case Success(m) =>
      OutcomesWellFormed(lines);
      ReadLinesWellFormed(country, Outcomes(lines));
      Success(m)
  }

  /** The outcome is an entry for `key`. */
  predicate EntryFor(o: LineOutcome, key: string) {
    o.Entry? && o.key == key
  }

  /** Outcome `i` is the last one in `os` that is an entry for `key`. */
  predicate LastEntryFor(os: seq<LineOutcome>, key: string, i: int) {
    && 0 <= i < |os|
    && EntryFor(os[i], key)
    && forall j :: i < j < |os| ==> !EntryFor(os[j], key)
  }

  /** There is at most one last entry for a key. */
  lemma LastEntryUnique(os: seq<LineOutcome>, key: string, i: int, k: int)
    requires LastEntryFor(os, key, i) && LastEntryFor(os, key, k)
    ensures i == k
  {
  }

  /** Reading fails exactly when some line is malformed, and then it reports
      the first such line. */
  lemma {:induction false} ReadLinesFailsAtFirstMalformed(country: string, os: seq<LineOutcome>)
    ensures ReadLines(country, os).Success? <==> forall i :: 0 <= i < |os| ==> !os[i].Malformed?
    ensures ReadLines(country, os).Failure? ==>
      var e := ReadLines(country, os).error;
      && os[e.lineIndex] == Malformed(e.reason)
      && forall i :: 0 <= i < e.lineIndex ==> !os[i].Malformed?
  {
    if os != [] {
      var n := |os| - 1;
      ReadLinesFailsAtFirstMalformed(country, os[..n]);
      assert forall i :: 0 <= i < n ==> os[..n][i] == os[i];
    }
  }

  /** A successful read holds exactly the keys that some line makes an entry for. */
  lemma {:induction false} ReadLinesKeys(country: string, os: seq<LineOutcome>)
    requires ReadLines(country, os).Success?
    ensures forall key :: key in ReadLines(country, os).value <==>
      exists i :: 0 <= i < |os| && EntryFor(os[i], key)
  {
    if os != [] {
      var n := |os| - 1;
      var init := os[..n];
      ReadLinesKeys(country, init);
      var m := ReadLines(country, os).value;
      forall key | exists i :: 0 <= i < |os| && EntryFor(os[i], key)
        ensures key in m
      {
        var i :| 0 <= i < |os| && EntryFor(os[i], key);
        if i < n {
          assert EntryFor(init[i], key);
        }
      }
      forall key | key in m
        ensures exists i :: 0 <= i < |os| && EntryFor(os[i], key)
      {
        if !EntryFor(os[n], key) {
          var i :| 0 <= i < n && EntryFor(init[i], key);
          assert EntryFor(os[i], key);
        }
      }
    }
  }

  /** In a successful read each key holds the sign of the LAST line making an
      entry for it: later lines overwrite earlier ones. */
  lemma {:induction false} ReadLinesLastEntryWins(country: string, os: seq<LineOutcome>)
    requires ReadLines(country, os).Success?
    ensures var m := ReadLines(country, os).value;
      forall key :: key in m ==> exists i :: LastEntryFor(os, key, i) && m[key] == os[i].sign
  {
    if os != [] {
      var n := |os| - 1;
      var init := os[..n];
      ReadLinesLastEntryWins(country, init);
      var m0 := ReadLines(country, init).value;
      var m := ReadLines(country, os).value;
      forall key | key in m
        ensures exists i :: LastEntryFor(os, key, i) && m[key] == os[i].sign
      {
        ReadLinesLast(country, os, key);
        if EntryFor(os[n], key) {
          assert LastEntryFor(os, key, n);
        } else {
          var i :| LastEntryFor(init, key, i) && m0[key] == init[i].sign;
          LastEntryExtend(os, key, i);
        }
      }
    }
  }

  /** How the last outcome of a successful read affects one key. */
  lemma ReadLinesLast(country: string, os: seq<LineOutcome>, key: string)
    requires os != [] && ReadLines(country, os).Success?
    ensures ReadLines(country, os[..|os| - 1]).Success?
    ensures var m, m0 := ReadLines(country, os).value, ReadLines(country, os[..|os| - 1]).value;
      && (EntryFor(os[|os| - 1], key) ==> key in m && m[key] == os[|os| - 1].sign)
      && (!EntryFor(os[|os| - 1], key) ==> (key in m <==> key in m0) && (key in m ==> m[key] == m0[key]))
  {
  }

  /** A last entry of all but the final outcome stays the last entry when the
      final outcome is not an entry for the same key. */
  lemma LastEntryExtend(os: seq<LineOutcome>, key: string, i: int)
    requires os != [] && LastEntryFor(os[..|os| - 1], key, i) && !EntryFor(os[|os| - 1], key)
    ensures LastEntryFor(os, key, i)
  {
    assert forall j :: i < j < |os| - 1 ==> os[..|os| - 1][j] == os[j];
  }

  /** Once a prefix of the lines has failed, the whole read fails with the
      same error. */
  lemma {:induction false} ReadLinesFailurePersists(country: string, os: seq<LineOutcome>, k: nat)
    requires k <= |os| && ReadLines(country, os[..k]).Failure?
    ensures ReadLines(country, os) == ReadLines(country, os[..k])
    decreases |os| - k
  {
    if k < |os| {
      assert os[..k + 1][..k] == os[..k];
      ReadLinesFailurePersists(country, os, k + 1);
    } else {
      assert os[..k] == os;
    }
  }

  /** Loading a country's resource succeeds exactly when none of its lines
      is malformed; otherwise it reports the first malformed line. */
  lemma ParseLinesFailure(country: string, lines: seq<string>)
    ensures ParseLines(country, lines).Success? <==>
      forall i :: 0 <= i < |lines| ==> !ParseLine(lines[i]).Malformed?
    ensures ParseLines(country, lines).Failure? ==>
      var e := ParseLines(country, lines).error;
      && e.country == country && e.lineIndex < |lines|
      && ParseLine(lines[e.lineIndex]) == Malformed(e.reason)
      && forall i :: 0 <= i < e.lineIndex ==> !ParseLine(lines[i]).Malformed?
  {
    var os := Outcomes(lines);
    ReadLinesFailsAtFirstMalformed(country, os);
    forall i | 0 <= i < |lines| ensures os[i] == ParseLine(lines[i]) {
      OutcomesAt(lines, i);
    }
  }

  /** A successfully loaded country maps exactly the keys some line makes an
      entry for (blank lines make none), each to the sign of the last line
      with that key. */
  lemma ParseLinesContents(country: string, lines: seq<string>)
    requires ParseLines(country, lines).Success?
    ensures var m := ParseLines(country, lines).value;
      forall key :: key in m <==> exists i :: 0 <= i < |lines| && EntryFor(ParseLine(lines[i]), key)
    ensures var m := ParseLines(country, lines).value;
      forall key :: key in m ==> exists i ::
        && 0 <= i < |lines| && EntryFor(ParseLine(lines[i]), key)
        && m[key] == ParseLine(lines[i]).sign
        && forall j :: i < j < |lines| ==> !EntryFor(ParseLine(lines[j]), key)
  {
    var os := Outcomes(lines);
    ReadLinesKeys(country, os);
    ReadLinesLastEntryWins(country, os);
    forall i | 0 <= i < |lines| ensures os[i] == ParseLine(lines[i]) {
      OutcomesAt(lines, i);
    }
  }

  /** The catalogue built from the resources of the countries in `countries`,
      in order; a country without a resource gets no entry at all. */
  function LoadCountries(countries: seq<string>, resources: map<string, seq<string>>): (r: Result<Catalogue, LoadError>)
    ensures r.Success? ==> r.value.Keys <= set c | c in countries
  {
    if countries == [] then Success(map[])
    else
      var n := |countries| - 1;
      var country := countries[n];
      match LoadCountries(countries[..n], resources)
      case Failure(e) => Failure(e)
      case Success(cat) =>
        if country !in resources then Success(cat)
        else
          match ParseLines(country, resources[country])
          case Failure(e) => Failure(e)
          case Success(m) => Success(cat[country := m])
  }

  /** The catalogue the class loads, with one resource (a sequence of lines)
      per country that has one. */
  function Load(resources: map<string, seq<string>>): Result<Catalogue, LoadError> {
    LoadCountries(COUNTRIES, resources)
  }

  /** A successful load holds exactly the listed countries that have a
      resource, each with the signs its lines give. */
  lemma {:induction false} LoadCountriesContents(countries: seq<string>, resources: map<string, seq<string>>)
    requires LoadCountries(countries, resources).Success?
    ensures var cat := LoadCountries(countries, resources).value;
      && (forall c :: c in cat <==> c in countries && c in resources)
      && (forall c :: c in cat ==> ParseLines(c, resources[c]) == Success(cat[c]))
  {
    if countries != [] {
      var n := |countries| - 1;
      LoadCountriesContents(countries[..n], resources);
      assert countries == countries[..n] + [countries[n]];
    }
  }

  /** Once loading a prefix of the countries has failed, the whole load
      fails with the same error. */
  lemma {:induction false} LoadCountriesFailurePersists(countries: seq<string>, resources: map<string, seq<string>>, k: nat)
    requires k <= |countries| && LoadCountries(countries[..k], resources).Failure?
    ensures LoadCountries(countries, resources) == LoadCountries(countries[..k], resources)
    decreases |countries| - k
  {
    if k < |countries| {
      assert countries[..k + 1][..k] == countries[..k];
      LoadCountriesFailurePersists(countries, resources, k + 1);
    } else {
      assert countries[..k] == countries;
    }
  }

  /** Loading fails exactly when a listed country with a resource has a
      malformed line. */
  lemma {:induction false} LoadCountriesFails(countries: seq<string>, resources: map<string, seq<string>>)
    ensures LoadCountries(countries, resources).Failure? <==>
      exists c :: c in countries && c in resources && ParseLines(c, resources[c]).Failure?
  {
    if countries != [] {
      var n := |countries| - 1;
      LoadCountriesFails(countries[..n], resources);
      assert countries == countries[..n] + [countries[n]];
    }
  }

  /** Reads one country's resource, line by line, into a fresh map. */
  method LoadCountry(country: string, lines: seq<string>) returns (r: Result<CountryMap, LoadError>)
    ensures r == ParseLines(country, lines)
  {
    var countryMap: map<string, Sign> := map[];
    var j := 0;
    while j < |lines|
      invariant 0 <= j <= |lines|
      invariant ReadLines(country, Outcomes(lines[..j])) == Success(countryMap)
    {
      var line := lines[j];
      ghost var done := Outcomes(lines[..j]);
      assert lines[..j + 1][..j] == lines[..j];
      assert Outcomes(lines[..j + 1]) == done + [ParseLine(line)];
      assert (done + [ParseLine(line)])[..j] == done;
      if line != "" {
        var pair := Split(Unquoted(line), ":");
        if |pair| < 2 {
          ParseLinesAbort(country, lines, j);
          return Failure(LoadError(country, j, MissingValue));
        }
        var value := Trim(pair[1]);
        if !IsCompositeName(value) {
          ParseLinesAbort(country, lines, j);
          return Failure(LoadError(country, j, BadSignName(value)));
        }
        countryMap := countryMap[Trim(pair[0]) := MakeSign(value)];
      }
      j := j + 1;
    }
    assert lines[..j] == lines;
    OutcomesWellFormed(lines);
    ReadLinesWellFormed(country, Outcomes(lines));
    return Success(countryMap);
  }

  /** A malformed line reached after every earlier line was read is the
      error of the whole resource. */
  lemma ParseLinesAbort(country: string, lines: seq<string>, j: nat)
    requires j < |lines| && ReadLines(country, Outcomes(lines[..j])).Success?
    requires ParseLine(lines[j]).Malformed?
    ensures ParseLines(country, lines) == Failure(LoadError(country, j, ParseLine(lines[j]).reason))
  {
    var os := Outcomes(lines);
    OutcomesPrefix(lines, j);
    OutcomesAt(lines, j);
    var done := os[..j + 1];
    assert done[..j] == os[..j] && done[j] == os[j];
    assert ReadLines(country, done) == Failure(LoadError(country, j, os[j].reason));
    ReadLinesFailurePersists(country, os, j + 1);
  }

  /** The static initializer: for each country with a resource, read its
      lines into a fresh map and store that map in the catalogue; the first
      malformed line aborts the whole load. */
  method LoadCatalogue(resources: map<string, seq<string>>) returns (r: Result<Catalogue, LoadError>)
    ensures r == Load(resources)
  {
    var catalogue: Catalogue := map[];
    var i := 0;
    while i < |COUNTRIES|
      invariant 0 <= i <= |COUNTRIES|
      invariant LoadCountries(COUNTRIES[..i], resources) == Success(catalogue)
    {
      var country := COUNTRIES[i];
      assert COUNTRIES[..i + 1][..i] == COUNTRIES[..i];
      if country in resources {
        var loaded := LoadCountry(country, resources[country]);
        if loaded.Failure? {
          LoadCountriesFailurePersists(COUNTRIES, resources, i + 1);
          return Failure(loaded.error);
        }
        catalogue := catalogue[country := loaded.value];
      }
      i := i + 1;
    }
    assert COUNTRIES[..i] == COUNTRIES;
    return Success(catalogue);
  }

  // ---- lookup ----

  /** `getSign(name, country)`: `None` for an unknown country; the stored sign
      for a known short name; for any other composite name the catalogued sign
      with that full name if there is one, else a new sign that is not added to
      the catalogue; `None` otherwise. */
  function GetSign(cat: Catalogue, name: string, country: string): (r: Option<Sign>)
    ensures country !in cat ==> r == None
    ensures country in cat && name in cat[country] ==> r == Some(cat[country][name])
    ensures country in cat && name !in cat[country] ==> (r.Some? <==> IsCompositeName(name))
    ensures country in cat && name !in cat[country] && r.Some? ==> r.value == MakeSign(name)
    ensures country in cat && name !in cat[country] && r.Some? ==>
      ((exists s :: s in cat[country].Values && Equals(s, Some(MakeSign(name)))) ==> r.value in cat[country].Values)
    ensures r.Some? ==> WellFormed(r.value)
  {
    if country !in cat then None
    else
      var countryMap := cat[country];
      if name in countryMap then Some(countryMap[name])
      else if IsCompositeName(name) then
        var probe := MakeSign(name);
        if exists s :: s in countryMap.Values && Equals(probe, Some(s)) then
          var found :| found in countryMap.Values && ToString(found) == name;
          Some(found)
        else Some(probe)
      else None
  }

  /** The stream search behind `assert p.isPresent()` cannot come up empty:
      a catalogued sign equal to the new sign has `toString()` equal to the
      name. */
  lemma SearchFindsEqualSign(m: CountryMap, name: string)
    requires IsCompositeName(name)
    requires exists s :: s in m.Values && Equals(MakeSign(name), Some(s))
    ensures exists s :: s in m.Values && ToString(s) == name
    ensures forall s :: s in m.Values && ToString(s) == name ==> s == MakeSign(name)
  {
  }

  /** After a successful load, a country that is not listed or has no
      resource is unknown to the lookup. */
  lemma LookupWithoutResource(resources: map<string, seq<string>>, name: string, country: string)
    requires Load(resources).Success?
    requires country !in resources || country !in COUNTRIES
    ensures GetSign(Load(resources).value, name, country) == None
  {
    LoadCountriesContents(COUNTRIES, resources);
  }

  /** After a successful load, a short name of a country with a resource
      gives the sign of the last line making an entry for that name. */
  lemma LookupLastEntry(resources: map<string, seq<string>>, name: string, country: string, i: nat)
    requires Load(resources).Success?
    requires country in resources && country in COUNTRIES
    requires LastEntryFor(Outcomes(resources[country]), name, i)
    ensures ParseLine(resources[country][i]).Entry?
    ensures GetSign(Load(resources).value, name, country) == Some(ParseLine(resources[country][i]).sign)
  {
    var lines := resources[country];
    var os := Outcomes(lines);
    LoadCountriesContents(COUNTRIES, resources);
    var m := Load(resources).value[country];
    assert ReadLines(country, os) == Success(m);
    ReadLinesKeys(country, os);
    assert name in m;
    ReadLinesLastEntryWins(country, os);
    var k :| LastEntryFor(os, name, k) && m[name] == os[k].sign;
    LastEntryUnique(os, name, i, k);
    OutcomesAt(lines, i);
  }

  /** After a successful load, a name that no line of the country's resource
      makes an entry for gives a new sign when it is a composite name, and
      `None` otherwise. */
  lemma LookupUndefinedName(resources: map<string, seq<string>>, name: string, country: string)
    requires Load(resources).Success?
    requires country in resources && country in COUNTRIES
    requires forall i :: 0 <= i < |resources[country]| ==> !EntryFor(ParseLine(resources[country][i]), name)
    ensures GetSign(Load(resources).value, name, country) ==
      if IsCompositeName(name) then Some(MakeSign(name)) else None
  {
    var os := Outcomes(resources[country]);
    LoadCountriesContents(COUNTRIES, resources);
    ReadLinesKeys(country, os);
    forall i | 0 <= i < |os| ensures !EntryFor(os[i], name) {
      OutcomesAt(resources[country], i);
    }
  }
}
