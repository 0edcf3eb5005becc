/**
 * The statistics the running page derives from its activity list
 * (src/hooks/useActivities.ts): country-name standardisation, and the pass
 * over all activities that tallies runs and distance per city, per
 * prefecture and per title, and collects the provinces, countries and years
 * seen.
 *
 * The location and title of a run, the standardisation table and the list of
 * municipalities are parameters. Distances are integers.
 */
module ActivityStats {
  import opened Wrappers
  import opened Text
  import opened StringSort

  /**
   * `standardizeCountryName`: the standard name of the first pattern in the
   * table that occurs in `country`, or `country` itself when none does.
   */
  function StandardizeCountryName(table: seq<(string, string)>, country: string): (r: string)
    ensures r == country || exists i :: 0 <= i < |table| && r == table[i].1
  {
    if table == [] then country
    else if Contains(country, table[0].0) then table[0].1
    else
      var r := StandardizeCountryName(table[1..], country);
      assert r == country || exists i :: 0 <= i < |table| - 1 && r == table[1..][i].1;
      r
  }

  /** Entry `i` is the first entry of the table whose pattern occurs in `country`. */
  predicate FirstMatchAt(table: seq<(string, string)>, country: string, i: int)
  {
    && 0 <= i < |table|
    && Contains(country, table[i].0)
    && forall k :: 0 <= k < i ==> !Contains(country, table[k].0)
  }

  /** The first match wins, and no match leaves the name as it was. */
  lemma {:induction false} StandardizeFirstMatch(table: seq<(string, string)>, country: string)
    ensures (forall i :: 0 <= i < |table| ==> !Contains(country, table[i].0))
      ==> StandardizeCountryName(table, country) == country
    ensures forall i :: FirstMatchAt(table, country, i) ==> StandardizeCountryName(table, country) == table[i].1
  {
    if table != [] && !Contains(country, table[0].0) {
      var rest := table[1..];
      StandardizeFirstMatch(rest, country);
      forall i | FirstMatchAt(table, country, i)
        ensures FirstMatchAt(rest, country, i - 1)
      {
        assert rest[i - 1] == table[i];
        forall k | 0 <= k < i - 1
          ensures !Contains(country, rest[k].0)
        {
          assert rest[k] == table[k + 1];
        }
      }
      if forall i :: 0 <= i < |table| ==> !Contains(country, table[i].0) {
        forall i | 0 <= i < |rest|
          ensures !Contains(country, rest[i].0)
        {
          assert rest[i] == table[i + 1];
        }
      }
    }
  }

  /** What `locationForRun` extracts from a run. */
  datatype Location = Location(city: string, province: string, country: string)

  /** The fields of an activity the statistics read. */
  datatype Run = Run(runId: int, distance: int, startDateLocal: string)

  /** `CityStats`: total distance and number of runs. */
  datatype CityStats = CityStats(distance: int, count: nat)

  /** How runs are grouped into places. */
  datatype Grouping =
    | ByCity                                  // the `cities` table
    | ByPrefecture(municipalities: seq<string>)  // the `prefectureCities` table

  /**
   * The place a run is counted under: its city, or, for prefectures, its
   * province when that is one of the municipalities; only names longer than
   * one character count.
   */
  function GroupKey(g: Grouping, loc: Location): (r: Option<string>)
    ensures r.Some? ==> |r.value| > 1
    ensures g.ByCity? ==> r == (if |loc.city| > 1 then Some(loc.city) else None)
    ensures g.ByPrefecture? && loc.province !in g.municipalities ==> r == (if |loc.city| > 1 then Some(loc.city) else None)
    ensures g.ByPrefecture? && loc.province in g.municipalities ==> r == (if |loc.province| > 1 then Some(loc.province) else None)
  {
    var key := match g
      case ByCity => loc.city
      case ByPrefecture(municipalities) => if loc.province in municipalities then loc.province else loc.city;
    if |key| > 1 then Some(key) else None
  }

  /** The place of each run, in order. */
  function GroupKeys(runs: seq<Run>, locate: Run -> Location, g: Grouping): (r: seq<Option<string>>)
    ensures |r| == |runs|
  {
    if runs == [] then [] else GroupKeys(runs[..|runs| - 1], locate, g) + [GroupKey(g, locate(runs[|runs| - 1]))]
  }

  /** The key a title is counted under: the title, unless it is empty. */
  function TitleKey(title: string): Option<string>
  {
    if title != "" then Some(title) else None
  }

  /** The keys the runs are counted under in `runPeriod`, in order. */
  function TitleKeys(runs: seq<Run>, titleOf: Run -> string): (r: seq<Option<string>>)
    ensures |r| == |runs|
  {
    if runs == [] then [] else TitleKeys(runs[..|runs| - 1], titleOf) + [TitleKey(titleOf(runs[|runs| - 1]))]
  }

  /** The number and total distance of the runs whose key is `k`. */
  function Tally(runs: seq<Run>, keys: seq<Option<string>>, k: string): (r: CityStats)
    requires |keys| == |runs|
    ensures r.count <= |runs|
    ensures r.count == 0 ==> r.distance == 0
  {
    if runs == [] then CityStats(0, 0)
    else
      var n := |runs| - 1;
      var prev := Tally(runs[..n], keys[..n], k);
      if keys[n] == Some(k) then CityStats(prev.distance + runs[n].distance, prev.count + 1) else prev
  }

  /** A table holds, for exactly the keys some run has, that key's tally. */
  ghost predicate Tallied(m: map<string, CityStats>, runs: seq<Run>, keys: seq<Option<string>>)
    requires |keys| == |runs|
  {
    forall k :: (k in m <==> Tally(runs, keys, k).count > 0) && (k in m ==> m[k] == Tally(runs, keys, k))
  }

  /** A count table holds, for exactly the keys some run has, that key's number of runs. */
  ghost predicate Counted(m: map<string, nat>, runs: seq<Run>, keys: seq<Option<string>>)
    requires |keys| == |runs|
  {
    forall k :: (k in m <==> Tally(runs, keys, k).count > 0) && (k in m ==> m[k] == Tally(runs, keys, k).count)
  }

  /** One more run with key `key` adds one run and its distance to that key's tally and nothing else. */
  lemma TallySnoc(runs: seq<Run>, keys: seq<Option<string>>, run: Run, key: Option<string>, k: string)
    requires |keys| == |runs|
    ensures var prev := Tally(runs, keys, k);
      Tally(runs + [run], keys + [key], k)
        == if key == Some(k) then CityStats(prev.distance + run.distance, prev.count + 1) else prev
  {
    assert (runs + [run])[..|runs|] == runs;
    assert (keys + [key])[..|keys|] == keys;
  }

  /** `Set.prototype.add`: append `x` unless it is already there. */
  function AddNew(xs: seq<string>, x: string): (r: seq<string>)
    ensures xs <= r && x in r
    ensures forall y :: y in r ==> y in xs || y == x
  {
    if x in xs then xs else xs + [x]
  }

  /** The set built by adding `xs` one by one, in its iteration (insertion) order. */
  function InsertionOrder(xs: seq<string>): seq<string>
  {
    if xs == [] then [] else AddNew(InsertionOrder(xs[..|xs| - 1]), xs[|xs| - 1])
  }

  /** The set holds each element of `xs` exactly once, and nothing else. */
  lemma {:induction false} InsertionOrderSpec(xs: seq<string>)
    ensures NoDuplicates(InsertionOrder(xs))
    ensures forall y :: y in InsertionOrder(xs) <==> y in xs
    decreases |xs|
  {
    if xs != [] {
      var n := |xs| - 1;
      InsertionOrderSpec(xs[..n]);
      assert xs == xs[..n] + [xs[n]];
    }
  }

  /** The non-empty provinces of the runs, in order. */
  function Provinces(runs: seq<Run>, locate: Run -> Location): seq<string>
  {
    if runs == [] then []
    else
      var province := locate(runs[|runs| - 1]).province;
      Provinces(runs[..|runs| - 1], locate) + (if province != "" then [province] else [])
  }

  /** The standardised names of the runs' non-empty countries, in order. */
  function Countries(runs: seq<Run>, locate: Run -> Location, table: seq<(string, string)>): seq<string>
  {
    if runs == [] then []
    else
      var country := locate(runs[|runs| - 1]).country;
      Countries(runs[..|runs| - 1], locate, table)
        + (if country != "" then [StandardizeCountryName(table, country)] else [])
  }

  /** `start_date_local.slice(0, 4)`: the first four characters, or all of a shorter string. */
  function YearOf(run: Run): (r: string)
    ensures r <= run.startDateLocal
    ensures |r| == if |run.startDateLocal| < 4 then |run.startDateLocal| else 4
  {
    var s := run.startDateLocal;
    if |s| <= 4 then s else s[..4]
  }

  /** The year of each run, in order. */
  function Years(runs: seq<Run>): (r: seq<string>)
    ensures |r| == |runs|
  {
    if runs == [] then [] else Years(runs[..|runs| - 1]) + [YearOf(runs[|runs| - 1])]
  }

  /** What the hook returns, besides the activity list itself. */
  datatype Summary = Summary(
    years: seq<string>,
    countries: seq<string>,
    provinces: seq<string>,
    cities: map<string, CityStats>,
    prefectureCities: map<string, CityStats>,
    runPeriod: map<string, nat>,
    thisYear: string)

  /** Adding `x` to the set built from `xs`. */
  lemma InsertionOrderSnoc(xs: seq<string>, x: string)
    ensures InsertionOrder(xs + [x]) == AddNew(InsertionOrder(xs), x)
  {
    assert (xs + [x])[..|xs|] == xs;
  }

  /** What one more run adds to the province, country and year sets. */
  lemma SetsStep(runs: seq<Run>, i: nat, locate: Run -> Location, table: seq<(string, string)>)
    requires i < |runs|
    ensures var loc := locate(runs[i]);
      && InsertionOrder(Provinces(runs[..i + 1], locate))
        == (if loc.province != "" then AddNew(InsertionOrder(Provinces(runs[..i], locate)), loc.province)
            else InsertionOrder(Provinces(runs[..i], locate)))
      && InsertionOrder(Countries(runs[..i + 1], locate, table))
        == (if loc.country != ""
            then AddNew(InsertionOrder(Countries(runs[..i], locate, table)), StandardizeCountryName(table, loc.country))
            else InsertionOrder(Countries(runs[..i], locate, table)))
      && InsertionOrder(Years(runs[..i + 1])) == AddNew(InsertionOrder(Years(runs[..i])), YearOf(runs[i]))
  {
    var loc := locate(runs[i]);
    assert runs[..i + 1][..i] == runs[..i];
    var ps := Provinces(runs[..i], locate);
    if loc.province != "" {
      InsertionOrderSnoc(ps, loc.province);
    } else {
      assert ps + [] == ps;
    }
    var cs := Countries(runs[..i], locate, table);
    if loc.country != "" {
      InsertionOrderSnoc(cs, StandardizeCountryName(table, loc.country));
    } else {
      assert cs + [] == cs;
    }
    InsertionOrderSnoc(Years(runs[..i]), YearOf(runs[i]));
  }

  /** The table after counting one run with key `key` and distance `d`. */
  function Bump(m: map<string, CityStats>, key: Option<string>, d: int): (r: map<string, CityStats>)
    ensures key.Some? ==> key.value in r && r[key.value].count >= 1
    ensures forall k :: k in r && Some(k) != key ==> k in m && r[k] == m[k]
    ensures forall k :: k in m ==> k in r
  {
    if key.None? then m
    else
      var base := if key.value in m then m[key.value] else CityStats(0, 0);
      m[key.value := CityStats(base.distance + d, base.count + 1)]
  }

  /** The count table after counting one run with key `key`. */
  function BumpCount(m: map<string, nat>, key: Option<string>): (r: map<string, nat>)
    ensures key.Some? ==> key.value in r && r[key.value] >= 1
    ensures forall k :: k in r && Some(k) != key ==> k in m && r[k] == m[k]
    ensures forall k :: k in m ==> k in r
  {
    if key.None? then m
    else m[key.value := if key.value in m && m[key.value] != 0 then m[key.value] + 1 else 1]
  }

  /** Counting run `i` into a table tallied over the runs before it tallies it over the runs up to it. */
  lemma TalliedAdvance(m: map<string, CityStats>, runs: seq<Run>, i: nat, locate: Run -> Location, g: Grouping)
    requires i < |runs|
    requires Tallied(m, runs[..i], GroupKeys(runs[..i], locate, g))
    ensures Tallied(Bump(m, GroupKey(g, locate(runs[i])), runs[i].distance), runs[..i + 1], GroupKeys(runs[..i + 1], locate, g))
  {
    var keys := GroupKeys(runs[..i], locate, g);
    var key := GroupKey(g, locate(runs[i]));
    var bumped := Bump(m, key, runs[i].distance);
    assert runs[..i + 1][..i] == runs[..i];
    assert runs[..i + 1] == runs[..i] + [runs[i]];
    assert GroupKeys(runs[..i + 1], locate, g) == keys + [key];
    forall k
      ensures k in bumped <==> Tally(runs[..i] + [runs[i]], keys + [key], k).count > 0
      ensures k in bumped ==> bumped[k] == Tally(runs[..i] + [runs[i]], keys + [key], k)
    {
      TallySnoc(runs[..i], keys, runs[i], key, k);
    }
  }

  /** Counting run `i` into a count table over the runs before it counts it over the runs up to it. */
  lemma CountedAdvance(m: map<string, nat>, runs: seq<Run>, i: nat, titleOf: Run -> string)
    requires i < |runs|
    requires Counted(m, runs[..i], TitleKeys(runs[..i], titleOf))
    ensures Counted(BumpCount(m, TitleKey(titleOf(runs[i]))), runs[..i + 1], TitleKeys(runs[..i + 1], titleOf))
  {
    var keys := TitleKeys(runs[..i], titleOf);
    var key := TitleKey(titleOf(runs[i]));
    assert runs[..i + 1][..i] == runs[..i];
    assert runs[..i + 1] == runs[..i] + [runs[i]];
    forall k
      ensures Tally(runs[..i + 1], keys + [key], k).count
        == if key == Some(k) then Tally(runs[..i], keys, k).count + 1 else Tally(runs[..i], keys, k).count
    {
      TallySnoc(runs[..i], keys, runs[i], key, k);
    }
  }

  /** The tables and sets the pass builds, as they stand after some runs. */
  datatype Acc = Acc(
    cities: map<string, CityStats>,
    prefectureCities: map<string, CityStats>,
    runPeriod: map<string, nat>,
    provinces: seq<string>,
    countries: seq<string>,
    years: seq<string>)

  /** What visiting one run does to the tables and sets. */
  function Visit(acc: Acc, run: Run, locate: Run -> Location, titleOf: Run -> string,
                 table: seq<(string, string)>, municipalities: seq<string>): (r: Acc)
    ensures acc.provinces <= r.provinces && |r.provinces| <= |acc.provinces| + 1
    ensures acc.countries <= r.countries && |r.countries| <= |acc.countries| + 1
    ensures acc.years <= r.years && |r.years| <= |acc.years| + 1 && YearOf(run) in r.years
  {
    var loc := locate(run);
    Acc(Bump(acc.cities, GroupKey(ByCity, loc), run.distance),
        Bump(acc.prefectureCities, GroupKey(ByPrefecture(municipalities), loc), run.distance),
        BumpCount(acc.runPeriod, TitleKey(titleOf(run))),
        if loc.province != "" then AddNew(acc.provinces, loc.province) else acc.provinces,
        if loc.country != "" then AddNew(acc.countries, StandardizeCountryName(table, loc.country)) else acc.countries,
        AddNew(acc.years, YearOf(run)))
  }

  /** The tables and sets after visiting `runs` in order. */
  function Accumulate(runs: seq<Run>, locate: Run -> Location, titleOf: Run -> string,
                      table: seq<(string, string)>, municipalities: seq<string>): (r: Acc)
    ensures |r.provinces| <= |runs| && |r.countries| <= |runs| && |r.years| <= |runs|
  {
    if runs == [] then Acc(map[], map[], map[], [], [], [])
    else Visit(Accumulate(runs[..|runs| - 1], locate, titleOf, table, municipalities), runs[|runs| - 1],
               locate, titleOf, table, municipalities)
  }

  /**
   * After the pass, `cities` and `prefectureCities` hold, for exactly the
   * places some run is counted under, that place's number of runs and total
   * distance, and `runPeriod` holds, for exactly the non-empty titles, their
   * number of runs.
   */
  lemma {:induction false} AccumulateTables(runs: seq<Run>, locate: Run -> Location, titleOf: Run -> string,
                                            table: seq<(string, string)>, municipalities: seq<string>)
    ensures var acc := Accumulate(runs, locate, titleOf, table, municipalities);
      && Tallied(acc.cities, runs, GroupKeys(runs, locate, ByCity))
      && Tallied(acc.prefectureCities, runs, GroupKeys(runs, locate, ByPrefecture(municipalities)))
      && Counted(acc.runPeriod, runs, TitleKeys(runs, titleOf))
    decreases |runs|
  {
    if runs != [] {
      var n := |runs| - 1;
      var prev := Accumulate(runs[..n], locate, titleOf, table, municipalities);
      AccumulateTables(runs[..n], locate, titleOf, table, municipalities);
      assert runs[..n + 1] == runs;
      TalliedAdvance(prev.cities, runs, n, locate, ByCity);
      TalliedAdvance(prev.prefectureCities, runs, n, locate, ByPrefecture(municipalities));
      CountedAdvance(prev.runPeriod, runs, n, titleOf);
    }
  }

  /**
   * After the pass, `provinces`, `countries` and `years` are the sets built
   * from the runs' non-empty provinces, standardised non-empty countries and
   * years, in the order the runs were visited.
   */
  lemma {:induction false} AccumulateSets(runs: seq<Run>, locate: Run -> Location, titleOf: Run -> string,
                                          table: seq<(string, string)>, municipalities: seq<string>)
    ensures var acc := Accumulate(runs, locate, titleOf, table, municipalities);
      && acc.provinces == InsertionOrder(Provinces(runs, locate))
      && acc.countries == InsertionOrder(Countries(runs, locate, table))
      && acc.years == InsertionOrder(Years(runs))
    decreases |runs|
  {
    if runs != [] {
      var n := |runs| - 1;
      AccumulateSets(runs[..n], locate, titleOf, table, municipalities);
      SetsStep(runs, n, locate, table);
      assert runs[..n + 1] == runs;
    }
  }

  /**
   * The update of a place table for a run counted under `key`: create the
   * entry when it is missing, then add one run and its distance.
   */
  method AddRun(m: map<string, CityStats>, key: string, distance: int) returns (r: map<string, CityStats>)
    ensures r == Bump(m, Some(key), distance)
  {
    r := m;
    if key !in r {
      r := r[key := CityStats(0, 0)];
    }
    r := r[key := CityStats(r[key].distance + distance, r[key].count + 1)];
  }

  /** The body of the `forEach` callback: count one run into the tables and sets. */
  method VisitRun(cities: map<string, CityStats>, prefectureCities: map<string, CityStats>, runPeriod: map<string, nat>,
                  provinces: seq<string>, countries: seq<string>, years: seq<string>, run: Run,
                  locate: Run -> Location, titleOf: Run -> string, table: seq<(string, string)>, municipalities: seq<string>)
    returns (cities': map<string, CityStats>, prefectureCities': map<string, CityStats>, runPeriod': map<string, nat>,
             provinces': seq<string>, countries': seq<string>, years': seq<string>)
    ensures Acc(cities', prefectureCities', runPeriod', provinces', countries', years')
      == Visit(Acc(cities, prefectureCities, runPeriod, provinces, countries, years), run, locate, titleOf, table, municipalities)
  {
    ghost var next := Visit(Acc(cities, prefectureCities, runPeriod, provinces, countries, years), run,
                            locate, titleOf, table, municipalities);
    var location := locate(run);
    var periodName := titleOf(run);
    runPeriod' := runPeriod;
    if periodName != "" {
      runPeriod' := runPeriod[periodName := if periodName in runPeriod && runPeriod[periodName] != 0
                                            then runPeriod[periodName] + 1 else 1];
    }
    assert runPeriod' == next.runPeriod;
    var city, province, country := location.city, location.province, location.country;
    cities' := cities;
    if |city| > 1 {
      cities' := AddRun(cities, city, run.distance);
    }
    assert cities' == next.cities;
    var prefectureKey := if province in municipalities then province else city;
    prefectureCities' := prefectureCities;
    if prefectureKey != "" && |prefectureKey| > 1 {
      prefectureCities' := AddRun(prefectureCities, prefectureKey, run.distance);
    }
    assert prefectureCities' == next.prefectureCities;
    provinces' := provinces;
    if province != "" {
      provinces' := AddNew(provinces, province);
    }
    countries' := countries;
    if country != "" {
      countries' := AddNew(countries, StandardizeCountryName(table, country));
    }
    var year := if |run.startDateLocal| <= 4 then run.startDateLocal else run.startDateLocal[..4];
    years' := AddNew(years, year);
  }

  /**
   * The `forEach` pass of `useActivities` and the year list after it: every
   * table holds exactly the tallies of the runs, the sets are built in the
   * order the runs are visited, and the years are sorted and reversed.
   */
  method ProcessActivities(runs: seq<Run>, locate: Run -> Location, titleOf: Run -> string,
                           table: seq<(string, string)>, municipalities: seq<string>)
    returns (s: Summary)
    ensures Tallied(s.cities, runs, GroupKeys(runs, locate, ByCity))
    ensures Tallied(s.prefectureCities, runs, GroupKeys(runs, locate, ByPrefecture(municipalities)))
    ensures Counted(s.runPeriod, runs, TitleKeys(runs, titleOf))
    ensures s.provinces == InsertionOrder(Provinces(runs, locate))
    ensures s.countries == InsertionOrder(Countries(runs, locate, table))
    ensures s.years == Reverse(Sort(InsertionOrder(Years(runs))))
    ensures s.thisYear == if s.years == [] then "" else s.years[0]
  {
    var cities: map<string, CityStats> := map[];
    var prefectureCities: map<string, CityStats> := map[];
    var runPeriod: map<string, nat> := map[];
    var provinces: seq<string> := [];
    var countries: seq<string> := [];
    var years: seq<string> := [];
    var i := 0;
    while i < |runs|
      invariant i <= |runs|
      invariant Acc(cities, prefectureCities, runPeriod, provinces, countries, years)
        == Accumulate(runs[..i], locate, titleOf, table, municipalities)
    {
      assert runs[..i + 1][..i] == runs[..i];
      cities, prefectureCities, runPeriod, provinces, countries, years :=
        VisitRun(cities, prefectureCities, runPeriod, provinces, countries, years, runs[i],
                 locate, titleOf, table, municipalities);
      i := i + 1;
    }
    assert runs[..|runs|] == runs;
    AccumulateTables(runs, locate, titleOf, table, municipalities);
    AccumulateSets(runs, locate, titleOf, table, municipalities);
    var yearsArray := Reverse(Sort(years));
    var thisYear := if yearsArray != [] && yearsArray[0] != "" then yearsArray[0] else "";
    s := Summary(yearsArray, countries, provinces, cities, prefectureCities, runPeriod, thisYear);
  }

  /** The j-th key is the j-th run's place. */
  lemma {:induction false} GroupKeysAt(runs: seq<Run>, locate: Run -> Location, g: Grouping, j: nat)
    requires j < |runs|
    ensures GroupKeys(runs, locate, g)[j] == GroupKey(g, locate(runs[j]))
    decreases |runs|
  {
    var n := |runs| - 1;
    if j < n {
      GroupKeysAt(runs[..n], locate, g, j);
    }
  }

  /** The j-th key is the j-th run's title, when that is not empty. */
  lemma {:induction false} TitleKeysAt(runs: seq<Run>, titleOf: Run -> string, j: nat)
    requires j < |runs|
    ensures TitleKeys(runs, titleOf)[j] == TitleKey(titleOf(runs[j]))
    decreases |runs|
  {
    var n := |runs| - 1;
    if j < n {
      TitleKeysAt(runs[..n], titleOf, j);
    }
  }

  /** The j-th year is the j-th run's year. */
  lemma {:induction false} YearsAt(runs: seq<Run>, j: nat)
    requires j < |runs|
    ensures Years(runs)[j] == YearOf(runs[j])
    decreases |runs|
  {
    var n := |runs| - 1;
    if j < n {
      YearsAt(runs[..n], j);
    }
  }

  /** A key has a non-zero tally exactly when some run has that key. */
  lemma {:induction false} TallyPositive(runs: seq<Run>, keys: seq<Option<string>>, k: string)
    requires |keys| == |runs|
    ensures Tally(runs, keys, k).count > 0 <==> Some(k) in keys
    decreases |runs|
  {
    if runs != [] {
      var n := |runs| - 1;
      TallyPositive(runs[..n], keys[..n], k);
      assert keys == keys[..n] + [keys[n]];
    }
  }

  /**
   * A place table has an entry for exactly the places some run is counted
   * under; every such place name is longer than one character and every
   * entry counts at least one run.
   */
  lemma PlaceTableKeys(m: map<string, CityStats>, runs: seq<Run>, locate: Run -> Location, g: Grouping, k: string)
    requires Tallied(m, runs, GroupKeys(runs, locate, g))
    ensures k in m <==> exists j :: 0 <= j < |runs| && GroupKey(g, locate(runs[j])) == Some(k)
    ensures k in m ==> |k| > 1 && m[k].count >= 1
  {
    var keys := GroupKeys(runs, locate, g);
    assert k in m <==> Tally(runs, keys, k).count > 0;
    TallyPositive(runs, keys, k);
    if exists j :: 0 <= j < |runs| && GroupKey(g, locate(runs[j])) == Some(k) {
      var j :| 0 <= j < |runs| && GroupKey(g, locate(runs[j])) == Some(k);
      GroupKeysAt(runs, locate, g, j);
    }
    if k in m {
      var j :| 0 <= j < |keys| && keys[j] == Some(k);
      GroupKeysAt(runs, locate, g, j);
    }
  }

  /** Some run has the title `name`. */
  predicate SomeRunTitled(runs: seq<Run>, titleOf: Run -> string, name: string)
  {
    exists j :: 0 <= j < |runs| && titleOf(runs[j]) == name
  }

  /** `runPeriod` has an entry for exactly the non-empty titles of the runs, each counting at least one run. */
  lemma PeriodTableKeys(m: map<string, nat>, runs: seq<Run>, titleOf: Run -> string, name: string)
    requires Counted(m, runs, TitleKeys(runs, titleOf))
    ensures name in m <==> name != "" && SomeRunTitled(runs, titleOf, name)
    ensures name in m ==> m[name] >= 1
  {
    CountedKeys(m, runs, TitleKeys(runs, titleOf), name);
    TitleKeysHave(runs, titleOf, name);
  }

  /** A count table has an entry for exactly the keys some run has, each counting at least one run. */
  lemma CountedKeys(m: map<string, nat>, runs: seq<Run>, keys: seq<Option<string>>, k: string)
    requires |keys| == |runs|
    requires Counted(m, runs, keys)
    ensures k in m <==> Some(k) in keys
    ensures k in m ==> m[k] >= 1
  {
    assert k in m <==> Tally(runs, keys, k).count > 0;
    TallyPositive(runs, keys, k);
  }

  /** A title is among the keys exactly when it is non-empty and some run has it. */
  lemma TitleKeysHave(runs: seq<Run>, titleOf: Run -> string, name: string)
    ensures Some(name) in TitleKeys(runs, titleOf) <==> name != "" && SomeRunTitled(runs, titleOf, name)
  {
    var keys := TitleKeys(runs, titleOf);
    if name != "" && SomeRunTitled(runs, titleOf, name) {
      var j :| 0 <= j < |runs| && titleOf(runs[j]) == name;
      TitleKeysAt(runs, titleOf, j);
    }
    if Some(name) in keys {
      var j :| 0 <= j < |keys| && keys[j] == Some(name);
      TitleKeysAt(runs, titleOf, j);
    }
  }

  /** The total count of the keys `names`. */
  function SumCounts(runs: seq<Run>, keys: seq<Option<string>>, names: seq<string>): nat
    requires |keys| == |runs|
  {
    if names == [] then 0
    else SumCounts(runs, keys, names[..|names| - 1]) + Tally(runs, keys, names[|names| - 1]).count
  }

  /** How many of the keys `names` the key `key` is. */
  function Hits(names: seq<string>, key: Option<string>): nat
  {
    if key.Some? then multiset(names)[key.value] else 0
  }

  /** The total count over `names` grows by the number of those names the last run's key is. */
  lemma {:induction false} SumCountsSnoc(runs: seq<Run>, keys: seq<Option<string>>, names: seq<string>)
    requires |keys| == |runs| && runs != []
    ensures var n := |runs| - 1;
      SumCounts(runs, keys, names) == SumCounts(runs[..n], keys[..n], names) + Hits(names, keys[n])
    decreases |names|
  {
    if names != [] {
      var m := |names| - 1;
      SumCountsSnoc(runs, keys, names[..m]);
      assert names == names[..m] + [names[m]];
    }
  }

  lemma {:induction false} SumCountsEmpty(names: seq<string>)
    ensures SumCounts([], [], names) == 0
    decreases |names|
  {
    if names != [] {
      SumCountsEmpty(names[..|names| - 1]);
    }
  }

  /**
   * Each run is counted under at most one key, so over any list of distinct
   * keys (the keys of `cities`, of `prefectureCities` or of `runPeriod`) the
   * counts add up to at most the number of runs.
   */
  lemma {:induction false} CountsWithinRuns(runs: seq<Run>, keys: seq<Option<string>>, names: seq<string>)
    requires |keys| == |runs| && NoDuplicates(names)
    ensures SumCounts(runs, keys, names) <= |runs|
    decreases |runs|
  {
    if runs == [] {
      SumCountsEmpty(names);
    } else {
      var n := |runs| - 1;
      CountsWithinRuns(runs[..n], keys[..n], names);
      SumCountsSnoc(runs, keys, names);
      if keys[n].Some? {
        AtMostOnce(names, keys[n].value);
      }
    }
  }

  /** The total count a place table holds for the names `names` (a name it lacks counts 0). */
  function TableCount(m: map<string, CityStats>, names: seq<string>): nat
  {
    if names == [] then 0
    else TableCount(m, names[..|names| - 1]) + (if names[|names| - 1] in m then m[names[|names| - 1]].count else 0)
  }

  /** What a tallied table holds for some names is their total tally. */
  lemma {:induction false} TableCountIsSum(m: map<string, CityStats>, runs: seq<Run>, keys: seq<Option<string>>, names: seq<string>)
    requires |keys| == |runs|
    requires Tallied(m, runs, keys)
    ensures TableCount(m, names) == SumCounts(runs, keys, names)
    decreases |names|
  {
    if names != [] {
      var k := names[|names| - 1];
      TableCountIsSum(m, runs, keys, names[..|names| - 1]);
      assert (k in m <==> Tally(runs, keys, k).count > 0) && (k in m ==> m[k] == Tally(runs, keys, k));
    }
  }

  /**
   * The counts of a place table, over any list of its names without
   * repeats (all of `cities`, say), add up to at most the number of runs.
   */
  lemma TableCountWithinRuns(m: map<string, CityStats>, runs: seq<Run>, locate: Run -> Location, g: Grouping, names: seq<string>)
    requires Tallied(m, runs, GroupKeys(runs, locate, g))
    requires NoDuplicates(names)
    ensures TableCount(m, names) <= |runs|
  {
    TableCountIsSum(m, runs, GroupKeys(runs, locate, g), names);
    CountsWithinRuns(runs, GroupKeys(runs, locate, g), names);
  }

  /** Some run has the non-empty province `y`. */
  predicate SomeRunInProvince(runs: seq<Run>, locate: Run -> Location, y: string)
  {
    exists j :: 0 <= j < |runs| && locate(runs[j]).province == y && y != ""
  }

  /** Some run has a non-empty country whose standardised name is `y`. */
  predicate SomeRunInCountry(runs: seq<Run>, locate: Run -> Location, table: seq<(string, string)>, y: string)
  {
    exists j :: 0 <= j < |runs| && locate(runs[j]).country != "" && StandardizeCountryName(table, locate(runs[j]).country) == y
  }

  /** The provinces set holds each non-empty province of a run once, and nothing else. */
  lemma ProvincesSpec(runs: seq<Run>, locate: Run -> Location)
    ensures NoDuplicates(InsertionOrder(Provinces(runs, locate)))
    ensures forall y :: y in InsertionOrder(Provinces(runs, locate)) <==> SomeRunInProvince(runs, locate, y)
  {
    InsertionOrderSpec(Provinces(runs, locate));
    forall y
      ensures y in Provinces(runs, locate) <==> SomeRunInProvince(runs, locate, y)
    {
      ProvincesMember(runs, locate, y);
    }
  }

  lemma {:induction false} ProvincesMember(runs: seq<Run>, locate: Run -> Location, y: string)
    ensures y in Provinces(runs, locate) <==> SomeRunInProvince(runs, locate, y)
    decreases |runs|
  {
    if runs != [] {
      var n := |runs| - 1;
      var province := locate(runs[n]).province;
      var last := if province != "" then [province] else [];
      ProvincesMember(runs[..n], locate, y);
      assert y in Provinces(runs, locate) <==> y in Provinces(runs[..n], locate) || y in last;
      if SomeRunInProvince(runs[..n], locate, y) {
        var j :| 0 <= j < n && locate(runs[..n][j]).province == y && y != "";
        assert runs[..n][j] == runs[j];
      }
      if SomeRunInProvince(runs, locate, y) {
        var j :| 0 <= j < |runs| && locate(runs[j]).province == y && y != "";
        if j < n {
          assert runs[..n][j] == runs[j];
        }
      }
    }
  }

  /** The countries set holds the standardised name of each non-empty country of a run once, and nothing else. */
  lemma CountriesSpec(runs: seq<Run>, locate: Run -> Location, table: seq<(string, string)>)
    ensures NoDuplicates(InsertionOrder(Countries(runs, locate, table)))
    ensures forall y :: y in InsertionOrder(Countries(runs, locate, table)) <==> SomeRunInCountry(runs, locate, table, y)
  {
    InsertionOrderSpec(Countries(runs, locate, table));
    forall y
      ensures y in Countries(runs, locate, table) <==> SomeRunInCountry(runs, locate, table, y)
    {
      CountriesMember(runs, locate, table, y);
    }
  }

  lemma CountriesMember(runs: seq<Run>, locate: Run -> Location, table: seq<(string, string)>, y: string)
    ensures y in Countries(runs, locate, table) <==> SomeRunInCountry(runs, locate, table, y)
  {
    CountriesFromRuns(runs, locate, table, y);
    RunsInCountries(runs, locate, table, y);
  }

  /** Every name in the countries list comes from some run. */
  lemma {:induction false} CountriesFromRuns(runs: seq<Run>, locate: Run -> Location, table: seq<(string, string)>, y: string)
    ensures y in Countries(runs, locate, table) ==> SomeRunInCountry(runs, locate, table, y)
    decreases |runs|
  {
    if runs != [] {
      var n := |runs| - 1;
      var country := locate(runs[n]).country;
      var last := if country != "" then [StandardizeCountryName(table, country)] else [];
      CountriesFromRuns(runs[..n], locate, table, y);
      assert y in Countries(runs, locate, table) <==> y in Countries(runs[..n], locate, table) || y in last;
      if SomeRunInCountry(runs[..n], locate, table, y) {
        var j :| 0 <= j < n && locate(runs[..n][j]).country != ""
          && StandardizeCountryName(table, locate(runs[..n][j]).country) == y;
        assert runs[..n][j] == runs[j];
      }
    }
  }

  /** Every run's non-empty country, standardised, is in the countries list. */
  lemma {:induction false} RunsInCountries(runs: seq<Run>, locate: Run -> Location, table: seq<(string, string)>, y: string)
    ensures SomeRunInCountry(runs, locate, table, y) ==> y in Countries(runs, locate, table)
    decreases |runs|
  {
    if runs != [] && SomeRunInCountry(runs, locate, table, y) {
      var n := |runs| - 1;
      var country := locate(runs[n]).country;
      var last := if country != "" then [StandardizeCountryName(table, country)] else [];
      RunsInCountries(runs[..n], locate, table, y);
      assert y in Countries(runs, locate, table) <==> y in Countries(runs[..n], locate, table) || y in last;
      var j :| 0 <= j < |runs| && locate(runs[j]).country != ""
        && StandardizeCountryName(table, locate(runs[j]).country) == y;
      if j < n {
        assert runs[..n][j] == runs[j];
      }
    }
  }

  /** A year is listed exactly when it is the year of some run. */
  lemma YearsHas(runs: seq<Run>)
    ensures forall y :: y in Years(runs) <==> exists j :: 0 <= j < |runs| && YearOf(runs[j]) == y
  {
    forall y
      ensures y in Years(runs) <==> exists j :: 0 <= j < |runs| && YearOf(runs[j]) == y
    {
      if y in Years(runs) {
        var j :| 0 <= j < |runs| && Years(runs)[j] == y;
        YearsAt(runs, j);
      }
      if exists j :: 0 <= j < |runs| && YearOf(runs[j]) == y {
        var j :| 0 <= j < |runs| && YearOf(runs[j]) == y;
        YearsAt(runs, j);
      }
    }
  }

  /**
   * The year list holds each run's year once, from the latest down; it is
   * empty exactly when there are no runs, and its first element (`thisYear`)
   * is above every other year.
   */
  lemma YearsSpec(runs: seq<Run>)
    ensures var ys := Reverse(Sort(InsertionOrder(Years(runs))));
      && StrictlyDescending(ys)
      && NoDuplicates(ys)
      && (forall y :: y in ys <==> exists j :: 0 <= j < |runs| && YearOf(runs[j]) == y)
      && (ys == [] <==> runs == [])
      && (forall i :: 0 < i < |ys| ==> LexLess(ys[i], ys[0]))
  {
    var distinct := InsertionOrder(Years(runs));
    InsertionOrderSpec(Years(runs));
    SortReverseDistinct(distinct);
    YearsHas(runs);
    if runs != [] {
      assert Years(runs)[0] in distinct;
    }
  }
}
