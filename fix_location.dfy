/**
 * The location repair workflow of run_page/fix_location.py: extracting a
 * coordinate from a route polyline, deciding and applying the fix for one
 * activity, and the batch driver that selects candidates, counts fixes,
 * commits each one and paces the geocoding service.
 *
 * The polyline decoder and the geocoding service are parameters; the
 * database session is a log of the `add` and `commit` calls made on it.
 */
module FixLocation {
  import opened Wrappers
  import opened Text
  import opened Geocoding

  /** `polyline.decode`: the decoded points, or None when it raises. */
  type Decoder = string -> Option<seq<Point>>

  /** Python truthiness of an optional string: present and non-empty. */
  predicate Truthy(s: Option<string>)
  {
    s.Some? && s.value != ""
  }

  /**
   * `get_coordinates_from_polyline`: the first point of the decoded route,
   * or None for an empty or absent polyline, a decoding failure, or a route
   * with no points.
   */
  function CoordinatesFromPolyline(decode: Decoder, polyline: Option<string>): (r: Option<Point>)
    ensures !Truthy(polyline) ==> r == None
    ensures Truthy(polyline) && decode(polyline.value) == None ==> r == None
    ensures Truthy(polyline) && decode(polyline.value) == Some([]) ==> r == None
    ensures Truthy(polyline) && decode(polyline.value).Some? && decode(polyline.value).value != []
      ==> r == Some(decode(polyline.value).value[0])
  {
    if !Truthy(polyline) then None
    else match decode(polyline.value)
      case None => None
      case Some(points) => if points != [] then Some(points[0]) else None
  }

  /** The columns of an activity row the repair reads or writes. */
  datatype Record = Record(runId: int, country: Option<string>, polyline: Option<string>)

  /** An activity row, as the ORM hands it out: its fields are updated in place. */
  class Activity {
    var runId: int
    var locationCountry: Option<string>
    var summaryPolyline: Option<string>

    function Value(): Record
      reads this
    {
      Record(runId, locationCountry, summaryPolyline)
    }

    constructor (runId: int, country: Option<string>, polyline: Option<string>)
      ensures Value() == Record(runId, country, polyline)
    {
      this.runId := runId;
      this.locationCountry := country;
      this.summaryPolyline := polyline;
    }
  }

  /** What the repair asks of the database session. */
  datatype Op = Added(runId: int) | Committed

  /** The database session, as the log of `add` and `commit` calls made on it. */
  class Session {
    var log: seq<Op>

    constructor ()
      ensures log == []
    {
      log := [];
    }

    /** `session.add`: mark a changed activity for persistence. */
    method Add(a: Activity)
      modifies this
      ensures log == old(log) + [Added(a.runId)]
    {
      log := log + [Added(a.runId)];
    }

    /** `session.commit`. */
    method Commit()
      modifies this
      ensures log == old(log) + [Committed]
    {
      log := log + [Committed];
    }
  }

  /** The two reasons an activity needs a fix; they only change the diagnostic text. */
  datatype Reason = GenericCountry | MissingCountry

  /**
   * The check at the top of `fix_location_for_activity`: the country is the
   * placeholder "China", or it is missing or empty while a non-empty polyline
   * is present.
   */
  function NeedsFix(rec: Record): (r: Option<Reason>)
    ensures r.Some? <==> rec.country == Some("China") || (!Truthy(rec.country) && Truthy(rec.polyline))
    ensures r == Some(GenericCountry) <==> rec.country == Some("China")
  {
    if rec.country == Some("China") then Some(GenericCountry)
    else if !Truthy(rec.country) && Truthy(rec.polyline) then Some(MissingCountry)
    else None
  }

  /** The validation of a geocoded place: it is neither "China" nor contains it. */
  predicate IsSpecific(place: string)
  {
    place != "China" && !Contains(place, "China")
  }

  /** The equality test in the validation adds nothing to the substring test. */
  lemma IsSpecificIff(place: string)
    ensures IsSpecific(place) <==> !Contains(place, "China")
  {
    if place == "China" {
      assert place[..5] == "China";
    }
  }

  /** A string without the letter 'C' does not contain "China". */
  lemma {:induction false} NoCapitalCNoChina(s: string)
    requires forall k :: 0 <= k < |s| ==> s[k] != 'C'
    ensures !Contains(s, "China")
  {
    ContainsIff(s, "China");
    if exists i: nat :: OccursAt(s, "China", i) {
      var i: nat :| OccursAt(s, "China", i);
      assert s[i..i + 5][0] == 'C';
    }
  }

  /** How the decision for one activity ends. */
  datatype FixOutcome =
    | NotEligible            // neither reason applies
    | NoCoordinates          // no point could be extracted from the polyline
    | GeocodeFailed          // the geocoding client returned nothing (or an empty string)
    | StillGeneric(place: string)  // the place found still mentions "China"
    | Resolved(place: string)      // a specific place was found

  /** The decision of `fix_location_for_activity`, without its effects. */
  function Decide(rec: Record, decode: Decoder, geocoder: Geocoder): (r: FixOutcome)
    ensures r.NotEligible? <==> NeedsFix(rec).None?
    ensures r.Resolved? || r.StillGeneric? ==> r.place != ""
  {
    if NeedsFix(rec).None? then NotEligible
    else match CoordinatesFromPolyline(decode, rec.polyline)
      case None => NoCoordinates
      case Some(p) =>
        var found := Retry(geocoder, p, MaxRetries, 0).place;
        if !Truthy(found) then GeocodeFailed
        else if IsSpecific(found.value) then Resolved(found.value)
        else StillGeneric(found.value)
  }

  /**
   * The decision follows the steps of `fix_location_for_activity`: not
   * eligible exactly when neither reason applies; no coordinates exactly when
   * an eligible record's polyline yields no point; once a point is found,
   * the geocoding fails exactly when no non-empty place comes back, and a
   * non-empty place is accepted when it does not mention "China" and
   * rejected as still generic when it does.
   */
  lemma DecideSpec(rec: Record, decode: Decoder, geocoder: Geocoder)
    ensures var r := Decide(rec, decode, geocoder);
      && (r.NotEligible? <==> NeedsFix(rec).None?)
      && (r.NoCoordinates? <==> NeedsFix(rec).Some? && CoordinatesFromPolyline(decode, rec.polyline).None?)
      && (r.Resolved? || r.StillGeneric? ==>
            && CoordinatesFromPolyline(decode, rec.polyline).Some?
            && Retry(geocoder, CoordinatesFromPolyline(decode, rec.polyline).value, MaxRetries, 0).place == Some(r.place)
            && r.place != "")
      && (r.Resolved? ==> !Contains(r.place, "China"))
      && (r.StillGeneric? ==> Contains(r.place, "China"))
      && (NeedsFix(rec).Some? && CoordinatesFromPolyline(decode, rec.polyline).Some? ==>
            var found := Retry(geocoder, CoordinatesFromPolyline(decode, rec.polyline).value, MaxRetries, 0).place;
            && (r.GeocodeFailed? <==> !Truthy(found))
            && (Truthy(found) ==> r == if IsSpecific(found.value) then Resolved(found.value) else StillGeneric(found.value)))
  {
    var r := Decide(rec, decode, geocoder);
    if r.StillGeneric? {
      IsSpecificIff(r.place);
    }
  }

  /** The decision, what `fix_location_for_activity` returns, and the record afterwards. */
  datatype FixResult = FixResult(outcome: FixOutcome, reported: bool, after: Record)

  /**
   * `fix_location_for_activity` on the values: a fix is reported for a
   * specific place, and in dry-run mode also when no place was obtained at
   * all; only an applied specific place changes the record, and only its
   * country.
   */
  function Fix(rec: Record, dryRun: bool, decode: Decoder, geocoder: Geocoder): (r: FixResult)
    ensures r.after.runId == rec.runId && r.after.polyline == rec.polyline
    ensures dryRun || !r.outcome.Resolved? ==> r.after == rec
  {
    var outcome := Decide(rec, decode, geocoder);
    var reported := match outcome
      case Resolved(_) => true
      case NoCoordinates | GeocodeFailed => dryRun
      case _ => false;
    var after := if outcome.Resolved? && !dryRun then rec.(country := Some(outcome.place)) else rec;
    FixResult(outcome, reported, after)
  }

  /**
   * What `fix_location_for_activity` promises: an ineligible record is left
   * alone and reported unfixed; only the country ever changes, never in
   * dry-run mode, and only to a place without "China"; in apply mode a fix is
   * reported exactly when the record changed; in dry-run mode a record for
   * which no place was obtained is reported fixed, in apply mode it is not;
   * a still-generic place is never reported fixed; a specific place is
   * always reported fixed and, in apply mode, becomes the country.
   */
  lemma FixSpec(rec: Record, dryRun: bool, decode: Decoder, geocoder: Geocoder)
    ensures var r := Fix(rec, dryRun, decode, geocoder);
      && (r.outcome == Decide(rec, decode, geocoder))
      && (NeedsFix(rec).None? ==> !r.reported && r.after == rec)
      && (r.after.runId == rec.runId && r.after.polyline == rec.polyline)
      && (dryRun ==> r.after == rec)
      && (r.after != rec ==> r.reported && r.after.country.Some? && !Contains(r.after.country.value, "China"))
      && (!dryRun ==> (r.reported <==> r.after != rec))
      && (r.outcome.NoCoordinates? || r.outcome.GeocodeFailed? ==> r.reported == dryRun)
      && (r.outcome.StillGeneric? ==> !r.reported)
      && (r.outcome.Resolved? ==> r.reported && (!dryRun ==> r.after == rec.(country := Some(r.outcome.place))))
  {
    DecideSpec(rec, decode, geocoder);
  }

  /**
   * A flagged record whose route starts at `p`, where the geocoding client
   * returns a non-empty place without "China": the fix is reported in both
   * modes, and in apply mode the place becomes the record's country while
   * nothing else changes.
   */
  lemma FixAppliesSpecificPlace(rec: Record, dryRun: bool, decode: Decoder, geocoder: Geocoder, p: Point, place: string)
    requires NeedsFix(rec).Some?
    requires CoordinatesFromPolyline(decode, rec.polyline) == Some(p)
    requires Retry(geocoder, p, MaxRetries, 0).place == Some(place)
    requires place != "" && !Contains(place, "China")
    ensures var r := Fix(rec, dryRun, decode, geocoder);
      && r.outcome == Resolved(place)
      && r.reported
      && r.after == if dryRun then rec else rec.(country := Some(place))
  {
    IsSpecificIff(place);
  }

  /**
   * `fix_location_for_activity`: decide, and unless in dry-run mode write a
   * specific place into the activity and add it to the session.
   */
  method FixLocationForActivity(session: Session, activity: Activity, dryRun: bool, decode: Decoder, geocoder: Geocoder)
    returns (fixed: bool)
    modifies session, activity
    ensures var f := Fix(old(activity.Value()), dryRun, decode, geocoder);
      && fixed == f.reported
      && activity.Value() == f.after
      && session.log == old(session.log) + (if f.outcome.Resolved? && !dryRun then [Added(activity.runId)] else [])
  {
    var needsFix := false;
    var newLocation: Option<string> := None;
    if activity.locationCountry == Some("China") {
      needsFix := true;
    } else if !Truthy(activity.locationCountry) && Truthy(activity.summaryPolyline) {
      needsFix := true;
    }
    if !needsFix {
      return false;
    }
    var coords := CoordinatesFromPolyline(decode, activity.summaryPolyline);
    if coords.Some? {
      var lookups, waits;
      newLocation, lookups, waits := ReverseGeocode(geocoder, coords.value, MaxRetries);
      if Truthy(newLocation) {
        if newLocation.value != "China" && !Contains(newLocation.value, "China") {
          if !dryRun {
            activity.locationCountry := newLocation;
            session.Add(activity);
          }
          return true;
        }
      }
    }
    if dryRun && !Truthy(newLocation) {
      return true;
    }
    return false;
  }

  /** The database query's filter: country is "China", or country is NULL and polyline is not NULL. */
  predicate QueryEligible(rec: Record)
    ensures QueryEligible(rec) && Truthy(rec.polyline) ==> NeedsFix(rec).Some?
  {
    rec.country == Some("China") || (rec.country.None? && rec.polyline.Some?)
  }

  /**
   * The query's filter and the per-activity check disagree on empty strings:
   * an empty polyline is selected but then skipped, and an empty country
   * would pass the check but is never selected.
   */
  lemma QueryVersusRecheck(rec: Record)
    ensures QueryEligible(rec) && NeedsFix(rec).None? <==> rec.country == None && rec.polyline == Some("")
    ensures !QueryEligible(rec) && NeedsFix(rec).Some? <==> rec.country == Some("") && Truthy(rec.polyline)
  {
  }

  predicate Increasing(xs: seq<nat>)
  {
    forall k, l :: 0 <= k < l < |xs| ==> xs[k] < xs[l]
  }

  /** The positions of the rows the query's filter selects, in storage order. */
  function EligibleIndices(recs: seq<Record>): (r: seq<nat>)
    ensures forall k :: 0 <= k < |r| ==> r[k] < |recs|
  {
    if recs == [] then []
    else
      var n := |recs| - 1;
      EligibleIndices(recs[..n]) + (if QueryEligible(recs[n]) then [n] else [])
  }

  /**
   * The filter selects exactly the rows that satisfy it, each once, in
   * storage order.
   */
  lemma {:induction false} EligibleIndicesExact(recs: seq<Record>)
    ensures var r := EligibleIndices(recs);
      && (forall k :: 0 <= k < |r| ==> QueryEligible(recs[r[k]]))
      && (forall j :: 0 <= j < |recs| && QueryEligible(recs[j]) ==> j in r)
      && Increasing(r)
  {
    if recs != [] {
      var n := |recs| - 1;
      var prev := EligibleIndices(recs[..n]);
      EligibleIndicesExact(recs[..n]);
      assert forall k :: 0 <= k < |prev| ==> recs[..n][prev[k]] == recs[prev[k]];
      forall j | 0 <= j < n && QueryEligible(recs[j])
        ensures j in prev
      {
        assert recs[..n][j] == recs[j];
      }
    }
  }

  /** SQL `LIMIT n` as SQLite applies it: at most n rows, and no bound for a negative n. */
  function TakeLimit(xs: seq<nat>, n: int): (r: seq<nat>)
    ensures r <= xs
    ensures n >= 0 ==> |r| == if n < |xs| then n else |xs|
    ensures n < 0 ==> r == xs
  {
    if 0 <= n < |xs| then xs[..n] else xs
  }

  /**
   * The candidates `fix_locations` processes: the eligible rows in storage
   * order, capped at `limit` only when the limit is truthy.
   */
  function Selected(recs: seq<Record>, limit: Option<int>): (r: seq<nat>)
    ensures forall k :: 0 <= k < |r| ==> r[k] < |recs|
    ensures r <= EligibleIndices(recs)
  {
    var eligible := EligibleIndices(recs);
    if limit.Some? && limit.value != 0 then TakeLimit(eligible, limit.value) else eligible
  }

  /**
   * Every candidate satisfies the filter and candidates come in storage
   * order; they are the first eligible rows; a limit of None or 0 caps
   * nothing, and a positive limit caps the count at that limit.
   */
  lemma SelectedSpec(recs: seq<Record>, limit: Option<int>)
    ensures var r := Selected(recs, limit);
      && r <= EligibleIndices(recs)
      && (forall k :: 0 <= k < |r| ==> QueryEligible(recs[r[k]]))
      && Increasing(r)
      && (limit == None || limit == Some(0) ==> r == EligibleIndices(recs))
      && (limit.Some? && limit.value > 0 ==>
            |r| == if limit.value < |EligibleIndices(recs)| then limit.value else |EligibleIndices(recs)|)
  {
    EligibleIndicesExact(recs);
  }

  /** What one processed activity adds to the session log: its `add`, then its commit. */
  function RecordLog(f: FixResult, dryRun: bool, runId: int): seq<Op>
  {
    (if f.outcome.Resolved? && !dryRun then [Added(runId)] else [])
      + (if f.reported && !dryRun then [Committed] else [])
  }

  /** The batch so far: fixes counted, the rows as they now stand, the session log. */
  datatype Batch = Batch(fixed: nat, after: seq<Record>, log: seq<Op>)

  /** The loop of `fix_locations` over the candidate positions `picked`, each seeing its row as it stands. */
  function RunBatch(recs: seq<Record>, picked: seq<nat>, dryRun: bool, decode: Decoder, geocoder: Geocoder): (b: Batch)
    requires forall k :: 0 <= k < |picked| ==> picked[k] < |recs|
    ensures |b.after| == |recs|
    ensures b.fixed <= |picked|
    decreases |picked|
  {
    if picked == [] then Batch(0, recs, [])
    else
      var prev := RunBatch(recs, picked[..|picked| - 1], dryRun, decode, geocoder);
      var j := picked[|picked| - 1];
      var f := Fix(prev.after[j], dryRun, decode, geocoder);
      Batch(prev.fixed + (if f.reported then 1 else 0),
            prev.after[j := f.after],
            prev.log + RecordLog(f, dryRun, prev.after[j].runId))
  }

  /** One more candidate processed: the step `RunBatch` takes for the last of `picked[..i]`. */
  lemma RunBatchStep(recs: seq<Record>, picked: seq<nat>, i: nat, dryRun: bool, decode: Decoder, geocoder: Geocoder)
    requires 1 <= i <= |picked|
    requires forall k :: 0 <= k < |picked| ==> picked[k] < |recs|
    ensures var prev := RunBatch(recs, picked[..i - 1], dryRun, decode, geocoder);
      var j := picked[i - 1];
      var f := Fix(prev.after[j], dryRun, decode, geocoder);
      RunBatch(recs, picked[..i], dryRun, decode, geocoder)
        == Batch(prev.fixed + (if f.reported then 1 else 0),
                 prev.after[j := f.after],
                 prev.log + RecordLog(f, dryRun, prev.after[j].runId))
  {
    assert picked[..i][..i - 1] == picked[..i - 1];
  }

  /** The number of `commit` calls in a session log. */
  function Commits(log: seq<Op>): nat
  {
    if log == [] then 0 else Commits(log[..|log| - 1]) + (if log[|log| - 1].Committed? then 1 else 0)
  }

  /** The number of `add` calls in a session log. */
  function Adds(log: seq<Op>): nat
  {
    if log == [] then 0 else Adds(log[..|log| - 1]) + (if log[|log| - 1].Added? then 1 else 0)
  }

  lemma {:induction false} CountsAppend(a: seq<Op>, b: seq<Op>)
    ensures Commits(a + b) == Commits(a) + Commits(b)
    ensures Adds(a + b) == Adds(a) + Adds(b)
    decreases |b|
  {
    if b == [] {
      assert a + b == a;
    } else {
      var n := |b| - 1;
      assert (a + b)[..|a + b| - 1] == a + b[..n];
      assert (a + b)[|a + b| - 1] == b[n];
      CountsAppend(a, b[..n]);
    }
  }

  /** The number of rows whose record differs between `recs` and `after`. */
  function Changed(recs: seq<Record>, after: seq<Record>): nat
    requires |after| == |recs|
  {
    if recs == [] then 0
    else
      var n := |recs| - 1;
      Changed(recs[..n], after[..n]) + (if after[n] != recs[n] then 1 else 0)
  }

  /** Writing `x` into a row that was still as it started changes the count by whether `x` differs. */
  lemma {:induction false} ChangedUpdate(recs: seq<Record>, after: seq<Record>, j: nat, x: Record)
    requires |after| == |recs| && j < |recs| && after[j] == recs[j]
    ensures Changed(recs, after[j := x]) == Changed(recs, after) + (if x != recs[j] then 1 else 0)
    decreases |recs|
  {
    var n := |recs| - 1;
    if j < n {
      assert after[j := x][..n] == after[..n][j := x];
      ChangedUpdate(recs[..n], after[..n], j, x);
    } else {
      assert after[j := x][..n] == after[..n];
    }
  }

  /** The dry-run fix count the reporting rule prescribes: the candidates for which no place was obtained or a specific one was. */
  function WouldFix(recs: seq<Record>, picked: seq<nat>, decode: Decoder, geocoder: Geocoder): nat
    requires forall k :: 0 <= k < |picked| ==> picked[k] < |recs|
  {
    if picked == [] then 0
    else
      var o := Decide(recs[picked[|picked| - 1]], decode, geocoder);
      WouldFix(recs, picked[..|picked| - 1], decode, geocoder)
        + (if o.Resolved? || o.NoCoordinates? || o.GeocodeFailed? then 1 else 0)
  }

  /**
   * In dry-run mode the batch leaves every record as it was, makes no `add`
   * or `commit` call, and counts the candidates for which no place was
   * obtained or a specific one was.
   */
  lemma {:induction false} DryRunBatch(recs: seq<Record>, picked: seq<nat>, decode: Decoder, geocoder: Geocoder)
    requires forall k :: 0 <= k < |picked| ==> picked[k] < |recs|
    ensures var b := RunBatch(recs, picked, true, decode, geocoder);
      b.after == recs && b.log == [] && b.fixed == WouldFix(recs, picked, decode, geocoder)
    decreases |picked|
  {
    if picked != [] {
      var n := |picked| - 1;
      DryRunBatch(recs, picked[..n], decode, geocoder);
      FixSpec(recs[picked[n]], true, decode, geocoder);
    }
  }

  /** Rows the batch does not visit keep their records. */
  lemma {:induction false} BatchUntouched(recs: seq<Record>, picked: seq<nat>, dryRun: bool, decode: Decoder, geocoder: Geocoder)
    requires forall k :: 0 <= k < |picked| ==> picked[k] < |recs|
    ensures var b := RunBatch(recs, picked, dryRun, decode, geocoder);
      forall j :: 0 <= j < |recs| && j !in picked ==> b.after[j] == recs[j]
    decreases |picked|
  {
    if picked != [] {
      var n := |picked| - 1;
      BatchUntouched(recs, picked[..n], dryRun, decode, geocoder);
      assert picked == picked[..n] + [picked[n]];
    }
  }

  /**
   * A record the batch changed keeps its id and polyline and now holds a
   * non-empty place without "China": the query's filter no longer selects
   * it and the per-activity check no longer flags it, so a second run leaves
   * it alone.
   */
  lemma {:induction false} BatchFixesStick(recs: seq<Record>, picked: seq<nat>, dryRun: bool, decode: Decoder, geocoder: Geocoder)
    requires forall k :: 0 <= k < |picked| ==> picked[k] < |recs|
    ensures var b := RunBatch(recs, picked, dryRun, decode, geocoder);
      forall j :: 0 <= j < |recs| && b.after[j] != recs[j] ==>
        && b.after[j].runId == recs[j].runId
        && b.after[j].polyline == recs[j].polyline
        && b.after[j].country.Some?
        && !Contains(b.after[j].country.value, "China")
        && !QueryEligible(b.after[j])
        && NeedsFix(b.after[j]).None?
    decreases |picked|
  {
    if picked != [] {
      var n := |picked| - 1;
      var prev := RunBatch(recs, picked[..n], dryRun, decode, geocoder);
      var j := picked[n];
      BatchFixesStick(recs, picked[..n], dryRun, decode, geocoder);
      FixSpec(prev.after[j], dryRun, decode, geocoder);
      var f := Fix(prev.after[j], dryRun, decode, geocoder);
      if f.after != prev.after[j] {
        IsSpecificIff(f.after.country.value);
      }
    }
  }

  /** In apply mode one visit logs an `add` and a `commit` exactly when it reports a fix, which is exactly when it changes the record. */
  lemma ApplyStep(rec: Record, decode: Decoder, geocoder: Geocoder)
    ensures var f := Fix(rec, false, decode, geocoder);
      var entries := RecordLog(f, false, rec.runId);
      && Commits(entries) == (if f.reported then 1 else 0)
      && Adds(entries) == (if f.reported then 1 else 0)
      && (f.reported <==> f.after != rec)
  {
    var f := Fix(rec, false, decode, geocoder);
    FixSpec(rec, false, decode, geocoder);
    if f.reported {
      assert f.outcome.Resolved?;
      assert RecordLog(f, false, rec.runId) == [Added(rec.runId)] + [Committed];
      assert [Added(rec.runId)] + [Committed] == [Added(rec.runId), Committed];
      assert [Added(rec.runId), Committed][..1] == [Added(rec.runId)];
      assert [Added(rec.runId)][..0] == [];
      assert Commits([Added(rec.runId)]) == 0 && Adds([Added(rec.runId)]) == 1;
    } else {
      assert RecordLog(f, false, rec.runId) == [];
    }
  }

  /**
   * In apply mode every fix is one `add` and one `commit`, and, when no row
   * is visited twice, the fix count is the number of records changed.
   */
  lemma {:induction false} ApplyBatch(recs: seq<Record>, picked: seq<nat>, decode: Decoder, geocoder: Geocoder)
    requires forall k :: 0 <= k < |picked| ==> picked[k] < |recs|
    requires Increasing(picked)
    ensures var b := RunBatch(recs, picked, false, decode, geocoder);
      && Commits(b.log) == b.fixed
      && Adds(b.log) == b.fixed
      && b.fixed == Changed(recs, b.after)
    decreases |picked|
  {
    if picked == [] {
      ChangedNone(recs);
    } else {
      var n := |picked| - 1;
      var prev := RunBatch(recs, picked[..n], false, decode, geocoder);
      var j := picked[n];
      var f := Fix(prev.after[j], false, decode, geocoder);
      var entries := RecordLog(f, false, prev.after[j].runId);
      assert RunBatch(recs, picked, false, decode, geocoder)
        == Batch(prev.fixed + (if f.reported then 1 else 0), prev.after[j := f.after], prev.log + entries);
      ApplyBatch(recs, picked[..n], decode, geocoder);
      BatchUntouched(recs, picked[..n], false, decode, geocoder);
      assert forall k :: 0 <= k < n ==> picked[..n][k] < j;
      ApplyStep(prev.after[j], decode, geocoder);
      CountsAppend(prev.log, entries);
      ChangedUpdate(recs, prev.after, j, f.after);
    }
  }

  lemma {:induction false} ChangedNone(recs: seq<Record>)
    ensures Changed(recs, recs) == 0
    decreases |recs|
  {
    if recs != [] {
      ChangedNone(recs[..|recs| - 1]);
    }
  }

  /**
   * What a run of `fix_locations` over the table `recs` amounts to: at most
   * `limit` candidates when the limit is positive; a dry run changes no
   * record, makes no `add` or `commit` call and counts the candidates for
   * which no place was obtained or a specific one was; an applied run makes
   * one `add` and one `commit` per fix and fixes exactly the records it
   * changes; rows that were not candidates keep their records; and no
   * changed record would be selected or flagged again.
   */
  lemma BatchSummary(recs: seq<Record>, limit: Option<int>, dryRun: bool, decode: Decoder, geocoder: Geocoder)
    ensures var picked := Selected(recs, limit);
      var b := RunBatch(recs, picked, dryRun, decode, geocoder);
      && b.fixed <= |picked|
      && (limit.Some? && limit.value > 0 ==> |picked| <= limit.value)
      && (dryRun ==> b.after == recs && b.log == [] && b.fixed == WouldFix(recs, picked, decode, geocoder))
      && (!dryRun ==> Commits(b.log) == b.fixed && Adds(b.log) == b.fixed && b.fixed == Changed(recs, b.after))
      && (forall j :: 0 <= j < |recs| && j !in picked ==> b.after[j] == recs[j])
      && (forall j :: 0 <= j < |recs| && b.after[j] != recs[j] ==> !QueryEligible(b.after[j]) && NeedsFix(b.after[j]).None?)
  {
    var picked := Selected(recs, limit);
    SelectedSpec(recs, limit);
    if dryRun {
      DryRunBatch(recs, picked, decode, geocoder);
    } else {
      ApplyBatch(recs, picked, decode, geocoder);
    }
    BatchUntouched(recs, picked, dryRun, decode, geocoder);
    BatchFixesStick(recs, picked, dryRun, decode, geocoder);
  }

  /** The validation rejects "China" and "China, Some Province" and accepts "Japan, Tokyo". */
  lemma ValidationExamples()
    ensures !IsSpecific("China")
    ensures !IsSpecific("China, Some Province")
    ensures IsSpecific("Japan, Tokyo")
  {
    assert "China, Some Province"[..5] == "China";
    NoCapitalCNoChina("Japan, Tokyo");
  }

  /**
   * Scenario: a record stuck at "China" whose route starts at `p`, and a
   * geocoding service that answers "Japan, Tokyo": applied, the record now
   * holds "Japan, Tokyo" and one fix is reported.
   */
  lemma ScenarioGenericToSpecific(rec: Record, decode: Decoder, geocoder: Geocoder, p: Point, route: seq<Point>)
    requires rec.country == Some("China") && rec.polyline.Some? && rec.polyline.value != ""
    requires decode(rec.polyline.value) == Some([p] + route)
    requires geocoder(p, 0) == Found("Japan, Tokyo")
    ensures Fix(rec, false, decode, geocoder) == FixResult(Resolved("Japan, Tokyo"), true, rec.(country := Some("Japan, Tokyo")))
  {
    assert CoordinatesFromPolyline(decode, rec.polyline) == Some(p);
    RetryStop(geocoder, p, MaxRetries, 0);
    assert !Contains("Japan, Tokyo", "China") by {
      NoCapitalCNoChina("Japan, Tokyo");
    }
    FixAppliesSpecificPlace(rec, false, decode, geocoder, p, "Japan, Tokyo");
  }

  /** Scenario: a record with neither country nor polyline is neither selected nor flagged. */
  lemma ScenarioNothingToGoOn(rec: Record, dryRun: bool, decode: Decoder, geocoder: Geocoder)
    requires rec.country == None && rec.polyline == None
    ensures !QueryEligible(rec)
    ensures Fix(rec, dryRun, decode, geocoder) == FixResult(NotEligible, false, rec)
  {
  }

  /**
   * Scenario: the service keeps answering "China": the record is left as it
   * was and no fix is reported, in either mode.
   */
  lemma ScenarioStillGeneric(rec: Record, dryRun: bool, decode: Decoder, geocoder: Geocoder, p: Point, route: seq<Point>)
    requires rec.country == Some("China") && rec.polyline.Some? && rec.polyline.value != ""
    requires decode(rec.polyline.value) == Some([p] + route)
    requires forall k: nat :: k < MaxRetries ==> geocoder(p, k) == Found("China")
    ensures Fix(rec, dryRun, decode, geocoder) == FixResult(StillGeneric("China"), false, rec)
  {
    assert "China"[..5] == "China";
  }

  /**
   * Scenario: two timeouts and then "Vietnam, Hanoi": the record is updated,
   * after waits of 1 s and 2 s.
   */
  lemma ScenarioTimeoutsThenPlace(rec: Record, decode: Decoder, geocoder: Geocoder, p: Point, route: seq<Point>)
    requires rec.country == Some("China") && rec.polyline.Some? && rec.polyline.value != ""
    requires decode(rec.polyline.value) == Some([p] + route)
    requires geocoder(p, 0) == Retryable && geocoder(p, 1) == Retryable && geocoder(p, 2) == Found("Vietnam, Hanoi")
    ensures Retry(geocoder, p, MaxRetries, 0).waits == [1, 2]
    ensures Fix(rec, false, decode, geocoder) == FixResult(Resolved("Vietnam, Hanoi"), true, rec.(country := Some("Vietnam, Hanoi")))
  {
    assert CoordinatesFromPolyline(decode, rec.polyline) == Some(p);
    TimeoutsThenFound(geocoder, p, "Vietnam, Hanoi");
    assert !Contains("Vietnam, Hanoi", "China") by {
      NoCapitalCNoChina("Vietnam, Hanoi");
    }
    FixAppliesSpecificPlace(rec, false, decode, geocoder, p, "Vietnam, Hanoi");
  }

  /** The rows of the table as values. */
  function Snapshot(rows: seq<Activity>): (r: seq<Record>)
    reads rows
    ensures |r| == |rows|
  {
    if rows == [] then [] else Snapshot(rows[..|rows| - 1]) + [rows[|rows| - 1].Value()]
  }

  lemma {:induction false} SnapshotAt(rows: seq<Activity>, j: nat)
    requires j < |rows|
    ensures Snapshot(rows)[j] == rows[j].Value()
    decreases |rows|
  {
    var n := |rows| - 1;
    if j < n {
      SnapshotAt(rows[..n], j);
    }
  }

  /** The snapshot is the list of the rows' values. */
  lemma {:induction false} SnapshotIs(rows: seq<Activity>, values: seq<Record>)
    requires |values| == |rows|
    requires forall m :: 0 <= m < |rows| ==> rows[m].Value() == values[m]
    ensures Snapshot(rows) == values
    decreases |rows|
  {
    if rows != [] {
      var n := |rows| - 1;
      SnapshotIs(rows[..n], values[..n]);
      assert values == values[..n] + [values[n]];
    }
  }

  /**
   * The body of the loop in `fix_locations` for one activity: run the
   * per-activity fix, and commit when it reports a fix outside dry-run mode.
   */
  method FixAndCommit(session: Session, activity: Activity, dryRun: bool, decode: Decoder, geocoder: Geocoder)
    returns (fixed: bool)
    modifies session, activity
    ensures var f := Fix(old(activity.Value()), dryRun, decode, geocoder);
      && fixed == f.reported
      && activity.Value() == f.after
      && session.log == old(session.log) + RecordLog(f, dryRun, old(activity.runId))
  {
    fixed := FixLocationForActivity(session, activity, dryRun, decode, geocoder);
    FixSpec(old(activity.Value()), dryRun, decode, geocoder);
    if fixed && !dryRun {
      session.Commit();
    }
  }

  lemma AppendAssoc(a: seq<Op>, b: seq<Op>, c: seq<Op>)
    ensures a + b + c == a + (b + c)
  {
  }

  /** One pass of the loop in `fix_locations`: fix and commit the activity in row `j`. */
  method VisitRow(session: Session, rows: seq<Activity>, j: nat, dryRun: bool, decode: Decoder, geocoder: Geocoder)
    returns (fixed: bool)
    requires j < |rows|
    requires forall i, k :: 0 <= i < k < |rows| ==> rows[i] != rows[k]
    modifies session, rows[j]
    ensures var f := Fix(old(Snapshot(rows))[j], dryRun, decode, geocoder);
      && fixed == f.reported
      && Snapshot(rows) == old(Snapshot(rows))[j := f.after]
      && session.log == old(session.log) + RecordLog(f, dryRun, old(Snapshot(rows))[j].runId)
  {
    var activity := rows[j];
    ghost var before := Snapshot(rows);
    forall m | 0 <= m < |rows|
      ensures rows[m].Value() == before[m]
    {
      SnapshotAt(rows, m);
    }
    fixed := FixAndCommit(session, activity, dryRun, decode, geocoder);
    ghost var f := Fix(before[j], dryRun, decode, geocoder);
    forall m | 0 <= m < |rows|
      ensures rows[m].Value() == before[j := f.after][m]
    {
      if m != j {
        assert rows[m] != activity;
      }
    }
    SnapshotIs(rows, before[j := f.after]);
  }

  /**
   * `fix_locations`: select the candidates, run the per-activity fix on each
   * in turn, commit after each reported fix outside dry-run mode, and pause
   * between consecutive candidates. Returns the fix count, the number of
   * candidates and the number of one-second pauses.
   */
  method FixLocations(session: Session, rows: seq<Activity>, dryRun: bool, limit: Option<int>, decode: Decoder, geocoder: Geocoder)
    returns (fixedCount: nat, totalChecked: nat, pauses: nat)
    requires forall i, j :: 0 <= i < j < |rows| ==> rows[i] != rows[j]
    modifies session, rows
    ensures var picked := Selected(old(Snapshot(rows)), limit);
      var b := RunBatch(old(Snapshot(rows)), picked, dryRun, decode, geocoder);
      && totalChecked == |picked|
      && fixedCount == b.fixed
      && Snapshot(rows) == b.after
      && session.log == old(session.log) + b.log
    ensures fixedCount <= totalChecked
    ensures pauses == if totalChecked == 0 then 0 else totalChecked - 1
  {
    ghost var before := Snapshot(rows);
    ghost var start := session.log;
    var picked := Selected(Snapshot(rows), limit);
    totalChecked := |picked|;
    fixedCount, pauses := 0, 0;
    for i := 1 to totalChecked + 1
      invariant fixedCount == RunBatch(before, picked[..i - 1], dryRun, decode, geocoder).fixed
      invariant Snapshot(rows) == RunBatch(before, picked[..i - 1], dryRun, decode, geocoder).after
      invariant session.log == start + RunBatch(before, picked[..i - 1], dryRun, decode, geocoder).log
      invariant pauses == if i > totalChecked && i > 1 then i - 2 else i - 1
    {
      ghost var prev := RunBatch(before, picked[..i - 1], dryRun, decode, geocoder);
      var j := picked[i - 1];
      RunBatchStep(before, picked, i, dryRun, decode, geocoder);
      var fixed := VisitRow(session, rows, j, dryRun, decode, geocoder);
      AppendAssoc(start, prev.log, RecordLog(Fix(prev.after[j], dryRun, decode, geocoder), dryRun, prev.after[j].runId));
      if fixed {
        fixedCount := fixedCount + 1;
      }
      if i < totalChecked {
        pauses := pauses + 1;
      }
    }
    assert picked[..totalChecked] == picked;
  }
}
