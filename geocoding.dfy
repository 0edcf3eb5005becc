/**
 * The geocoding client of the location repair script: a reverse-geocoding
 * lookup wrapped in a bounded retry loop with exponential backoff
 * (`reverse_geocode` in run_page/fix_location.py).
 *
 * The geocoding service is an oracle: the answer to the lookup of a point on
 * a given attempt. Sleeping is recorded as a list of waits in seconds.
 */
module Geocoding {
  import opened Wrappers

  /** A coordinate pair, in fixed units; no arithmetic is done on it. */
  datatype Point = Point(lat: int, lon: int)

  /** What one call to the geocoding service does. */
  datatype Lookup =
    | Found(place: string)  // a location came back; `place` is its text form
    | NoResult              // the service answered, with nothing
    | Retryable             // GeocoderTimedOut or GeocoderServiceError was raised
    | Fatal                 // any other exception was raised

  /** The service's answer to the lookup of a point on the given attempt (0-based). */
  type Geocoder = (Point, nat) -> Lookup

  /** The outcome of the retry loop: the place, how many lookups it made, the waits it slept. */
  datatype Geocoded = Geocoded(place: Option<string>, lookups: nat, waits: seq<nat>)

  /** The number of attempts the script uses: the default of `max_retries`. */
  const MaxRetries: nat := 3

  function Pow2(k: nat): (r: nat)
    ensures r >= 1
  {
    if k == 0 then 1 else 2 * Pow2(k - 1)
  }

  /** The outcome `rest` of the remaining attempts after `lookups` lookups that slept `waits`. */
  function Resume(lookups: nat, waits: seq<nat>, rest: Geocoded): Geocoded
  {
    Geocoded(rest.place, lookups + rest.lookups, waits + rest.waits)
  }

  /**
   * The retry loop from attempt `attempt` on: a place comes back on the first
   * lookup that finds one, an empty answer moves on without waiting, a
   * timeout or service error waits 2^attempt seconds unless it was the last
   * attempt, and any other error gives up at once.
   */
  function Retry(geocoder: Geocoder, p: Point, maxRetries: nat, attempt: nat): (r: Geocoded)
    decreases maxRetries - attempt
    ensures attempt + r.lookups <= if attempt < maxRetries then maxRetries else attempt
    ensures r.lookups == 0 <==> attempt >= maxRetries
    ensures r.lookups == 0 ==> r.place == None && r.waits == []
    ensures r.lookups > 0 ==> |r.waits| < r.lookups
  {
    if attempt >= maxRetries then Geocoded(None, 0, [])
    else match geocoder(p, attempt)
      case Found(s) => Geocoded(Some(s), 1, [])
      case NoResult => Resume(1, [], Retry(geocoder, p, maxRetries, attempt + 1))
      case Retryable =>
        if attempt < maxRetries - 1 then Resume(1, [Pow2(attempt)], Retry(geocoder, p, maxRetries, attempt + 1))
        else Geocoded(None, 1, [])
      case Fatal => Geocoded(None, 1, [])
  }

  /** The backoff waits the policy prescribes: 2^k after each retryable attempt k in [lo, hi). */
  function BackoffWaits(geocoder: Geocoder, p: Point, lo: nat, hi: nat): seq<nat>
    decreases hi - lo
  {
    if lo >= hi then []
    else (if geocoder(p, lo).Retryable? then [Pow2(lo)] else []) + BackoffWaits(geocoder, p, lo + 1, hi)
  }

  /** A lookup that fails softly: an empty answer, or a timeout or service error. */
  predicate Soft(l: Lookup)
  {
    l.NoResult? || l.Retryable?
  }

  /**
   * Every lookup before the last one failed softly, and the last one is the
   * reason the loop stopped: it found a place (which is then returned as-is),
   * raised a non-retryable error, or was the final attempt.
   */
  lemma {:induction false} RetryStopsForAReason(geocoder: Geocoder, p: Point, maxRetries: nat, attempt: nat)
    requires attempt < maxRetries
    ensures var r := Retry(geocoder, p, maxRetries, attempt);
      var last := attempt + r.lookups - 1;
      && (forall k :: attempt <= k < last ==> Soft(geocoder(p, k)))
      && (r.place.Some? <==> geocoder(p, last).Found?)
      && (geocoder(p, last).Found? ==> r.place == Some(geocoder(p, last).place))
      && (Soft(geocoder(p, last)) ==> last == maxRetries - 1)
    decreases maxRetries - attempt
  {
    var l := geocoder(p, attempt);
    if Soft(l) && attempt + 1 < maxRetries {
      RetryStopsForAReason(geocoder, p, maxRetries, attempt + 1);
    }
  }

  /** The waits slept are exactly 2^k for each retryable attempt k except the last attempt made. */
  lemma {:induction false} RetryWaits(geocoder: Geocoder, p: Point, maxRetries: nat, attempt: nat)
    requires attempt < maxRetries
    ensures var r := Retry(geocoder, p, maxRetries, attempt);
      r.waits == BackoffWaits(geocoder, p, attempt, attempt + r.lookups - 1)
    decreases maxRetries - attempt
  {
    var r := Retry(geocoder, p, maxRetries, attempt);
    var l := geocoder(p, attempt);
    if Soft(l) && attempt + 1 < maxRetries {
      RetryWaits(geocoder, p, maxRetries, attempt + 1);
    }
  }

  /** The doubling waits 2^lo, ..., 2^(hi-1). */
  function Doubling(lo: nat, hi: nat): seq<nat>
    decreases hi - lo
  {
    if lo >= hi then [] else [Pow2(lo)] + Doubling(lo + 1, hi)
  }

  /**
   * When every lookup times out, the loop makes all the attempts, returns
   * nothing, and waits 2^attempt ... 2^(maxRetries-2): no wait follows the
   * final attempt.
   */
  lemma {:induction false} PersistentTimeouts(geocoder: Geocoder, p: Point, maxRetries: nat, attempt: nat)
    requires attempt < maxRetries
    requires forall k :: attempt <= k < maxRetries ==> geocoder(p, k) == Retryable
    ensures Retry(geocoder, p, maxRetries, attempt) == Geocoded(None, maxRetries - attempt, Doubling(attempt, maxRetries - 1))
    decreases maxRetries - attempt
  {
    if attempt + 1 < maxRetries {
      PersistentTimeouts(geocoder, p, maxRetries, attempt + 1);
    }
  }

  /** With the script's three attempts and three timeouts, the waits are 1 s and then 2 s. */
  lemma ThreeTimeoutsWaitOneThenTwo(geocoder: Geocoder, p: Point)
    requires forall k: nat :: k < MaxRetries ==> geocoder(p, k) == Retryable
    ensures Retry(geocoder, p, MaxRetries, 0) == Geocoded(None, 3, [1, 2])
  {
    PersistentTimeouts(geocoder, p, MaxRetries, 0);
    assert Doubling(0, 2) == [1, 2];
  }

  /** Two timeouts and then a place: the place comes back after waits of 1 s and 2 s. */
  lemma TimeoutsThenFound(geocoder: Geocoder, p: Point, place: string)
    requires geocoder(p, 0) == Retryable && geocoder(p, 1) == Retryable && geocoder(p, 2) == Found(place)
    ensures Retry(geocoder, p, MaxRetries, 0) == Geocoded(Some(place), 3, [1, 2])
  {
  }

  /** A lookup that neither finds a place nor gives up hands over to the next attempt. */
  lemma RetryAdvance(geocoder: Geocoder, p: Point, maxRetries: nat, attempt: nat, lookups: nat, waits: seq<nat>)
    requires attempt < maxRetries
    requires geocoder(p, attempt) == NoResult || (geocoder(p, attempt) == Retryable && attempt < maxRetries - 1)
    ensures var before := if geocoder(p, attempt) == Retryable then [Pow2(attempt)] else [];
      Resume(lookups, waits, Retry(geocoder, p, maxRetries, attempt))
        == Resume(lookups + 1, waits + before, Retry(geocoder, p, maxRetries, attempt + 1))
  {
    var before := if geocoder(p, attempt) == Retryable then [Pow2(attempt)] else [];
    var rest := Retry(geocoder, p, maxRetries, attempt + 1);
    assert Retry(geocoder, p, maxRetries, attempt) == Resume(1, before, rest);
    assert waits + (before + rest.waits) == (waits + before) + rest.waits;
  }

  /** A lookup that finds a place, fails fatally, or times out on the last attempt ends the loop. */
  lemma RetryStop(geocoder: Geocoder, p: Point, maxRetries: nat, attempt: nat)
    requires attempt < maxRetries
    requires geocoder(p, attempt) != NoResult
    requires geocoder(p, attempt) == Retryable ==> attempt == maxRetries - 1
    ensures var found := if geocoder(p, attempt).Found? then Some(geocoder(p, attempt).place) else None;
      Retry(geocoder, p, maxRetries, attempt) == Geocoded(found, 1, [])
  {
  }

  /**
   * `reverse_geocode`: try the lookup up to `maxRetries` times. Returns the
   * place found (if any), the number of lookups made and the waits slept, in
   * order.
   */
  method ReverseGeocode(geocoder: Geocoder, p: Point, maxRetries: nat)
    returns (place: Option<string>, lookups: nat, waits: seq<nat>)
    ensures Geocoded(place, lookups, waits) == Retry(geocoder, p, maxRetries, 0)
  {
    ghost var whole := Retry(geocoder, p, maxRetries, 0);
    waits := [];
    var attempt := 0;
    while attempt < maxRetries
      invariant attempt <= maxRetries
      invariant whole == Resume(attempt, waits, Retry(geocoder, p, maxRetries, attempt))
    {
      var answer := geocoder(p, attempt);
      match answer {
        case Found(s) =>
          RetryStop(geocoder, p, maxRetries, attempt);
          return Some(s), attempt + 1, waits;
        case NoResult =>
          RetryAdvance(geocoder, p, maxRetries, attempt, attempt, waits);
          assert waits + [] == waits;
        case Retryable =>
          if attempt < maxRetries - 1 {
            RetryAdvance(geocoder, p, maxRetries, attempt, attempt, waits);
            waits := waits + [Pow2(attempt)];
          } else {
            RetryStop(geocoder, p, maxRetries, attempt);
            return None, attempt + 1, waits;
          }
        case Fatal =>
          RetryStop(geocoder, p, maxRetries, attempt);
          return None, attempt + 1, waits;
      }
      attempt := attempt + 1;
    }
    place, lookups := None, attempt;
  }
}
