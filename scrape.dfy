/** `attempt_to_scrape_from_serial` of src/scraper/vinlookup.rs: look the
    serial up in the key-value store, and when it is not there find its car
    through the candidate VINs, save it to the table, give it the table id
    and store it in the key-value store. Also the way `vinlookup` sorts the
    sticker service's replies into a body or an error. */
module Scrape {
  import opened Outcomes
  import opened Numbers
  import opened Models
  import opened Cars

  // ---------------------------------------------------------------------------
  // The sticker fetch

  /** What the HTTP client gives back: the request could not be sent, or a
      status and a body (`None` when the body could not be read). */
  datatype HttpReply = SendFailed | Response(status: nat, body: Option<seq<byte>>)

  predicate IsSuccess(status: nat) {
    200 <= status < 300
  }

  /** `vinlookup`: a 2xx body is the sticker unless it is the rate-limit
      text, which becomes an error; any other status becomes an error
      carrying the status code; an unsendable request or an unreadable
      body panics. */
  function VinlookupFetch(reply: HttpReply): (r: FetchResult)
    ensures r.Fetched? <==> reply.Response? && IsSuccess(reply.status) && reply.body.Some? && reply.body.value != SapBody
    ensures r.Fetched? ==> r.body == reply.body.value
    ensures reply.Response? && !IsSuccess(reply.status) ==> r == FetchError(NatToString(reply.status))
  {
    match reply
    case SendFailed => FetchPanic("Could not send request")
    case Response(status, body) =>
      if !IsSuccess(status) then FetchError(NatToString(status))
      else if body.None? then FetchPanic("Could not get response bytes")
      else if body.value == SapBody then FetchError("SAP API limits exceeded")
      else Fetched(body.value)
  }

  /** The fetch port of a run whose sticker service answers `http`. */
  function HttpPorts(http: string -> HttpReply, extract: seq<byte> -> Result<string, string>, now: string, f: Faults): (p: Ports)
    ensures forall vin :: p.fetch(vin) == VinlookupFetch(http(vin))
  {
    Ports(vin => VinlookupFetch(http(vin)), extract, now, f)
  }

  /** Composed with the real fetch, the loop's own rate-limit check never
      fires: the fetch never hands the rate-limit body on as a sticker. */
  lemma RateLimitNeverFetched(reply: HttpReply)
    ensures VinlookupFetch(reply) != Fetched(SapBody)
  {}

  /** Instead, a rate-limited candidate is skipped like any failed fetch,
      and the loop goes on to the next one. */
  lemma RateLimitSkipsCandidate(vins: seq<string>, s: Stores, http: string -> HttpReply,
                                extract: seq<byte> -> Result<string, string>, now: string, f: Faults)
    requires vins != [] && vins[0] !in f.bucketGetFails && vins[0] !in s.bucket
    requires http(vins[0]) == Response(200, Some(SapBody))
    ensures Scan(vins, s, HttpPorts(http, extract, now, f)) == Scan(vins[1..], s, HttpPorts(http, extract, now, f))
  {
    var p := HttpPorts(http, extract, now, f);
    assert p.fetch(vins[0]) == FetchError("SAP API limits exceeded");
    assert TryVin(vins[0], s, p) == Continue;
  }

  // ---------------------------------------------------------------------------
  // attempt_to_scrape_from_serial

  /** `{:?}` of an `Option<CarId>`. */
  function DebugId(id: Option<CarId>): string {
    match id
    case None => "None"
    case Some(CarId(n)) => "Some(CarId(" + IntToString(n) + "))"
  }

  /** `.expect(msg)` on a failed result: a panic propagates as it is, an
      error becomes a panic with the message and the error's `{:?}`. */
  function Expect(msg: string, e: Failure): (r: Failure)
    ensures r.Panicked?
    ensures e.Panicked? ==> r == e
  {
    match e
    case Panicked(_) => e
    case Error(_) => Panicked(msg + ": " + e.Debug())
  }

  /** The error for a serial the key-value store already holds. */
  function AlreadySavedError(saved: CarRecord): Failure {
    Error("Car already saved.: " + DebugId(saved.id))
  }

  /** The outcome and the new stores of `attempt_to_scrape_from_serial`,
      with the candidate generator padding the serial as evidently intended. */
  function AttemptSpec(serial: SerialNumber, s: Stores, p: Ports): (Result<Option<CarId>, Failure>, Stores) {
    match FromKv(s, p.faults, serial)
    case Some(saved) => (Err(AlreadySavedError(saved)), s)
    case None => AfterLookup(VinlookupSpec(serial, s, p), p.faults)
  }

  /** `attempt_to_scrape_from_serial` as written: the generator does not pad. */
  function AttemptSpecAsWritten(serial: SerialNumber, s: Stores, p: Ports): (Result<Option<CarId>, Failure>, Stores) {
    match FromKv(s, p.faults, serial)
    case Some(saved) => (Err(AlreadySavedError(saved)), s)
    case None => AfterLookup(VinlookupSpecAsWritten(serial, s, p), p.faults)
  }

  /** What follows `from_vinlookup`: its failure is a panic, no car is
      `Ok(None)`, and a found car is saved. */
  function AfterLookup(found: (Result<Option<CarRecord>, Failure>, Stores), f: Faults): (Result<Option<CarId>, Failure>, Stores) {
    match found.0
    case Err(e) => (Err(Expect("couldn't find car", e)), found.1)
    case Ok(None) => (Ok(None), found.1)
    case Ok(Some(car)) => SaveFound(car, found.1, f)
  }

  /** A found car is saved to the table (a failure panics), given the
      table id, and stored in the key-value store with it. */
  function SaveFound(car: CarRecord, s: Stores, f: Faults): (Result<Option<CarId>, Failure>, Stores) {
    var (created, s1) := ToD1Spec(car, s, f);
    match created
    case Err(_) => (Err(Panicked("We received: an error writing to d1")), s1)
    case Ok(id) =>
      var (kvId, s2) := ToKvSpec(car.(id := Some(id)), Some(id), s1, f);
      match kvId
      case Err(e) => (Err(Expect("couldn't save car to database", e)), s2)
      case Ok(k) => (Ok(Some(k)), s2)
  }

  /** `attempt_to_scrape_from_serial` on the stores held by `env`. The
      scraper log it builds is dropped at once, so it is not modelled. */
  method AttemptToScrapeFromSerial(serial: SerialNumber, env: Env, p: Ports) returns (r: Result<Option<CarId>, Failure>)
    modifies env
    ensures (r, env.State()) == AttemptSpec(serial, old(env.State()), p)
  {
    var saved := FromKv(env.State(), p.faults, serial);
    if saved.Some? {
      return Err(AlreadySavedError(saved.value));
    }
    ghost var s0 := env.State();
    var found := Car.FromVinlookup(serial, env, p);
    ghost var spec := VinlookupSpec(serial, s0, p);
    assert env.State() == spec.1 && Matches(found, spec.0);
    if found.Err? {
      return Err(Expect("couldn't find car", found.error));
    }
    if found.value.None? {
      return Ok(None);
    }
    r := SaveFoundM(found.value.value, env, p);
  }

  /** The saving part of `attempt_to_scrape_from_serial`. */
  method SaveFoundM(car: Car, env: Env, p: Ports) returns (r: Result<Option<CarId>, Failure>)
    modifies car, env
    ensures (r, env.State()) == SaveFound(old(car.Record()), old(env.State()), p.faults)
    ensures r.Ok? ==> car.Record() == old(car.Record()).(id := r.value)
  {
    var created := car.ToD1(env, p);
    if created.Err? {
      return Err(Panicked("We received: an error writing to d1"));
    }
    car.SetId(created.value);
    var kvId := car.ToKv(env, Some(created.value), p);
    if kvId.Err? {
      return Err(Expect("couldn't save car to database", kvId.error));
    }
    return Ok(Some(kvId.value));
  }

  // ---------------------------------------------------------------------------
  // Properties

  /** A serial the key-value store holds and returns is an error naming
      the stored id, and nothing is read from the sticker service or
      written anywhere. */
  lemma AlreadySaved(serial: SerialNumber, s: Stores, p: Ports)
    requires !p.faults.kvGetFails && KvKey(serial) in s.kv
    ensures AttemptSpec(serial, s, p) == (Err(Error("Car already saved.: " + DebugId(s.kv[KvKey(serial)].id))), s)
    ensures AttemptSpecAsWritten(serial, s, p) == AttemptSpec(serial, s, p)
  {}

  /** A failed key-value read is not an error: a serial that is stored is
      scraped again, and with working stores the car found is saved and
      its key-value entry replaced. */
  lemma KvReadFailureRescrapes(serial: SerialNumber, s: Stores, p: Ports, car: CarRecord)
    requires Valid(s) && p.faults.kvGetFails && KvKey(serial) in s.kv
    requires !p.faults.d1ReadFails && !p.faults.d1WriteFails && !p.faults.kvPutFails
    requires VinlookupSpec(serial, s, p).0 == Ok(Some(car)) && car.serialNumber == serial
    ensures var (r, t) := AttemptSpec(serial, s, p);
      r.Ok? && r.value.Some? && Stored(t, serial) == Some(car.(id := r.value))
  {
    var found := VinlookupSpec(serial, s, p);
    LookupValid(serial, s, p);
    FoundCarIsSaved(car, found.1, p.faults);
    SaveFoundValid(car, found.1, p.faults);
  }

  /** The candidate loop ends with `Ok(None)` only when it ran out of
      candidates, and then it has written nothing. */
  lemma {:induction false} ScanNoneUnchanged(vins: seq<string>, s: Stores, p: Ports)
    ensures Scan(vins, s, p).0 == Ok(None) ==> Scan(vins, s, p).1 == s
  {
    if vins != [] {
      var step := TryVin(vins[0], s, p);
      if step.Continue? {
        ScanNoneUnchanged(vins[1..], s, p);
      } else if vins[0] !in p.faults.bucketGetFails && vins[0] !in s.bucket && p.fetch(vins[0]).Fetched? {
        var data := p.fetch(vins[0]).body;
        if data != SapBody && vins[0] !in p.faults.bucketPutFails {
          var parsed := FromPdf(data, p.extract, p.now);
          assert step == SaveParsed(parsed, s.(bucket := s.bucket[vins[0] := data]), p.faults);
          if parsed.Ok? {
            var t := s.(bucket := s.bucket[vins[0] := data]);
            match ToD1Spec(parsed.value, t, p.faults).0
            case Err(_) =>
            case Ok(_) =>
          }
        }
      }
    }
  }

  /** A car the candidate loop returns has at most its own serial added to
      the table. */
  lemma {:induction false} ScanKeys(vins: seq<string>, s: Stores, p: Ports)
    requires Valid(s)
    ensures var (r, t) := Scan(vins, s, p);
      r.Ok? && r.value.Some? ==> t.d1.Keys <= s.d1.Keys + {r.value.value.serialNumber.value}
  {
    if vins != [] {
      var step := TryVin(vins[0], s, p);
      if step.Continue? {
        ScanKeys(vins[1..], s, p);
      } else if vins[0] !in p.faults.bucketGetFails && vins[0] !in s.bucket && p.fetch(vins[0]).Fetched? {
        var data := p.fetch(vins[0]).body;
        if data != SapBody && vins[0] !in p.faults.bucketPutFails {
          var parsed := FromPdf(data, p.extract, p.now);
          var t := s.(bucket := s.bucket[vins[0] := data]);
          assert step == SaveParsed(parsed, t, p.faults);
          if parsed.Ok? {
            ToD1Valid(parsed.value, t, p.faults);
          }
        }
      }
    }
  }

  /** Saving a found car keeps the stores consistent, only adds to them,
      adds to the table at most the car's serial, and succeeds only with
      the car, under that id, in the key-value store and the table. */
  lemma SaveFoundValid(car: CarRecord, s: Stores, f: Faults)
    requires Valid(s)
    ensures var (r, t) := SaveFound(car, s, f);
      Valid(t) && Grows(s, t) && t.d1.Keys <= s.d1.Keys + {car.serialNumber.value} &&
      r != Ok(None) &&
      (r.Ok? ==> Stored(t, car.serialNumber) == Some(car.(id := r.value)) &&
                 car.serialNumber.value in t.d1 && Some(t.d1[car.serialNumber.value]) == r.value)
  {
    ToD1Valid(car, s, f);
    var (created, s1) := ToD1Spec(car, s, f);
    if created.Ok? {
      ToKvRoundTrip(car.(id := Some(created.value)), Some(created.value), s1, f);
    }
  }

  /** What `from_vinlookup` does to the stores: they stay consistent and
      only grow, the key-value store is untouched, a returned car has at
      most its own serial added to the table, and no car means no change. */
  lemma LookupValid(serial: SerialNumber, s: Stores, p: Ports)
    requires Valid(s)
    ensures var (r, t) := VinlookupSpec(serial, s, p);
      Valid(t) && Grows(s, t) && t.kv == s.kv &&
      (r.Ok? && r.value.Some? ==> t.d1.Keys <= s.d1.Keys + {r.value.value.serialNumber.value}) &&
      (exists k :: t.d1.Keys <= s.d1.Keys + {k}) &&
      (r == Ok(None) ==> t == s)
  {
    var g := VinLookup.PossibleVinsFromSerialPadded(serial);
    if g.Ok? {
      ScanValid(g.value, s, p);
      ScanKeys(g.value, s, p);
      ScanNoneUnchanged(g.value, s, p);
    } else {
      assert s.d1.Keys <= s.d1.Keys + {0};
    }
  }

  /** What follows the lookup keeps the stores consistent and only adds
      to them; it writes nothing when no car was found, and succeeds only
      with the found car, under its table id, in the key-value store. */
  lemma AfterLookupValid(s: Stores, found: (Result<Option<CarRecord>, Failure>, Stores), f: Faults)
    requires Valid(found.1) && Grows(s, found.1)
    requires found.0.Ok? && found.0.value.Some? ==>
      found.1.d1.Keys <= s.d1.Keys + {found.0.value.value.serialNumber.value}
    requires exists k :: found.1.d1.Keys <= s.d1.Keys + {k}
    requires found.0 == Ok(None) ==> found.1 == s
    ensures var (r, t) := AfterLookup(found, f);
      Valid(t) && Grows(s, t) && (exists k :: t.d1.Keys <= s.d1.Keys + {k}) &&
      (r == Ok(None) ==> t == s) &&
      (r.Ok? && r.value.Some? ==>
        exists car: CarRecord :: Stored(t, car.serialNumber) == Some(car) && car.id == r.value &&
          car.serialNumber.value in t.d1 && Some(t.d1[car.serialNumber.value]) == r.value)
  {
    if found.0.Ok? && found.0.value.Some? {
      var car := found.0.value.value;
      SaveFoundValid(car, found.1, f);
      var (r, t) := SaveFound(car, found.1, f);
      if r.Ok? {
        assert Stored(t, car.(id := r.value).serialNumber) == Some(car.(id := r.value));
      }
    }
  }

  /** `attempt_to_scrape_from_serial` keeps the stores consistent and only
      adds to them, writing the table row of at most one serial. It writes
      nothing when the result is `Ok(None)`, and on success the returned id
      is the table id of the saved car, which the key-value store holds
      under its serial. */
  lemma AttemptValid(serial: SerialNumber, s: Stores, p: Ports)
    requires Valid(s)
    ensures var (r, t) := AttemptSpec(serial, s, p);
      Valid(t) && Grows(s, t) && (exists k :: t.d1.Keys <= s.d1.Keys + {k}) &&
      (r == Ok(None) ==> t == s) &&
      (r.Ok? && r.value.Some? ==>
        exists car: CarRecord :: Stored(t, car.serialNumber) == Some(car) && car.id == r.value &&
          car.serialNumber.value in t.d1 && Some(t.d1[car.serialNumber.value]) == r.value)
  {
    if FromKv(s, p.faults, serial).Some? {
      assert s.d1.Keys <= s.d1.Keys + {0};
    } else {
      var found := VinlookupSpec(serial, s, p);
      assert AttemptSpec(serial, s, p) == AfterLookup(found, p.faults);
      LookupValid(serial, s, p);
      AfterLookupValid(s, found, p.faults);
    }
  }

  /** The id check of `to_kv` always passes here, because the id is set
      just before: with working table and key-value store, a found car is
      saved and its table id returned. */
  lemma FoundCarIsSaved(car: CarRecord, s: Stores, f: Faults)
    requires Valid(s) && !f.d1ReadFails && !f.d1WriteFails && !f.kvPutFails
    ensures var (r, t) := SaveFound(car, s, f);
      car.serialNumber.value in t.d1 && r == Ok(Some(t.d1[car.serialNumber.value]))
  {
    ToD1Valid(car, s, f);
    var (created, s1) := ToD1Spec(car, s, f);
    if car.serialNumber.value !in s.d1 {
      ToD1Creates(car, s, f);
    } else {
      ToD1Existing(car, s, f);
    }
    ToKvRoundTrip(car.(id := Some(created.value)), Some(created.value), s1, f);
  }

  /** As written, a serial from 0 to 99999 that is not stored panics in
      the candidate generator with "Invalid Length" and writes nothing;
      with padding the candidates are scanned. */
  lemma ShortSerialAttemptPanics(serial: SerialNumber, s: Stores, p: Ports)
    requires 0 <= serial.value < 100000 && FromKv(s, p.faults, serial).None?
    ensures AttemptSpecAsWritten(serial, s, p) ==
      (Err(Panicked("Invalid Length: " + NatToString(11 + |Models.ToString(serial)|))), s)
    ensures VinLookup.PossibleVinsFromSerialPadded(serial).Ok? &&
      AttemptSpec(serial, s, p) ==
        AfterLookup(Scan(VinLookup.PossibleVinsFromSerialPadded(serial).value, s, p), p.faults)
  {
    VinLookup.UnpaddedPanics(serial);
    VinLookup.PaddedOkIffInRange(serial);
  }

  /** On six-digit serials the code as written does what was intended. */
  lemma AsWrittenAgreesOnSixDigits(serial: SerialNumber, s: Stores, p: Ports)
    requires 100000 <= serial.value <= 999999
    ensures AttemptSpecAsWritten(serial, s, p) == AttemptSpec(serial, s, p)
    ensures VinlookupSpecAsWritten(serial, s, p) == VinlookupSpec(serial, s, p)
  {
    VinLookup.PaddedAgreesOnSixDigits(serial);
  }
}
