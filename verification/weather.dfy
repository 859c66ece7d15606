/** The weather subscription service: for each stored record, count the
    requested information types the record satisfies and emit the record
    when all are satisfied.  The source's quirks are kept as written. */
module Weather {
  import opened Wrappers

  /** Protocol-buffer enum `WeatherInformation`; `Unrecognized` stands for any
      other value, which neither branch handles. */
  datatype InfoType = Temperature | Humidity | Unrecognized

  /** `SubscriptionResponse`; unset proto3 fields read as "" and 0. */
  datatype WeatherRecord = WeatherRecord(country: string, temperature: int, humidity: int)

  /** `SubscriptionRequest`: the repeated type list and four optional bounds. */
  datatype Request = Request(
    types: seq<InfoType>,
    minTemperature: Option<int>,
    maxTemperature: Option<int>,
    minHumidity: Option<int>,
    maxHumidity: Option<int>)

  /** Calls made on the response `StreamObserver`. */
  datatype Event = OnError(error: InvalidArgument) | OnNext(record: WeatherRecord) | OnCompleted

  /** The three `INVALID_ARGUMENT` statuses the service signals. */
  datatype InvalidArgument = NoTypes | NoTemperatureBound | NoHumidityBound

  /** The description attached to each status. */
  function Description(e: InvalidArgument): string {
    match e
    case NoTypes => "You must set at least one of the weather information types."
    case NoTemperatureBound => "You must set at least one of the following: 'min_temperature', 'max_temperature'."
    case NoHumidityBound => "You must set at least one of the following: 'min_humidity', 'max_humidity'."
  }

  const Poland: WeatherRecord := WeatherRecord("Poland", 0, 60)
  const Germany: WeatherRecord := WeatherRecord("Germany", 10, 0)
  const Spain: WeatherRecord := WeatherRecord("", 35, 20)

  /** Outcome of examining one requested type against one record:
      counted, break out of the type loop, an `onError` without counting,
      or nothing at all. */
  datatype Check = Satisfied | Failed | Missing(error: InvalidArgument) | Ignored

  /** One iteration of the inner loop.  Temperature: every bound present must
      hold, and at least one must be present.  Humidity: the "min only" case
      is guarded by the presence of `min_temperature` but compares
      `min_humidity` (0 when unset). */
  function CheckType(req: Request, rec: WeatherRecord, t: InfoType): (r: Check)
    ensures t == Temperature ==>
      (r == Satisfied <==>
         (req.minTemperature.Some? || req.maxTemperature.Some?) &&
         (req.minTemperature.Some? ==> req.minTemperature.value <= rec.temperature) &&
         (req.maxTemperature.Some? ==> rec.temperature <= req.maxTemperature.value))
    ensures t == Temperature ==>
      (r == Missing(NoTemperatureBound) <==> req.minTemperature.None? && req.maxTemperature.None?)
    ensures t == Humidity ==>
      (r.Missing? <==> req.minTemperature.None? && req.maxHumidity.None? &&
                       (req.minHumidity.None? || req.maxHumidity.None?))
    ensures t == Humidity && req.minHumidity.Some? && req.maxHumidity.Some? ==>
      (r == Satisfied <==> req.minHumidity.value <= rec.humidity <= req.maxHumidity.value)
    ensures t == Humidity && !(req.minHumidity.Some? && req.maxHumidity.Some?) &&
            req.minTemperature.None? && req.maxHumidity.Some? ==>
      (r == Satisfied <==> rec.humidity <= req.maxHumidity.value)
    ensures t == Temperature && (req.minTemperature.Some? || req.maxTemperature.Some?) ==>
      (r == Failed <==> r != Satisfied)
    ensures t == Temperature && r.Missing? ==> r == Missing(NoTemperatureBound)
    ensures t == Humidity && r.Missing? ==> r == Missing(NoHumidityBound)
    ensures t == Humidity && req.minTemperature.Some? && !(req.minHumidity.Some? && req.maxHumidity.Some?) ==>
      (r == Satisfied <==> req.minHumidity.GetOr(0) <= rec.humidity)
    ensures t == Humidity && !r.Missing? ==> (r == Satisfied || r == Failed)
    ensures t == Unrecognized <==> r == Ignored
  {
    match t
    case Temperature =>
      if req.minTemperature.Some? && req.maxTemperature.Some? then
        if req.minTemperature.value <= rec.temperature && req.maxTemperature.value >= rec.temperature
        then Satisfied else Failed
      else if req.minTemperature.Some? then
        if req.minTemperature.value <= rec.temperature then Satisfied else Failed
      else if req.maxTemperature.Some? then
        if req.maxTemperature.value >= rec.temperature then Satisfied else Failed
      else Missing(NoTemperatureBound)
    case Humidity =>
      if req.minHumidity.Some? && req.maxHumidity.Some? then
        if req.minHumidity.value <= rec.humidity && req.maxHumidity.value >= rec.humidity
        then Satisfied else Failed
      else if req.minTemperature.Some? then
        if req.minHumidity.GetOr(0) <= rec.humidity then Satisfied else Failed
      else if req.maxHumidity.Some? then
        if req.maxHumidity.value >= rec.humidity then Satisfied else Failed
      else Missing(NoHumidityBound)
    case Unrecognized => Ignored
  }

  /** The record passes every requested type. */
  predicate AllSatisfied(req: Request, rec: WeatherRecord, types: seq<InfoType>) {
    forall i :: 0 <= i < |types| ==> CheckType(req, rec, types[i]) == Satisfied
  }

  /** The `onError` calls of the inner loop and its final counter value. */
  datatype Tally = Tally(errors: seq<Event>, satisfied: nat)

  /** The state of the inner loop: `onError` calls so far, the counter, and
      whether a failing bound has broken out of the loop. */
  datatype Scan = Scan(errors: seq<Event>, satisfied: nat, stopped: bool)

  /** One iteration of the inner loop: a satisfied type counts, a failing
      bound breaks out, a missing bound signals `onError`, an unknown type
      does nothing; once broken out, nothing more happens. */
  function Advance(s: Scan, c: Check): Scan {
    if s.stopped then s
    else match c
      case Satisfied => s.(satisfied := s.satisfied + 1)
      case Failed => s.(stopped := true)
      case Missing(d) => s.(errors := s.errors + [OnError(d)])
      case Ignored => s
  }

  /** The inner loop run over `types`.  The counter never exceeds the number
      of types, and stays below it once the loop has broken out. */
  function ScanTypes(req: Request, rec: WeatherRecord, types: seq<InfoType>): (r: Scan)
    ensures r.satisfied <= |types|
    ensures r.stopped ==> r.satisfied < |types|
  {
    if types == [] then Scan([], 0, false)
    else Advance(ScanTypes(req, rec, types[..|types| - 1]), CheckType(req, rec, types[|types| - 1]))
  }

  /** The `onError` calls of the inner loop and its final counter value. */
  function Inner(req: Request, rec: WeatherRecord, types: seq<InfoType>): Tally {
    var s := ScanTypes(req, rec, types);
    Tally(s.errors, s.satisfied)
  }

  /** One more pass of the inner loop applies one more check. */
  lemma ScanStep(req: Request, rec: WeatherRecord, types: seq<InfoType>, j: nat)
    requires j < |types|
    ensures ScanTypes(req, rec, types[..j + 1]) == Advance(ScanTypes(req, rec, types[..j]), CheckType(req, rec, types[j]))
  {
    assert types[..j + 1][..j] == types[..j];
  }

  /** Once the loop has broken out, the remaining types change nothing. */
  lemma {:induction false} StaysStopped(req: Request, rec: WeatherRecord, types: seq<InfoType>, j: nat)
    requires j <= |types| && ScanTypes(req, rec, types[..j]).stopped
    ensures ScanTypes(req, rec, types) == ScanTypes(req, rec, types[..j])
    decreases |types| - j
  {
    if j < |types| {
      assert types[..j + 1][..j] == types[..j];
      StaysStopped(req, rec, types, j + 1);
    } else {
      assert types[..j] == types;
    }
  }

  /** The counter reaches `|types|` exactly when every type is satisfied,
      and the inner loop signals nothing but `onError`. */
  lemma {:induction false} InnerCounts(req: Request, rec: WeatherRecord, types: seq<InfoType>)
    ensures Inner(req, rec, types).satisfied == |types| <==> AllSatisfied(req, rec, types)
    ensures forall k :: 0 <= k < |Inner(req, rec, types).errors| ==> Inner(req, rec, types).errors[k].OnError?
  {
    if types != [] {
      var init := types[..|types| - 1];
      InnerCounts(req, rec, init);
      assert forall i :: 0 <= i < |init| ==> init[i] == types[i];
    }
  }

  /** The record is emitted by `subscribe`. */
  predicate Emits(req: Request, rec: WeatherRecord) {
    Inner(req, rec, req.types).satisfied == |req.types|
  }

  /** Everything the outer loop does for one record. */
  function RecordEvents(req: Request, rec: WeatherRecord): seq<Event> {
    (if |req.types| == 0 then [OnError(NoTypes)] else [])
    + Inner(req, rec, req.types).errors
    + (if Emits(req, rec) then [OnNext(rec)] else [])
  }

  /** The outer loop over the stored records, in order. */
  function RecordsEvents(req: Request, records: seq<WeatherRecord>): seq<Event> {
    if records == [] then []
    else RecordsEvents(req, records[..|records| - 1]) + RecordEvents(req, records[|records| - 1])
  }

  /** All observer calls made by one `subscribe`. */
  function SubscribeEvents(req: Request, records: seq<WeatherRecord>): seq<Event> {
    RecordsEvents(req, records) + [OnCompleted]
  }

  /** The records carried by the `onNext` calls, in call order. */
  function Nexts(events: seq<Event>): seq<WeatherRecord> {
    if events == [] then []
    else Nexts(events[..|events| - 1])
         + (if events[|events| - 1].OnNext? then [events[|events| - 1].record] else [])
  }

  /** The stored records that pass the filter, in insertion order. */
  function Matching(req: Request, records: seq<WeatherRecord>): seq<WeatherRecord> {
    if records == [] then []
    else Matching(req, records[..|records| - 1])
         + (if Emits(req, records[|records| - 1]) then [records[|records| - 1]] else [])
  }

  lemma {:induction false} NextsAppend(a: seq<Event>, b: seq<Event>)
    ensures Nexts(a + b) == Nexts(a) + Nexts(b)
    decreases |b|
  {
    if b == [] {
      assert a + b == a;
    } else {
      assert (a + b)[..|a + b| - 1] == a + b[..|b| - 1];
      assert (a + b)[|a + b| - 1] == b[|b| - 1];
      NextsAppend(a, b[..|b| - 1]);
    }
  }

  lemma {:induction false} NextsOfErrors(errors: seq<Event>)
    requires forall k :: 0 <= k < |errors| ==> errors[k].OnError?
    ensures Nexts(errors) == []
  {
    if errors != [] {
      NextsOfErrors(errors[..|errors| - 1]);
    }
  }

  /** A record is emitted exactly when every requested type is satisfied;
      it is the only record its step can emit, at most once. */
  lemma RecordEmitted(req: Request, rec: WeatherRecord)
    ensures Nexts(RecordEvents(req, rec)) == (if AllSatisfied(req, rec, req.types) then [rec] else [])
  {
    var pre := if |req.types| == 0 then [OnError(NoTypes)] else [];
    var errs := Inner(req, rec, req.types).errors;
    InnerCounts(req, rec, req.types);
    var post := if Emits(req, rec) then [OnNext(rec)] else [];
    NextsAppend(pre + errs, post);
    NextsAppend(pre, errs);
    NextsOfErrors(pre);
    NextsOfErrors(errs);
    assert Nexts(post) == Nexts([] + post);
  }

  /** `subscribe` emits exactly the matching records, in insertion order,
      each at most once. */
  lemma {:induction false} SubscribeEmitsMatching(req: Request, records: seq<WeatherRecord>)
    ensures Nexts(SubscribeEvents(req, records)) == Matching(req, records)
  {
    RecordsEmitMatching(req, records);
    NextsAppend(RecordsEvents(req, records), [OnCompleted]);
    assert Nexts([OnCompleted]) == Nexts([]) + [];
  }

  lemma {:induction false} RecordsEmitMatching(req: Request, records: seq<WeatherRecord>)
    ensures Nexts(RecordsEvents(req, records)) == Matching(req, records)
  {
    if records != [] {
      var init, last := records[..|records| - 1], records[|records| - 1];
      InnerCounts(req, last, req.types);
      RecordsEmitMatching(req, init);
      NextsAppend(RecordsEvents(req, init), RecordEvents(req, last));
      RecordEmitted(req, last);
    }
  }

  /** `onCompleted` is called once, as the last call. */
  lemma {:induction false} CompletedOnceAtEnd(req: Request, records: seq<WeatherRecord>)
    ensures SubscribeEvents(req, records)[|SubscribeEvents(req, records)| - 1] == OnCompleted
    ensures forall k :: 0 <= k < |SubscribeEvents(req, records)| - 1 ==>
              !SubscribeEvents(req, records)[k].OnCompleted?
  {
    NoCompletedInRecords(req, records);
  }

  lemma {:induction false} NoCompletedInRecords(req: Request, records: seq<WeatherRecord>)
    ensures forall k :: 0 <= k < |RecordsEvents(req, records)| ==> !RecordsEvents(req, records)[k].OnCompleted?
  {
    if records != [] {
      NoCompletedInRecords(req, records[..|records| - 1]);
      InnerCounts(req, records[|records| - 1], req.types);
    }
  }

  /** An empty type list signals `onError` and, since 0 == 0, still emits the record. */
  lemma EmptyRequestErrorsAndEmits(req: Request, rec: WeatherRecord)
    requires req.types == []
    ensures RecordEvents(req, rec) == [OnError(NoTypes), OnNext(rec)]
  {
  }

  /** A request for humidity with only `min_humidity` set is answered with
      `onError`, and the record is not emitted, because the "min only" case
      looks at `min_temperature`. */
  lemma HumidityMinOnlyRejected(req: Request, rec: WeatherRecord)
    requires req.types == [Humidity]
    requires req.minHumidity.Some? && req.maxHumidity.None? && req.minTemperature.None?
    ensures RecordEvents(req, rec) == [OnError(NoHumidityBound)]
  {
    var types := req.types;
    assert types[..|types| - 1] == [] && types[|types| - 1] == Humidity;
    assert ScanTypes(req, rec, []) == Scan([], 0, false);
    assert CheckType(req, rec, Humidity) == Missing(NoHumidityBound);
    assert [] + [OnError(NoHumidityBound)] == [OnError(NoHumidityBound)];
    assert ScanTypes(req, rec, types) == Scan([OnError(NoHumidityBound)], 0, false);
  }

  /** With `min_temperature` present and humidity bounds incomplete, a
      humidity request compares `min_humidity` (0 when unset) and ignores
      `max_humidity`. */
  lemma HumidityGuardedByMinTemperature(req: Request, rec: WeatherRecord)
    requires req.minTemperature.Some? && !(req.minHumidity.Some? && req.maxHumidity.Some?)
    ensures CheckType(req, rec, Humidity) == Satisfied <==> req.minHumidity.GetOr(0) <= rec.humidity
  {
  }

  /** The service object holding the stored records. */
  class WeatherService {
    var records: seq<WeatherRecord>

    /** The constructor appends the three sample records to the given collection. */
    constructor (initial: seq<WeatherRecord>)
      ensures records == initial + [Poland, Germany, Spain]
    {
      records := initial + [Poland, Germany, Spain];
    }

    /** `subscribe`: the observer calls for `req` over the stored records. */
    method Subscribe(req: Request) returns (events: seq<Event>)
      ensures events == SubscribeEvents(req, records)
    {
      events := [];
      for i := 0 to |records|
        invariant events == RecordsEvents(req, records[..i])
      {
        var rec := records[i];
        var n := |req.types|;
        var prefix: seq<Event> := [];
        if n == 0 {
          prefix := [OnError(NoTypes)];
        }
        var errors, satisfied := CountSatisfied(req, rec);
        var emitted: seq<Event> := [];
        if n == satisfied {
          emitted := [OnNext(rec)];
        }
        assert records[..i + 1][..i] == records[..i];
        events := events + (prefix + errors + emitted);
      }
      assert records[..|records|] == records;
      events := events + [OnCompleted];
    }
  }

  /** The inner `for` loop with its `break`s, for one record. */
  method CountSatisfied(req: Request, rec: WeatherRecord) returns (errors: seq<Event>, satisfied: nat)
    ensures Tally(errors, satisfied) == Inner(req, rec, req.types)
  {
    var types := req.types;
    errors, satisfied := [], 0;
    var j := 0;
    while j < |types|
      invariant 0 <= j <= |types|
      invariant ScanTypes(req, rec, types[..j]) == Scan(errors, satisfied, false)
    {
      ScanStep(req, rec, types, j);
      var t := types[j];
      if t == Temperature {
        if req.minTemperature.Some? && req.maxTemperature.Some? {
          if req.minTemperature.value <= rec.temperature && req.maxTemperature.value >= rec.temperature {
            satisfied := satisfied + 1;
          } else {
            break;
          }
        } else if req.minTemperature.Some? {
          if req.minTemperature.value <= rec.temperature {
            satisfied := satisfied + 1;
          } else {
            break;
          }
        } else if req.maxTemperature.Some? {
          if req.maxTemperature.value >= rec.temperature {
            satisfied := satisfied + 1;
          } else {
            break;
          }
        } else {
          errors := errors + [OnError(NoTemperatureBound)];
        }
      } else if t == Humidity {
        if req.minHumidity.Some? && req.maxHumidity.Some? {
          if req.minHumidity.value <= rec.humidity && req.maxHumidity.value >= rec.humidity {
            satisfied := satisfied + 1;
          } else {
            break;
          }
        } else if req.minTemperature.Some? {
          if req.minHumidity.GetOr(0) <= rec.humidity {
            satisfied := satisfied + 1;
          } else {
            break;
          }
        } else if req.maxHumidity.Some? {
          if req.maxHumidity.value >= rec.humidity {
            satisfied := satisfied + 1;
          } else {
            break;
          }
        } else {
          errors := errors + [OnError(NoHumidityBound)];
        }
      }
      j := j + 1;
    }
    if j < |types| {
      StaysStopped(req, rec, types, j + 1);
    } else {
      assert types[..j] == types;
    }
  }
}
