/** The usage-API side of the dashboard: the request body sent for a date
    range, the normalisation of each returned entry into a metrics record,
    and the conversion of the API's date values into the fixed-width UTC
    text form `YYYY-MM-DDThh:mm:ss.ffffffZ`. */
module CursorApi {
  import opened Wrappers
  import opened Timestamps
  import opened MetricsFrame

  // ---------------------------------------------------------------------
  // Date conversion

  /** What an entry's `date` member can hold: a number, a string, or
      nothing usable (missing, null or another JSON type). */
  datatype DateInput = EpochNumber(n: int) | Text(s: string) | NoDate

  /** Epoch numbers above this are read as milliseconds, the rest as seconds. */
  const MillisThreshold := 10_000_000_000

  /** An epoch number in microseconds, under the seconds/milliseconds heuristic. */
  function EpochInputMicros(n: int): int {
    if n > MillisThreshold then n * 1000 else n * MicrosPerSecond
  }

  /** The instant a date value denotes. `now` stands for the wall clock read
      when the value is neither a number nor a string; `fallback` stands for
      the parsers tried on text that is not in the fixed-width form. */
  function ToInstant(input: DateInput, now: Instant, fallback: string -> Option<Instant>)
    : Result<Instant, ConversionError>
  {
    match input
    case EpochNumber(n) => FromEpochMicros(EpochInputMicros(n))
    case Text(s) =>
      (match ParseIso(s)
       case Some(t) => Success(t)
       case None =>
         match fallback(s)
         case Some(t) => Success(t)
         case None => Failure(Unparseable))
    case NoDate => Success(now)
  }

  /** `convert_to_iso_format`: the fixed-width UTC text of a date value, or
      the error Python raises for it. */
  function ConvertToIso(input: DateInput, now: Instant, fallback: string -> Option<Instant>)
    : (r: Result<string, ConversionError>)
    ensures r.Success? ==> IsoShape(r.value)
  {
    match ToInstant(input, now, fallback)
    case Success(t) => Success(Format(t))
    case Failure(e) => Failure(e)
  }

  /** A number above 10**10 is taken as epoch milliseconds, any other as
      epoch seconds: the text produced denotes exactly that instant. */
  lemma EpochUnitChoice(n: int, now: Instant, fallback: string -> Option<Instant>)
    requires ConvertToIso(EpochNumber(n), now, fallback).Success?
    ensures var s := ConvertToIso(EpochNumber(n), now, fallback).value;
      && ParseIso(s).Some?
      && EpochMicros(ParseIso(s).value) == (if n > 10_000_000_000 then n * 1000 else n * 1_000_000)
  {
    var t := FromEpochMicros(EpochInputMicros(n)).value;
    ParseIsoOfFormat(t);
    EpochMicrosOfFromEpochMicros(EpochInputMicros(n));
  }

  /** An epoch number converts exactly when it falls in years 1..9999. */
  lemma EpochConversionSucceeds(n: int, now: Instant, fallback: string -> Option<Instant>)
    ensures ConvertToIso(EpochNumber(n), now, fallback).Success?
            <==> FirstMicros <= EpochInputMicros(n) < EndMicros
  {
    FromEpochMicrosSucceeds(EpochInputMicros(n));
  }

  /** Every epoch-seconds value from 1970 up to the millisecond threshold converts. */
  lemma SecondsFrom1970Convert(n: int, now: Instant, fallback: string -> Option<Instant>)
    requires 0 <= n <= MillisThreshold
    ensures ConvertToIso(EpochNumber(n), now, fallback).Success?
  {
    EpochConversionSucceeds(n, now, fallback);
  }

  /** Feeding the function its own output gives the same text back,
      whatever the clock and the fallback parsers. */
  lemma ConvertIdempotent(input: DateInput, now: Instant, fallback: string -> Option<Instant>,
                          now': Instant, fallback': string -> Option<Instant>)
    requires ConvertToIso(input, now, fallback).Success?
    ensures var s := ConvertToIso(input, now, fallback).value;
      ConvertToIso(Text(s), now', fallback') == Success(s)
  {
    var t := ToInstant(input, now, fallback).value;
    ParseIsoOfFormat(t);
  }

  // ---------------------------------------------------------------------
  // Entry normalisation

  /** A JSON member: missing, present as null, or present with a value. */
  datatype Field<T> = Absent | Null | Present(value: T)

  /** One element of the response's `data` list. */
  datatype ApiEntry = ApiEntry(
    date: DateInput,
    email: Field<string>,
    isActive: Field<bool>,
    subscriptionIncludedReqs: Field<int>,
    usageBasedReqs: Field<int>)

  /** The decoded API response: none at all (or an empty object), or an
      object and its `data` member. */
  datatype ApiResponse = NoResponse | Response(data: Field<seq<ApiEntry>>)

  datatype TransformError =
    | BadDate(reason: ConversionError)  // convert_to_iso_format raised
    | NullCount                         // int(None) raised TypeError
    | NullData                          // iterating a null `data` raised TypeError
    | OutOfBoundsDate                   // pd.to_datetime raised OutOfBoundsDatetime

  /** The record dict built for one entry, before the keep/drop test. Its
      `Date` is the text `Format(date)`; the instant is kept so that the
      DataFrame's parse of that column, a round trip (`ParseIsoOfFormat`)
      for every instant a pandas `Timestamp` can hold, needs no re-reading
      here. */
  datatype Normalized = Normalized(
    date: Instant,
    email: string,
    isActive: bool,
    subscriptionIncludedReqs: int,
    usageBasedReqs: int)

  /** `int(entry.get(key, 0))`. */
  function CountOf(f: Field<int>): Result<int, TransformError> {
    match f
    case Absent => Success(0)
    case Null => Failure(NullCount)
    case Present(n) => Success(n)
  }

  /** The email an entry is kept under, `""` when it has none (a missing
      member and a null are both falsy). */
  function EmailOf(e: ApiEntry): string {
    if e.email.Present? then e.email.value else ""
  }

  /** `bool(entry.get('isActive', False))`. */
  predicate ActiveOf(e: ApiEntry) {
    e.isActive == Present(true)
  }

  predicate HasEmail(e: ApiEntry) {
    EmailOf(e) != ""
  }

  /** The record dict of one entry, its members evaluated in the order
      written, so the first failing member decides the error. */
  function NormalizeEntry(e: ApiEntry, now: Instant, fallback: string -> Option<Instant>)
    : Result<Normalized, TransformError>
  {
    match ToInstant(e.date, now, fallback)
    case Failure(err) => Failure(BadDate(err))
    case Success(date) =>
      match CountOf(e.subscriptionIncludedReqs)
      case Failure(err) => Failure(err)
      case Success(subs) =>
        match CountOf(e.usageBasedReqs)
        case Failure(err) => Failure(err)
        case Success(usage) => Success(Normalized(date, EmailOf(e), ActiveOf(e), subs, usage))
  }

  /** The validation test: `record['Email'] and record['Date']`. */
  predicate Keeps(n: Normalized) {
    n.email != "" && Format(n.date) != ""
  }

  /** The date test never drops an entry: the converted text is never empty. */
  lemma KeepsIffEmail(n: Normalized)
    ensures Keeps(n) <==> n.email != ""
  {
  }

  /** The DataFrame row of a kept dict. */
  function ToRecord(n: Normalized): UsageRecord {
    UsageRecord(n.date, n.email, n.isActive, n.subscriptionIncludedReqs, n.usageBasedReqs)
  }

  /** The records the loop has appended after processing es. */
  function TransformEntries(es: seq<ApiEntry>, now: Instant, fallback: string -> Option<Instant>)
    : Result<seq<UsageRecord>, TransformError>
  {
    if es == [] then Success([])
    else
      match TransformEntries(es[..|es| - 1], now, fallback)
      case Failure(err) => Failure(err)
      case Success(rs) =>
        match NormalizeEntry(es[|es| - 1], now, fallback)
        case Failure(err) => Failure(err)
        case Success(n) => Success(if Keeps(n) then rs + [ToRecord(n)] else rs)
  }

  /** The span of a pandas `Timestamp`, 64-bit nanoseconds around the epoch
      (1677-09-21T00:12:43.145224193 to 2262-04-11T23:47:16.854775807), in
      the whole microseconds a parsed date carries; this is the range of
      pandas 1.x and 2.x, which parse strings at nanosecond resolution. */
  const PandasMinMicros := -9_223_372_036_854_775
  const PandasMaxMicros := 9_223_372_036_854_775

  /** `pd.to_datetime` can hold the instant without raising. */
  predicate InPandasRange(t: Instant) {
    PandasMinMicros <= EpochMicros(t) <= PandasMaxMicros
  }

  predicate AllInPandasRange(rs: seq<UsageRecord>) {
    forall i :: 0 <= i < |rs| ==> InPandasRange(rs[i].date)
  }

  /** `transform_cursor_data_to_dataframe`: the records of the loop, unless
      the column parse that follows it meets a date pandas cannot hold. An
      empty list returns before that parse. */
  function Transform(response: ApiResponse, now: Instant, fallback: string -> Option<Instant>)
    : Result<seq<UsageRecord>, TransformError>
  {
    match response
    case NoResponse => Success([])
    case Response(Absent) => Success([])
    case Response(Null) => Failure(NullData)
    case Response(Present(es)) =>
      match TransformEntries(es, now, fallback)
      case Failure(err) => Failure(err)
      case Success(rs) => if AllInPandasRange(rs) then Success(rs) else Failure(OutOfBoundsDate)
  }

  /** `transform_cursor_data_to_dataframe` as the loop it is. */
  method TransformCursorData(response: ApiResponse, now: Instant, fallback: string -> Option<Instant>)
    returns (r: Result<seq<UsageRecord>, TransformError>)
    ensures r == Transform(response, now, fallback)
  {
    if response.NoResponse? || response.data.Absent? {
      return Success([]);
    }
    if response.data.Null? {
      return Failure(NullData);
    }
    var es := response.data.value;
    var records: seq<UsageRecord> := [];
    for i := 0 to |es|
      invariant TransformEntries(es[..i], now, fallback) == Success(records)
    {
      assert es[..i + 1][..i] == es[..i];
      var normalized := NormalizeEntry(es[i], now, fallback);
      assert TransformEntries(es[..i + 1], now, fallback)
          == if normalized.Failure? then Failure(normalized.error)
             else Success(if Keeps(normalized.value) then records + [ToRecord(normalized.value)] else records);
      if normalized.Failure? {
        FailurePersists(es, i + 1, now, fallback);
        return Failure(normalized.error);
      }
      var record := normalized.value;
      if record.email != "" && Format(record.date) != "" {
        records := records + [ToRecord(record)];
      }
    }
    assert es[..|es|] == es;
    if !AllInPandasRange(records) {
      return Failure(OutOfBoundsDate);
    }
    r := Success(records);
  }

  /** The entries that carry a non-empty email, in their original order. */
  function WithEmail(es: seq<ApiEntry>): seq<ApiEntry> {
    if es == [] then []
    else WithEmail(es[..|es| - 1]) + (if HasEmail(es[|es| - 1]) then [es[|es| - 1]] else [])
  }

  /** Keeping entries preserves their relative order: the survivors of a
      concatenation are those of each part, one after the other. */
  lemma {:induction false} WithEmailAppend(a: seq<ApiEntry>, b: seq<ApiEntry>)
    ensures WithEmail(a + b) == WithEmail(a) + WithEmail(b)
    decreases |b|
  {
    if b == [] {
      assert a + b == a;
    } else {
      var b' := b[..|b| - 1];
      assert (a + b)[..|a + b| - 1] == a + b';
      assert (a + b)[|a + b| - 1] == b[|b| - 1];
      WithEmailAppend(a, b');
    }
  }

  /** An entry survives exactly when it is in the input and has an email. */
  lemma {:induction false} WithEmailMembers(es: seq<ApiEntry>, e: ApiEntry)
    ensures e in WithEmail(es) <==> e in es && HasEmail(e)
  {
    if es != [] {
      var p := es[..|es| - 1];
      WithEmailMembers(p, e);
      assert es == p + [es[|es| - 1]];
    }
  }

  /** Once the loop has raised, later entries change nothing: the error of
      a prefix is the error of the whole list. */
  lemma {:induction false} FailurePersists(es: seq<ApiEntry>, k: nat, now: Instant, fallback: string -> Option<Instant>)
    requires k <= |es| && TransformEntries(es[..k], now, fallback).Failure?
    ensures TransformEntries(es, now, fallback) == TransformEntries(es[..k], now, fallback)
    decreases |es| - k
  {
    if k < |es| {
      var p := es[..|es| - 1];
      assert p[..k] == es[..k];
      FailurePersists(p, k, now, fallback);
    } else {
      assert es[..k] == es;
    }
  }

  /** An entry whose dict cannot be built makes the whole transform raise. */
  lemma {:induction false} FailureAt(es: seq<ApiEntry>, i: nat, now: Instant, fallback: string -> Option<Instant>)
    requires i < |es| && NormalizeEntry(es[i], now, fallback).Failure?
    ensures TransformEntries(es, now, fallback).Failure?
  {
    var p := es[..|es| - 1];
    if i < |es| - 1 {
      assert p[i] == es[i];
      FailureAt(p, i, now, fallback);
    }
  }

  /** A transform that raises has a first entry whose dict cannot be built,
      and that entry's error is the one raised. */
  lemma {:induction false} FailureHasCause(es: seq<ApiEntry>, now: Instant, fallback: string -> Option<Instant>)
    requires TransformEntries(es, now, fallback).Failure?
    ensures exists i :: 0 <= i < |es| && NormalizeEntry(es[i], now, fallback) == Failure(TransformEntries(es, now, fallback).error)
  {
    var p := es[..|es| - 1];
    if TransformEntries(p, now, fallback).Failure? {
      FailureHasCause(p, now, fallback);
      var i :| 0 <= i < |p| && NormalizeEntry(p[i], now, fallback) == Failure(TransformEntries(p, now, fallback).error);
      assert p[i] == es[i];
    } else {
      assert NormalizeEntry(es[|es| - 1], now, fallback) == Failure(TransformEntries(es, now, fallback).error);
    }
  }

  /** The transform raises exactly when some entry's dict cannot be built:
      a bad date, or a null request count. */
  lemma TransformEntriesFails(es: seq<ApiEntry>, now: Instant, fallback: string -> Option<Instant>)
    ensures TransformEntries(es, now, fallback).Failure?
            <==> exists i :: 0 <= i < |es| && NormalizeEntry(es[i], now, fallback).Failure?
  {
    if TransformEntries(es, now, fallback).Failure? {
      FailureHasCause(es, now, fallback);
    }
    if exists i :: 0 <= i < |es| && NormalizeEntry(es[i], now, fallback).Failure? {
      var i :| 0 <= i < |es| && NormalizeEntry(es[i], now, fallback).Failure?;
      FailureAt(es, i, now, fallback);
    }
  }

  /** The record an entry with an email becomes: its email, its `isActive`
      (false when missing or null), its counts (0 when missing) and its date
      as converted (whose text, `ConvertToIso`, is `Format` of that instant). */
  predicate RecordOf(e: ApiEntry, r: UsageRecord, now: Instant, fallback: string -> Option<Instant>) {
    && r.email == EmailOf(e) && r.email != ""
    && r.isActive == ActiveOf(e)
    && CountOf(e.subscriptionIncludedReqs) == Success(r.subscriptionIncludedReqs)
    && CountOf(e.usageBasedReqs) == Success(r.usageBasedReqs)
    && ToInstant(e.date, now, fallback) == Success(r.date)
  }

  /** What a successful transform holds: one record per entry with an email,
      in input order, each the `RecordOf` its entry. */
  lemma {:induction false} TransformEntriesContents(es: seq<ApiEntry>, now: Instant, fallback: string -> Option<Instant>)
    requires TransformEntries(es, now, fallback).Success?
    ensures var rs := TransformEntries(es, now, fallback).value;
      var w := WithEmail(es);
      && |rs| == |w|
      && forall j :: 0 <= j < |rs| ==> RecordOf(w[j], rs[j], now, fallback)
  {
    if es != [] {
      var p := es[..|es| - 1];
      var e := es[|es| - 1];
      TransformEntriesContents(p, now, fallback);
      var n := NormalizeEntry(e, now, fallback).value;
      KeepsIffEmail(n);
      if HasEmail(e) {
        assert TransformEntries(es, now, fallback).value == TransformEntries(p, now, fallback).value + [ToRecord(n)];
        assert RecordOf(e, ToRecord(n), now, fallback);
      }
    }
  }

  /** The entry's date converts to an instant pandas can hold. */
  predicate DateInPandasRange(e: ApiEntry, now: Instant, fallback: string -> Option<Instant>) {
    ToInstant(e.date, now, fallback).Success? && InPandasRange(ToInstant(e.date, now, fallback).value)
  }

  /** After a loop that raised nothing, the transform succeeds exactly when
      every entry with an email has a date pandas can hold, and otherwise
      raises `OutOfBoundsDatetime`. */
  lemma TransformPandasRange(es: seq<ApiEntry>, now: Instant, fallback: string -> Option<Instant>)
    requires TransformEntries(es, now, fallback).Success?
    ensures Transform(Response(Present(es)), now, fallback).Success?
            <==> forall e :: e in WithEmail(es) ==> DateInPandasRange(e, now, fallback)
    ensures Transform(Response(Present(es)), now, fallback).Failure? ==>
            Transform(Response(Present(es)), now, fallback) == Failure(OutOfBoundsDate)
  {
    var rs := TransformEntries(es, now, fallback).value;
    var w := WithEmail(es);
    TransformEntriesContents(es, now, fallback);
    assert Transform(Response(Present(es)), now, fallback)
        == if AllInPandasRange(rs) then Success(rs) else Failure(OutOfBoundsDate);
    if AllInPandasRange(rs) {
      forall e | e in w
        ensures DateInPandasRange(e, now, fallback)
      {
        var j :| 0 <= j < |w| && w[j] == e;
        assert RecordOf(w[j], rs[j], now, fallback);
        assert InPandasRange(rs[j].date);
      }
    } else {
      var j :| 0 <= j < |rs| && !InPandasRange(rs[j].date);
      assert RecordOf(w[j], rs[j], now, fallback);
      assert !DateInPandasRange(w[j], now, fallback);
      assert w[j] in w;
    }
  }

  /** No response, or one without `data`, gives no records; so does a list
      none of whose entries has an email. */
  lemma EmptyResults(response: ApiResponse, now: Instant, fallback: string -> Option<Instant>)
    ensures response.NoResponse? || response == Response(Absent) ==> Transform(response, now, fallback) == Success([])
    ensures response.Response? && response.data.Present? && Transform(response, now, fallback).Success?
            && (forall e :: e in response.data.value ==> !HasEmail(e))
            ==> Transform(response, now, fallback) == Success([])
  {
    if response.Response? && response.data.Present? && Transform(response, now, fallback).Success? {
      var es := response.data.value;
      TransformEntriesContents(es, now, fallback);
      if forall e :: e in es ==> !HasEmail(e) {
        if WithEmail(es) != [] {
          WithEmailMembers(es, WithEmail(es)[0]);
        }
      }
    }
  }

  // ---------------------------------------------------------------------
  // Request body

  /** Start of the reporting window when neither the caller nor the
      environment gives one (2025-05-01T00:00:00Z). */
  const DefaultStartEpoch := 1746057600

  /** The environment the request reads: the API key and an optional start epoch. */
  datatype ApiEnv = ApiEnv(apiKey: Option<string>, startDateEpoch: Option<int>)

  /** The JSON body of the POST request, in epoch milliseconds. */
  datatype RequestBody = RequestBody(startDate: int, endDate: int)

  datatype RequestError =
    | MissingApiKey    // the ValueError raised before the request is built
    | BoundOutOfRange  // the log line's `fromtimestamp` raised; the function returns None

  /** The start epoch in seconds: the argument, else the environment's, else the default. */
  function StartSeconds(env: ApiEnv, start: Option<int>): int {
    if start.Some? then start.value
    else if env.startDateEpoch.Some? then env.startDateEpoch.value
    else DefaultStartEpoch
  }

  /** The end epoch in seconds: the argument, else the clock. */
  function EndSeconds(end: Option<int>, nowSeconds: int): int {
    if end.Some? then end.value else nowSeconds
  }

  /** The wall-clock time of `seconds` in the host's zone, whose offset from
      UTC at that moment is `utcOffset(seconds)` seconds, lies in years 1..9999. */
  predicate LocalInRange(seconds: int, utcOffset: int -> int) {
    FromEpochMicros((seconds + utcOffset(seconds)) * MicrosPerSecond).Success?
  }

  /** How far back a zone-less `fromtimestamp` probes for a fold: one day. */
  const MaxFoldSeconds := 86400

  /** A zone-less `datetime.fromtimestamp(seconds)` does not raise. Besides the
      time itself it converts the time one day earlier and, when the zone's
      offset fell over that day, the time shifted back by the fall; any of
      the three outside years 1..9999 raises `ValueError`. */
  predicate LocalTimeConverts(seconds: int, utcOffset: int -> int) {
    var probe := seconds - MaxFoldSeconds;
    var transition := utcOffset(seconds) - utcOffset(probe);
    && LocalInRange(seconds, utcOffset)
    && LocalInRange(probe, utcOffset)
    && (transition < 0 ==> LocalInRange(seconds + transition, utcOffset))
  }

  /** What `get_cursor_api_data` does before the POST: raise when the API key
      is unset or empty; return None when the log line cannot print a bound
      as a local date; else build the body. */
  function BuildRequestBody(env: ApiEnv, start: Option<int>, end: Option<int>, nowSeconds: int,
                            utcOffset: int -> int)
    : Result<RequestBody, RequestError>
  {
    if env.apiKey.None? || env.apiKey.value == "" then Failure(MissingApiKey)
    else
      var s := StartSeconds(env, start);
      var e := EndSeconds(end, nowSeconds);
      if !LocalTimeConverts(s, utcOffset) || !LocalTimeConverts(e, utcOffset) then Failure(BoundOutOfRange)
      else Success(RequestBody(s * 1000, e * 1000))
  }

  /** Without a key the call raises, whatever the dates; with one, a bound
      the log line cannot print makes it return None; otherwise both bounds
      are the chosen second counts in whole milliseconds. */
  lemma RequestBodyInMillis(env: ApiEnv, start: Option<int>, end: Option<int>, nowSeconds: int,
                            utcOffset: int -> int)
    ensures BuildRequestBody(env, start, end, nowSeconds, utcOffset) == Failure(MissingApiKey)
            <==> env.apiKey.None? || env.apiKey == Some("")
    ensures BuildRequestBody(env, start, end, nowSeconds, utcOffset) == Failure(BoundOutOfRange)
            <==> && env.apiKey.Some? && env.apiKey.value != ""
                 && !(LocalTimeConverts(StartSeconds(env, start), utcOffset)
                      && LocalTimeConverts(EndSeconds(end, nowSeconds), utcOffset))
    ensures BuildRequestBody(env, start, end, nowSeconds, utcOffset).Success? ==>
      var b := BuildRequestBody(env, start, end, nowSeconds, utcOffset).value;
      && b.startDate % 1000 == 0 && b.startDate / 1000 == StartSeconds(env, start)
      && b.endDate % 1000 == 0 && b.endDate / 1000 == EndSeconds(end, nowSeconds)
  {
    var s := StartSeconds(env, start);
    var e := EndSeconds(end, nowSeconds);
    var ok := LocalTimeConverts(s, utcOffset) && LocalTimeConverts(e, utcOffset);
    assert env.apiKey.Some? && env.apiKey.value != "" ==>
      BuildRequestBody(env, start, end, nowSeconds, utcOffset)
        == if ok then Success(RequestBody(s * 1000, e * 1000)) else Failure(BoundOutOfRange);
  }

  /** With a key, bounds between 1970 and the millisecond threshold and a
      zone always within a day of UTC, a body is always built, fold probes
      included. */
  lemma ModernWindowBuilds(env: ApiEnv, start: Option<int>, end: Option<int>, nowSeconds: int,
                           utcOffset: int -> int)
    requires env.apiKey.Some? && env.apiKey.value != ""
    requires 0 <= StartSeconds(env, start) <= MillisThreshold
    requires 0 <= EndSeconds(end, nowSeconds) <= MillisThreshold
    requires forall t :: -86400 <= utcOffset(t) <= 86400
    ensures BuildRequestBody(env, start, end, nowSeconds, utcOffset).Success?
  {
    ModernBoundConverts(StartSeconds(env, start), utcOffset);
    ModernBoundConverts(EndSeconds(end, nowSeconds), utcOffset);
  }

  lemma ModernBoundConverts(seconds: int, utcOffset: int -> int)
    requires 0 <= seconds <= MillisThreshold
    requires forall t :: -86400 <= utcOffset(t) <= 86400
    ensures LocalTimeConverts(seconds, utcOffset)
  {
    var probe := seconds - MaxFoldSeconds;
    var shifted := seconds + (utcOffset(seconds) - utcOffset(probe));
    FromEpochMicrosSucceeds((seconds + utcOffset(seconds)) * MicrosPerSecond);
    FromEpochMicrosSucceeds((probe + utcOffset(probe)) * MicrosPerSecond);
    FromEpochMicrosSucceeds((shifted + utcOffset(shifted)) * MicrosPerSecond);
  }

  /** The first second of year 1, 0001-01-01T00:00:00, in epoch seconds. */
  const FirstDaySeconds := -62_135_596_800

  /** In UTC a start bound at the very first second of year 1 can itself be
      printed, yet the call returns None: the fold probe a day earlier falls
      in year 0. */
  lemma FoldProbeRejectsFirstDay(env: ApiEnv, end: Option<int>, nowSeconds: int,
                                 utcOffset: int -> int)
    requires env.apiKey.Some? && env.apiKey.value != ""
    requires utcOffset(FirstDaySeconds) == 0 && utcOffset(FirstDaySeconds - MaxFoldSeconds) == 0
    ensures LocalInRange(FirstDaySeconds, utcOffset)
    ensures BuildRequestBody(env, Some(FirstDaySeconds), end, nowSeconds, utcOffset)
            == Failure(BoundOutOfRange)
  {
    FromEpochMicrosSucceeds(FirstDaySeconds * MicrosPerSecond);
    FromEpochMicrosSucceeds((FirstDaySeconds - MaxFoldSeconds) * MicrosPerSecond);
  }

  /** A request bound after 1970-04-26T17:46:40Z is read back by
      `convert_to_iso_format` as the very instant it was built from. */
  lemma RequestBoundReadsBack(seconds: int, now: Instant, fallback: string -> Option<Instant>)
    requires MillisThreshold / 1000 < seconds <= MillisThreshold
    ensures ConvertToIso(EpochNumber(seconds * 1000), now, fallback)
            == ConvertToIso(EpochNumber(seconds), now, fallback)
  {
    assert EpochInputMicros(seconds * 1000) == EpochInputMicros(seconds);
  }
}
