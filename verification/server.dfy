/**
 * The two route handlers of the temperature API, each request one atomic step on the collection:
 * POST /api/temperature stores one reading, GET /api/temperature/day lists the readings of a UTC day.
 */
module Server {
  import opened Wrappers
  import opened JsonValue
  import opened Calendar
  import opened Store

  const IncompleteData := "Datos incompletos"
  const ReadingSaved := "Lectura guardada"

  /** What the day query appends to the `date` parameter for the first and the last millisecond of the day. */
  const DayStartSuffix := "T00:00:00.000Z"
  const DayEndSuffix := "T23:59:59.999Z"

  /** Milliseconds from the first to the last millisecond of a day window. */
  const LastMsOfDay := 86399999

  /** A JSON response body: `{ message }`, `{ error }` with a fixed text, `{ error: err.message }`
      (whose text comes from the failing library and is not modelled), or an array of readings. */
  datatype ResponseBody =
    | Message(message: string)
    | Error(error: string)
    | ErrorOfException
    | Documents(items: seq<Reading>)

  datatype Reply = Reply(status: int, body: ResponseBody)

  // ---------------------------------------------------------------- POST /api/temperature

  /** The handler's own check: a falsy `deviceId` or an `undefined` `temperature`. */
  predicate Incomplete(deviceId: Json, temperature: Json)
  {
    !Truthy(deviceId) || temperature.Undefined?
  }

  /** The POST handler as a function of the stored readings: its reply and the readings afterwards. */
  function PostOutcome(documents: seq<Reading>, body: map<string, Json>, now: int, saveFails: bool): (Reply, seq<Reading>)
  {
    var deviceId := Property(body, "deviceId");
    var temperature := Property(body, "temperature");
    if Incomplete(deviceId, temperature) then
      (Reply(400, Error(IncompleteData)), documents)
    else
      var doc := Document(deviceId, temperature);
      if SaveSucceeds(doc, saveFails) then
        (Reply(200, Message(ReadingSaved)), documents + [Stamp(doc, now)])
      else
        (Reply(500, ErrorOfException), documents)
  }

  /** POST /api/temperature. `now` is the clock reading at which the save stamps the document;
      `saveFails` stands for a save that rejects (a cast Mongoose cannot make, or the database). */
  method PostTemperature(store: TemperatureCollection, body: map<string, Json>, now: int, saveFails: bool)
    returns (reply: Reply)
    requires store.Valid()
    modifies store
    ensures store.Valid()
    ensures (reply, store.documents) == PostOutcome(old(store.documents), body, now, saveFails)
  {
    var deviceId := Property(body, "deviceId");
    var temperature := Property(body, "temperature");
    if Incomplete(deviceId, temperature) {
      return Reply(400, Error(IncompleteData));
    }
    var saved := store.Save(Document(deviceId, temperature), now, saveFails);
    if saved {
      reply := Reply(200, Message(ReadingSaved));
    } else {
      reply := Reply(500, ErrorOfException);
    }
  }

  /** A body failing the handler's check is answered 400 "Datos incompletos" and stores nothing;
      a body passing it is never answered 400. */
  lemma PostRejectsIncomplete(documents: seq<Reading>, body: map<string, Json>, now: int, saveFails: bool)
    ensures var (reply, after) := PostOutcome(documents, body, now, saveFails);
            (reply.status == 400 <==> Incomplete(Property(body, "deviceId"), Property(body, "temperature")))
            && (reply.status == 400 ==> reply.body == Error(IncompleteData) && after == documents)
  {
  }

  /** A successful POST appends exactly one reading carrying the submitted `deviceId` and `temperature`,
      stamped with the store's clock, and leaves every earlier reading as it was. */
  lemma PostAppendsOne(documents: seq<Reading>, body: map<string, Json>, now: int, saveFails: bool)
    ensures var (reply, after) := PostOutcome(documents, body, now, saveFails);
            var deviceId, temperature := Property(body, "deviceId"), Property(body, "temperature");
            (reply.status == 200 <==> !Incomplete(deviceId, temperature) && SaveSucceeds(Document(deviceId, temperature), saveFails))
            && (reply.status == 200 ==>
                  reply.body == Message(ReadingSaved)
                  && |after| == |documents| + 1
                  && after[..|documents|] == documents
                  && after[|documents|].deviceId == deviceId
                  && after[|documents|].temperature == temperature
                  && after[|documents|].createdAt == now)
  {
  }

  /** Every other outcome is a 500 that stores nothing. */
  lemma PostFailureStoresNothing(documents: seq<Reading>, body: map<string, Json>, now: int, saveFails: bool)
    ensures var (reply, after) := PostOutcome(documents, body, now, saveFails);
            reply.status in {200, 400, 500}
            && (reply.status == 500 ==> reply.body == ErrorOfException && after == documents)
            && (saveFails ==> after == documents)
  {
  }

  /** `temperature: null`, or `""` (which Mongoose's Number cast turns into null), passes the
      handler's check (it is not `undefined`) but fails the schema's required validator, so the
      request is answered 500 and nothing is stored. */
  lemma PostBlankTemperature(documents: seq<Reading>, body: map<string, Json>, now: int, saveFails: bool)
    requires Truthy(Property(body, "deviceId"))
    requires Property(body, "temperature") == Null || Property(body, "temperature") == Str("")
    ensures PostOutcome(documents, body, now, saveFails) == (Reply(500, ErrorOfException), documents)
  {
  }

  /** Only `deviceId` and `temperature` are read from the body: any other property, a client-sent
      `createdAt` included, changes nothing. */
  lemma PostReadsOnlyTwoFields(documents: seq<Reading>, b1: map<string, Json>, b2: map<string, Json>, now: int, saveFails: bool)
    requires Property(b1, "deviceId") == Property(b2, "deviceId")
    requires Property(b1, "temperature") == Property(b2, "temperature")
    ensures PostOutcome(documents, b1, now, saveFails) == PostOutcome(documents, b2, now, saveFails)
  {
  }

  lemma PostIgnoresClientTimestamp(documents: seq<Reading>, body: map<string, Json>, sent: Json, now: int, saveFails: bool)
    ensures PostOutcome(documents, body["createdAt" := sent], now, saveFails) == PostOutcome(documents, body, now, saveFails)
  {
    PostReadsOnlyTwoFields(documents, body["createdAt" := sent], body, now, saveFails);
  }

  /** Stored readings stay well formed: they passed the required validators and carry one timestamp. */
  lemma PostKeepsWellFormed(documents: seq<Reading>, body: map<string, Json>, now: int, saveFails: bool)
    requires forall i :: 0 <= i < |documents| ==> WellFormed(documents[i])
    ensures var after := PostOutcome(documents, body, now, saveFails).1;
            forall i :: 0 <= i < |after| ==> WellFormed(after[i])
  {
  }

  // ---------------------------------------------------------------- GET /api/temperature/day

  /** The query document built from the `date` parameter: none when it is absent or empty,
      otherwise `createdAt` between `new Date(date + "T00:00:00.000Z")` and `new Date(date + "T23:59:59.999Z")`. */
  function DayFilter(date: Option<string>): (f: Filter)
    ensures f.CreatedBetween? ==> (f.gte.Some? <==> f.lte.Some?)
    ensures f.CreatedBetween? && f.gte.Some? ==> f.gte.value % MsPerDay == 0 && f.lte.value == f.gte.value + LastMsOfDay
  {
    if date.None? || date.value == "" then All
    else
      var s := date.value;
      DayBounds(s);
      CreatedBetween(TimeValue(s + DayStartSuffix), TimeValue(s + DayEndSuffix))
  }

  /** Both suffixes are valid times of day, so the two bounds are both Invalid Dates or both
      instants of the day the date names: its first and its last millisecond. */
  lemma DayBounds(s: string)
    ensures var d := ParseDateForm(s);
            TimeValue(s + DayStartSuffix) == (if d.Some? then Some(MakeDay(d.value) * MsPerDay) else None)
            && TimeValue(s + DayEndSuffix) == (if d.Some? then Some(MakeDay(d.value) * MsPerDay + LastMsOfDay) else None)
            && (d.Some? ==> (MakeDay(d.value) * MsPerDay) % MsPerDay == 0)
  {
    StartBound(s);
    EndBound(s);
    var d := ParseDateForm(s);
    if d.Some? {
      MidnightOfDay(MakeDay(d.value));
    }
  }

  lemma StartBound(s: string)
    ensures var d := ParseDateForm(s);
            TimeValue(s + DayStartSuffix) == (if d.Some? then Some(MakeDay(d.value) * MsPerDay) else None)
  {
    var start := s + DayStartSuffix;
    assert start[..|start| - 14] == s && start[|start| - 14..] == DayStartSuffix;
    StartOfDayTime();
  }

  lemma EndBound(s: string)
    ensures var d := ParseDateForm(s);
            TimeValue(s + DayEndSuffix) == (if d.Some? then Some(MakeDay(d.value) * MsPerDay + LastMsOfDay) else None)
  {
    var end := s + DayEndSuffix;
    assert end[..|end| - 14] == s && end[|end| - 14..] == DayEndSuffix;
    EndOfDayTime();
  }

  lemma MidnightOfDay(n: int)
    ensures (n * MsPerDay) % MsPerDay == 0
  {
    assert n * MsPerDay == n * MsPerDay + 0;
  }

  /** The GET handler as a function of the stored readings. */
  function DayReply(documents: seq<Reading>, date: Option<string>, queryFails: bool): (r: Reply)
    ensures r.status == 200 || r.status == 500
    ensures r.status == 200 <==> !queryFails && DayFilter(date).Castable()
    ensures r.status == 500 ==> r.body == ErrorOfException
  {
    match FindResult(documents, DayFilter(date), queryFails)
    case None => Reply(500, ErrorOfException)
    case Some(items) => Reply(200, Documents(items))
  }

  /** GET /api/temperature/day. It reads the collection and does not change it, so its reply is
      a function of the stored readings: asked twice of the same store it answers the same.
      `queryFails` stands for a database failure. */
  method GetTemperatureDay(store: TemperatureCollection, date: Option<string>, queryFails: bool) returns (reply: Reply)
    ensures reply == DayReply(store.documents, date, queryFails)
  {
    var filter := DayFilter(date);
    var found := store.Find(filter, queryFails);
    match found
    case None =>
      reply := Reply(500, ErrorOfException);
    case Some(items) =>
      reply := Reply(200, Documents(items));
  }

  lemma StartOfDayTime()
    ensures ParseTimeOfDay(DayStartSuffix) == Some(0)
  {
    var t := DayStartSuffix;
    TimeFieldValues(t);
  }

  lemma EndOfDayTime()
    ensures ParseTimeOfDay(DayEndSuffix) == Some(LastMsOfDay)
  {
    var t := DayEndSuffix;
    TimeFieldValues(t);
  }

  /** The digit fields of a time part, read digit by digit. */
  lemma TimeFieldValues(t: string)
    requires |t| == 14 && AllDigits(t[1..3]) && AllDigits(t[4..6]) && AllDigits(t[7..9]) && AllDigits(t[10..13])
    ensures DecimalValue(t[1..3]) == Digit(t[1]) * 10 + Digit(t[2])
    ensures DecimalValue(t[4..6]) == Digit(t[4]) * 10 + Digit(t[5])
    ensures DecimalValue(t[7..9]) == Digit(t[7]) * 10 + Digit(t[8])
    ensures DecimalValue(t[10..13]) == Digit(t[10]) * 100 + Digit(t[11]) * 10 + Digit(t[12])
  {
    assert t[1..3][..1] == [t[1]];
    assert t[4..6][..1] == [t[4]];
    assert t[7..9][..1] == [t[7]];
    assert t[10..13][..2] == t[10..12];
    assert t[10..12][..1] == [t[10]];
    assert DecimalValue(t[10..12]) == Digit(t[10]) * 10 + Digit(t[11]);
  }

  /** With a date the parser accepts, the window runs from the first to the last millisecond
      of that UTC day: 86 399 999 ms from start to end. */
  lemma DayWindowOfDate(s: string, c: CivilDate)
    requires ParseDateForm(s) == Some(c)
    ensures DayFilter(Some(s)) == CreatedBetween(Some(MakeDay(c) * MsPerDay), Some(MakeDay(c) * MsPerDay + LastMsOfDay))
  {
    DayBounds(s);
  }

  /** With a non-empty date the parser rejects, both bounds are Invalid Dates. */
  lemma DayWindowOfMalformedDate(s: string)
    requires s != "" && ParseDateForm(s).None?
    ensures DayFilter(Some(s)) == CreatedBetween(None, None)
  {
    DayBounds(s);
  }

  /** An instant is in the window of a date exactly when it falls on that UTC day. */
  lemma InstantInDayWindow(c: CivilDate, t: int)
    requires InFormatRange(c)
    ensures var w := DayFilter(Some(FormatDate(c)));
            w.gte.Some? && w.lte.Some?
            && (w.gte.value <= t <= w.lte.value <==> t / MsPerDay == MakeDay(c))
  {
    WindowOfFormattedDate(c);
    InstantOfDay(MakeDay(c), t);
  }

  /** The window of a calendar date ends one millisecond before the window of the next date starts. */
  lemma ConsecutiveDayWindows(c: CivilDate)
    requires IsCalendarDate(c) && NextDate(c).year <= 9999
    ensures var today, tomorrow := DayFilter(Some(FormatDate(c))), DayFilter(Some(FormatDate(NextDate(c))));
            today.lte.Some? && tomorrow.gte.Some? && today.lte.value + 1 == tomorrow.gte.value
  {
    var n := NextDate(c);
    ParseFormattedDate(c);
    ParseFormattedDate(n);
    DayWindowOfDate(FormatDate(c), c);
    DayWindowOfDate(FormatDate(n), n);
    NextDateIsNextDay(c);
  }

  /** The windows of two different calendar dates share no instant. */
  lemma DayWindowsDisjoint(a: CivilDate, b: CivilDate, t: int)
    requires IsCalendarDate(a) && IsCalendarDate(b) && a != b
    ensures var wa, wb := DayFilter(Some(FormatDate(a))), DayFilter(Some(FormatDate(b)));
            wa.Castable() && wb.Castable()
            && !(wa.gte.value <= t <= wa.lte.value && wb.gte.value <= t <= wb.lte.value)
  {
    InstantInDayWindow(a, t);
    InstantInDayWindow(b, t);
    if MakeDay(a) == MakeDay(b) {
      MakeDayInjective(a, b);
    }
  }

  /** A GET with a date the parser accepts answers 200 with exactly the stored readings whose
      `createdAt` lies in that day's window, each as often as it is stored, ascending by `createdAt`. */
  lemma DayReplyForDate(documents: seq<Reading>, s: string, c: CivilDate)
    requires ParseDateForm(s) == Some(c)
    ensures var r := DayReply(documents, Some(s), false);
            var start := MakeDay(c) * MsPerDay;
            r.status == 200 && r.body.Documents?
            && SortedByCreatedAt(r.body.items)
            && forall x :: multiset(r.body.items)[x] ==
                 if start <= x.createdAt <= start + LastMsOfDay then multiset(documents)[x] else 0
  {
    DayWindowOfDate(s, c);
  }

  /** A GET without a date, or with an empty one, filters nothing: every stored reading, ascending by `createdAt`. */
  lemma DayReplyWithoutDate(documents: seq<Reading>, date: Option<string>)
    requires date.None? || date == Some("")
    ensures var r := DayReply(documents, date, false);
            r.status == 200 && r.body.Documents?
            && SortedByCreatedAt(r.body.items)
            && multiset(r.body.items) == multiset(documents)
  {
    var items := DayReply(documents, date, false).body.items;
    assert forall x :: multiset(items)[x] == multiset(documents)[x];
  }

  /** A non-empty date the parser rejects makes the query fail: 500. */
  lemma DayReplyMalformedDate(documents: seq<Reading>, s: string, queryFails: bool)
    requires s != "" && ParseDateForm(s).None?
    ensures DayReply(documents, Some(s), queryFails) == Reply(500, ErrorOfException)
  {
    DayWindowOfMalformedDate(s);
  }

  /** The end-to-end scenario: into an empty collection, POST `{ deviceId: "esp32-1", temperature: 24.5 }`
      at an instant of day `s`; the GET for `s` then lists exactly that reading. */
  lemma PostThenQueryDay(s: string, c: CivilDate, now: int)
    requires ParseDateForm(s) == Some(c)
    requires now / MsPerDay == MakeDay(c)
    ensures var body := map["deviceId" := Str("esp32-1"), "temperature" := Num(24.5)];
            var (reply, after) := PostOutcome([], body, now, false);
            reply == Reply(200, Message(ReadingSaved))
            && DayReply(after, Some(s), false) == Reply(200, Documents([Reading(Str("esp32-1"), Num(24.5), now, now)]))
  {
    var body := map["deviceId" := Str("esp32-1"), "temperature" := Num(24.5)];
    var r := Reading(Str("esp32-1"), Num(24.5), now, now);
    var after := PostOutcome([], body, now, false).1;
    assert after == [r];
    InstantOfDay(MakeDay(c), now);
    DayReplyForDate(after, s, c);
    var items := DayReply(after, Some(s), false).body.items;
    assert multiset(items) == multiset{r} by {
      assert forall x :: multiset(items)[x] == multiset{r}[x];
    }
    SingletonFromMultiset(items, r);
  }

  lemma SingletonFromMultiset(items: seq<Reading>, r: Reading)
    requires multiset(items) == multiset{r}
    ensures items == [r]
  {
    assert |items| == |multiset(items)| == 1;
    assert items[0] in multiset(items);
  }

  /** `?date=1970-01-01` selects the first 86 400 000 milliseconds after the epoch. */
  lemma EpochDayWindow()
    ensures DayFilter(Some("1970-01-01")) == CreatedBetween(Some(0), Some(86399999))
  {
    var c := CivilDate(1970, 1, 1);
    EpochWritten();
    EpochIsDayZero();
    WindowOfFormattedDate(c);
  }

  lemma EpochWritten()
    ensures FormatDate(CivilDate(1970, 1, 1)) == "1970-01-01"
  {
  }

  /** The window of a date given by its written form. */
  lemma WindowOfFormattedDate(c: CivilDate)
    requires InFormatRange(c)
    ensures DayFilter(Some(FormatDate(c))) == CreatedBetween(Some(MakeDay(c) * MsPerDay), Some(MakeDay(c) * MsPerDay + LastMsOfDay))
  {
    ParseFormattedDate(c);
    DayWindowOfDate(FormatDate(c), c);
  }

}
