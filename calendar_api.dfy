/** The request-level logic of the calendar server: validating create and
    update bodies, reading the id of a delete body and the parameters of a
    query, and the six handlers that combine them with the storage. */
module CalendarApi {
  import opened Common
  import opened GoStrings
  import opened CalendarDates
  import opened CalendarStore

  /** The offset of Europe/Moscow east of UTC, in which query dates are read. */
  const MoscowOffset: int := 3 * 3600

  /** Why a request fails. `Malformed`, `BadDate` and `BadUserId` carry the
      text of a library error; `Panic` is an index out of range that aborts
      the request without a reply. */
  datatype ApiError =
    | WrongMethod
    | Malformed
    | BadDate
    | WrongId
    | WrongUserId
    | NameRequired
    | WrongParams
    | BadUserId
    | Panic
    | StoreFailed(reason: StoreError)

  /** The message of an error whose text the server itself chooses. */
  function Message(e: ApiError): Option<string> {
    match e
    case WrongMethod => Some("wrong method")
    case WrongId => Some("wrong id")
    case WrongUserId => Some("wrong user_id")
    case NameRequired => Some("name is required")
    case WrongParams => Some("wrong params")
    case StoreFailed(r) => Some(StoreMessage(r))
    case _ => None
  }

  datatype Result<T> = Ok(value: T) | Fail(error: ApiError)

  /** A decoded create or update body: absent numbers decode as 0, an
      absent name as "", an absent date as None. */
  datatype RawEvent = RawEvent(id: int, userId: int, name: string, date: Option<string>)

  /** The instant an event's date field stands for: UTC midnight of the
      date, or the zero time when the field is absent. */
  function EventDate(date: Option<string>): Option<int> {
    if date.None? then Some(Instant(ZeroTime))
    else
      var c := ParseDate(date.value);
      if c.None? then None else Some(EventInstant(c.value))
  }

  /** parseEvent: the body must decode (None when it is not an event
      object), its date field must parse, and then id, user_id and name
      are checked in that order. */
  function ParseEvent(body: Option<RawEvent>): (r: Result<Event>)
    ensures r.Ok? <==> body.Some? && EventDate(body.value.date).Some?
                       && body.value.id >= 0 && body.value.userId >= 0 && body.value.name != ""
    ensures r.Ok? ==> r.value == Event(body.value.id, body.value.userId, body.value.name,
                                       EventDate(body.value.date).value)
  {
    if body.None? then Fail(Malformed)
    else
      var raw := body.value;
      var date := EventDate(raw.date);
      if date.None? then Fail(BadDate)
      else if raw.id < 0 then Fail(WrongId)
      else if raw.userId < 0 then Fail(WrongUserId)
      else if raw.name == "" then Fail(NameRequired)
      else Ok(Event(raw.id, raw.userId, raw.name, date.value))
  }

  /** The checks run in order: the first one that fails decides the error. */
  lemma ParseEventOrder(raw: RawEvent)
    requires EventDate(raw.date).Some?
    ensures raw.id < 0 ==> ParseEvent(Some(raw)) == Fail(WrongId)
    ensures raw.id >= 0 && raw.userId < 0 ==> ParseEvent(Some(raw)) == Fail(WrongUserId)
    ensures raw.id >= 0 && raw.userId >= 0 && raw.name == "" ==> ParseEvent(Some(raw)) == Fail(NameRequired)
    ensures ParseEvent(Some(raw)).Fail? ==> Message(ParseEvent(Some(raw)).error).Some?
  {
  }

  /** An accepted event is dated at UTC midnight of a real date, or at the
      zero time. */
  lemma AcceptedDate(body: Option<RawEvent>)
    requires ParseEvent(body).Ok?
    ensures var e := ParseEvent(body).value;
      e.date == Instant(ZeroTime)
      || exists c :: ValidDate(c) && 0 <= c.year <= 9999 && e.date == EventInstant(c)
  {
    var raw := body.value;
    if raw.date.Some? {
      var c := ParseDate(raw.date.value).value;
      assert ValidDate(c) && 0 <= c.year <= 9999;
    }
  }

  /** parseId: a delete body; an absent id decodes as 0. */
  function ParseId(body: Option<Option<int>>): (r: Result<int>)
    ensures r.Ok? <==> body.Some?
    ensures r.Ok? ==> r.value == if body.value.Some? then body.value.value else 0
  {
    if body.None? then Fail(Malformed)
    else if body.value.None? then Ok(0)
    else Ok(body.value.value)
  }

  /** A query's parameters. */
  datatype Query = Query(userId: int, date: Time)

  /** The first value of a form key, if any. */
  function FirstValue(form: map<string, seq<string>>, key: string): Option<string> {
    if key in form && |form[key]| > 0 then Some(form[key][0]) else None
  }

  /** parseParams: the form (None when it cannot be parsed) must have two
      or three keys; then user_id must be an integer and date a date, read
      as local midnight `offset` seconds east of UTC. A missing key is an
      index out of range. */
  function ParseParams(form: Option<map<string, seq<string>>>, offset: int): (r: Result<Query>)
    ensures r.Ok? ==> form.Some? && 2 <= |form.value| <= 3
    ensures r.Ok? ==> ValidDate(r.value.date.date) && MinInt64 <= r.value.userId <= MaxInt64
    ensures r.Ok? ==> r.value.date.offset == offset
    ensures form.Some? && (|form.value| < 2 || |form.value| > 3) ==> r == Fail(WrongParams)
  {
    if form.None? then Fail(Malformed)
    else
      var f := form.value;
      if |f| < 2 || |f| > 3 then Fail(WrongParams)
      else
        var uid := FirstValue(f, "user_id");
        if uid.None? then Fail(Panic)
        else
          var userId := Atoi(uid.value);
          if userId.None? then Fail(BadUserId)
          else
            var date := FirstValue(f, "date");
            if date.None? then Fail(Panic)
            else
              var c := ParseDate(date.value);
              if c.None? then Fail(BadDate)
              else Ok(Query(userId.value, Time(c.value, offset)))
  }

  /** The form's user_id and date are what the query holds. */
  lemma ParseParamsValues(form: map<string, seq<string>>, offset: int)
    requires ParseParams(Some(form), offset).Ok?
    ensures var q := ParseParams(Some(form), offset).value;
      FirstValue(form, "user_id").Some? && Atoi(FirstValue(form, "user_id").value) == Some(q.userId)
    ensures var q := ParseParams(Some(form), offset).value;
      FirstValue(form, "date").Some? && ParseDate(FirstValue(form, "date").value) == Some(q.date.date)
  {
  }

  /** A form with exactly user_id and a date is accepted, and its user id
      is read back. */
  lemma ParseParamsTypical(uid: int, c: Civil, offset: int)
    requires MinInt64 <= uid <= MaxInt64 && ValidDate(c) && 0 <= c.year <= 9999
    ensures ParseParams(Some(map["user_id" := [Itoa(uid)], "date" := [FormatDate(c)]]), offset)
      == Ok(Query(uid, Time(c, offset)))
  {
    var f := map["user_id" := [Itoa(uid)], "date" := [FormatDate(c)]];
    assert f.Keys == {"user_id", "date"};
    assert "user_id" != "date";
    AtoiItoa(uid);
    ParseFormat(c);
  }

  // ---------------------------------------------------------------------
  // Handlers
  // ---------------------------------------------------------------------

  /** What a handler answers: {"result": [...]} with status 200, {"error":
      ...} with a status, or nothing when the request was aborted. */
  datatype Reply = Result(events: seq<Event>) | Error(status: int, error: ApiError) | Aborted

  const StatusBadRequest: int := 400

  class EventServer {
    const storage: EventStore

    constructor ()
      ensures fresh(storage) && storage.events == map[] && storage.Valid()
    {
      storage := new EventStore();
    }

    /** CreateEventHandler. */
    method CreateEvent(httpMethod: string, body: Option<RawEvent>) returns (reply: Reply)
      requires storage.Valid()
      modifies storage
      ensures storage.Valid()
      ensures reply.Error? ==> reply.status == StatusBadRequest
      ensures httpMethod != "POST" ==> reply == Error(StatusBadRequest, WrongMethod)
      ensures httpMethod == "POST" && ParseEvent(body).Fail? ==> reply == Error(StatusBadRequest, ParseEvent(body).error)
      ensures httpMethod == "POST" && ParseEvent(body).Ok? && ParseEvent(body).value.id in old(storage.events) ==>
        reply == Error(StatusBadRequest, StoreFailed(AlreadyExists))
      ensures reply.Result? <==> httpMethod == "POST" && ParseEvent(body).Ok? && ParseEvent(body).value.id !in old(storage.events)
      ensures reply.Result? ==>
        reply.events == [ParseEvent(body).value]
        && storage.events == old(storage.events)[ParseEvent(body).value.id := ParseEvent(body).value]
      ensures !reply.Result? ==> storage.events == old(storage.events)
    {
      if httpMethod != "POST" {
        return Error(StatusBadRequest, WrongMethod);
      }
      var event := ParseEvent(body);
      if event.Fail? {
        return Error(StatusBadRequest, event.error);
      }
      var err := storage.Create(event.value);
      if err.Some? {
        return Error(StatusBadRequest, StoreFailed(err.value));
      }
      return Result([event.value]);
    }

    /** UpdateEventHandler. */
    method UpdateEvent(httpMethod: string, body: Option<RawEvent>) returns (reply: Reply)
      requires storage.Valid()
      modifies storage
      ensures storage.Valid()
      ensures reply.Error? ==> reply.status == StatusBadRequest
      ensures httpMethod != "POST" ==> reply == Error(StatusBadRequest, WrongMethod)
      ensures httpMethod == "POST" && ParseEvent(body).Fail? ==> reply == Error(StatusBadRequest, ParseEvent(body).error)
      ensures httpMethod == "POST" && ParseEvent(body).Ok? && ParseEvent(body).value.id !in old(storage.events) ==>
        reply == Error(StatusBadRequest, StoreFailed(DoesNotExist))
      ensures reply.Result? <==> httpMethod == "POST" && ParseEvent(body).Ok? && ParseEvent(body).value.id in old(storage.events)
      ensures reply.Result? ==>
        reply.events == [ParseEvent(body).value]
        && storage.events == old(storage.events)[ParseEvent(body).value.id := ParseEvent(body).value]
      ensures !reply.Result? ==> storage.events == old(storage.events)
    {
      if httpMethod != "POST" {
        return Error(StatusBadRequest, WrongMethod);
      }
      var event := ParseEvent(body);
      if event.Fail? {
        return Error(StatusBadRequest, event.error);
      }
      var err := storage.Update(event.value);
      if err.Some? {
        return Error(StatusBadRequest, StoreFailed(err.value));
      }
      return Result([event.value]);
    }

    /** DeleteEventHandler: the reply carries an event with only the id set. */
    method DeleteEvent(httpMethod: string, body: Option<Option<int>>) returns (reply: Reply)
      requires storage.Valid()
      modifies storage
      ensures storage.Valid()
      ensures reply.Error? ==> reply.status == StatusBadRequest
      ensures httpMethod != "POST" ==> reply == Error(StatusBadRequest, WrongMethod)
      ensures httpMethod == "POST" && ParseId(body).Fail? ==> reply == Error(StatusBadRequest, Malformed)
      ensures httpMethod == "POST" && ParseId(body).Ok? && ParseId(body).value !in old(storage.events) ==>
        reply == Error(StatusBadRequest, StoreFailed(DoesNotExist))
      ensures reply.Result? <==> httpMethod == "POST" && ParseId(body).Ok? && ParseId(body).value in old(storage.events)
      ensures reply.Result? ==>
        reply.events == [Event(ParseId(body).value, 0, "", Instant(ZeroTime))]
        && storage.events == old(storage.events) - {ParseId(body).value}
      ensures !reply.Result? ==> storage.events == old(storage.events)
    {
      if httpMethod != "POST" {
        return Error(StatusBadRequest, WrongMethod);
      }
      var id := ParseId(body);
      if id.Fail? {
        return Error(StatusBadRequest, id.error);
      }
      var err := storage.Delete(id.value);
      if err.Some? {
        return Error(StatusBadRequest, StoreFailed(err.value));
      }
      return Result([Event(id.value, 0, "", Instant(ZeroTime))]);
    }

    /** The three query handlers: `span` picks day, week or month; `order`
      is the storage map's iteration order. */
    method GetEvents(httpMethod: string, form: Option<map<string, seq<string>>>, span: Span, order: seq<int>)
      returns (reply: Reply)
      requires storage.Valid() && Enumerates(order, storage.events)
      ensures reply.Error? ==> reply.status == StatusBadRequest
      ensures httpMethod != "GET" ==> reply == Error(StatusBadRequest, WrongMethod)
      ensures httpMethod == "GET" && ParseParams(form, MoscowOffset) == Fail(Panic) ==> reply == Aborted
      ensures httpMethod == "GET" && ParseParams(form, MoscowOffset).Fail? && ParseParams(form, MoscowOffset) != Fail(Panic) ==>
        reply == Error(StatusBadRequest, ParseParams(form, MoscowOffset).error)
      ensures reply.Result? <==> httpMethod == "GET" && ParseParams(form, MoscowOffset).Ok?
      ensures reply.Result? ==>
        var q := ParseParams(form, MoscowOffset).value;
        Lists(reply.events, storage.events, storage.InWindow(q.userId, Instant(q.date), Instant(End(q.date, span))))
    {
      if httpMethod != "GET" {
        return Error(StatusBadRequest, WrongMethod);
      }
      var q := ParseParams(form, MoscowOffset);
      if q.Fail? {
        if q.error == Panic {
          return Aborted;
        }
        return Error(StatusBadRequest, q.error);
      }
      var events: seq<Event>;
      match span {
        case Day => events := storage.GetForDay(q.value.userId, q.value.date, order);
        case Week => events := storage.GetForWeek(q.value.userId, q.value.date, order);
        case Month => events := storage.GetForMonth(q.value.userId, q.value.date, order);
      }
      return Result(events);
    }
  }

  datatype Span = Day | Week | Month

  /** The end of the window a query handler uses. */
  function End(begin: Time, span: Span): Time {
    match span
    case Day => AddDate(begin, 0, 0, 1)
    case Week => AddDate(begin, 0, 0, 7)
    case Month => AddDate(begin, 0, 1, 0)
  }

  /** A session against a fresh server: an event is created, creating it
      again fails, the day query for its date (read in Moscow time) lists
      it, a query with a single parameter is refused, and a GET to the
      create endpoint is refused before its body is looked at. */
  method Session() returns (created: Reply, again: Reply, day: Reply, single: Reply, wrong: Reply)
    ensures created == Result([Event(1, 1, "meeting", EventInstant(Civil(2019, 9, 9)))])
    ensures again == Error(StatusBadRequest, StoreFailed(AlreadyExists))
    ensures day == Result([Event(1, 1, "meeting", EventInstant(Civil(2019, 9, 9)))])
    ensures single == Error(StatusBadRequest, WrongParams)
    ensures wrong == Error(StatusBadRequest, WrongMethod)
  {
    var server := new EventServer();
    var body := Some(RawEvent(1, 1, "meeting", Some("2019-09-09")));
    var e := Event(1, 1, "meeting", EventInstant(Civil(2019, 9, 9)));
    SessionEvent();
    created := server.CreateEvent("POST", body);
    again := server.CreateEvent("POST", body);
    var form := map["user_id" := ["1"], "date" := ["2019-09-09"]];
    var begin := Time(Civil(2019, 9, 9), MoscowOffset);
    SessionQuery();
    day := server.GetEvents("GET", Some(form), Day, [1]);
    assert server.storage.InWindow(1, Instant(begin), Instant(End(begin, Day))) == {1};
    ListsSingle(day.events, server.storage.events, 1);
    single := server.GetEvents("GET", Some(map["user_id" := ["1"]]), Week, [1]);
    wrong := server.CreateEvent("GET", body);
  }

  lemma SessionEvent()
    ensures ParseEvent(Some(RawEvent(1, 1, "meeting", Some("2019-09-09"))))
      == Ok(Event(1, 1, "meeting", EventInstant(Civil(2019, 9, 9))))
  {
    ParseExamples();
  }

  lemma SessionQuery()
    ensures ParseParams(Some(map["user_id" := ["1"], "date" := ["2019-09-09"]]), MoscowOffset)
      == Ok(Query(1, Time(Civil(2019, 9, 9), MoscowOffset)))
    ensures var begin := Time(Civil(2019, 9, 9), MoscowOffset);
      Selected(Event(1, 1, "meeting", EventInstant(Civil(2019, 9, 9))), 1, Instant(begin), Instant(End(begin, Day)))
  {
    SessionParams();
    SessionDay();
  }

  lemma SessionParams()
    ensures ParseParams(Some(map["user_id" := ["1"], "date" := ["2019-09-09"]]), MoscowOffset)
      == Ok(Query(1, Time(Civil(2019, 9, 9), MoscowOffset)))
  {
    var form := map["user_id" := ["1"], "date" := ["2019-09-09"]];
    assert form.Keys == {"user_id", "date"};
    assert FirstValue(form, "user_id") == Some("1");
    assert FirstValue(form, "date") == Some("2019-09-09");
    AtoiRune('1');
    ParseExamples();
  }

  lemma SessionDay()
    ensures var begin := Time(Civil(2019, 9, 9), MoscowOffset);
      Selected(Event(1, 1, "meeting", EventInstant(Civil(2019, 9, 9))), 1, Instant(begin), Instant(End(begin, Day)))
  {
    DayWindow(Time(Civil(2019, 9, 9), MoscowOffset), Civil(2019, 9, 9));
  }
}
