/** The in-memory event storage of the calendar server: events by id, with
    create, update, delete and the per-user day, week and month queries. */
module CalendarStore {
  import opened Common
  import opened CalendarDates

  /** An event; `date` is the instant (seconds since the Unix epoch) of the
      UTC midnight its date string denotes. */
  datatype Event = Event(id: int, userId: int, name: string, date: int)

  datatype StoreError = AlreadyExists | DoesNotExist

  function StoreMessage(e: StoreError): string {
    match e
    case AlreadyExists => "event already exists"
    case DoesNotExist => "event does not exist"
  }

  /** `res` lists exactly the events stored under the keys in `keys`, each
      once. */
  ghost predicate Lists(res: seq<Event>, events: map<int, Event>, keys: set<int>) {
    && (forall i :: 0 <= i < |res| ==> res[i].id in keys && res[i].id in events && res[i] == events[res[i].id])
    && keys <= Ids(res)
    && (forall i, j :: 0 <= i < j < |res| ==> res[i].id != res[j].id)
  }

  /** A listing of a single key is that one event. */
  lemma ListsSingle(res: seq<Event>, events: map<int, Event>, k: int)
    requires Lists(res, events, {k})
    ensures res == [events[k]]
  {
    IdsCard(res);
    assert Ids(res) == {k};
    assert |res| == 1;
    assert res[0].id == k;
  }

  /** Distinct ids: as many ids as events. */
  lemma {:induction false} IdsCard(res: seq<Event>)
    requires forall i, j :: 0 <= i < j < |res| ==> res[i].id != res[j].id
    ensures |Ids(res)| == |res|
    decreases |res|
  {
    if |res| > 0 {
      var init := res[..|res| - 1];
      var last := res[|res| - 1];
      IdsCard(init);
      IdsAppend(init, last);
      assert init + [last] == res;
      assert last.id !in Ids(init);
    }
  }

  /** The ids of the listed events. */
  function Ids(res: seq<Event>): set<int> {
    set j | 0 <= j < |res| :: res[j].id
  }

  lemma IdsAppend(res: seq<Event>, v: Event)
    ensures Ids(res + [v]) == Ids(res) + {v.id}
  {
    var r := res + [v];
    forall k | k in Ids(res)
      ensures k in Ids(r)
    {
      var j :| 0 <= j < |res| && res[j].id == k;
      assert r[j].id == k;
    }
    assert r[|res|].id == v.id;
  }

  class EventStore {
    var events: map<int, Event>

    /** Every event is stored under its own id. */
    ghost predicate Valid()
      reads this
    {
      forall k :: k in events ==> events[k].id == k
    }

    /** The keys of `userId`'s events strictly between the two instants. */
    ghost function InWindow(userId: int, begin: int, end: int): set<int>
      reads this
    {
      set k | k in events && Selected(events[k], userId, begin, end)
    }

    /** NewStorage: an empty store. */
    constructor ()
      ensures events == map[] && Valid()
    {
      events := map[];
    }

    /** Create: refuses an id already present, otherwise stores the event
      under its id and changes nothing else. */
    method Create(event: Event) returns (err: Option<StoreError>)
      requires Valid()
      modifies this
      ensures Valid()
      ensures event.id in old(events) ==> err == Some(AlreadyExists) && events == old(events)
      ensures event.id !in old(events) ==> err == None && events == old(events)[event.id := event]
    {
      if event.id in events {
        return Some(AlreadyExists);
      }
      events := events[event.id := event];
      return None;
    }

    /** Update: refuses an absent id, otherwise replaces the whole record
      under its id and changes nothing else. */
    method Update(event: Event) returns (err: Option<StoreError>)
      requires Valid()
      modifies this
      ensures Valid()
      ensures event.id !in old(events) ==> err == Some(DoesNotExist) && events == old(events)
      ensures event.id in old(events) ==> err == None && events == old(events)[event.id := event]
    {
      if event.id !in events {
        return Some(DoesNotExist);
      }
      events := events[event.id := event];
      return None;
    }

    /** Delete: refuses an absent id, otherwise removes that key only. */
    method Delete(eventId: int) returns (err: Option<StoreError>)
      requires Valid()
      modifies this
      ensures Valid()
      ensures eventId !in old(events) ==> err == Some(DoesNotExist) && events == old(events)
      ensures eventId in old(events) ==> err == None && events == old(events) - {eventId}
    {
      if eventId !in events {
        return Some(DoesNotExist);
      }
      events := events - {eventId};
      return None;
    }

    /** The loop the three queries share: go through the stored events in
      the map's iteration order and keep those of `userId` strictly inside
      the window. */
    method Scan(userId: int, begin: int, end: int, order: seq<int>) returns (res: seq<Event>)
      requires Valid() && Enumerates(order, events)
      ensures Lists(res, events, InWindow(userId, begin, end))
    {
      res := [];
      ghost var pos: seq<int> := [];
      for i := 0 to |order|
        invariant ScanInv(events, order, userId, begin, end, i, res, pos)
      {
        var v := events[order[i]];
        ghost var res0, pos0 := res, pos;
        if v.userId == userId && begin < v.date && v.date < end {
          res := res + [v];
          pos := pos + [i];
        }
        ScanStep(events, order, userId, begin, end, i, res0, pos0, res, pos);
      }
      ScanDone(events, order, userId, begin, end, res, pos);
    }

    /** GetForDay: the window is the day that starts at `begin`. */
    method GetForDay(userId: int, begin: Time, order: seq<int>) returns (res: seq<Event>)
      requires Valid() && Enumerates(order, events)
      ensures Lists(res, events, InWindow(userId, Instant(begin), Instant(AddDate(begin, 0, 0, 1))))
    {
      var end := AddDate(begin, 0, 0, 1);
      res := Scan(userId, Instant(begin), Instant(end), order);
    }

    /** GetForWeek: the window is the seven days from `begin`. */
    method GetForWeek(userId: int, begin: Time, order: seq<int>) returns (res: seq<Event>)
      requires Valid() && Enumerates(order, events)
      ensures Lists(res, events, InWindow(userId, Instant(begin), Instant(AddDate(begin, 0, 0, 7))))
    {
      var end := AddDate(begin, 0, 0, 7);
      res := Scan(userId, Instant(begin), Instant(end), order);
    }

    /** GetForMonth: the window is the calendar month from `begin`. */
    method GetForMonth(userId: int, begin: Time, order: seq<int>) returns (res: seq<Event>)
      requires Valid() && Enumerates(order, events)
      ensures Lists(res, events, InWindow(userId, Instant(begin), Instant(AddDate(begin, 0, 1, 0))))
    {
      var end := AddDate(begin, 0, 1, 0);
      res := Scan(userId, Instant(begin), Instant(end), order);
    }
  }

  /** The event belongs to `userId` and lies strictly inside the window. */
  predicate Selected(e: Event, userId: int, begin: int, end: int) {
    e.userId == userId && begin < e.date < end
  }

  /** What the scan has established after the first `i` keys of `order`:
      `res` holds the selected events among them, in order, `pos[j]` being
      the position of `res[j]`'s key. */
  ghost predicate ScanInv(events: map<int, Event>, order: seq<int>, userId: int, begin: int, end: int,
                          i: int, res: seq<Event>, pos: seq<int>) {
    && 0 <= i <= |order|
    && |pos| == |res|
    && (forall j :: 0 <= j < |res| ==> 0 <= pos[j] < i && order[pos[j]] == res[j].id)
    && (forall j :: 0 <= j < |res| ==> res[j].id in events && res[j] == events[res[j].id] && Selected(res[j], userId, begin, end))
    && (forall t :: 0 <= t < i && order[t] in events && Selected(events[order[t]], userId, begin, end) ==>
          order[t] in Ids(res))
    && (forall j, j' :: 0 <= j < j' < |res| ==> pos[j] < pos[j'])
  }

  lemma ScanStep(events: map<int, Event>, order: seq<int>, userId: int, begin: int, end: int,
                 i: int, res: seq<Event>, pos: seq<int>, res': seq<Event>, pos': seq<int>)
    requires ScanInv(events, order, userId, begin, end, i, res, pos)
    requires i < |order| && order[i] in events && events[order[i]].id == order[i]
    requires Selected(events[order[i]], userId, begin, end) ==> res' == res + [events[order[i]]] && pos' == pos + [i]
    requires !Selected(events[order[i]], userId, begin, end) ==> res' == res && pos' == pos
    ensures ScanInv(events, order, userId, begin, end, i + 1, res', pos')
  {
    if Selected(events[order[i]], userId, begin, end) {
      IdsAppend(res, events[order[i]]);
    }
  }

  lemma ScanDone(events: map<int, Event>, order: seq<int>, userId: int, begin: int, end: int,
                 res: seq<Event>, pos: seq<int>)
    requires Enumerates(order, events)
    requires ScanInv(events, order, userId, begin, end, |order|, res, pos)
    ensures Lists(res, events, set k | k in events && Selected(events[k], userId, begin, end))
  {
    forall k | k in events && Selected(events[k], userId, begin, end)
      ensures k in Ids(res)
    {
      var t :| 0 <= t < |order| && order[t] == k;
    }
    forall j, j' | 0 <= j < j' < |res|
      ensures res[j].id != res[j'].id
    {
      assert order[pos[j]] != order[pos[j']];
    }
  }

  /** `order` lists every key of `events` exactly once: an iteration order
      of the map, which Go leaves unspecified. */
  ghost predicate Enumerates(order: seq<int>, events: map<int, Event>) {
    && (forall k :: k in events ==> k in order)
    && (forall t :: 0 <= t < |order| ==> order[t] in events)
    && (forall t, t' :: 0 <= t < t' < |order| ==> order[t] != order[t'])
  }

  // ---------------------------------------------------------------------
  // Which dates the windows select
  // ---------------------------------------------------------------------

  /** The instant of an event dated `c`. */
  function EventInstant(c: Civil): int {
    Instant(Time(c, 0))
  }

  /** Window boundaries at local midnight east of UTC (such as
      Europe/Moscow, three hours): an event dated `c` falls in the window
      from local day `b` to local day `e` exactly when its day count is in
      [Days(b), Days(e)). */
  lemma WindowDays(b: Time, e: Time, c: Civil)
    requires 0 < b.offset < SecondsPerDay && e.offset == b.offset
    ensures Instant(b) < EventInstant(c) < Instant(e) <==> Days(b.date) <= Days(c) < Days(e.date)
  {
  }

  /** With such an offset the day query selects the events of that date. */
  lemma DayWindow(b: Time, c: Civil)
    requires 0 < b.offset < SecondsPerDay
    ensures Instant(b) < EventInstant(c) < Instant(AddDate(b, 0, 0, 1)) <==> Days(c) == Days(b.date)
  {
    WindowDays(b, AddDate(b, 0, 0, 1), c);
    NextDay(b.date);
  }

  /** ... the week query those of the seven dates from it ... */
  lemma WeekWindow(b: Time, c: Civil)
    requires 0 < b.offset < SecondsPerDay
    ensures Instant(b) < EventInstant(c) < Instant(AddDate(b, 0, 0, 7))
      <==> Days(b.date) <= Days(c) < Days(b.date) + 7
  {
    WindowDays(b, AddDate(b, 0, 0, 7), c);
  }

  /** ... and the month query those of the DaysIn(month) dates from it. */
  lemma MonthWindow(b: Time, c: Civil)
    requires 0 < b.offset < SecondsPerDay && 1 <= b.date.month <= 12
    ensures Instant(b) < EventInstant(c) < Instant(AddDate(b, 0, 1, 0))
      <==> Days(b.date) <= Days(c) < Days(b.date) + DaysIn(b.date.year, b.date.month)
  {
    WindowDays(b, AddDate(b, 0, 1, 0), c);
    MonthLater(b.date);
  }

  /** In UTC the boundaries fall on the event instants themselves, and
      both comparisons are strict: the day query then selects nothing,
      and the week query drops its first day. */
  lemma UtcDayWindowEmpty(b: Time, c: Civil)
    requires b.offset == 0
    ensures !(Instant(b) < EventInstant(c) < Instant(AddDate(b, 0, 0, 1)))
    ensures Instant(b) < EventInstant(c) < Instant(AddDate(b, 0, 0, 7))
      <==> Days(b.date) < Days(c) < Days(b.date) + 7
  {
    var d := Days(b.date);
    assert Days(AddDate(b, 0, 0, 1).date) == d + 1;
    assert Days(AddDate(b, 0, 0, 7).date) == d + 7;
    ScaledBetween(d, Days(c), 1);
    ScaledBetween(d, Days(c), 7);
  }

  lemma ScaledBetween(d: int, c: int, n: int)
    ensures d * SecondsPerDay < c * SecondsPerDay < (d + n) * SecondsPerDay <==> d < c < d + n
  {
  }

  // ---------------------------------------------------------------------
  // A sequence of store operations
  // ---------------------------------------------------------------------

  /** Creating an id twice fails; updating it replaces the record; deleting
      it twice fails the second time; updating a deleted id fails. */
  method Lifecycle(e: Event, e': Event) returns (r1: Option<StoreError>, r2: Option<StoreError>,
      r3: Option<StoreError>, r4: Option<StoreError>, r5: Option<StoreError>, r6: Option<StoreError>,
      after: map<int, Event>)
    requires e'.id == e.id
    ensures r1 == None && r2 == Some(AlreadyExists) && r3 == None
    ensures r4 == None && r5 == Some(DoesNotExist) && r6 == Some(DoesNotExist)
    ensures after == map[]
  {
    var s := new EventStore();
    r1 := s.Create(e);
    r2 := s.Create(e');
    r3 := s.Update(e');
    assert s.events == map[e.id := e'];
    r4 := s.Delete(e.id);
    r5 := s.Delete(e.id);
    r6 := s.Update(e);
    after := s.events;
  }
}
