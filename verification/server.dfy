/** The backend's endpoints over an in-memory store.  Each MongoDB
    collection is a sequence of documents in natural (insertion) order; an
    endpoint takes the store and its request and returns the new store
    together with the response body or the HTTP error it raises.  Generated
    ids and the current time are parameters. */
module Server {
  import opened Wrappers
  import opened Sorting

  /** A document's `_id`: an ObjectId assigned by the database (written as
      its 24 hexadecimal digits), or a string the application stored. */
  datatype DocKey = ObjectId(hex: string) | TextKey(text: string)

  /** `str(_id)`. */
  function KeyText(k: DocKey): string {
    match k
    case ObjectId(hex) => hex
    case TextKey(text) => text
  }

  datatype Subscription = Subscription(id: string, email: string, subscribedAt: int)

  datatype ContactInput = ContactInput(
    firstName: string, lastName: string, email: string, subject: string, message: string)

  datatype ContactMessage = ContactMessage(id: string, fields: ContactInput, createdAt: int)

  datatype EventInput = EventInput(
    title: string, venue: string, address: string, date: string, time: string,
    description: Option<string>, ticketUrl: Option<string>)

  /** An event document: its `_id`, its `id` field if it has one (seeded
      events do, events created through the API do not), its fields and
      its creation time if recorded. */
  datatype EventDoc = EventDoc(mongoId: DocKey, id: Option<string>, fields: EventInput, createdAt: Option<int>)

  datatype BookingInput = BookingInput(
    name: string, email: string, phone: string, eventType: string, eventDate: string, venue: string,
    guestCount: Option<string>, configuration: Option<string>, message: Option<string>)

  datatype Booking = Booking(id: string, fields: BookingInput, createdAt: int, status: string)

  datatype Store = Store(
    subscriptions: seq<Subscription>,
    contacts: seq<ContactMessage>,
    events: seq<EventDoc>,
    bookings: seq<Booking>)

  datatype HttpError = HttpError(status: int, detail: string)

  /** An endpoint's effect: the store afterwards and the response. */
  datatype Reply<T> = Reply(store: Store, result: Result<T, HttpError>)

  const AlreadySubscribed := HttpError(400, "Email already subscribed")
  const EventNotFound := HttpError(404, "Event not found")
  const BookingNotFound := HttpError(404, "Booking not found")
  const EventDeleted := "Event deleted successfully"
  const StatusUpdated := "Booking status updated successfully"

  // ---------------------------------------------------------------------
  // Newsletter
  // ---------------------------------------------------------------------

  predicate Subscribed(st: Store, email: string) {
    exists s :: s in st.subscriptions && s.email == email
  }

  /** `POST /api/newsletter`: a second subscription of the same address is
      refused with 400 and changes nothing; a new one is appended and
      echoed back. */
  function SubscribeNewsletter(st: Store, email: string, newId: string, now: int): (r: Reply<Subscription>)
    ensures Subscribed(st, email) ==> r == Reply(st, Failure(AlreadySubscribed))
    ensures !Subscribed(st, email) ==>
      && r.result.Success?
      && r.result.value.email == email
      && r.store == st.(subscriptions := st.subscriptions + [r.result.value])
  {
    if Subscribed(st, email) then Reply(st, Failure(AlreadySubscribed))
    else
      var sub := Subscription(newId, email, now);
      Reply(st.(subscriptions := st.subscriptions + [sub]), Success(sub))
  }

  /** No address is subscribed twice. */
  predicate UniqueEmails(st: Store) {
    forall i, j :: 0 <= i < j < |st.subscriptions| ==>
      st.subscriptions[i].email != st.subscriptions[j].email
  }

  lemma SubscribeKeepsEmailsUnique(st: Store, email: string, newId: string, now: int)
    requires UniqueEmails(st)
    ensures UniqueEmails(SubscribeNewsletter(st, email, newId, now).store)
  {
    var subs := SubscribeNewsletter(st, email, newId, now).store.subscriptions;
    if !Subscribed(st, email) {
      forall i, j | 0 <= i < j < |subs|
        ensures subs[i].email != subs[j].email
      {
        if j == |st.subscriptions| {
          assert subs[i] in st.subscriptions;
        } else {
          assert subs[i] == st.subscriptions[i] && subs[j] == st.subscriptions[j];
        }
      }
    }
  }

  /** Subscribing twice in a row: the second call is refused and leaves
      the store as the first call left it. */
  lemma SubscribeTwice(st: Store, email: string, id1: string, id2: string, t1: int, t2: int)
    ensures var r1 := SubscribeNewsletter(st, email, id1, t1);
            SubscribeNewsletter(r1.store, email, id2, t2) == Reply(r1.store, Failure(AlreadySubscribed))
  {
    var r1 := SubscribeNewsletter(st, email, id1, t1);
    if !Subscribed(st, email) {
      assert r1.result.value in r1.store.subscriptions;
    }
  }

  /** `GET /api/newsletter`: the first 1000 subscriptions in stored order. */
  function GetNewsletterSubscriptions(st: Store): (r: seq<Subscription>)
    ensures |r| == Min(1000, |st.subscriptions|)
    ensures r <= st.subscriptions
  {
    st.subscriptions[..Min(1000, |st.subscriptions|)]
  }

  /** A new subscription shows up in the listing while it holds fewer than
      1000 entries. */
  lemma NewSubscriptionListed(st: Store, email: string, newId: string, now: int)
    requires !Subscribed(st, email) && |st.subscriptions| < 1000
    ensures Subscription(newId, email, now)
         in GetNewsletterSubscriptions(SubscribeNewsletter(st, email, newId, now).store)
  {
    var subs := SubscribeNewsletter(st, email, newId, now).store.subscriptions;
    assert subs[|subs| - 1] == Subscription(newId, email, now);
  }

  // ---------------------------------------------------------------------
  // Contact messages
  // ---------------------------------------------------------------------

  /** `POST /api/contact`: appends the message and echoes it back. */
  function SubmitContact(st: Store, input: ContactInput, newId: string, now: int): (r: Reply<ContactMessage>)
    ensures r.result == Success(ContactMessage(newId, input, now))
    ensures r.store.contacts == st.contacts + [r.result.value]
    ensures r.store == st.(contacts := r.store.contacts)
  {
    var m := ContactMessage(newId, input, now);
    Reply(st.(contacts := st.contacts + [m]), Success(m))
  }

  /** Newest first: `sort("created_at", -1)`. */
  predicate ContactNoOlder(a: ContactMessage, b: ContactMessage) {
    a.createdAt >= b.createdAt
  }

  lemma ContactNoOlderPreorder()
    ensures TotalPreorder(ContactNoOlder)
  {
  }

  /** `GET /api/contact`: the 100 newest messages, newest first; no message
      left out is newer than one listed. */
  function GetContactMessages(st: Store): (r: seq<ContactMessage>)
    ensures |r| == Min(100, |st.contacts|)
    ensures SortedBy(r, ContactNoOlder)
    ensures multiset(r) <= multiset(st.contacts)
    ensures forall x, y :: x in multiset(st.contacts) - multiset(r) && y in r ==> y.createdAt >= x.createdAt
  {
    ContactNoOlderPreorder();
    TopN(st.contacts, ContactNoOlder, 100)
  }

  /** A message strictly newer than every stored one is listed first. */
  lemma NewestContactListedFirst(st: Store, input: ContactInput, newId: string, now: int)
    requires forall m :: m in st.contacts ==> m.createdAt < now
    ensures GetContactMessages(SubmitContact(st, input, newId, now).store)[0]
         == ContactMessage(newId, input, now)
  {
    var m := ContactMessage(newId, input, now);
    var all := SubmitContact(st, input, newId, now).store.contacts;
    var r := GetContactMessages(SubmitContact(st, input, newId, now).store);
    assert m in multiset(all) by { assert all[|all| - 1] == m; }
    assert r[0].createdAt >= now by {
      if m in multiset(r) {
        var j :| 0 <= j < |r| && r[j] == m;
        assert j == 0 || ContactNoOlder(r[0], r[j]);
      }
    }
    assert r[0] in multiset(all);
    assert r[0] !in st.contacts;
  }

  // ---------------------------------------------------------------------
  // Events
  // ---------------------------------------------------------------------

  /** An event as the API returns it (`response_model=Event`). The `Event`
      model declares its id with the alias `_id`, and responses are written
      by alias, so this id goes out under the JSON key `_id`. */
  datatype ListedEvent = ListedEvent(id: string, fields: EventInput, createdAt: int)

  /** `POST /api/events`: the stored document gets the generated id as its
      `_id` and no `id` field (the model is written out by alias); the
      response is the new event with that id. */
  function CreateEvent(st: Store, input: EventInput, newId: string, now: int): (r: Reply<ListedEvent>)
    ensures r.result == Success(ListedEvent(newId, input, now))
    ensures r.store.events == st.events + [EventDoc(TextKey(newId), None, input, Some(now))]
    ensures r.store == st.(events := r.store.events)
  {
    Reply(st.(events := st.events + [EventDoc(TextKey(newId), None, input, Some(now))]),
          Success(ListedEvent(newId, input, now)))
  }

  /** The listing's fix-up of one document: `_id` becomes its string form,
      and `id` is filled from it only when the document has none. */
  function Normalise(d: EventDoc): (r: EventDoc)
    ensures r.mongoId == TextKey(KeyText(d.mongoId))
    ensures d.id.Some? ==> r.id == d.id
    ensures d.id.None? ==> r.id == Some(KeyText(d.mongoId))
    ensures r.fields == d.fields && r.createdAt == d.createdAt
  {
    var key := KeyText(d.mongoId);
    EventDoc(TextKey(key), if d.id.Some? then d.id else Some(key), d.fields, d.createdAt)
  }

  /** Normalising twice is normalising once. */
  lemma NormaliseIdempotent(d: EventDoc)
    ensures Normalise(Normalise(d)) == Normalise(d)
  {
  }

  /** `Event(**event)` on a normalised document. The document carries both
      `_id` and `id`; the field is declared with the alias `_id`, which is
      read before the field name, so the `_id` string wins and the `id` key
      is ignored. A document without `created_at` (a seeded one) gets the
      time of the listing from the field's default. */
  function ToListed(d: EventDoc, now: int): (r: ListedEvent)
    ensures r.id == KeyText(d.mongoId)
    ensures r.fields == d.fields
    ensures d.createdAt.Some? ==> r.createdAt == d.createdAt.value
    ensures d.createdAt.None? ==> r.createdAt == now
  {
    var n := Normalise(d);
    ListedEvent(KeyText(n.mongoId), n.fields, n.createdAt.GetOr(now))
  }

  /** A stored document's `id` field never reaches the listing. */
  lemma ListingIgnoresIdField(d: EventDoc, id: Option<string>, now: int)
    ensures ToListed(d.(id := id), now) == ToListed(d, now)
    ensures ToListed(d, now).id == KeyText(Normalise(d).mongoId)
  {
  }

  /** The id the listing reports for a document, whatever the time. */
  function ReportedId(d: EventDoc): (id: string)
    ensures forall now :: ToListed(d, now).id == id
  {
    KeyText(d.mongoId)
  }

  /** Ascending by date: `sort("date", 1)` compares the strings. */
  predicate DateNoLater(a: EventDoc, b: EventDoc) {
    LexLe(a.fields.date, b.fields.date)
  }

  lemma DateNoLaterPreorder()
    ensures TotalPreorder(DateNoLater)
  {
    LexLeTotalPreorder();
    var le := (a: string, b: string) => LexLe(a, b);
    forall a: EventDoc, b: EventDoc
      ensures DateNoLater(a, b) || DateNoLater(b, a)
    {
      assert le(a.fields.date, b.fields.date) || le(b.fields.date, a.fields.date);
    }
    forall a: EventDoc, b: EventDoc, c: EventDoc | DateNoLater(a, b) && DateNoLater(b, c)
      ensures DateNoLater(a, c)
    {
      assert le(a.fields.date, b.fields.date) && le(b.fields.date, c.fields.date);
    }
  }

  /** The documents `GET /api/events` reads: the first 1000 by ascending
      `date` string; no document left out has an earlier date than one
      read. */
  function EventsPage(st: Store): (r: seq<EventDoc>)
    ensures |r| == Min(1000, |st.events|)
    ensures SortedBy(r, DateNoLater)
    ensures multiset(r) <= multiset(st.events)
    ensures forall x, y :: x in multiset(st.events) - multiset(r) && y in r ==> LexLe(y.fields.date, x.fields.date)
  {
    DateNoLaterPreorder();
    TopN(st.events, DateNoLater, 1000)
  }

  /** `Event(**event)` for each document in turn; each construction reads
      the clock for its own default, `clock[i]` for `ds[i]`. */
  function ListAll(ds: seq<EventDoc>, clock: seq<int>): (r: seq<ListedEvent>)
    requires |clock| == |ds|
    ensures |r| == |ds|
    ensures forall i :: 0 <= i < |ds| ==> r[i] == ToListed(ds[i], clock[i])
    decreases |ds|
  {
    if ds == [] then [] else [ToListed(ds[0], clock[0])] + ListAll(ds[1..], clock[1..])
  }

  /** `GET /api/events`: at most 1000 events in ascending date order, each
      reported under the string form of its `_id`. `clock` holds the time
      read while building each listed event; it fills in a missing
      `created_at`. */
  function GetEvents(st: Store, clock: seq<int>): (r: seq<ListedEvent>)
    requires |clock| == Min(1000, |st.events|)
    ensures |r| == Min(1000, |st.events|)
    ensures forall i, j :: 0 <= i < j < |r| ==> LexLe(r[i].fields.date, r[j].fields.date)
    ensures forall i :: 0 <= i < |r| ==> r[i] == ToListed(EventsPage(st)[i], clock[i])
  {
    ListAll(EventsPage(st), clock)
  }

  /** Every listed event comes from the store and is reported by the text
      of its `_id`, even when the document has an `id` field of its own. */
  lemma ListedIds(st: Store, clock: seq<int>, i: nat)
    requires |clock| == Min(1000, |st.events|) && i < |clock|
    ensures EventsPage(st)[i] in st.events
    ensures GetEvents(st, clock)[i].id == KeyText(EventsPage(st)[i].mongoId)
    ensures GetEvents(st, clock)[i].fields == EventsPage(st)[i].fields
  {
    assert EventsPage(st)[i] in multiset(st.events);
  }

  /** Deletes the first event satisfying `matches`; 404 when none does. */
  function DeleteFirst(st: Store, matches: EventDoc -> bool): (r: Reply<string>)
    ensures r.result.Failure? <==> forall i :: 0 <= i < |st.events| ==> !matches(st.events[i])
    ensures r.result.Failure? ==> r == Reply(st, Failure(EventNotFound))
    ensures r.result.Success? ==>
      && r.result.value == EventDeleted
      && r.store == st.(events := r.store.events)
      && exists i :: 0 <= i < |st.events|
           && matches(st.events[i])
           && (forall j :: 0 <= j < i ==> !matches(st.events[j]))
           && r.store.events == st.events[..i] + st.events[i + 1..]
  {
    match FirstIndex(st.events, matches)
    case None => Reply(st, Failure(EventNotFound))
    case Some(i) => Reply(st.(events := RemoveAt(st.events, i)), Success(EventDeleted))
  }

  /** `DELETE /api/events/{event_id}` as written: it matches the document's
      `id` field, which only seeded events have, and which the listing
      never reports. */
  function DeleteEventAsWritten(st: Store, eventId: string): (r: Reply<string>)
    ensures r.result.Failure? <==> forall d :: d in st.events ==> d.id != Some(eventId)
    ensures r.result.Failure? ==> r == Reply(st, Failure(EventNotFound))
    ensures r.result.Success? ==>
      && r.result.value == EventDeleted
      && r.store == st.(events := r.store.events)
      && exists i :: 0 <= i < |st.events|
           && st.events[i].id == Some(eventId)
           && (forall j :: 0 <= j < i ==> st.events[j].id != Some(eventId))
           && r.store.events == st.events[..i] + st.events[i + 1..]
  {
    DeleteFirst(st, (d: EventDoc) => d.id == Some(eventId))
  }

  /** The evident intent: delete the event whose id the API reports. */
  function DeleteEvent(st: Store, eventId: string): (r: Reply<string>)
    ensures r.result.Failure? <==> forall d :: d in st.events ==> ReportedId(d) != eventId
    ensures r.result.Failure? ==> r == Reply(st, Failure(EventNotFound))
    ensures r.result.Success? ==>
      && r.result.value == EventDeleted
      && r.store == st.(events := r.store.events)
      && exists i :: 0 <= i < |st.events|
           && ReportedId(st.events[i]) == eventId
           && (forall j :: 0 <= j < i ==> ReportedId(st.events[j]) != eventId)
           && r.store.events == st.events[..i] + st.events[i + 1..]
  {
    DeleteFirst(st, (d: EventDoc) => ReportedId(d) == eventId)
  }

  /** An event created through the API cannot be deleted by the id the
      creation returned: the delete answers 404. */
  lemma CreatedEventNotDeletable(st: Store, input: EventInput, newId: string, now: int)
    requires forall d :: d in st.events ==> d.id != Some(newId)
    ensures CreateEvent(st, input, newId, now).result.value.id == newId
    ensures DeleteEventAsWritten(CreateEvent(st, input, newId, now).store, newId).result == Failure(EventNotFound)
  {
  }

  /** A seeded event: the database gave it an ObjectId and the seed data an
      `id` field such as "1". The listing reports the ObjectId's text; the
      written delete answers 404 to that id, the corrected one removes the
      event. */
  lemma SeededEventNotDeletable(hex: string, seedId: string, fields: EventInput, now: int)
    requires hex != seedId
    ensures var st := Store([], [], [EventDoc(ObjectId(hex), Some(seedId), fields, None)], []);
            GetEvents(st, [now]) == [ListedEvent(hex, fields, now)]
    ensures var st := Store([], [], [EventDoc(ObjectId(hex), Some(seedId), fields, None)], []);
            DeleteEventAsWritten(st, hex) == Reply(st, Failure(EventNotFound))
    ensures var st := Store([], [], [EventDoc(ObjectId(hex), Some(seedId), fields, None)], []);
            DeleteEvent(st, hex) == Reply(st.(events := []), Success(EventDeleted))
  {
    var st := Store([], [], [EventDoc(ObjectId(hex), Some(seedId), fields, None)], []);
    assert EventsPage(st)[0] in multiset(st.events);
    assert EventsPage(st) == st.events;
  }

  /** With the corrected delete, every listed event can be deleted by the
      id the listing reports. */
  lemma ListedEventDeletable(st: Store, clock: seq<int>, i: nat)
    requires |clock| == Min(1000, |st.events|) && i < |clock|
    ensures DeleteEvent(st, GetEvents(st, clock)[i].id).result == Success(EventDeleted)
  {
    ListedIds(st, clock, i);
  }

  /** With the corrected delete, creating an event and deleting it by the
      returned id restores the store exactly. */
  lemma CreateThenDeleteRestores(st: Store, input: EventInput, newId: string, now: int)
    requires forall d :: d in st.events ==> ReportedId(d) != newId
    ensures DeleteEvent(CreateEvent(st, input, newId, now).store, newId) == Reply(st, Success(EventDeleted))
  {
    var s1 := CreateEvent(st, input, newId, now).store;
    var i := |st.events|;
    assert ReportedId(s1.events[i]) == newId;
    assert forall j :: 0 <= j < i ==> s1.events[j] == st.events[j];
    assert s1.events[..i] + s1.events[i + 1..] == st.events;
  }

  /** `FirstIndex` only looks at which positions match. */
  lemma {:induction false} FirstIndexAgrees<T>(s: seq<T>, t: seq<T>, p: T -> bool, q: T -> bool)
    requires |s| == |t|
    requires forall i :: 0 <= i < |s| ==> p(s[i]) == q(t[i])
    ensures FirstIndex(s, p) == FirstIndex(t, q)
  {
    if s != [] {
      FirstIndexAgrees(s[1..], t[1..], p, q);
    }
  }

  // ---------------------------------------------------------------------
  // Booking inquiries
  // ---------------------------------------------------------------------

  const Pending := "pending"

  /** `POST /api/bookings`: the inquiry is stored with status "pending"
      and echoed back. */
  function SubmitBooking(st: Store, input: BookingInput, newId: string, now: int): (r: Reply<Booking>)
    ensures r.result.Success? && r.result.value.status == Pending
    ensures r.result.value == Booking(newId, input, now, Pending)
    ensures r.store.bookings == st.bookings + [r.result.value]
    ensures r.store == st.(bookings := r.store.bookings)
  {
    var b := Booking(newId, input, now, Pending);
    Reply(st.(bookings := st.bookings + [b]), Success(b))
  }

  /** Newest first: `sort("created_at", -1)`. */
  predicate BookingNoOlder(a: Booking, b: Booking) {
    a.createdAt >= b.createdAt
  }

  lemma BookingNoOlderPreorder()
    ensures TotalPreorder(BookingNoOlder)
  {
  }

  /** `GET /api/bookings`: the 100 newest inquiries, newest first; no
      inquiry left out is newer than one listed. */
  function GetBookings(st: Store): (r: seq<Booking>)
    ensures |r| == Min(100, |st.bookings|)
    ensures SortedBy(r, BookingNoOlder)
    ensures multiset(r) <= multiset(st.bookings)
    ensures forall x, y :: x in multiset(st.bookings) - multiset(r) && y in r ==> y.createdAt >= x.createdAt
  {
    BookingNoOlderPreorder();
    TopN(st.bookings, BookingNoOlder, 100)
  }

  /** The first booking with the given id, as `update_one` selects it. */
  function FindBooking(st: Store, bookingId: string): (r: Option<nat>)
    ensures r.None? <==> forall b :: b in st.bookings ==> b.id != bookingId
    ensures r.Some? ==> r.value < |st.bookings| && st.bookings[r.value].id == bookingId
    ensures r.Some? ==> forall j :: 0 <= j < r.value ==> st.bookings[j].id != bookingId
  {
    FirstIndex(st.bookings, (b: Booking) => b.id == bookingId)
  }

  /** `PATCH /api/bookings/{booking_id}/status` as written: the 404 is
      raised whenever nothing was modified, which includes setting a
      booking to the status it already has. */
  function UpdateBookingStatusAsWritten(st: Store, bookingId: string, status: string): (r: Reply<string>)
    ensures r.result.Failure? ==> r.store == st && r.result.error == BookingNotFound
    ensures r.result.Failure? <==>
      FindBooking(st, bookingId).None? || st.bookings[FindBooking(st, bookingId).value].status == status
  {
    match FindBooking(st, bookingId)
    case None => Reply(st, Failure(BookingNotFound))
    case Some(i) =>
      if st.bookings[i].status == status then Reply(st, Failure(BookingNotFound))
      else Reply(st.(bookings := st.bookings[i := st.bookings[i].(status := status)]), Success(StatusUpdated))
  }

  /** The evident intent: 404 only when no booking has that id. */
  function UpdateBookingStatus(st: Store, bookingId: string, status: string): (r: Reply<string>)
    ensures r.result.Failure? <==> forall b :: b in st.bookings ==> b.id != bookingId
    ensures r.result.Failure? ==> r.store == st && r.result.error == BookingNotFound
    ensures r.result.Success? ==>
      && r.store == st.(bookings := r.store.bookings)
      && |r.store.bookings| == |st.bookings|
      && exists i :: 0 <= i < |st.bookings| && st.bookings[i].id == bookingId
           && (forall j :: 0 <= j < i ==> st.bookings[j].id != bookingId)
           && r.store.bookings == st.bookings[i := st.bookings[i].(status := status)]
  {
    match FindBooking(st, bookingId)
    case None => Reply(st, Failure(BookingNotFound))
    case Some(i) => Reply(st.(bookings := st.bookings[i := st.bookings[i].(status := status)]), Success(StatusUpdated))
  }

  /** Confirming a booking's current status, e.g. setting a fresh inquiry to
      "pending", is answered "Booking not found" by the written endpoint,
      while the corrected one succeeds and changes nothing. */
  lemma SameStatusReportedMissing(st: Store, input: BookingInput, newId: string, now: int)
    requires forall b :: b in st.bookings ==> b.id != newId
    ensures var s1 := SubmitBooking(st, input, newId, now).store;
            UpdateBookingStatusAsWritten(s1, newId, Pending) == Reply(s1, Failure(BookingNotFound))
    ensures var s1 := SubmitBooking(st, input, newId, now).store;
            UpdateBookingStatus(s1, newId, Pending) == Reply(s1, Success(StatusUpdated))
  {
    var s1 := SubmitBooking(st, input, newId, now).store;
    assert s1.bookings[|st.bookings|].id == newId;
    var i := FindBooking(s1, newId).value;
    assert i == |st.bookings|;
    assert s1.bookings[i := s1.bookings[i].(status := Pending)] == s1.bookings;
  }

  /** The two versions agree whenever the status actually changes. */
  lemma UpdatesAgreeOnChange(st: Store, bookingId: string, status: string)
    requires FindBooking(st, bookingId).Some?
    requires st.bookings[FindBooking(st, bookingId).value].status != status
    ensures UpdateBookingStatusAsWritten(st, bookingId, status) == UpdateBookingStatus(st, bookingId, status)
  {
  }

  /** Setting a status twice is setting it once, and afterwards the
      booking found by that id has the new status. */
  lemma UpdateStatusIdempotent(st: Store, bookingId: string, status: string)
    ensures var r := UpdateBookingStatus(st, bookingId, status);
            UpdateBookingStatus(r.store, bookingId, status) == Reply(r.store, r.result)
    ensures var r := UpdateBookingStatus(st, bookingId, status);
            r.result.Success? ==> r.store.bookings[FindBooking(r.store, bookingId).value].status == status
  {
    var r := UpdateBookingStatus(st, bookingId, status);
    match FindBooking(st, bookingId)
    case None =>
    case Some(i) =>
      var bs := r.store.bookings;
      assert forall j :: 0 <= j < |bs| ==> bs[j].id == st.bookings[j].id;
      var p := (b: Booking) => b.id == bookingId;
      FirstIndexAgrees(bs, st.bookings, p, p);
      assert FindBooking(r.store, bookingId) == Some(i);
      assert bs[i := bs[i].(status := status)] == bs;
  }
}
