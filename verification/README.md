# Eastern Empire site: a verified model of its behavioural core

This project models the few parts of the Eastern Empire band website that
carry behaviour, and proves properties of them in Dafny:

- **Home page** (`home.dfy`): the image carousel's index arithmetic over the
  15-image gallery, with JavaScript's truncating `%`; and the newsletter and
  contact form handlers, each given how its post settled.
- **Gigs page** (`gigs.dfy`, `isodate.dfy`, `config.dfy`): choosing the event
  list (the backend's list or the built-in `STATIC_EVENTS`), and splitting it
  into upcoming and past shows. `new Date("YYYY-MM-DD")` is modelled as the
  UTC-midnight instant of that calendar day in milliseconds, or `None` for an
  Invalid Date.
- **Bookings page** (`bookings.dfy`, `form_encoding.dfy`, `uri.dfy`): the local
  `encode` serialiser, built on a full model of `encodeURIComponent` (section
  19.2.6 of ECMA-262: UTF-8 per section 3 of RFC 3629, uppercase `%XX` escapes
  per section 2.1 of RFC 3986). A matching decoder gives the round trip. Also
  modelled: the `form-name`-first payload, and `handleSubmit`'s requests and
  state transitions.
- **Backend** (`server.dfy`): the FastAPI endpoints over an in-memory store.
  Each MongoDB collection is a sequence in natural order. Generated ids and
  the clock are parameters. Errors are `HttpError` values (400/404).

Shared pieces:

- `wrappers.dfy`: `Option`, `Result`, and `Outcome`, which says whether an
  awaited request resolved or rejected.
- `sorting.dfy`: filter, first-match, a stable insertion sort, "the first *n*
  after sorting", and code-point string order.
- `arith.dfy`: small division and multiplication facts.

Network calls, the clock and UUIDs are never performed. Each is a parameter
of the operation that uses it.

Facts about the gigs page that follow from the code as written:

- `response.data || STATIC_EVENTS` keeps any truthy payload. An empty array
  is truthy, so an empty remote list is shown as an empty list rather than
  replaced by the built-in one (`Gigs.EmptyOnlyFromRemoteEmpty`). A truthy
  payload that is not an array would be kept too (see "Left out").
- `new Date("YYYY-MM-DD")` is midnight UTC, so a show counts as past from
  11:00 Sydney daylight time on its own day, hours before it starts
  (`Gigs.ShowIsPastBeforeItStarts`).
- Both filters build a `new Date()` per event, so each event is tested
  against its own clock reading. A render whose readings straddle an
  event's midnight lists it twice. A clock stepped back between readings
  can drop it from both lists (`Gigs.RenderedListsOverlapOrDrop`).

## Model

| member | source | states |
|---|---|---|
| Home.JsRem | frontend/src/pages/Home.jsx:46-50 | JavaScript's `%` takes the sign of the dividend: in `[0, b)` for a non-negative dividend, in `(-b, 0]` for a negative one, and `a - r` is a multiple of `b`, which together fix `r` as the remainder of division truncated toward zero |
| Home.NextIndex | frontend/src/pages/Home.jsx:45-47 | from an index in range, `nextImage` goes one forward and wraps from the last image to 0; the result is in range for any non-negative index |
| Home.PrevIndex | frontend/src/pages/Home.jsx:49-51 | from an index in range, `prevImage` goes one back and wraps from 0 to the last image (adding the length keeps the dividend non-negative) |
| Home.PrevUndoesNext | frontend/src/pages/Home.jsx:45-51 | `prevImage` undoes `nextImage`, and `nextImage` undoes `prevImage` |
| Home.AdvanceIsAddition | frontend/src/pages/Home.jsx:45-47 | `k` forward clicks move the index to `(i + k) mod n` |
| Home.FullTurn | frontend/src/pages/Home.jsx:45-51 | `n` forward clicks return to the start; one back click from 0 shows image `n - 1` |
| Home.ReplayStaysInRange | frontend/src/pages/Home.jsx:45-51 | no sequence of arrow clicks leaves `[0, n)` |
| Home.InitialStateValid | frontend/src/pages/Home.jsx:24-43 | the index starts at 0 and the gallery has 15 images, so the initial state is valid |
| Home.CurrentImage | frontend/src/pages/Home.jsx:140 | in a valid state the shown image is an element of the gallery (the index is in bounds) |
| Home.NextImage | frontend/src/pages/Home.jsx:45-47 | the forward arrow keeps the state valid and changes nothing but the index |
| Home.PrevImage | frontend/src/pages/Home.jsx:49-51 | the back arrow keeps the state valid and changes nothing but the index |
| Home.PrevImageUndoesNextImage | frontend/src/pages/Home.jsx:45-51 | on whole page states, the two arrows are inverse to each other |
| Home.SubmitNewsletter | frontend/src/pages/Home.jsx:53-71 | loading ends false; the email is cleared with a success toast only when the post resolves, and kept with a destructive toast when it rejects; other fields are untouched |
| Home.SubmitContact | frontend/src/pages/Home.jsx:73-97 | loading ends false; all five fields are reset only on success, and kept with a destructive toast on failure; other fields are untouched |
| Home.SubmitOutcomesDifferOnlyInForm | frontend/src/pages/Home.jsx:53-97 | a failed submit changes only the loading flag; a successful one differs from it only in the cleared form; a resubmit after success posts an empty email |
| Home.SubmitKeepsValid | frontend/src/pages/Home.jsx:53-97 | neither form handler can put the carousel out of range |
| Config.ApiBase | frontend/src/pages/Gigs.jsx:8-9 | an API base exists exactly when the backend URL is set and non-empty, and it is that URL followed by `/api` |
| Gigs.FetchEvents | frontend/src/pages/Gigs.jsx:87-108 | loading ends false on every path; no API means no request, the built-in list, and the error untouched; a failed request gives the built-in list; a truthy payload is used as is; a falsy one gives the built-in list; with an API the error is null |
| Gigs.EmptyOnlyFromRemoteEmpty | frontend/src/pages/Gigs.jsx:98 | the list is empty if and only if a configured backend answered with an empty array |
| Gigs.MountNeverShowsError | frontend/src/pages/Gigs.jsx:81-104 | from the mount state, loading never leaves an error to show |
| Gigs.UpcomingEvents | frontend/src/pages/Gigs.jsx:110 | an event is upcoming if and only if it is loaded and its date parses to an instant at or after now |
| Gigs.PastEvents | frontend/src/pages/Gigs.jsx:111 | an event is past if and only if it is loaded and its date parses to an instant before now |
| Gigs.Partition | frontend/src/pages/Gigs.jsx:110-111 | against one reference instant, no event is both upcoming and past, and both lists hold only loaded events |
| Gigs.PartitionCovers | frontend/src/pages/Gigs.jsx:110-111 | when every date parses, the two lists together hold each event exactly as often as the loaded list does (multiset equality) |
| Gigs.PartitionPreservesOrder | frontend/src/pages/Gigs.jsx:110-111 | both filters keep list order: partitioning `a + b` concatenates the partitions of `a` and of `b` |
| Gigs.BoundaryIsUpcoming | frontend/src/pages/Gigs.jsx:110-111 | an event exactly at the reference instant is upcoming and never past |
| Gigs.InvalidDateInNeither | frontend/src/pages/Gigs.jsx:110-111 | an event whose date does not parse is in neither list |
| Gigs.SortedFeedGivesChronologicalLists | frontend/src/pages/Gigs.jsx:110-111 | a feed sorted by date string, as the backend returns it, gives upcoming and past lists in chronological order |
| Gigs.PartitionAtIndex | frontend/src/pages/Gigs.jsx:110-111 | a list whose first `k` events are past and the rest upcoming splits exactly at `k` |
| Gigs.StaticEventDays | frontend/src/pages/Gigs.jsx:12-75 | the built-in shows fall on days 20315, 20351, 20386, 20453, 20479 and 20498 after 1970-01-01 |
| Gigs.StaticEventsOnFirstOfNovember | frontend/src/pages/Gigs.jsx:110-111 | at 2025-11-01 00:00 UTC, the first three built-in shows are past and the last three upcoming |
| Gigs.FilterPerReading | frontend/src/pages/Gigs.jsx:110-111 | a filter whose callback builds its own `new Date()`: an event is kept if and only if the test holds at some position where it occurs, against that position's own clock reading |
| Gigs.RenderedLists | frontend/src/pages/Gigs.jsx:110-111 | the page as written: an event is upcoming if and only if it is at or after the upcoming filter's reading for its position, and past if and only if it is before the past filter's reading for its position; no order between readings is assumed |
| Gigs.SteadyClockIsPartition | frontend/src/pages/Gigs.jsx:110-111 | when every reading is the same instant, the rendered lists are exactly the single-instant partition |
| Gigs.RenderedListsOverlapOrDrop | frontend/src/pages/Gigs.jsx:110-111 | for an event listed once, with readings `u` (upcoming) and `p` (past) at its position and instant `t`: it is in both lists if and only if `u <= t < p`, and in neither if and only if `p <= t < u` |
| Gigs.RenderStraddlingShowsTwice | frontend/src/pages/Gigs.jsx:110-111 | readings one millisecond either side of an event's instant list that event in both lists |
| Gigs.BackwardClockDropsEvent | frontend/src/pages/Gigs.jsx:110-111 | readings that step back across an event's instant leave that event out of both lists |
| Gigs.SameDayShowsSplit | frontend/src/pages/Gigs.jsx:110 | two shows on the same date, tested against readings one millisecond apart, can fall on different sides |
| Gigs.RenderAcrossMidnightShowsEventTwice | frontend/src/pages/Gigs.jsx:110-111 | a render straddling midnight of 2025-10-25 shows the Diwali show both as upcoming and as past |
| Gigs.EarlierIsPast | frontend/src/pages/Gigs.jsx:110-111 | an event whose instant is before the reference instant is past and not upcoming |
| Gigs.ShowIsPastBeforeItStarts | frontend/src/pages/Gigs.jsx:36-40 | the Diwali show, dated 2025-10-25 at 6:00 PM, is past and not upcoming at 07:00 UTC that day, which is when it starts in Sydney |
| IsoDate.DateInstant | frontend/src/pages/Gigs.jsx:110 | a date parses only if it has the form `YYYY-MM-DD` with digit fields, and its instant is a whole number of days (UTC midnight) |
| IsoDate.CivilInstant | frontend/src/pages/Gigs.jsx:110 | a day/month triple is accepted if and only if it names a real calendar day (month 1–12, day within the month, leap years included) |
| IsoDate.EpochIsDayZero | frontend/src/pages/Gigs.jsx:110 | 1970-01-01 is day 0 |
| IsoDate.CivilMonotone | frontend/src/pages/Gigs.jsx:110 | a later calendar date has a strictly larger day count |
| IsoDate.DateOrderIsStringOrder | backend/server.py:148 | for valid date strings, code-point string order (the backend's sort) is chronological order, and distinct strings are distinct days |
| IsoDate.DigitsOrder | backend/server.py:148 | equal-length digit strings compare as strings exactly as their numeric values compare |
| UriComponent.EncodeUriComponent | frontend/src/pages/Bookings.jsx:36 | the output uses only unreserved characters, `%` and uppercase hex digits, so it never contains `&` or `=` |
| UriComponent.DecodeEncode | frontend/src/pages/Bookings.jsx:36 | `decodeURIComponent(encodeURIComponent(s)) == s` for every string of scalar values |
| UriComponent.EncodeInjective | frontend/src/pages/Bookings.jsx:36 | distinct strings have distinct encodings |
| UriComponent.EncodeAppend | frontend/src/pages/Bookings.jsx:36 | encoding works character by character: the encoding of `s + t` is the encoding of `s` followed by that of `t` |
| UriComponent.EncodeUnescaped | frontend/src/pages/Bookings.jsx:36 | a string of unreserved characters encodes to itself |
| UriComponent.Utf8RoundTrip | frontend/src/pages/Bookings.jsx:36 | the UTF-8 octets of any character decode back to it, consuming exactly those octets |
| UriComponent.EncodeAsciiExamples | frontend/src/pages/Bookings.jsx:36 | a space encodes as `%20` and `&` as `%26` |
| UriComponent.EncodeTwoOctetExample | frontend/src/pages/Bookings.jsx:36 | `é` encodes as `%C3%A9` |
| UriComponent.FourOctetExample | frontend/src/pages/Bookings.jsx:36 | U+1F600 becomes the four octets F0 9F 98 80 |
| UriComponent.DecodeRejectsTruncated | frontend/src/pages/Bookings.jsx:36 | the decoder rejects a truncated escape (`%`, `%4`) |
| UriComponent.DecodeRejectsOverlong | frontend/src/pages/Bookings.jsx:36 | the decoder rejects the overlong form `%C0%80` |
| UriComponent.DecodeRejectsSurrogate | frontend/src/pages/Bookings.jsx:36 | the decoder rejects an encoded surrogate (`%ED%A0%80`) |
| FormEncoding.ValueOrEmpty | frontend/src/pages/Bookings.jsx:36 | `data[key] \|\| ''`: a present value is used as is, and a missing one becomes the empty string |
| FormEncoding.EncodeForm | frontend/src/pages/Bookings.jsx:34-38 | `encode` gives the empty string exactly for the empty record |
| FormEncoding.SegmentPerEntry | frontend/src/pages/Bookings.jsx:34-38 | splitting the output on `&` gives exactly one `key=value` segment per key, in key order, with key and value encoded |
| FormEncoding.EncodeFormCons | frontend/src/pages/Bookings.jsx:35-37 | the output is the first key's segment, then `&`, then the encoding of the remaining keys |
| FormEncoding.EncodeSeesOnlyPairs | frontend/src/pages/Bookings.jsx:36 | two records with the same keys and the same values (after falsy values become empty) encode alike |
| FormEncoding.FalsyValuesEncodeAlike | frontend/src/pages/Bookings.jsx:36 | a missing value and an empty value produce the same body |
| FormEncoding.SplitJoin | frontend/src/pages/Bookings.jsx:37 | splitting a `&`-join of `&`-free parts gives back the parts |
| FormEncoding.CutAtFirstEquals | frontend/src/pages/Bookings.jsx:36 | cutting `k=v` at its first `=` gives `k` and `v` when `k` has no `=` |
| FormEncoding.DecodeEncodeForm | frontend/src/pages/Bookings.jsx:34-38 | round trip: decoding the body recovers every key and value in order, with falsy values as empty strings |
| Bookings.PayloadPairs | frontend/src/pages/Bookings.jsx:44-47 | the payload carries `form-name=booking-form`, then the eight form fields in declaration order |
| Bookings.NetlifyBodyDecodes | frontend/src/pages/Bookings.jsx:44-47 | the posted body decodes to the form name first, then the eight fields by name with their values exactly as typed |
| Bookings.NetlifyBodyInjective | frontend/src/pages/Bookings.jsx:44-47 | two forms give the same body only if they are the same form |
| Bookings.HandleSubmit | frontend/src/pages/Bookings.jsx:28-81 | loading ends false; the Netlify post of the encoded form is always the first request; if it rejects, nothing else is posted, the form is kept, and the toast is destructive; if it resolves, the form is reset to empty, the toast is not destructive, and a backend post of the form to `<api>/bookings` follows if and only if a backend URL is set |
| Bookings.BackendFailureSwallowed | frontend/src/pages/Bookings.jsx:50-57 | a rejected backend post ends the handler exactly as an accepted one does |
| Bookings.RetryAfterFailurePostsSameBody | frontend/src/pages/Bookings.jsx:63-80 | after a failure the form is unchanged, so a retry posts the same body; after a success the next submit posts the empty form |
| Sorting.TopN | backend/server.py:134 | sort then `to_list(n)`: `min(n, len)` items, sorted, a sub-multiset of the input, and nothing left out ranks before anything kept |
| Server.SubscribeNewsletter | backend/server.py:109-118 | an already-subscribed email gets 400 and leaves the store unchanged; otherwise the subscription is appended and echoed back with the given email |
| Server.SubscribeKeepsEmailsUnique | backend/server.py:111-117 | subscribing preserves "no email stored twice" |
| Server.SubscribeTwice | backend/server.py:112-114 | subscribing the same email twice: the second call gets 400 and leaves the store as the first left it |
| Server.GetNewsletterSubscriptions | backend/server.py:120-123 | the listing is the first `min(1000, len)` subscriptions in stored order |
| Server.NewSubscriptionListed | backend/server.py:116-123 | a new subscription appears in the listing while fewer than 1000 are stored |
| Server.SubmitContact | backend/server.py:126-130 | the message is appended, echoed back, and the other collections are untouched |
| Server.GetContactMessages | backend/server.py:132-135 | at most 100 messages, newest first, drawn from the store, and no omitted message newer than a listed one |
| Server.NewestContactListedFirst | backend/server.py:126-135 | a message newer than every stored one is listed first |
| Server.CreateEvent | backend/server.py:138-144 | the stored document has the generated id as `_id` and no `id` field; the response is the new event under that id |
| Server.Normalise | backend/server.py:151-155 | `_id` becomes its string form; `id` is kept if present and otherwise filled from `_id`; other fields are unchanged |
| Server.NormaliseIdempotent | backend/server.py:151-155 | normalising twice is the same as normalising once |
| Server.ToListed | backend/server.py:54-66 | `Event(**event)` on a listed document: the id is the text of `_id` (the alias wins over the `id` key), the fields are kept, and a missing creation time is filled with the time read during that construction |
| Server.ListingIgnoresIdField | backend/server.py:54-66 | changing or removing a document's `id` field never changes how it is listed |
| Server.EventsPage | backend/server.py:148 | at most 1000 documents, ascending by date string, drawn from the store, and no omitted document dated earlier than a listed one |
| Server.GetEvents | backend/server.py:146-157 | the listing: at most 1000 events in ascending date order; each is the document read at that position as `Event(**event)` makes it, with the clock read separately for each event |
| Server.ListedIds | backend/server.py:150-157 | each listed event comes from the store and is reported by the text of its `_id`, even when the document has an `id` field of its own |
| Server.DeleteFirst | backend/server.py:161-163 | `delete_one`: 404 with the store unchanged if and only if no document matches; otherwise exactly the first matching document is removed and nothing else changes |
| Server.DeleteEventAsWritten | backend/server.py:159-164 | as written: 404 (store unchanged) if and only if no document has an `id` field equal to the requested id; otherwise exactly the first such document is removed and the other collections are untouched |
| Server.DeleteEvent | backend/server.py:159-164 | corrected: 404 (store unchanged) if and only if no document is reported under that id in the listing; otherwise exactly the first such document is removed and nothing else changes |
| Server.CreatedEventNotDeletable | backend/server.py:138-164 | an event created through the API cannot be deleted by the id its creation returned: the delete answers 404 |
| Server.SeededEventNotDeletable | backend/server.py:146-164 | a seeded event is listed under its ObjectId text; the written delete answers 404 to that id, while the corrected one removes it |
| Server.ListedEventDeletable | backend/server.py:146-164 | with the corrected delete, every listed event can be deleted by the id the listing reports |
| Server.CreateThenDeleteRestores | backend/server.py:138-164 | with the corrected delete, creating an event and then deleting it by the returned id restores the store exactly |
| Server.SubmitBooking | backend/server.py:167-171 | a new inquiry is stored with status `"pending"`, echoed back, and the other collections are untouched |
| Server.GetBookings | backend/server.py:173-176 | at most 100 inquiries, newest first, drawn from the store, and no omitted inquiry newer than a listed one |
| Server.FindBooking | backend/server.py:180-181 | `update_one` selects the first booking with that id: the index found has that id and no earlier booking does; there is none if and only if no booking has that id |
| Server.UpdateBookingStatusAsWritten | backend/server.py:178-186 | as written: 404 (store unchanged) if and only if no booking has that id or its status already equals the new one |
| Server.UpdateBookingStatus | backend/server.py:178-186 | corrected: 404 if and only if no booking has that id; otherwise only the status of the first booking with that id changes |
| Server.SameStatusReportedMissing | backend/server.py:167-186 | setting a fresh inquiry to `"pending"`: the written endpoint answers "Booking not found", while the corrected one succeeds and changes nothing |
| Server.UpdatesAgreeOnChange | backend/server.py:178-186 | the two versions agree whenever the status actually changes |
| Server.UpdateStatusIdempotent | backend/server.py:178-186 | setting a status twice is setting it once; afterwards the booking with that id has the new status |

## Left out

- JSX rendering, styling, iframes, the navigation bar, and the static pages (Bio, Music, Footer, routing): presentation with no logic.
- The network, MongoDB, FastAPI routing, CORS and environment loading: each request's settlement is an `Outcome`/`Response` parameter, and each collection is a sequence.
- `uuid4` and `datetime.utcnow`: ids and timestamps are parameters. EmailStr validation and normalisation are not modelled; emails are compared as given.
- The `GET /api/` greeting endpoint: it returns a constant.
- The check-then-insert race in the newsletter endpoint: the model is sequential.
- The intermediate `loading = true` render during a submit: handlers are modelled from start to settlement.
- Pydantic's validation errors and JSON serialisation: a listed or created event is modelled as the record `Event(**event)` builds (`Server.ToListed`); that its id is written under the JSON key `_id` is stated in words, not modelled.
- An `id` field present but null is treated as absent.
- The order among documents with equal sort keys: MongoDB does not fix it, and the insertion sort used here keeps insertion order.
- IsoDate.DateInstant: accepts only the `YYYY-MM-DD` form. The other date forms of ECMA-262's Date Time String Format (`YYYY`, `YYYY-MM`, expanded years `±YYYYYY-MM-DD`, and the date-time forms) are left out by choice, not because engines differ: every conforming engine parses `2025-11` as 2025-11-01T00:00Z, but here it is an Invalid Date. So an event dated `2025-11` is in neither list in the model, while the page lists it. The event `date` is a free string on the backend, so such values can occur.
- Time zones and `Date` parsing of strings outside the Date Time String Format: engines differ, so such strings are Invalid Dates here. A `YYYY-MM-DD` string names UTC midnight only when it is a real calendar day; an out-of-range day such as `2025-02-30` is also an Invalid Date here, although some engines roll it over (to 2025-03-02).
- HTTP status of the Netlify post: `fetch` resolves on any HTTP response, so only a network failure is `Rejected`.
- Lone surrogates: Dafny characters are Unicode scalar values, so the `URIError` that `encodeURIComponent` throws on a lone surrogate cannot arise.
- `Object.keys` puts integer-like keys first; the booking payload has none, so key order is declaration order.
- Bookings.HandleSubmit: states the body as `NetlifyBody(s.form)`, whose meaning is given by `Bookings.NetlifyBodyDecodes`, rather than restating the encoded text.
- Gigs.RenderedListsOverlapOrDrop: stated for an event that occurs once in the list. A repeated event has readings at each occurrence, and `Gigs.RenderedLists` states its membership through any of them.
- Gigs.FetchEvents: the console logging on lines 90 and 101 is not modelled.
- Gigs.FetchEvents: the payload is assumed to be an array or falsy. A truthy payload that is not an array (an HTML page or unparsed text answered with status 200, which axios hands back as a string) is kept by `response.data || STATIC_EVENTS`, and the page then fails at `events.filter` on line 110; that failure is not modelled.

## Findings

| source | as written | input that shows it | evidently intended | confidence | as-written member | corrected member |
|---|---|---|---|---|---|---|
| frontend/src/pages/Gigs.jsx:110-111 | each filter callback calls `new Date()` for every event, so events are tested against different instants | readings straddling an event's midnight, e.g. 2025-10-25T00:00:00Z − 1 ms then + 1 ms, list it twice (Gigs.RenderAcrossMidnightShowsEventTwice); readings stepping back across it drop it (Gigs.BackwardClockDropsEvent) | one reference instant, so each event with a valid date is upcoming or past, exactly one of the two (Gigs.SteadyClockIsPartition) | not executed; low impact | Gigs.RenderedLists | Gigs.Partition |
| backend/server.py:142-161 | `create_event` stores the document by alias, so only `_id` holds the id, and the listing reports every event by its `_id`, but `delete_event` matches the `id` field | `POST /api/events` returns id X; `DELETE /api/events/X` answers 404 (Server.CreatedEventNotDeletable); a seeded event is listed under its ObjectId text, and deleting by that id answers 404 too (Server.SeededEventNotDeletable) | delete the event whose id the API reported (Server.CreateThenDeleteRestores, Server.ListedEventDeletable) | not executed | Server.DeleteEventAsWritten | Server.DeleteEvent |
| backend/server.py:184-185 | 404 "Booking not found" whenever `modified_count == 0` | set a fresh inquiry's status to `"pending"` (Server.SameStatusReportedMissing) | 404 only when no booking has that id (Server.UpdateStatusIdempotent) | not executed | Server.UpdateBookingStatusAsWritten | Server.UpdateBookingStatus |
