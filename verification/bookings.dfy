/** The booking page's submit handler: it posts the form, url-encoded and
    tagged with its Netlify form name, to the site root; when a backend is
    configured it also posts the form to the backend and ignores how that
    post settles; then it raises a toast and resets or keeps the form. */
module Bookings {
  import opened Wrappers
  import opened Config
  import opened FormEncoding

  datatype BookingForm = BookingForm(
    name: string,
    email: string,
    phone: string,
    eventType: string,
    eventDate: string,
    venue: string,
    configuration: string,
    message: string)

  const EmptyBookingForm := BookingForm("", "", "", "", "", "", "", "")

  /** The form's own properties, in declaration order. */
  function FormEntries(f: BookingForm): seq<Entry> {
    [ Entry("name", Some(f.name)),
      Entry("email", Some(f.email)),
      Entry("phone", Some(f.phone)),
      Entry("eventType", Some(f.eventType)),
      Entry("eventDate", Some(f.eventDate)),
      Entry("venue", Some(f.venue)),
      Entry("configuration", Some(f.configuration)),
      Entry("message", Some(f.message)) ]
  }

  /** `{ "form-name": "booking-form", ...bookingForm }`: the spread keeps the
      form's key order after the leading form name. */
  function Payload(f: BookingForm): seq<Entry> {
    [FormNameEntry()] + FormEntries(f)
  }

  /** The hidden field naming the Netlify form. */
  function FormNameEntry(): Entry {
    Entry("form-name", Some("booking-form"))
  }

  /** The body of the post to Netlify. */
  function NetlifyBody(f: BookingForm): string {
    EncodeForm(Payload(f))
  }

  /** The pairs the payload is meant to carry. */
  lemma PayloadPairs(f: BookingForm)
    ensures Pairs(Payload(f)) == [
      ("form-name", "booking-form"),
      ("name", f.name),
      ("email", f.email),
      ("phone", f.phone),
      ("eventType", f.eventType),
      ("eventDate", f.eventDate),
      ("venue", f.venue),
      ("configuration", f.configuration),
      ("message", f.message)]
  {
  }

  /** What the receiving side reads from the body: the form name first,
      then the eight fields by name, in declaration order, with their
      values exactly as typed. */
  lemma NetlifyBodyDecodes(f: BookingForm)
    ensures DecodeForm(NetlifyBody(f)) == Some([
      ("form-name", "booking-form"),
      ("name", f.name),
      ("email", f.email),
      ("phone", f.phone),
      ("eventType", f.eventType),
      ("eventDate", f.eventDate),
      ("venue", f.venue),
      ("configuration", f.configuration),
      ("message", f.message)])
  {
    DecodeEncodeForm(Payload(f));
    PayloadPairs(f);
  }

  /** Two forms produce the same body only if they are the same form. */
  lemma NetlifyBodyInjective(f: BookingForm, g: BookingForm)
    requires NetlifyBody(f) == NetlifyBody(g)
    ensures f == g
  {
    NetlifyBodyDecodes(f);
    NetlifyBodyDecodes(g);
  }

  // ---------------------------------------------------------------------
  // The submit handler
  // ---------------------------------------------------------------------

  datatype Request =
    | NetlifyPost(body: string)
    | BackendPost(url: string, form: BookingForm)

  datatype BookingsState = BookingsState(form: BookingForm, loading: bool)

  /** What `handleSubmit` leaves behind once every awaited call has settled:
      the requests it made, in order, the new state and the toast. */
  datatype Submitted = Submitted(requests: seq<Request>, state: BookingsState, toast: Toast)

  const SentToast := Toast("Booking Inquiry Sent!", "We'll get back to you within 24 hours.", false)
  const FailedToast := Toast("Error", "Failed to send inquiry. Please try again.", true)

  /** `handleSubmit`, given how the Netlify post and the backend post
      settle.  `fetch` rejects only when no response arrives at all, so an
      HTTP error status from Netlify counts as `Resolved`. */
  function HandleSubmit(s: BookingsState, backendUrl: Option<string>, netlify: Outcome, backend: Outcome)
    : (h: Submitted)
    ensures !h.state.loading
    ensures h.requests != [] && h.requests[0] == NetlifyPost(NetlifyBody(s.form))
    ensures netlify == Rejected ==>
      h.requests == [NetlifyPost(NetlifyBody(s.form))] && h.state.form == s.form && h.toast.destructive
    ensures netlify == Resolved ==> h.state.form == EmptyBookingForm && !h.toast.destructive
    ensures netlify == Resolved ==> (|h.requests| == 2 <==> ApiBase(backendUrl).Some?)
    ensures |h.requests| <= 2
    ensures |h.requests| == 2 ==> h.requests[1] == BackendPost(ApiBase(backendUrl).value + "/bookings", s.form)
  {
    var netlifyPost := NetlifyPost(NetlifyBody(s.form));
    match netlify
    case Rejected =>
      Submitted([netlifyPost], s.(loading := false), FailedToast)
    case Resolved =>
      var backendPosts := match ApiBase(backendUrl)
        case Some(api) => [BackendPost(api + "/bookings", s.form)]
        case None => [];
      // Whatever `backend` is, its rejection is caught and only logged.
      Submitted([netlifyPost] + backendPosts, BookingsState(EmptyBookingForm, false), SentToast)
  }

  /** A failed backend post is swallowed: the handler ends exactly as it
      does when the backend accepts the booking. */
  lemma BackendFailureSwallowed(s: BookingsState, backendUrl: Option<string>, netlify: Outcome)
    ensures HandleSubmit(s, backendUrl, netlify, Rejected) == HandleSubmit(s, backendUrl, netlify, Resolved)
  {
  }

  /** A rejected Netlify post changes nothing but the loading flag, and a
      retry posts the same body; after a success the next submit posts the
      empty form. */
  lemma RetryAfterFailurePostsSameBody(s: BookingsState, backendUrl: Option<string>, backend: Outcome)
    ensures HandleSubmit(s, backendUrl, Rejected, backend).state == s.(loading := false)
    ensures HandleSubmit(HandleSubmit(s, backendUrl, Rejected, backend).state, backendUrl, Rejected, backend).requests
         == HandleSubmit(s, backendUrl, Rejected, backend).requests
    ensures HandleSubmit(HandleSubmit(s, backendUrl, Resolved, backend).state, backendUrl, Rejected, backend).requests
         == [NetlifyPost(NetlifyBody(EmptyBookingForm))]
  {
  }
}
