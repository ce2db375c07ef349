/** The home page: an image carousel over a fixed gallery, a newsletter
    sign-up form and a contact form. The network posts are abstracted as
    their `Outcome`; the toast notifications as a value the handler returns. */
module Home {
  import opened Wrappers
  import opened Arith
  import opened Config

  /** The gallery shown by the carousel, in display order. */
  const GalleryImages: seq<string> := [
    "https://images.squarespace-cdn.com/content/v1/59d4e29ac027d8f12df47f49/1507208572358-ZU73JBVWHOH9W16IN9UH/16198942527_80d315f6c8_o.jpg?format=2500w",
    "https://images.squarespace-cdn.com/content/v1/59d4e29ac027d8f12df47f49/1567687980262-R01VKBQKZQQ0PU6AVYBH/Eternal+The+Show-9.jpg?format=2500w",
    "https://images.squarespace-cdn.com/content/v1/59d4e29ac027d8f12df47f49/1567688161854-PHS7VPBUBCZ45VBOJLRA/Eternal+The+Show-3.jpg?format=2500w",
    "https://images.squarespace-cdn.com/content/v1/59d4e29ac027d8f12df47f49/1567688308635-MWVZ15D9TU3O2ZYYAZCM/Eternal+The+Show-20.jpg?format=2500w",
    "https://images.squarespace-cdn.com/content/v1/59d4e29ac027d8f12df47f49/1567688440851-OCWDWNMFXWG2SM43XRJI/Eternal+The+Show-21.jpg?format=2500w",
    "https://images.squarespace-cdn.com/content/v1/59d4e29ac027d8f12df47f49/1507208982602-8F1XOKYVLCTL9T21EP1E/15783890164_657075ea2f_o.jpg?format=2500w",
    "https://images.squarespace-cdn.com/content/v1/59d4e29ac027d8f12df47f49/1507209115020-T8XLJ964FSBGPS0WH404/26597747982_2c796675b4_o+%281%29.jpg?format=2500w",
    "https://images.squarespace-cdn.com/content/v1/59d4e29ac027d8f12df47f49/1507208917272-N3RMAJX23AEEQT8DCORX/16358901526_39c7c27d23_o.jpg?format=2500w",
    "https://images.squarespace-cdn.com/content/v1/59d4e29ac027d8f12df47f49/1507209565971-LASKUQY0VOL9CHOBPXNY/26663986496_d9f7f040fa_o.jpg?format=2500w",
    "https://images.squarespace-cdn.com/content/v1/59d4e29ac027d8f12df47f49/1507209859439-LKOL5IXKIH2YQ4H60ZKZ/26624593331_0639601b88_o+%281%29.jpg?format=2500w",
    "https://images.squarespace-cdn.com/content/v1/59d4e29ac027d8f12df47f49/1507209948785-1B3H2WJ7FCKSNVI4ODEG/ABL-5.jpg?format=2500w",
    "https://images.squarespace-cdn.com/content/v1/59d4e29ac027d8f12df47f49/1507210332539-YI23GP65QJI2MBP0PIDF/ABL-148.jpg?format=2500w",
    "https://images.squarespace-cdn.com/content/v1/59d4e29ac027d8f12df47f49/1567688335012-74B4WNEZB1VX4S4CKOZ7/Eternal+The+Show-27.jpg?format=2500w",
    "https://images.squarespace-cdn.com/content/v1/59d4e29ac027d8f12df47f49/1569417665485-IIGV7JN070J6UY4B6WDD/Eternal+2019_Medium+Res-325.jpg?format=2500w",
    "https://images.squarespace-cdn.com/content/v1/59d4e29ac027d8f12df47f49/1508253226485-6NRS44HH9QOK5QJSSIO5/bw-2.jpg?format=2500w"
  ]

  // ---------------------------------------------------------------------
  // Carousel index arithmetic
  // ---------------------------------------------------------------------

  /** JavaScript's `a % b`: the remainder of division truncated toward zero,
      so it takes the sign of the dividend (Dafny's own `%` never does). */
  function JsRem(a: int, b: int): (r: int)
    requires b > 0
    ensures 0 <= a ==> 0 <= r < b
    ensures a < 0 ==> -b < r <= 0
    ensures (a - r) % b == 0
  {
    if a >= 0 then
      DivModUnique(a - a % b, b, a / b, 0);
      a % b
    else
      DivModUnique(a + (-a) % b, b, -((-a) / b), 0);
      -((-a) % b)
  }

  /** `nextImage`: the index one step forward over a gallery of `n` images. */
  function NextIndex(n: int, prev: int): (r: int)
    requires n >= 1
    ensures 0 <= prev ==> 0 <= r < n
    ensures 0 <= prev < n ==> r == (if prev == n - 1 then 0 else prev + 1)
  {
    if 0 <= prev < n then
      DivModUnique(prev, n, 0, prev);
      ModSucc(prev, n);
      JsRem(prev + 1, n)
    else
      JsRem(prev + 1, n)
  }

  /** `prevImage`: the index one step backward; adding `n` first keeps the
      dividend non-negative, so index 0 wraps to the last image. */
  function PrevIndex(n: int, prev: int): (r: int)
    requires n >= 1
    ensures 0 <= prev ==> 0 <= r < n
    ensures 0 <= prev < n ==> r == (if prev == 0 then n - 1 else prev - 1)
  {
    if 0 <= prev < n then
      if prev == 0 then
        DivModUnique(n - 1, n, 0, n - 1);
        JsRem(prev - 1 + n, n)
      else
        DivModUnique(prev - 1 + n, n, 1, prev - 1);
        JsRem(prev - 1 + n, n)
    else
      JsRem(prev - 1 + n, n)
  }

  /** Stepping back undoes stepping forward, and the other way round. */
  lemma PrevUndoesNext(n: int, i: int)
    requires n >= 1 && 0 <= i < n
    ensures PrevIndex(n, NextIndex(n, i)) == i
    ensures NextIndex(n, PrevIndex(n, i)) == i
  {
  }

  /** The index after `k` calls of `nextImage` starting from `i`. */
  function Advance(n: int, i: int, k: nat): int
    requires n >= 1
  {
    if k == 0 then i else NextIndex(n, Advance(n, i, k - 1))
  }

  /** `k` forward steps move the index by `k` modulo the gallery size. */
  lemma {:induction false} AdvanceIsAddition(n: int, i: int, k: nat)
    requires n >= 1 && 0 <= i < n
    ensures Advance(n, i, k) == (i + k) % n
  {
    if k == 0 {
      DivModUnique(i, n, 0, i);
    } else {
      AdvanceIsAddition(n, i, k - 1);
      ModSucc(i + k - 1, n);
    }
  }

  /** `n` forward steps bring the carousel back to where it started, and one
      step back from the first image shows the last one. */
  lemma FullTurn(n: int, i: int)
    requires n >= 1 && 0 <= i < n
    ensures Advance(n, i, n) == i
    ensures PrevIndex(n, 0) == n - 1
  {
    AdvanceIsAddition(n, i, n);
    DivModUnique(i + n, n, 1, i);
  }

  datatype Move = Next | Prev

  /** The index after the user clicks the given arrows in order. */
  function Replay(n: int, i: int, moves: seq<Move>): int
    requires n >= 1
    decreases |moves|
  {
    if moves == [] then i
    else
      var j := if moves[0] == Next then NextIndex(n, i) else PrevIndex(n, i);
      Replay(n, j, moves[1..])
  }

  /** No sequence of clicks leaves the valid index range. */
  lemma {:induction false} ReplayStaysInRange(n: int, i: int, moves: seq<Move>)
    requires n >= 1 && 0 <= i < n
    ensures 0 <= Replay(n, i, moves) < n
    decreases |moves|
  {
    if moves != [] {
      var j := if moves[0] == Next then NextIndex(n, i) else PrevIndex(n, i);
      ReplayStaysInRange(n, j, moves[1..]);
    }
  }

  // ---------------------------------------------------------------------
  // Page state and the two form handlers
  // ---------------------------------------------------------------------

  datatype ContactForm = ContactForm(
    firstName: string,
    lastName: string,
    email: string,
    subject: string,
    message: string)

  const EmptyContactForm := ContactForm("", "", "", "", "")

  datatype HomeState = HomeState(
    newsletterEmail: string,
    contactForm: ContactForm,
    loading: bool,
    currentImageIndex: int)

  /** The index always selects an image of the gallery. */
  predicate Valid(s: HomeState) {
    0 <= s.currentImageIndex < |GalleryImages|
  }

  const InitialState := HomeState("", EmptyContactForm, false, 0)

  lemma InitialStateValid()
    ensures Valid(InitialState)
    ensures |GalleryImages| == 15
  {
  }

  /** The image `<img src=...>` shows; always within the gallery. */
  function CurrentImage(s: HomeState): (url: string)
    requires Valid(s)
    ensures url in GalleryImages
  {
    GalleryImages[s.currentImageIndex]
  }

  function NextImage(s: HomeState): (r: HomeState)
    requires Valid(s)
    ensures Valid(r)
    ensures r == s.(currentImageIndex := r.currentImageIndex)
  {
    s.(currentImageIndex := NextIndex(|GalleryImages|, s.currentImageIndex))
  }

  function PrevImage(s: HomeState): (r: HomeState)
    requires Valid(s)
    ensures Valid(r)
    ensures r == s.(currentImageIndex := r.currentImageIndex)
  {
    s.(currentImageIndex := PrevIndex(|GalleryImages|, s.currentImageIndex))
  }

  lemma PrevImageUndoesNextImage(s: HomeState)
    requires Valid(s)
    ensures PrevImage(NextImage(s)) == s
    ensures NextImage(PrevImage(s)) == s
  {
    PrevUndoesNext(|GalleryImages|, s.currentImageIndex);
  }

  /** What a submit handler leaves behind: the state after the awaited
      post has settled, and the toast it raised. */
  datatype Handled = Handled(state: HomeState, toast: Toast)

  const SubscribedToast := Toast("Success!", "Thank you for subscribing to our newsletter.", false)
  const SubscribeFailedToast := Toast("Error", "Failed to subscribe. Please try again.", true)
  const SentToast := Toast("Message Sent!", "We'll get back to you soon.", false)
  const SendFailedToast := Toast("Error", "Failed to send message. Please try again.", true)

  /** The body `handleNewsletterSubmit` posts. */
  function NewsletterRequest(s: HomeState): string {
    s.newsletterEmail
  }

  /** `handleNewsletterSubmit`, given how the post to `/newsletter` settled. */
  function SubmitNewsletter(s: HomeState, posted: Outcome): (h: Handled)
    ensures !h.state.loading
    ensures posted == Resolved ==> h.state.newsletterEmail == "" && !h.toast.destructive
    ensures posted == Rejected ==> h.state.newsletterEmail == s.newsletterEmail && h.toast.destructive
    ensures h.state.contactForm == s.contactForm
    ensures h.state.currentImageIndex == s.currentImageIndex
  {
    match posted
    case Resolved => Handled(s.(newsletterEmail := "", loading := false), SubscribedToast)
    case Rejected => Handled(s.(loading := false), SubscribeFailedToast)
  }

  /** `handleContactSubmit`, given how the post to `/contact` settled. */
  function SubmitContact(s: HomeState, posted: Outcome): (h: Handled)
    ensures !h.state.loading
    ensures posted == Resolved ==> h.state.contactForm == EmptyContactForm && !h.toast.destructive
    ensures posted == Rejected ==> h.state.contactForm == s.contactForm && h.toast.destructive
    ensures h.state.newsletterEmail == s.newsletterEmail
    ensures h.state.currentImageIndex == s.currentImageIndex
  {
    match posted
    case Resolved => Handled(s.(contactForm := EmptyContactForm, loading := false), SentToast)
    case Rejected => Handled(s.(loading := false), SendFailedToast)
  }

  /** A failed submit changes nothing but the loading flag; a successful one
      differs from it only in the cleared field; and submitting again after a
      success posts empty fields. */
  lemma SubmitOutcomesDifferOnlyInForm(s: HomeState)
    ensures SubmitNewsletter(s, Rejected).state == s.(loading := false)
    ensures SubmitNewsletter(s, Resolved).state
         == SubmitNewsletter(s, Rejected).state.(newsletterEmail := "")
    ensures NewsletterRequest(SubmitNewsletter(s, Resolved).state) == ""
    ensures SubmitContact(s, Rejected).state == s.(loading := false)
    ensures SubmitContact(s, Resolved).state
         == SubmitContact(s, Rejected).state.(contactForm := EmptyContactForm)
  {
  }

  /** Neither handler can move the carousel out of range. */
  lemma SubmitKeepsValid(s: HomeState, posted: Outcome)
    requires Valid(s)
    ensures Valid(SubmitNewsletter(s, posted).state)
    ensures Valid(SubmitContact(s, posted).state)
  {
  }
}
