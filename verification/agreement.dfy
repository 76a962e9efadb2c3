/** How the create form's checks line up with the server's: the client sends its five form values
    as the multipart body (frontend/src/services/heroServices.js) and its selected files as
    `images`. */
module Agreement {
  import opened Wrappers
  import opened Text
  import opened HeroSchema
  import Media
  import Routes
  import ClientForm
  import Controller
  import Pagination

  /** `formData.append(key, value)` for every form entry: each field arrives as typed. */
  function FormBody(form: Texts): (body: Routes.Body)
    ensures Nickname in body && body[Nickname] == form.nickname
    ensures RealName in body && body[RealName] == form.realName
    ensures OriginDescription in body && body[OriginDescription] == form.originDescription
    ensures Superpowers in body && body[Superpowers] == form.superpowers
    ensures CatchPhrase in body && body[CatchPhrase] == form.catchPhrase
  {
    map[Nickname := form.nickname, RealName := form.realName, OriginDescription := form.originDescription,
        Superpowers := form.superpowers, CatchPhrase := form.catchPhrase]
  }

  /** Every field of the body is the form's value for it. */
  lemma FormBodyCarriesForm(form: Texts, f: TextField)
    ensures f in FormBody(form) && FormBody(form)[f] == form.Get(f)
  {
    match f
    case Nickname =>
    case RealName =>
    case OriginDescription =>
    case Superpowers =>
    case CatchPhrase =>
  }

  /** Whatever the server's create chain accepts from a form the client accepts too: the client's
      minimums equal the chain's, and trimming never lengthens a value. */
  lemma ServerAcceptedFormPassesClient(form: Texts, files: seq<Media.File>)
    requires Routes.CreateValid(FormBody(form)) && |files| >= 1
    ensures ClientForm.ClientAccepts(form, files)
  {
    Routes.CreateValidIff(FormBody(form));
    forall f ensures |form.Get(f)| >= ClientForm.ClientMinLength(f) {
      FieldPassesClient(form, f);
    }
    ClientForm.ClientAcceptsIff(form, files);
  }

  /** One field the create chain accepts is long enough for the client. */
  lemma FieldPassesClient(form: Texts, f: TextField)
    requires Routes.CreateFieldOk(FormBody(form), f)
    ensures |form.Get(f)| >= ClientForm.ClientMinLength(f)
  {
    var body := FormBody(form);
    FormBodyCarriesForm(form, f);
    Routes.SanitizedNoLonger(body, f);
    assert Routes.Lookup(body, f) == form.Get(f);
    assert Routes.CreateMinLength(f) == ClientForm.ClientMinLength(f) by {
      match f
      case Nickname =>
      case RealName =>
      case OriginDescription =>
      case Superpowers =>
      case CatchPhrase =>
    }
  }

  const Padded: Texts := Texts(" a", "Clark Kent", "Born on Krypton", "flight", "Up, up and away")

  /** The converse fails: the client measures the nickname untrimmed, so a form whose nickname is
      one letter behind a space passes the client and is then refused with 400. */
  lemma PaddedNicknameGap()
    ensures ClientForm.ClientAccepts(Padded, ["cape.png"])
    ensures !Routes.CreateValid(FormBody(Padded))
  {
    PaddedPassesClient();
    PaddedFailsServer();
  }

  lemma PaddedPassesClient()
    ensures ClientForm.ClientAccepts(Padded, ["cape.png"])
  {
    ClientForm.ClientAcceptsIff(Padded, ["cape.png"]);
    forall f ensures |Padded.Get(f)| >= ClientForm.ClientMinLength(f) {
      match f
      case Nickname =>
      case RealName =>
      case OriginDescription =>
      case Superpowers =>
      case CatchPhrase =>
    }
  }

  lemma PaddedFailsServer()
    ensures !Routes.CreateValid(FormBody(Padded))
  {
    FormBodyCarriesForm(Padded, Nickname);
    Routes.PaddedNicknameRejected(FormBody(Padded));
  }

  /** The client puts no upper bound on the selection, while the server's upload middleware
      refuses more than five files with 500 before the handler runs: a form the client accepts can
      still fail with nothing stored. */
  lemma TooManyFilesGap(st: Controller.Store, media: Media.MediaService, form: Texts, files: seq<Media.File>)
    requires ClientForm.ClientAccepts(form, files) && |files| > Routes.MaxFiles
    ensures var o := Controller.Handle(st, media, Controller.CreateHero(FormBody(form), files));
      o == Controller.Outcome(st, [], Controller.ServerError)
  {
  }

  /** The home page asks for `?page=<n>` with the page number written out in decimal; for every
      positive integer page below 10^21 the server reads back exactly that page. */
  lemma ListingPageRoundTrip(st: Controller.Store, page: int)
    requires page >= 1
    ensures var o := Controller.List(st, Some(Pagination.Decimal(page)));
      o.response.Listing? && o.response.page == page
  {
    Pagination.ParseIntOfDecimal(page);
  }

  /** `Number(searchParams.get("page"))` can hold a fraction: for `n >= 1` the home page then
      asks for `?page=<n>.<digits>`, and the server lists page `n` and reports `n` as the page. */
  lemma ListingFractionalPage(st: Controller.Store, n: int, frac: string)
    requires n >= 1
    ensures var o := Controller.List(st, Some(Pagination.Decimal(n) + "." + frac));
      o.response.Listing? && o.response.page == n
  {
    Pagination.ParseIntOfFraction(n, frac);
  }

  /** From 10^21 on, JavaScript writes a number in exponent form `<d>[.<digits>]e+<k>`: the home
      page then asks for such a page, and the server lists page `d`, the leading digit. */
  lemma ListingExponentPage(st: Controller.Store, d: int, rest: string)
    requires 1 <= d <= 9
    requires |rest| > 0 && (rest[0] == '.' || rest[0] == 'e')
    ensures var o := Controller.List(st, Some(Pagination.Decimal(d) + rest));
      o.response.Listing? && o.response.page == d
  {
    Pagination.ParseIntOfDigitsThen(d, rest);
  }

  /** A fraction between -1 and 1 reads as 0 (or -0), which `|| 1` turns into page 1. */
  lemma ListingSmallFractionPage(st: Controller.Store, negative: bool, frac: string)
    ensures var o := Controller.List(st, Some((if negative then "-" else "") + "0." + frac));
      o.response.Listing? && o.response.page == 1
  {
    if negative {
      Pagination.ParseIntOfNegativeFraction(0, frac);
      assert "-" + Pagination.DecimalDigits(0) + "." + frac == "-" + "0." + frac;
    } else {
      Pagination.ParseIntOfFraction(0, frac);
      assert Pagination.DecimalDigits(0) + "." + frac == "" + "0." + frac;
    }
  }

  /** A fraction of -1 or below reads as a negative page, whose negative skip the database
      refuses: the listing answers 500. */
  lemma ListingNegativeFractionPage(st: Controller.Store, n: int, frac: string)
    requires n >= 1
    ensures Controller.List(st, Some(Pagination.Decimal(-n) + "." + frac)).response.ServerError?
  {
    Pagination.ParseIntOfNegativeFraction(n, frac);
    assert Pagination.Decimal(-n) + "." + frac == "-" + Pagination.DecimalDigits(n) + "." + frac;
  }
}
