/** The router (backend/routes/heroes.js): the multipart file cap, the create and patch validator
    chains, and the order the routes are registered in. */
module Routes {
  import opened Wrappers
  import opened Text
  import opened HeroSchema
  import UriCodec

  /** Multipart text fields as received; a field the client did not send is absent. */
  type Body = map<TextField, string>

  /** `upload.array('images', 5)`: more files than this make the parser fail the request. */
  const MaxFiles: nat := 5

  predicate WithinFileCap<F>(files: seq<F>) {
    |files| <= MaxFiles
  }

  /** Minimum lengths of the create chain. */
  function CreateMinLength(f: TextField): nat {
    match f
    case Nickname => 2
    case RealName => 2
    case OriginDescription => 10
    case Superpowers => 3
    case CatchPhrase => 3
  }

  /** The create chain sanitizes these two fields with `.trim()` before measuring them. */
  predicate CreateTrims(f: TextField) {
    f == Nickname || f == RealName
  }

  /** The two variation selectors (text and emoji presentation) that validator.js `isLength`
      does not count. */
  predicate IsPresentationSelector(c: char) {
    c == '\U{FE0E}' || c == '\U{FE0F}'
  }

  /** validator.js `isLength`'s measure: one per code point (a surrogate pair counts once), less
      one for every variation selector U+FE0E or U+FE0F. */
  function ValidatorLength(s: string): (n: nat)
    ensures n <= |s|
    ensures (forall i :: 0 <= i < |s| ==> !IsPresentationSelector(s[i])) ==> n == |s|
    ensures (forall i :: 0 <= i < |s| ==> IsPresentationSelector(s[i])) ==> n == 0
    ensures n == |s| - multiset(s)['\U{FE0E}'] - multiset(s)['\U{FE0F}']
  {
    if s == [] then 0
    else
      assert s == [s[0]] + s[1..];
      (if IsPresentationSelector(s[0]) then 0 else 1) + ValidatorLength(s[1..])
  }

  /** The value a validator reads: an absent field reads as the empty string. */
  function Lookup(body: Body, f: TextField): string {
    if f in body then body[f] else ""
  }

  /** The value after the create chain's sanitizers; the controller sees this value. */
  function CreateSanitized(body: Body, f: TextField): string {
    if CreateTrims(f) then Trim(Lookup(body, f)) else Lookup(body, f)
  }

  predicate CreateFieldOk(body: Body, f: TextField) {
    ValidatorLength(CreateSanitized(body, f)) >= CreateMinLength(f)
  }

  function CreateErrors(body: Body): seq<TextField> {
    Failing(TextFields, f => CreateFieldOk(body, f))
  }

  /** `validationResult(req).isEmpty()` after the create chain. */
  predicate CreateValid(body: Body) {
    CreateErrors(body) == []
  }

  /** Minimum lengths of the patch chain. */
  function PatchMinLength(f: TextField): nat {
    match f
    case Nickname => 2
    case RealName => 2
    case OriginDescription => 10
    case Superpowers => 3
    case CatchPhrase => 3
  }

  /** `.optional().isLength(...)`: an absent field is skipped, a present one is measured as sent,
      untrimmed, so a present empty string fails. */
  predicate PatchFieldOk(body: Body, f: TextField) {
    f !in body || ValidatorLength(body[f]) >= PatchMinLength(f)
  }

  function PatchErrors(body: Body): seq<TextField> {
    Failing(TextFields, f => PatchFieldOk(body, f))
  }

  predicate PatchValid(body: Body) {
    PatchErrors(body) == []
  }

  /** The create chain accepts a body exactly when every field, sanitized, meets its minimum as
      `isLength` measures it. */
  lemma CreateValidIff(body: Body)
    ensures CreateValid(body) <==> forall f :: CreateFieldOk(body, f)
  {
    if !CreateValid(body) {
      var f := CreateErrors(body)[0];
      assert f in CreateErrors(body);
    }
    forall f ensures CreateValid(body) ==> CreateFieldOk(body, f) {
      EveryFieldListed(f);
    }
  }

  lemma PatchValidIff(body: Body)
    ensures PatchValid(body) <==> forall f :: PatchFieldOk(body, f)
  {
    if !PatchValid(body) {
      var f := PatchErrors(body)[0];
      assert f in PatchErrors(body);
    }
    forall f ensures PatchValid(body) ==> PatchFieldOk(body, f) {
      EveryFieldListed(f);
    }
  }

  /** Both chains ask, field by field, for the schema's minimum length, and the create chain trims
      exactly the fields the schema trims. */
  lemma ChainsMatchSchemaMinimums(f: TextField)
    ensures CreateMinLength(f) == PatchMinLength(f) == MinLength(f)
    ensures CreateTrims(f) == Trimmed(f)
  {
  }

  /** A body the create chain accepts gives values the schema accepts after its own trim setter:
      `save()` cannot reject the text of a validated create request. */
  lemma CreateValidSatisfiesSchema(body: Body)
    requires CreateValid(body)
    ensures forall f :: TextOk(f, Cast(f, CreateSanitized(body, f)))
  {
    CreateValidIff(body);
    forall f ensures TextOk(f, Cast(f, CreateSanitized(body, f))) {
      assert CreateFieldOk(body, f);
      var v := CreateSanitized(body, f);
      if Trimmed(f) {
        TrimIdempotent(Lookup(body, f));
        assert Cast(f, v) == Trim(v) == v;
      } else {
        assert Cast(f, v) == v;
      }
    }
  }

  /** The patch chain measures untrimmed text while the schema measures it trimmed: a padded
      one-letter nickname passes the chain and is then refused by the schema's update validators. */
  lemma PatchPaddingGap()
    ensures PatchValid(map[Nickname := "  a  "])
    ensures !TextOk(Nickname, Cast(Nickname, "  a  "))
  {
    var body := map[Nickname := "  a  "];
    assert forall f :: PatchFieldOk(body, f);
    PatchValidIff(body);
    PaddedNickname();
  }

  /** Sanitizing and measuring never make a value longer than it was sent. */
  lemma SanitizedNoLonger(body: Body, f: TextField)
    ensures ValidatorLength(CreateSanitized(body, f)) <= |Lookup(body, f)|
  {
  }

  /** One field below its minimum makes the create chain refuse the body. */
  lemma ShortFieldRejects(body: Body, f: TextField)
    requires ValidatorLength(CreateSanitized(body, f)) < CreateMinLength(f)
    ensures !CreateValid(body)
  {
    CreateValidIff(body);
  }

  /** The create chain trims `" a"` to one letter and refuses it as a nickname. */
  lemma PaddedNicknameRejected(body: Body)
    requires Nickname in body && body[Nickname] == " a"
    ensures !CreateValid(body)
  {
    assert CreateSanitized(body, Nickname) == "a" by {
      TrimPadded(" ", "a", "");
      assert " " + "a" + "" == " a";
    }
    assert ValidatorLength("a") == 1;
    ShortFieldRejects(body, Nickname);
  }

  /** `isLength` discounts a variation selector that the schema's `minlength` counts: a nickname of
      one letter and U+FE0F is refused by both chains although the schema would store it. */
  lemma SelectorDiscount()
    ensures ValidatorLength("a\U{FE0F}") == 1
    ensures !CreateFieldOk(map[Nickname := "a\U{FE0F}"], Nickname)
    ensures !PatchFieldOk(map[Nickname := "a\U{FE0F}"], Nickname)
    ensures TextOk(Nickname, Cast(Nickname, "a\U{FE0F}"))
  {
    var s := "a\U{FE0F}";
    assert ValidatorLength(s[1..]) == 0;
    SelectorNicknameKept();
  }

  /** Trimming keeps a letter followed by U+FE0F, which is not white space. */
  lemma SelectorNicknameKept()
    ensures Trim("a\U{FE0F}") == "a\U{FE0F}"
  {
    var s := "a\U{FE0F}";
    assert AllSpace([]);
    TrimPadded([], s, []);
    assert [] + s + [] == s;
  }

  // ---- dispatch ----

  datatype Method = Get | Post | Patch | Delete

  /** A path pattern below the mount point: `/`, a literal segment, or `/:id`. */
  datatype Pattern = Root | Literal(name: string) | IdParam

  datatype Action = ListHeroes | CreateHero | DeleteHeroImage | GetHero | UpdateHero | DeleteHero

  datatype Route = Route(verb: Method, pattern: Pattern, action: Action)

  /** Where routing ends: a handler with its decoded `:id`, a parameter `decodeURIComponent`
      refuses (Express answers 400 before any handler runs), or no route (404). */
  datatype Dispatched = Dispatched(action: Action, id: Option<string>) | BadParam | NoRoute

  /** Express's default, case-insensitive matching of one raw path (as its non-empty segments);
      the method is not looked at. */
  predicate PatternMatches(p: Pattern, segments: seq<string>) {
    match p
    case Root => segments == []
    case Literal(name) => |segments| == 1 && EqualsIgnoreAsciiCase(segments[0], name)
    case IdParam => |segments| == 1 && |segments[0]| > 0
  }

  /** The route's path matches and its `:id` cannot be decoded: Express holds the error, and no
      route matches while an error is pending. */
  predicate Blocks(route: Route, segments: seq<string>) {
    route.pattern == IdParam && PatternMatches(route.pattern, segments) && UriCodec.Decode(segments[0]).None?
  }

  predicate Handles(route: Route, m: Method, segments: seq<string>) {
    route.verb == m && PatternMatches(route.pattern, segments) && !Blocks(route, segments)
  }

  /** Routing stops at a route that handles the request or that blocks it. */
  predicate Stops(route: Route, m: Method, segments: seq<string>) {
    Handles(route, m, segments) || Blocks(route, segments)
  }

  /** The routes in registration order. */
  const Registered: seq<Route> := [
    Route(Get, Root, ListHeroes),
    Route(Post, Root, CreateHero),
    Route(Delete, Literal("image"), DeleteHeroImage),
    Route(Get, IdParam, GetHero),
    Route(Patch, IdParam, UpdateHero),
    Route(Delete, IdParam, DeleteHero)
  ]

  /** Routing from position `from` of `table`: the first route that stops it decides. A handling
      route dispatches to its action, with the decoded segment as the id of an `/:id` route; a
      blocking route ends in `BadParam`; with neither there is no route. */
  function DispatchFrom(table: seq<Route>, from: nat, m: Method, segments: seq<string>): (r: Dispatched)
    ensures r.NoRoute? <==> forall i :: from <= i < |table| ==> !Stops(table[i], m, segments)
    ensures !r.NoRoute? ==> exists i :: (from <= i < |table| && Stops(table[i], m, segments)
      && (forall j :: from <= j < i ==> !Stops(table[j], m, segments))
      && (r.BadParam? <==> Blocks(table[i], segments))
      && (r.Dispatched? ==>
            && r.action == table[i].action
            && (r.id.Some? <==> table[i].pattern == IdParam)
            && (r.id.Some? ==> UriCodec.Decode(segments[0]) == r.id)))
    decreases |table| - from
  {
    if from >= |table| then NoRoute
    else if Blocks(table[from], segments) then BadParam
    else if Handles(table[from], m, segments) then
      Dispatched(table[from].action, if table[from].pattern == IdParam then UriCodec.Decode(segments[0]) else None)
    else DispatchFrom(table, from + 1, m, segments)
  }

  /** Express tries the routes in registration order; the first match handles the request. */
  function Dispatch(table: seq<Route>, m: Method, segments: seq<string>): Dispatched {
    DispatchFrom(table, 0, m, segments)
  }

  /** A route that does not stop the request passes it on to the next one. */
  lemma PassesOn(table: seq<Route>, from: nat, m: Method, segments: seq<string>)
    requires from < |table| && !Stops(table[from], m, segments)
    ensures DispatchFrom(table, from, m, segments) == DispatchFrom(table, from + 1, m, segments)
  {
  }

  /** The registered routes before the `/:id` ones do not stop a single segment other than
      `DELETE /image`. */
  lemma LiteralRoutesPass(m: Method, segment: string)
    requires !(m == Delete && EqualsIgnoreAsciiCase(segment, "image"))
    ensures Dispatch(Registered, m, [segment]) == DispatchFrom(Registered, 3, m, [segment])
  {
    var seg := [segment];
    PassesOn(Registered, 0, m, seg);
    PassesOn(Registered, 1, m, seg);
    assert !Stops(Registered[2], m, seg);
    PassesOn(Registered, 2, m, seg);
  }

  /** `DELETE /image` (in any letter case, matched on the raw path) reaches the image-removal
      handler; any other single segment is decoded and taken as a hero id, or answered 400 when it
      does not decode. */
  lemma DeleteImageBeforeId(segment: string)
    requires |segment| > 0
    ensures EqualsIgnoreAsciiCase(segment, "image") ==> Dispatch(Registered, Delete, [segment]) == Dispatched(DeleteHeroImage, None)
    ensures !EqualsIgnoreAsciiCase(segment, "image") && UriCodec.Decode(segment).Some? ==>
      Dispatch(Registered, Delete, [segment]) == Dispatched(DeleteHero, UriCodec.Decode(segment))
    ensures !EqualsIgnoreAsciiCase(segment, "image") && UriCodec.Decode(segment).None? ==>
      Dispatch(Registered, Delete, [segment]) == BadParam
  {
    var seg := [segment];
    if EqualsIgnoreAsciiCase(segment, "image") {
      PassesOn(Registered, 0, Delete, seg);
      PassesOn(Registered, 1, Delete, seg);
      assert Handles(Registered[2], Delete, seg);
    } else {
      LiteralRoutesPass(Delete, segment);
      if UriCodec.Decode(segment).Some? {
        PassesOn(Registered, 3, Delete, seg);
        PassesOn(Registered, 4, Delete, seg);
        assert Handles(Registered[5], Delete, seg);
      } else {
        assert Blocks(Registered[3], seg);
      }
    }
  }

  /** The literal route is matched before decoding: an escaped spelling of `image` is decoded into
      the id `image` and reaches `deleteHeroById`. */
  lemma EscapedImageIsAnId()
    ensures Dispatch(Registered, Delete, ["%69mage"]) == Dispatched(DeleteHero, Some("image"))
  {
    var t := "%69mage";
    UriCodec.DecodePlain("mage");
    assert UriCodec.IsHexDigit(t[1]) && UriCodec.IsHexDigit(t[2]);
    assert UriCodec.HexByte(t[1], t[2]) == 0x69;
    assert t[3..] == "mage" && (0x69 as char) == 'i' && ['i'] + "mage" == "image";
    assert UriCodec.Decode(t) == Some("image");
    DeleteImageBeforeId("%69mage");
  }

  /** A single segment that does not decode is answered 400 whatever the method, unless it spells
      `image` for a `DELETE`: the `/:id` path matches before its method is looked at. */
  lemma UndecodableSegment(m: Method, segment: string)
    requires |segment| > 0 && UriCodec.Decode(segment).None?
    requires !(m == Delete && EqualsIgnoreAsciiCase(segment, "image"))
    ensures Dispatch(Registered, m, [segment]) == BadParam
  {
    LiteralRoutesPass(m, segment);
    assert Blocks(Registered[3], [segment]);
  }

  /** Registered the other way round, `/:id` would swallow `DELETE /image`. */
  lemma IdFirstShadowsImage()
    ensures Dispatch([Route(Delete, IdParam, DeleteHero), Route(Delete, Literal("image"), DeleteHeroImage)], Delete, ["image"])
         == Dispatched(DeleteHero, Some("image"))
  {
    UriCodec.DecodePlain("image");
  }

  /** The mount point itself: `GET /` lists, `POST /` creates, and no other method has a route. */
  lemma RootRoutes()
    ensures Dispatch(Registered, Get, []) == Dispatched(ListHeroes, None)
    ensures Dispatch(Registered, Post, []) == Dispatched(CreateHero, None)
    ensures Dispatch(Registered, Patch, []) == NoRoute && Dispatch(Registered, Delete, []) == NoRoute
  {
    assert Handles(Registered[0], Get, []) && Handles(Registered[1], Post, []);
    forall i | 0 <= i < |Registered| ensures !Stops(Registered[i], Patch, []) && !Stops(Registered[i], Delete, []) {
    }
  }

  /** Any single segment is decoded into an id for `GET` and `PATCH`, which have no literal route;
      one that does not decode is answered 400. */
  lemma IdRoutes(segment: string)
    requires |segment| > 0
    ensures UriCodec.Decode(segment).Some? ==> Dispatch(Registered, Get, [segment]) == Dispatched(GetHero, UriCodec.Decode(segment))
    ensures UriCodec.Decode(segment).Some? ==> Dispatch(Registered, Patch, [segment]) == Dispatched(UpdateHero, UriCodec.Decode(segment))
    ensures UriCodec.Decode(segment).None? ==> Dispatch(Registered, Get, [segment]) == BadParam && Dispatch(Registered, Patch, [segment]) == BadParam
  {
    var seg := [segment];
    LiteralRoutesPass(Get, segment);
    LiteralRoutesPass(Patch, segment);
    if UriCodec.Decode(segment).Some? {
      PassesOn(Registered, 3, Patch, seg);
      assert Handles(Registered[4], Patch, seg);
      assert Handles(Registered[3], Get, seg);
    } else {
      assert Blocks(Registered[3], seg);
    }
  }

  /** `GET` and `PATCH` of `/image` take `image` as a hero id. */
  lemma ImageIsAnIdForGetAndPatch()
    ensures Dispatch(Registered, Get, ["image"]) == Dispatched(GetHero, Some("image"))
    ensures Dispatch(Registered, Patch, ["image"]) == Dispatched(UpdateHero, Some("image"))
  {
    UriCodec.DecodePlain("image");
    IdRoutes("image");
  }
}
