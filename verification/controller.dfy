/** The request handlers of backend/controllers/heroesController.js as transitions of a hero store:
    each handler takes the store, the media service and the request, and gives the new store, the
    media calls it issued in order, and the response. */
module Controller {
  import opened Wrappers
  import opened Text
  import opened HeroSchema
  import opened Media
  import opened Seqs
  import UriCodec
  import Routes
  import Pagination
  import PublicId

  /** A document identifier. Fresh identifiers come from a counter. */
  type Id = nat

  /** The collection: documents in natural (insertion) order, their contents, the next identifier. */
  datatype Store = Store(order: seq<Id>, heroes: map<Id, Hero>, nextId: Id)

  const EmptyStore: Store := Store([], map[], 0)

  /** The collection's invariant: each document listed once, exactly the stored ones, all with
      identifiers below the counter, and every one of them as the schema would save it. */
  ghost predicate Valid(st: Store) {
    && Distinct(st.order)
    && (forall id :: id in st.heroes <==> id in st.order)
    && (forall id :: id in st.heroes ==> id < st.nextId)
    && (forall id :: id in st.heroes ==> SchemaValid(st.heroes[id]) && Settled(st.heroes[id].text))
  }

  /** An identifier as the request carries it: one that casts to a document id, one that does not
      (Mongoose's cast error), or none at all. */
  datatype RequestId = WellFormed(id: Id) | Malformed | Absent

  datatype Response =
    | Listing(ids: seq<Id>, total: nat, page: int, totalPages: nat)
    | Created(id: Id, hero: Hero)
    | Found(hero: Hero)
    | Updated(hero: Hero)
    | Deleted(hero: Hero)
    | ImagesLeft(images: seq<string>)
    | Invalid(fields: seq<TextField>)
    | NoImages
    | NotFound
    | ServerError
  {
    function Status(): nat {
      match this
      case Listing(_, _, _, _) => 200
      case Created(_, _) => 201
      case Found(_) => 200
      case Updated(_) => 200
      case Deleted(_) => 200
      case ImagesLeft(_) => 200
      case Invalid(_) => 400
      case NoImages => 400
      case NotFound => 404
      case ServerError => 500
    }
  }

  datatype Outcome = Outcome(store: Store, calls: seq<MediaCall>, response: Response)

  /** The document a request identifier names, if it names one. */
  function Find(st: Store, rid: RequestId): (r: Option<Hero>)
    ensures r.Some? <==> rid.WellFormed? && rid.id in st.heroes
    ensures r.Some? ==> r.value == st.heroes[rid.id]
  {
    if rid.WellFormed? && rid.id in st.heroes then Some(st.heroes[rid.id]) else None
  }

  // ---- getAllHeroes ----

  /** `getAllHeroes`: the page number from the query, the window of five documents it selects, the
      total and the page count. A negative page gives a negative skip, which the database refuses. */
  function List(st: Store, query: Option<string>): (o: Outcome)
    ensures o.store == st && o.calls == []
    ensures o.response.ServerError? <==> Pagination.PageNumber(query) < 0
    ensures o.response.Listing? ==>
      var page := Pagination.PageNumber(query);
      && o.response.page == page >= 1
      && o.response.total == |st.order|
      && o.response.totalPages == Pagination.TotalPages(|st.order|)
      && |o.response.ids| <= Pagination.PageSize
      && (forall i :: 0 <= i < |o.response.ids| ==>
            (page - 1) * Pagination.PageSize + i < |st.order|
            && o.response.ids[i] == st.order[(page - 1) * Pagination.PageSize + i])
      && (page <= o.response.totalPages ==> |o.response.ids| >= 1)
      && o.response.ids == Pagination.PageSlice(st.order, Pagination.Skip(page))
    ensures o.response.Listing? || o.response.ServerError?
  {
    var page := Pagination.PageNumber(query);
    var skip := Pagination.Skip(page);
    if skip < 0 then Outcome(st, [], ServerError)
    else Outcome(st, [], Listing(Pagination.PageSlice(st.order, skip), |st.order|, page, Pagination.TotalPages(|st.order|)))
  }

  // ---- getHeroById ----

  /** `getHeroById`. */
  function Get(st: Store, rid: RequestId): (o: Outcome)
    ensures o.store == st && o.calls == []
    ensures o.response.Found? <==> Find(st, rid).Some?
    ensures o.response.Found? ==> o.response.hero == st.heroes[rid.id]
    ensures o.response.ServerError? <==> rid.Malformed?
    ensures o.response.Found? || o.response.NotFound? || o.response.ServerError?
  {
    match rid
    case Malformed => Outcome(st, [], ServerError)
    case _ =>
      match Find(st, rid)
      case None => Outcome(st, [], NotFound)
      case Some(h) => Outcome(st, [], Found(h))
  }

  // ---- createHero ----

  /** The text values the controller reads from a create request: the create chain's sanitized
      fields. */
  function CreateTexts(body: Routes.Body): (t: Texts)
    ensures forall f :: t.Get(f) == Routes.CreateSanitized(body, f)
  {
    Texts(Routes.CreateSanitized(body, Nickname), Routes.CreateSanitized(body, RealName),
          Routes.CreateSanitized(body, OriginDescription), Routes.CreateSanitized(body, Superpowers),
          Routes.CreateSanitized(body, CatchPhrase))
  }

  /** A document built from an accepted create body has text the schema accepts: only the image
      URLs can make `save()` fail. */
  lemma CreatedTextOk(body: Routes.Body, urls: seq<string>)
    requires Routes.CreateValid(body)
    ensures TextsOk(Document(CreateTexts(body), urls).text)
  {
    Routes.CreateValidSatisfiesSchema(body);
  }

  /** The store with a new document appended under the next identifier. */
  function Insert(st: Store, h: Hero): (r: Store)
    ensures r.order == st.order + [st.nextId] && r.heroes == st.heroes[st.nextId := h]
    ensures r.nextId > st.nextId
  {
    Store(st.order + [st.nextId], st.heroes[st.nextId := h], st.nextId + 1)
  }

  /** `createHero`: a rejected body or a request without files answers 400 and calls nothing;
      otherwise every file is uploaded, and a failed upload or a document `save()` refuses answers
      500 with the store untouched (the uploads stay issued). A created hero holds the sanitized
      text, set through the schema, and the delivery URLs in file order. */
  function Create(st: Store, media: MediaService, body: Routes.Body, files: seq<File>): (o: Outcome)
    ensures !Routes.CreateValid(body) ==> o == Outcome(st, [], Invalid(Routes.CreateErrors(body)))
    ensures Routes.CreateValid(body) && files == [] ==> o == Outcome(st, [], NoImages)
    ensures Routes.CreateValid(body) && files != [] ==> o.calls == UploadCalls(files)
    ensures o.response.Created? <==>
      Routes.CreateValid(body) && files != [] && UploadAll(media, files).Some? && ImagesOk(UploadAll(media, files).value)
    ensures o.response.Created? ==>
      && o.response.id == st.nextId
      && o.store.order == st.order + [o.response.id]
      && o.store.heroes == st.heroes[o.response.id := o.response.hero]
      && o.store.nextId > st.nextId
      && |o.response.hero.images| == |files|
      && (forall i :: 0 <= i < |files| ==> o.response.hero.images[i] == media.upload(files[i]).value)
      && (forall f :: o.response.hero.text.Get(f) == Cast(f, Routes.CreateSanitized(body, f)))
    ensures !o.response.Created? ==> o.store == st
    ensures Routes.CreateValid(body) && files != [] && !o.response.Created? ==> o.response.ServerError?
    ensures o.response.Created? || o.response.Invalid? || o.response.NoImages? || o.response.ServerError?
  {
    if !Routes.CreateValid(body) then Outcome(st, [], Invalid(Routes.CreateErrors(body)))
    else if files == [] then Outcome(st, [], NoImages)
    else
      var calls := UploadCalls(files);
      match UploadAll(media, files)
      case None => Outcome(st, calls, ServerError)
      case Some(urls) =>
        var hero := Document(CreateTexts(body), urls);
        CreatedTextOk(body, urls);
        if !SchemaValid(hero) then Outcome(st, calls, ServerError)
        else Outcome(Insert(st, hero), calls, Created(st.nextId, hero))
  }

  // ---- updateHeroById ----

  /** `...(value && { field: value })`: a field enters the update only when it is sent and is not
      the empty string. */
  predicate Provided(body: Routes.Body, f: TextField) {
    f in body && body[f] != ""
  }

  /** The value a field holds after `$set`: a provided value through the schema's setter, or the
      value it had. */
  function SetValue(prior: Texts, body: Routes.Body, f: TextField): string {
    if Provided(body, f) then Cast(f, body[f]) else prior.Get(f)
  }

  /** The text after `$set`. */
  function UpdatedTexts(prior: Texts, body: Routes.Body): (t: Texts)
    ensures t.Get(Nickname) == SetValue(prior, body, Nickname)
    ensures t.Get(RealName) == SetValue(prior, body, RealName)
    ensures t.Get(OriginDescription) == SetValue(prior, body, OriginDescription)
    ensures t.Get(Superpowers) == SetValue(prior, body, Superpowers)
    ensures t.Get(CatchPhrase) == SetValue(prior, body, CatchPhrase)
  {
    Texts(SetValue(prior, body, Nickname), SetValue(prior, body, RealName), SetValue(prior, body, OriginDescription),
          SetValue(prior, body, Superpowers), SetValue(prior, body, CatchPhrase))
  }

  /** `runValidators: true`: the validators of the paths the update sets. The image list is set
      only when it is non-empty. */
  predicate UpdateValidates(body: Routes.Body, t: Texts, images: seq<string>) {
    && (forall f | f in TextFields :: Provided(body, f) ==> TextOk(f, t.Get(f)))
    && (|images| > 0 ==> ImagesOk(images))
  }

  /** The part of `updateHeroById` after the document is found: upload every file, build the
      payload, run the validators of the set paths, write. */
  function Modify(st: Store, media: MediaService, id: Id, body: Routes.Body, files: seq<File>): (o: Outcome)
    requires id in st.heroes
    ensures o.calls == UploadCalls(files)
    ensures o.response.Updated? <==>
      (UploadAll(media, files).Some?
       && UpdateValidates(body, UpdatedTexts(st.heroes[id].text, body), st.heroes[id].images + UploadAll(media, files).value))
    ensures o.response.Updated? ==>
      && o.store == st.(heroes := st.heroes[id := o.response.hero])
      && o.response.hero.images == st.heroes[id].images + UploadAll(media, files).value
      && o.response.hero.text == UpdatedTexts(st.heroes[id].text, body)
    ensures !o.response.Updated? ==> o.store == st && o.response.ServerError?
  {
    var prior := st.heroes[id];
    var calls := UploadCalls(files);
    match UploadAll(media, files)
    case None => Outcome(st, calls, ServerError)
    case Some(urls) =>
      var combined := prior.images + urls;
      var text := UpdatedTexts(prior.text, body);
      if !UpdateValidates(body, text, combined) then Outcome(st, calls, ServerError)
      else
        // with an empty combined list the images path is not set, and the old list is empty too
        var h := Hero(text, if |combined| > 0 then combined else prior.images);
        Outcome(st.(heroes := st.heroes[id := h]), calls, Updated(h))
  }

  /** `updateHeroById`: a rejected body answers 400, a malformed id 500 and a missing document 404,
      all without calls. Otherwise every file is uploaded; the update keeps the old images and
      appends the new URLs, replaces exactly the provided fields, and is refused with 500 (store
      untouched) when an upload fails or a validator rejects a set path. */
  function Update(st: Store, media: MediaService, rid: RequestId, body: Routes.Body, files: seq<File>): (o: Outcome)
    ensures !Routes.PatchValid(body) ==> o == Outcome(st, [], Invalid(Routes.PatchErrors(body)))
    ensures Routes.PatchValid(body) && rid.Malformed? ==> o == Outcome(st, [], ServerError)
    ensures Routes.PatchValid(body) && !rid.Malformed? && Find(st, rid).None? ==> o == Outcome(st, [], NotFound)
    ensures Routes.PatchValid(body) && Find(st, rid).Some? ==> o == Modify(st, media, rid.id, body, files)
    ensures o.response.Updated? ==> Routes.PatchValid(body) && Find(st, rid).Some?
    ensures !o.response.Updated? ==> o.store == st
  {
    if !Routes.PatchValid(body) then Outcome(st, [], Invalid(Routes.PatchErrors(body)))
    else if rid.Malformed? then Outcome(st, [], ServerError)
    else if Find(st, rid).None? then Outcome(st, [], NotFound)
    else Modify(st, media, rid.id, body, files)
  }

  /** What an accepted update does to the document: the old image list is a prefix of the new
      one, followed by the uploaded URLs in file order, each provided field takes its set value and
      every other field keeps its old value. */
  lemma UpdateEffect(st: Store, media: MediaService, rid: RequestId, body: Routes.Body, files: seq<File>, f: TextField)
    requires Update(st, media, rid, body, files).response.Updated?
    ensures var h := Update(st, media, rid, body, files).response.hero;
      var prior := st.heroes[rid.id];
      && h.images[..|prior.images|] == prior.images
      && |h.images| == |prior.images| + |files|
      && (forall i :: 0 <= i < |files| ==> h.images[|prior.images| + i] == media.upload(files[i]).value)
      && (Provided(body, f) ==> h.text.Get(f) == Cast(f, body[f]))
      && (!Provided(body, f) ==> h.text.Get(f) == prior.text.Get(f))
  {
    var h := Update(st, media, rid, body, files).response.hero;
    var prior := st.heroes[rid.id];
    var urls := UploadAll(media, files).value;
    assert h.images == prior.images + urls;
    assert (prior.images + urls)[..|prior.images|] == prior.images;
    match f
    case Nickname =>
    case RealName =>
    case OriginDescription =>
    case Superpowers =>
    case CatchPhrase =>
  }

  // ---- deleteHeroById ----

  /** The destroy identifiers of a list of delivery URLs, one per URL in order. */
  function DestroyTargets(images: seq<string>): (r: seq<string>)
    ensures |r| == |images|
    ensures forall i :: 0 <= i < |images| ==> r[i] == PublicId.DestroyTarget(images[i])
  {
    if images == [] then [] else [PublicId.DestroyTarget(images[0])] + DestroyTargets(images[1..])
  }

  /** The store without one document. */
  function Remove(st: Store, id: Id): (r: Store)
    ensures id !in r.heroes && id !in r.order
    ensures forall k :: k != id ==> (k in r.heroes <==> k in st.heroes) && (k in r.order <==> k in st.order)
    ensures forall k :: k in r.heroes ==> r.heroes[k] == st.heroes[k]
    ensures r.nextId == st.nextId
    ensures r.order == Without(st.order, id) && SubsequenceOf(r.order, st.order)
  {
    forall k ensures k in Without(st.order, id) <==> k in st.order && k != id {
      WithoutMembership(st.order, id, k);
    }
    Store(Without(st.order, id), st.heroes - {id}, st.nextId)
  }

  /** `deleteHeroById`: a malformed id answers 500 and a missing document 404, both without calls.
      Otherwise the document is removed first, then one destroy call is issued per stored image,
      in order; the answer is 500 when any destroy fails, with the document already gone. */
  function Delete(st: Store, media: MediaService, rid: RequestId): (o: Outcome)
    ensures rid.Malformed? ==> o == Outcome(st, [], ServerError)
    ensures !rid.Malformed? && Find(st, rid).None? ==> o == Outcome(st, [], NotFound)
    ensures Find(st, rid).Some? ==>
      var images := st.heroes[rid.id].images;
      && o.store == Remove(st, rid.id)
      && |o.calls| == |images|
      && (forall i :: 0 <= i < |images| ==> o.calls[i] == Destroy(PublicId.DestroyTarget(images[i])))
      && (o.response.Deleted? <==> AllDestroyed(media, DestroyTargets(images)))
      && (o.response.Deleted? ==> o.response.hero == st.heroes[rid.id])
      && (!o.response.Deleted? ==> o.response.ServerError?)
  {
    if rid.Malformed? then Outcome(st, [], ServerError)
    else match Find(st, rid)
      case None => Outcome(st, [], NotFound)
      case Some(h) =>
        var targets := DestroyTargets(h.images);
        var removed := Remove(st, rid.id);
        if AllDestroyed(media, targets) then Outcome(removed, DestroyCalls(targets), Deleted(h))
        else Outcome(removed, DestroyCalls(targets), ServerError)
  }

  // ---- deleteHeroImage ----

  /** The destroy identifier for the image named in the request body; a missing URL makes the
      helper throw inside its own guard, so it gives `null`, and the service is asked to destroy
      `"null"`. */
  function ImageTarget(imageUrl: Option<string>): (r: string)
    ensures imageUrl.Some? ==> r == PublicId.DestroyTarget(imageUrl.value)
    ensures imageUrl.None? ==> r == "null"
  {
    match imageUrl
    case None => "null"
    case Some(u) => PublicId.DestroyTarget(u)
  }

  /** `hero.images.filter(img => img !== imageUrl)`; with no URL in the body nothing equals it. */
  function Filtered(images: seq<string>, imageUrl: Option<string>): (r: seq<string>)
    ensures imageUrl.None? ==> r == images
    ensures imageUrl.Some? ==> r == Without(images, imageUrl.value)
  {
    match imageUrl
    case None => images
    case Some(u) => Without(images, u)
  }

  /** Filtering the image list keeps a valid document valid: `save()` after the filter succeeds. */
  lemma FilteredValid(h: Hero, imageUrl: Option<string>)
    ensures SchemaValid(h) ==> SchemaValid(h.(images := Filtered(h.images, imageUrl)))
  {
    if imageUrl.Some? && SchemaValid(h) {
      var kept := Without(h.images, imageUrl.value);
      forall i | 0 <= i < |kept| ensures ImageUrlOk(kept[i]) {
        WithoutMembership(h.images, imageUrl.value, kept[i]);
        var j :| 0 <= j < |h.images| && h.images[j] == kept[i];
      }
    }
  }

  /** `deleteHeroImage`: a malformed hero id answers 500, a missing or unknown one 404, both
      without calls. Otherwise the URL is filtered out of the stored list and the document saved,
      then exactly one destroy call is issued; a failed destroy answers 500 after the save. */
  function DeleteImage(st: Store, media: MediaService, heroId: RequestId, imageUrl: Option<string>): (o: Outcome)
    ensures heroId.Malformed? ==> o == Outcome(st, [], ServerError)
    ensures !heroId.Malformed? && Find(st, heroId).None? ==> o == Outcome(st, [], NotFound)
    ensures Find(st, heroId).Some? && SchemaValid(st.heroes[heroId.id]) ==>
      var h := st.heroes[heroId.id];
      var kept := Filtered(h.images, imageUrl);
      && o.store == st.(heroes := st.heroes[heroId.id := h.(images := kept)])
      && o.calls == [Destroy(ImageTarget(imageUrl))]
      && (media.destroy(ImageTarget(imageUrl)) ==> o.response == ImagesLeft(kept))
      && (!media.destroy(ImageTarget(imageUrl)) ==> o.response == ServerError)
    ensures !o.response.ImagesLeft? ==> o.response.Status() >= 400
  {
    if heroId.Malformed? then Outcome(st, [], ServerError)
    else match Find(st, heroId)
      case None => Outcome(st, [], NotFound)
      case Some(h) =>
        var saved := h.(images := Filtered(h.images, imageUrl));
        FilteredValid(h, imageUrl);
        if !SchemaValid(saved) then Outcome(st, [], ServerError)
        else
          var target := ImageTarget(imageUrl);
          var store := st.(heroes := st.heroes[heroId.id := saved]);
          if media.destroy(target) then Outcome(store, [Destroy(target)], ImagesLeft(saved.images))
          else Outcome(store, [Destroy(target)], ServerError)
  }

  // ---- the routes' handlers with the upload middleware in front ----

  /** A request as the router hands it to a handler. */
  datatype Request =
    | ListHeroes(page: Option<string>)
    | CreateHero(body: Routes.Body, files: seq<File>)
    | GetHero(id: RequestId)
    | UpdateHero(id: RequestId, body: Routes.Body, files: seq<File>)
    | DeleteHero(id: RequestId)
    | DeleteHeroImage(heroId: RequestId, imageUrl: Option<string>)

  /** The route action a request belongs to. */
  function ActionOf(req: Request): Routes.Action {
    match req
    case ListHeroes(_) => Routes.ListHeroes
    case CreateHero(_, _) => Routes.CreateHero
    case GetHero(_) => Routes.GetHero
    case UpdateHero(_, _, _) => Routes.UpdateHero
    case DeleteHero(_) => Routes.DeleteHero
    case DeleteHeroImage(_, _) => Routes.DeleteHeroImage
  }

  /** The method a request of this kind is sent with. */
  function MethodOf(req: Request): Routes.Method {
    match req
    case ListHeroes(_) => Routes.Get
    case CreateHero(_, _) => Routes.Post
    case GetHero(_) => Routes.Get
    case UpdateHero(_, _, _) => Routes.Patch
    case DeleteHero(_) => Routes.Delete
    case DeleteHeroImage(_, _) => Routes.Delete
  }

  /** The path segments below the mount point a request of this kind is sent to, `segment` being
      the hero id as written in the path. */
  function PathOf(req: Request, segment: string): seq<string> {
    match req
    case ListHeroes(_) => []
    case CreateHero(_, _) => []
    case DeleteHeroImage(_, _) => ["image"]
    case _ => [segment]
  }

  /** A request whose id is written in the path: get, update or delete one hero. */
  predicate ById(req: Request) {
    req.GetHero? || req.UpdateHero? || req.DeleteHero?
  }

  /** Deleting a hero whose id is written `image` (in any letter case) in the raw path. */
  predicate DeletesImageId(req: Request, segment: string) {
    req.DeleteHero? && EqualsIgnoreAsciiCase(segment, "image")
  }

  /** The registered routes send every kind of request to the handler `Handle` runs for it, with
      the decoded path segment as the id. Two exceptions: deleting a hero whose id is written
      `image` reaches the image-removal handler, and an id segment `decodeURIComponent` refuses is
      answered 400 before any handler runs. */
  lemma RoutedToHandler(req: Request, segment: string)
    requires |segment| > 0
    ensures var d := Routes.Dispatch(Routes.Registered, MethodOf(req), PathOf(req, segment));
      && (DeletesImageId(req, segment) ==> d == Routes.Dispatched(Routes.DeleteHeroImage, None))
      && (!ById(req) ==> d == Routes.Dispatched(ActionOf(req), None))
      && (ById(req) && !DeletesImageId(req, segment) && UriCodec.Decode(segment).Some? ==>
            d == Routes.Dispatched(ActionOf(req), UriCodec.Decode(segment)))
      && (ById(req) && !DeletesImageId(req, segment) && UriCodec.Decode(segment).None? ==> d == Routes.BadParam)
  {
    match req
    case ListHeroes(_) => Routes.RootRoutes();
    case CreateHero(_, _) => Routes.RootRoutes();
    case GetHero(_) => Routes.IdRoutes(segment);
    case UpdateHero(_, _, _) => Routes.IdRoutes(segment);
    case DeleteHero(_) => Routes.DeleteImageBeforeId(segment);
    case DeleteHeroImage(_, _) =>
      assert EqualsIgnoreAsciiCase("image", "image");
      Routes.DeleteImageBeforeId("image");
  }

  /** The files a request carries through `upload.array('images', 5)`. */
  function FilesOf(req: Request): seq<File> {
    match req
    case CreateHero(_, files) => files
    case UpdateHero(_, _, files) => files
    case _ => []
  }

  /** One request: more than five files make the upload middleware fail before any handler runs,
      and with no error middleware installed Express answers 500; every other request goes to its
      handler. */
  function Handle(st: Store, media: MediaService, req: Request): (o: Outcome)
    ensures !Routes.WithinFileCap(FilesOf(req)) ==> o == Outcome(st, [], ServerError)
    ensures Routes.WithinFileCap(FilesOf(req)) ==> match req
      case ListHeroes(page) => o == List(st, page)
      case CreateHero(body, files) => o == Create(st, media, body, files)
      case GetHero(id) => o == Get(st, id)
      case UpdateHero(id, body, files) => o == Update(st, media, id, body, files)
      case DeleteHero(id) => o == Delete(st, media, id)
      case DeleteHeroImage(heroId, imageUrl) => o == DeleteImage(st, media, heroId, imageUrl)
  {
    if !Routes.WithinFileCap(FilesOf(req)) then Outcome(st, [], ServerError)
    else match req
      case ListHeroes(page) => List(st, page)
      case CreateHero(body, files) => Create(st, media, body, files)
      case GetHero(id) => Get(st, id)
      case UpdateHero(id, body, files) => Update(st, media, id, body, files)
      case DeleteHero(id) => Delete(st, media, id)
      case DeleteHeroImage(heroId, imageUrl) => DeleteImage(st, media, heroId, imageUrl)
  }

  /** The media calls of one request: uploads only for create and update, at most five of them,
      one per file; destroys only for the two deletes. */
  lemma CallsOfRequest(st: Store, media: MediaService, req: Request)
    ensures var o := Handle(st, media, req);
      && (!req.DeleteHero? ==> |o.calls| <= Routes.MaxFiles)
      && (forall i :: 0 <= i < |o.calls| ==>
            (o.calls[i].Upload? ==> (req.CreateHero? || req.UpdateHero?) && o.calls[i].file == FilesOf(req)[i])
            && (o.calls[i].Destroy? ==> req.DeleteHero? || req.DeleteHeroImage?))
  {
  }

  // ---- the store invariant ----

  lemma EmptyStoreValid()
    ensures Valid(EmptyStore)
  {
  }

  /** Appending a document the schema accepts under the next identifier keeps the store valid. */
  lemma InsertKeepsValid(st: Store, h: Hero)
    requires Valid(st) && SchemaValid(h) && Settled(h.text)
    ensures Valid(Insert(st, h))
  {
    var r := Insert(st, h);
    assert st.nextId !in st.order;
    forall i, j | 0 <= i < j < |r.order| ensures r.order[i] != r.order[j] {
      if j == |st.order| {
        assert r.order[i] == st.order[i];
      }
    }
  }

  /** Overwriting a stored document with one the schema accepts keeps the store valid. */
  lemma ReplaceKeepsValid(st: Store, id: Id, h: Hero)
    requires Valid(st) && id in st.heroes && SchemaValid(h) && Settled(h.text)
    ensures Valid(st.(heroes := st.heroes[id := h]))
  {
  }

  lemma CreateKeepsValid(st: Store, media: MediaService, body: Routes.Body, files: seq<File>)
    requires Valid(st)
    ensures Valid(Create(st, media, body, files).store)
  {
    var o := Create(st, media, body, files);
    if o.response.Created? {
      InsertKeepsValid(st, o.response.hero);
    }
  }

  /** The document an accepted update writes is one the schema accepts. */
  lemma UpdatedHeroValid(prior: Hero, body: Routes.Body, urls: seq<string>)
    requires SchemaValid(prior) && Settled(prior.text)
    requires UpdateValidates(body, UpdatedTexts(prior.text, body), prior.images + urls)
    ensures var combined := prior.images + urls;
      var h := Hero(UpdatedTexts(prior.text, body), if |combined| > 0 then combined else prior.images);
      SchemaValid(h) && Settled(h.text)
  {
    var t := UpdatedTexts(prior.text, body);
    forall f | f in TextFields ensures TextOk(f, t.Get(f)) && (Trimmed(f) ==> Trim(t.Get(f)) == t.Get(f)) {
      UpdatedTextsField(prior.text, body, f);
    }
  }

  lemma UpdateKeepsValid(st: Store, media: MediaService, rid: RequestId, body: Routes.Body, files: seq<File>)
    requires Valid(st)
    ensures Valid(Update(st, media, rid, body, files).store)
  {
    var o := Update(st, media, rid, body, files);
    if o.response.Updated? {
      var prior := st.heroes[rid.id];
      var urls := UploadAll(media, files).value;
      UpdatedHeroValid(prior, body, urls);
      ReplaceKeepsValid(st, rid.id, o.response.hero);
    }
  }

  /** Reads one field of the updated text. */
  lemma UpdatedTextsField(prior: Texts, body: Routes.Body, f: TextField)
    ensures UpdatedTexts(prior, body).Get(f) == SetValue(prior, body, f)
  {
    match f
    case Nickname =>
    case RealName =>
    case OriginDescription =>
    case Superpowers =>
    case CatchPhrase =>
  }

  lemma DeleteKeepsValid(st: Store, media: MediaService, rid: RequestId)
    requires Valid(st)
    ensures Valid(Delete(st, media, rid).store)
  {
    if Find(st, rid).Some? {
      WithoutDistinct(st.order, rid.id);
    }
  }

  lemma DeleteImageKeepsValid(st: Store, media: MediaService, heroId: RequestId, imageUrl: Option<string>)
    requires Valid(st)
    ensures Valid(DeleteImage(st, media, heroId, imageUrl).store)
  {
    if Find(st, heroId).Some? {
      FilteredValid(st.heroes[heroId.id], imageUrl);
    }
  }

  /** Every request keeps the store valid, whatever the media service answers. */
  lemma HandleKeepsValid(st: Store, media: MediaService, req: Request)
    requires Valid(st)
    ensures Valid(Handle(st, media, req).store)
  {
    if Routes.WithinFileCap(FilesOf(req)) {
      match req
      case ListHeroes(_) =>
      case CreateHero(body, files) => CreateKeepsValid(st, media, body, files);
      case GetHero(_) =>
      case UpdateHero(id, body, files) => UpdateKeepsValid(st, media, id, body, files);
      case DeleteHero(id) => DeleteKeepsValid(st, media, id);
      case DeleteHeroImage(heroId, imageUrl) => DeleteImageKeepsValid(st, media, heroId, imageUrl);
    }
  }

  // ---- how the handlers relate ----

  /** A created hero is found under the identifier the create response names. */
  lemma CreateThenGet(st: Store, media: MediaService, body: Routes.Body, files: seq<File>)
    requires Create(st, media, body, files).response.Created?
    ensures var o := Create(st, media, body, files);
      Get(o.store, WellFormed(o.response.id)).response == Found(o.response.hero)
  {
  }

  /** Removing the document just appended gives back the store it was appended to. */
  lemma InsertThenRemove(st: Store, h: Hero)
    requires st.nextId !in st.order && st.nextId !in st.heroes
    ensures Remove(Insert(st, h), st.nextId).order == st.order
    ensures Remove(Insert(st, h), st.nextId).heroes == st.heroes
  {
    var id := st.nextId;
    WithoutAppend(st.order, [id], id);
    WithoutAbsent(st.order, id);
    assert Without([id], id) == [];
    assert st.heroes[id := h] - {id} == st.heroes;
  }

  /** What deleting a stored hero does to the store and how many destroy calls it issues. */
  lemma DeleteStored(st: Store, media: MediaService, id: Id)
    requires id in st.heroes
    ensures Delete(st, media, WellFormed(id)).store == Remove(st, id)
    ensures |Delete(st, media, WellFormed(id)).calls| == |st.heroes[id].images|
  {
  }

  /** Deleting a hero right after creating it gives back the collection as it was, and asks the
      media service to destroy exactly one resource per uploaded file. */
  lemma CreateThenDelete(st: Store, media: MediaService, body: Routes.Body, files: seq<File>, media2: MediaService)
    requires Valid(st)
    requires Create(st, media, body, files).response.Created?
    ensures var c := Create(st, media, body, files);
      var d := Delete(c.store, media2, WellFormed(c.response.id));
      && d.store.order == st.order
      && d.store.heroes == st.heroes
      && |d.calls| == |files|
  {
    var c := Create(st, media, body, files);
    var h := c.response.hero;
    var id := st.nextId;
    assert c.store == Insert(st, h) && c.response.id == id;
    assert id !in st.order && id !in st.heroes;
    InsertThenRemove(st, h);
    DeleteStored(c.store, media2, id);
  }

  /** A stored URL that holds no `/upload/` is still destroyed, under the identifier `"null"`. */
  lemma DeleteUnhostedImage(st: Store, media: MediaService, id: Id, i: nat)
    requires id in st.heroes && i < |st.heroes[id].images|
    requires !Contains(st.heroes[id].images[i], PublicId.UploadMarker)
    ensures Delete(st, media, WellFormed(id)).calls[i] == Destroy("null")
  {
    var url := st.heroes[id].images[i];
    assert PublicId.GetEncodedPublicId(url).None?;
    assert PublicId.StrippedPath(url).None?;
  }

  /** After an image deletion the named URL is gone from the hero, every other URL is kept as
      often as before and in its order, and no other hero changes. */
  lemma ImageRemoval(st: Store, media: MediaService, id: Id, url: string)
    requires id in st.heroes && SchemaValid(st.heroes[id])
    ensures var o := DeleteImage(st, media, WellFormed(id), Some(url));
      var before := st.heroes[id].images;
      var after := o.store.heroes[id].images;
      && url !in after
      && (forall u :: u != url ==> (u in after <==> u in before))
      && multiset(after) == multiset(before)[url := 0]
      && SubsequenceOf(after, before)
      && (forall k :: k in st.heroes && k != id ==> k in o.store.heroes && o.store.heroes[k] == st.heroes[k])
      && o.store.heroes[id].text == st.heroes[id].text
  {
    var before := st.heroes[id].images;
    WithoutMembership(before, url, url);
    forall u | u != url ensures u in Without(before, url) <==> u in before {
      WithoutMembership(before, url, u);
    }
  }

  /** Deleting the same image twice leaves the list as the first deletion did. */
  lemma ImageRemovalIdempotent(st: Store, media: MediaService, media2: MediaService, id: Id, url: string)
    requires id in st.heroes && SchemaValid(st.heroes[id])
    ensures var once := DeleteImage(st, media, WellFormed(id), Some(url)).store;
      DeleteImage(once, media2, WellFormed(id), Some(url)).store == once
  {
    var once := DeleteImage(st, media, WellFormed(id), Some(url)).store;
    FilteredValid(st.heroes[id], Some(url));
    WithoutIdempotent(st.heroes[id].images, url);
    assert once.heroes[id].(images := Without(once.heroes[id].images, url)) == once.heroes[id];
  }

  /** Without a URL in the body nothing is filtered out, and the media service is still asked to
      destroy `"null"`. */
  lemma MissingImageUrl(st: Store, media: MediaService, id: Id)
    requires id in st.heroes && SchemaValid(st.heroes[id])
    ensures var o := DeleteImage(st, media, WellFormed(id), None);
      o.store == st && o.calls == [Destroy("null")]
  {
    assert st.heroes[id].(images := st.heroes[id].images) == st.heroes[id];
  }

  /** The responses that answer 400 or 404. */
  predicate Rejected(r: Response) {
    r.Invalid? || r.NoImages? || r.NotFound?
  }

  lemma RejectedStatus(r: Response)
    ensures Rejected(r) <==> r.Status() in {400, 404}
  {
  }

  /** A request answered 400 or 404 changes nothing and calls nothing. */
  lemma RejectionsAreSideEffectFree(st: Store, media: MediaService, req: Request)
    requires Handle(st, media, req).response.Status() in {400, 404}
    ensures Handle(st, media, req).store == st && Handle(st, media, req).calls == []
  {
    RejectedStatus(Handle(st, media, req).response);
    if Routes.WithinFileCap(FilesOf(req)) {
      match req
      case ListHeroes(page) =>
      case CreateHero(body, files) => CreateRejection(st, media, body, files);
      case GetHero(id) =>
      case UpdateHero(id, body, files) => UpdateRejection(st, media, id, body, files);
      case DeleteHero(id) => DeleteRejection(st, media, id);
      case DeleteHeroImage(heroId, imageUrl) => DeleteImageRejection(st, media, heroId, imageUrl);
    }
  }

  lemma CreateRejection(st: Store, media: MediaService, body: Routes.Body, files: seq<File>)
    ensures var o := Create(st, media, body, files);
      Rejected(o.response) ==> o.store == st && o.calls == []
  {
  }

  lemma UpdateRejection(st: Store, media: MediaService, rid: RequestId, body: Routes.Body, files: seq<File>)
    ensures var o := Update(st, media, rid, body, files);
      Rejected(o.response) ==> o.store == st && o.calls == []
  {
  }

  lemma DeleteRejection(st: Store, media: MediaService, rid: RequestId)
    ensures var o := Delete(st, media, rid);
      Rejected(o.response) ==> o.store == st && o.calls == []
  {
  }

  lemma DeleteImageRejection(st: Store, media: MediaService, heroId: RequestId, imageUrl: Option<string>)
    ensures var o := DeleteImage(st, media, heroId, imageUrl);
      Rejected(o.response) ==> o.store == st && o.calls == []
  {
  }
}
