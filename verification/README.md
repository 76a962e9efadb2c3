# HeroBoard core in Dafny

This project models the core of HeroBoard, a superhero catalogue with an Express/Mongoose back end
and a React front end. The model covers:

- **Persistence schema** (`HeroSchema`). The schema has five required text fields, each with a
  minimum length. The schema's trim setter runs on the nickname and the real name. Image URLs must
  match `^https?://.+\.(jpg|jpeg|png|webp)$`. The model decides that pattern directly and proves
  the decision equivalent to the pattern's language.
- **Router** (`Routes`). The router caps uploads at five files. It has two validator chains:
  - the create chain trims the nickname and the real name before measuring them;
  - the patch chain skips absent fields and measures present ones untrimmed.
  Routes are registered in a fixed order, and Express matches raw paths case-insensitively, so
  `DELETE /image` is tried before `DELETE /:id`. The `:id` segment reaches the handlers through
  `decodeURIComponent`, and one that does not decode is answered 400.
- **Request handlers** (`Controller`). The handlers of `heroesController.js` are pure transitions
  of a hero store. Each takes the store, a media service and the request. Each gives back:
  - the new store;
  - the media calls issued, in order;
  - the response (status and payload).

  A store invariant (`Controller.Valid`) holds under every request.
- **Pagination** (`Pagination`). `parseInt(req.query.page) || 1` follows section 19.2.5 of
  ECMA-262: leading white space, an optional sign, a `0x` prefix, and the longest run of digits.
  The listing then takes a `skip`/`limit` window of five and computes `Math.ceil(total / 5)`.
- **Public identifier** (`PublicId`). `getEncodedPublicId` takes the piece after `/upload/`, drops
  a `v<digits>/` prefix, drops the last extension, and percent-encodes the result. The controller
  later applies `decodeURIComponent` to that result.
- **URI codec** (`UriCodec`). `encodeURIComponent` and `decodeURIComponent` work over UTF-8, as
  in RFC 3629 and section 2.1 of RFC 3986. The main property is `decode(encode(s)) == s` for every
  string.
- **Create form** (`ClientForm`). This is the client-side zod schema of `CreateHero.jsx`, the
  error map it fills, and the form's state handlers.
- **Client–server agreement** (`Agreement`). This relates the client's checks to the server's:
  - whatever the server's create chain accepts, the client accepts too;
  - the converse fails, on a padded nickname and on more than five files;
  - the listing's page number makes the round trip from client to server.

The database, the media service (Cloudinary), the multipart parser and the file system are not
modelled as code. They appear only as values:
- the store is a value;
- the media service is a pair of functions: `upload` may give a delivery URL, and `destroy` may
  fail;
- uploaded files are their stored paths.

## Model

| member | source | states |
|---|---|---|
| PublicId.GetEncodedPublicId | backend/utils/cloudinaryHelpers.js:1-11 | the result is absent (`null`) exactly when the URL holds no `/upload/`; otherwise it consists only of unreserved characters and `%`, so it never contains `/` |
| PublicId.SecondPiece | backend/utils/cloudinaryHelpers.js:3 | `split('/upload/')[1]` is absent exactly when the separator does not occur; otherwise it is the text from just after the first occurrence up to the next occurrence or the end, and it contains no occurrence itself |
| PublicId.StripVersion | backend/utils/cloudinaryHelpers.js:4 | when the text opens with `v<digits>/`, exactly that segment is removed; otherwise the text is unchanged |
| PublicId.StripExtension | backend/utils/cloudinaryHelpers.js:5 | when the text ends in `.` plus one or more characters other than `/` and `.`, exactly that extension is removed; otherwise the text is unchanged |
| PublicId.PublicIdRoundTrip | backend/utils/cloudinaryHelpers.js:3-6 | decoding the encoded identifier gives back exactly the stripped resource path |
| PublicId.DestroyTarget | backend/controllers/heroesController.js:176 | the identifier handed to `destroy` is the stripped path, or the text `"null"` for a URL without `/upload/` |
| UriCodec.Escape | backend/utils/cloudinaryHelpers.js:6 | a byte's escape is `%` followed by two hex digits that read back as that byte |
| UriCodec.Encode | backend/utils/cloudinaryHelpers.js:6 | the encoding never gets shorter; it holds only unreserved characters and `%`; it equals its input exactly when every input character is unreserved |
| UriCodec.EncodeSingle | backend/utils/cloudinaryHelpers.js:6 | an unreserved character is kept as it is; any other becomes the escapes of its UTF-8 bytes |
| UriCodec.EncodeAppend | backend/utils/cloudinaryHelpers.js:6 | the encoding of a concatenation is the concatenation of the encodings, so the encoder works character by character |
| UriCodec.Utf8DecodeIsInverse | backend/utils/cloudinaryHelpers.js:6 | a multi-byte sequence decodes to a character exactly when it is that character's UTF-8 encoding |
| UriCodec.DecodeEncode | backend/controllers/heroesController.js:157 | `decodeURIComponent(encodeURIComponent(s))` is `s` for every string, and the decoder never throws on encoder output |
| UriCodec.EncodeInjective | backend/utils/cloudinaryHelpers.js:6 | two different resource paths never get the same identifier |
| UriCodec.DecodePlain | backend/controllers/heroesController.js:176 | text without `%` decodes to itself |
| UriCodec.Decode | backend/controllers/heroesController.js:157 | a successful decode is never longer than its input |
| Text.Trim | backend/routes/heroes.js:13-14 | trimming yields the longest middle part that neither starts nor ends with white space; only surrounding white space is removed; the result is empty exactly when the input is all white space |
| Text.TrimIdempotent | backend/models/heroes.js:8 | trimming an already trimmed value changes nothing |
| Text.TrimPadded | backend/routes/heroes.js:13 | trimming removes exactly the white space around a word that has no white space at either end |
| HeroSchema.Failing | backend/routes/heroes.js:12-18 | a chain reports exactly the listed fields its validator rejects, and no more of them than are listed |
| HeroSchema.FailingDistinct | backend/routes/heroes.js:12-18 | a chain reports each rejected field once |
| HeroSchema.Cast | backend/models/heroes.js:4-15 | the trim setter stores the trimmed value of the two trimmed fields, which trimming leaves unchanged and which is never longer; every other field is stored exactly as assigned |
| HeroSchema.Document | backend/models/heroes.js:3-41 | a document built through the schema carries every value after its setter, with no padding on the trimmed fields |
| HeroSchema.PaddingDoesNotCount | backend/models/heroes.js:4-19 | example: padding does not count toward a trimmed field's minimum; it does count for an untrimmed field |
| HeroSchema.ImageUrlOkIffPattern | backend/models/heroes.js:36 | the direct check accepts exactly the strings in the regular expression's language |
| HeroSchema.AcceptedUrlShape | backend/models/heroes.js:36 | an accepted URL ends in a lower-case `g` or `p` and is at least scheme plus five characters long |
| HeroSchema.ImagePatternEdges | backend/models/heroes.js:36 | examples: an upper-case extension, a query string, and an empty body before the extension are each refused |
| Routes.ValidatorLength | backend/routes/heroes.js:13-17 | `isLength`'s measure is the number of code points less the number of occurrences of U+FE0E and of U+FE0F; so it is never more than the number of code points, equals it when there is no variation selector, and is 0 when there are only selectors |
| Routes.CreateValidIff | backend/routes/heroes.js:10-19 | the create chain passes exactly when every field, after its sanitizer, meets its minimum as `isLength` measures it |
| Routes.PatchValidIff | backend/routes/heroes.js:25-33 | the patch chain passes exactly when every present field meets its minimum untrimmed, as `isLength` measures it |
| Routes.SanitizedNoLonger | backend/routes/heroes.js:13-17 | sanitizing and measuring never make a field longer than it was sent |
| Routes.ShortFieldRejects | backend/routes/heroes.js:10-19 | one field below its minimum makes the create chain refuse the body |
| Routes.PaddedNicknameRejected | backend/routes/heroes.js:13 | example: every body whose nickname is `" a"` is refused by the create chain, which trims it to one letter |
| Routes.SelectorDiscount | backend/routes/heroes.js:13 | a nickname of one letter and U+FE0F measures 1 to `isLength`, so both chains refuse it, although the schema would store it |
| Routes.ChainsMatchSchemaMinimums | backend/routes/heroes.js:13-17 | consistency of the tables: both chains ask for the schema's minimum per field, and the create chain trims exactly the fields the schema trims |
| Routes.CreateValidSatisfiesSchema | backend/routes/heroes.js:10-19 | text that passes the create chain also passes the schema after its setter |
| Routes.PatchPaddingGap | backend/routes/heroes.js:27 | a padded one-letter nickname passes the patch chain but not the schema the update then runs |
| Routes.RootRoutes | backend/routes/heroes.js:8-10 | `GET /` lists and `POST /` creates; `PATCH /` and `DELETE /` have no route |
| Routes.IdRoutes | backend/routes/heroes.js:23-25 | every single non-empty segment reaches `GET` and `PATCH` with its `decodeURIComponent` decoding as the hero id; a segment that does not decode is answered 400 |
| Routes.DispatchFrom | backend/routes/heroes.js:8-34 | routing stops at the first route, in registration order, that either handles the request or has an `:id` that does not decode; the first dispatches to its action with the decoded id, the second answers 400; with neither there is no route |
| Routes.DeleteImageBeforeId | backend/routes/heroes.js:21-34 | `DELETE /image`, in any letter case of the raw path, reaches the image handler; any other single segment is decoded into a hero id, or answered 400 when it does not decode |
| Routes.EscapedImageIsAnId | backend/routes/heroes.js:21-34 | the literal `/image` is matched on the raw path, so `DELETE /%69mage` reaches `deleteHeroById` with the id `image` |
| Routes.UndecodableSegment | backend/routes/heroes.js:21-23 | a single segment that does not decode is answered 400 whatever the method, except a `DELETE` of `image`, because the `/:id` path matches before its method is looked at |
| Routes.IdFirstShadowsImage | backend/routes/heroes.js:21-23 | with the two delete routes in the other order, `/:id` would take `DELETE /image` |
| Routes.ImageIsAnIdForGetAndPatch | backend/routes/heroes.js:23-25 | `GET` and `PATCH` of `/image` treat `image` as a hero id |
| Pagination.PageNumber | backend/controllers/heroesController.js:9 | the page is never 0; it is 1 or the value `parseInt` reads; a non-zero value read is used as it is |
| Pagination.ParseIntOfDecimal | backend/controllers/heroesController.js:9 | `parseInt` reads back every integer written in decimal |
| Pagination.LeadingDigitsOfAppend | backend/controllers/heroesController.js:9 | the leading run of digits of a digit string followed by anything reaches through the whole digit string |
| Pagination.ParseIntOfDigitsThen | backend/controllers/heroesController.js:9 | `parseInt` of a number's digits followed by a character that is neither a digit nor `x` or `X` reads that number |
| Pagination.ParseIntOfNegativeFraction | backend/controllers/heroesController.js:9 | `parseInt` reads a negative number with a fractional part as its negated integer part |
| Pagination.ParseIntOfFraction | backend/controllers/heroesController.js:9 | `parseInt` reads a number with a fractional part as its integer part |
| Pagination.TotalPages | backend/controllers/heroesController.js:21 | the page count is 0 exactly when the store is empty; otherwise it is the least count of five-slot pages that holds every hero |
| Pagination.PageSlice | backend/controllers/heroesController.js:13-15 | a page holds at most five heroes, the consecutive ones from `skip` on, and is empty past the end |
| Pagination.FirstPagesArePrefix | backend/controllers/heroesController.js:13-15 | the first `k` pages laid end to end are the store's first `5k` heroes |
| Pagination.PagesCoverStore | backend/controllers/heroesController.js:13-21 | pages 1 to `totalPages` laid end to end are the whole store, in store order |
| Pagination.NonEmptyPages | backend/controllers/heroesController.js:14-21 | a page is non-empty exactly when its number is at most `totalPages` |
| Pagination.PagesDisjoint | backend/controllers/heroesController.js:13-15 | two different pages share no hero |
| Media.UploadCalls | backend/controllers/heroesController.js:43-56 | one upload call per file, in file order |
| Media.UploadAll | backend/controllers/heroesController.js:43-58 | the batch succeeds exactly when every upload succeeds, and then gives each file's URL in file order |
| Media.DestroyCalls | backend/controllers/heroesController.js:157 | one destroy call per identifier, in order |
| Seqs.Without | backend/controllers/heroesController.js:173 | filtering removes every occurrence of the value and keeps the other elements with their counts and order |
| Seqs.WithoutAbsent | backend/controllers/heroesController.js:173 | filtering changes the list exactly when the value occurs in it |
| Seqs.WithoutMembership | backend/controllers/heroesController.js:173 | a value survives filtering exactly when it was present and is not the one filtered out |
| Seqs.WithoutDistinct | backend/controllers/heroesController.js:173 | filtering keeps a repetition-free list repetition-free |
| Seqs.WithoutAppend | backend/controllers/heroesController.js:173 | filtering distributes over concatenation |
| Seqs.WithoutIdempotent | backend/controllers/heroesController.js:173 | filtering twice is filtering once |
| Controller.Find | backend/controllers/heroesController.js:83 | a lookup finds a document exactly when the id is well-formed and stored, and gives that document |
| Controller.List | backend/controllers/heroesController.js:7-27 | listing changes nothing and calls nothing; it fails with 500 exactly for a negative page; otherwise it reports the page, the total and the page count, and the heroes listed are exactly the window of up to five stored heroes from `(page-1)*5` on (`Pagination.PageSlice`), non-empty up to the last page |
| Controller.Get | backend/controllers/heroesController.js:81-92 | found exactly when the id names a stored document, which is returned; 500 exactly for a malformed id; otherwise 404; nothing changes |
| Controller.Create | backend/controllers/heroesController.js:29-79 | 400 without calls for a rejected body or no files; otherwise one upload per file, and any outcome other than created is a 500; created exactly when every upload succeeds and every URL passes the schema; a created hero has the next id, is appended, holds the sanitized text through the setters and the URLs in file order; nothing is stored otherwise |
| Controller.CreatedTextOk | backend/controllers/heroesController.js:60-69 | only the image URLs can make `save()` refuse a validated create body |
| Controller.Insert | backend/controllers/heroesController.js:69 | a save appends the document under the next id and advances the counter |
| Controller.UpdatedTexts | backend/controllers/heroesController.js:126-137 | each field takes the provided value through its setter, or keeps its old one |
| Controller.Modify | backend/controllers/heroesController.js:100-146 | one upload per file; the update succeeds exactly when every upload succeeds and the set paths validate; it then writes the old images plus the new URLs and the updated text; otherwise 500 with the store unchanged |
| Controller.Update | backend/controllers/heroesController.js:94-146 | 400 for a rejected body, 500 for a malformed id, 404 for a missing document, each without calls; an update needs a valid body and a stored document; a refused update changes nothing |
| Controller.UpdateEffect | backend/controllers/heroesController.js:124-139 | after an update, the old images are a prefix of the new list, followed by one URL per file in order; provided fields take their set value; the others keep theirs |
| Controller.DestroyTargets | backend/controllers/heroesController.js:155-157 | one destroy identifier per stored URL, in order |
| Controller.Remove | backend/controllers/heroesController.js:150 | removal drops exactly the one document; the other documents stay, unchanged and in their natural order (the order is the filtered order, a subsequence of the old one); the counter is unchanged |
| Controller.Delete | backend/controllers/heroesController.js:148-164 | 500 for a malformed id and 404 for a missing one, without calls; otherwise the document is removed first, then one destroy per stored image in order; the answer is the deleted hero exactly when every destroy succeeds, and 500 otherwise |
| Controller.ImageTarget | backend/controllers/heroesController.js:176 | the destroy identifier of the named URL, or `"null"` when the body names none |
| Controller.Filtered | backend/controllers/heroesController.js:173 | the stored list without the named URL; unchanged when the body names none |
| Controller.FilteredValid | backend/controllers/heroesController.js:173-174 | saving the filtered list never fails for a valid document |
| Controller.DeleteImage | backend/controllers/heroesController.js:166-184 | 500 for a malformed id and 404 for a missing one, without calls; otherwise the filtered list is saved and exactly one destroy is issued; the answer is the remaining images, or 500 when the destroy fails |
| Controller.Handle | backend/routes/heroes.js:10-34 | more than five files answer 500 before any handler runs, with no calls; every other request goes to its handler |
| Controller.RoutedToHandler | backend/routes/heroes.js:8-34 | the registered routes send every kind of request to the handler `Handle` runs for it, with the decoded path segment as the id; deleting a hero whose id is written `image` reaches the image-removal handler instead, and an id segment that does not decode is answered 400 before any handler |
| Controller.CallsOfRequest | backend/controllers/heroesController.js:43-177 | uploads come only from create and update, one per file and at most five; destroys come only from the two deletes |
| Controller.EmptyStoreValid | backend/models/heroes.js:3-41 | the empty collection satisfies the store invariant |
| Controller.InsertKeepsValid | backend/controllers/heroesController.js:69 | appending a schema-valid document keeps the store invariant |
| Controller.ReplaceKeepsValid | backend/controllers/heroesController.js:135-139 | overwriting with a schema-valid document keeps the store invariant |
| Controller.CreateKeepsValid | backend/controllers/heroesController.js:29-79 | creation keeps the store invariant |
| Controller.UpdatedHeroValid | backend/controllers/heroesController.js:126-139 | the document an accepted update writes is schema-valid and carries no padding |
| Controller.UpdatedTextsField | backend/controllers/heroesController.js:126-131 | each updated field is its set value |
| Controller.UpdateKeepsValid | backend/controllers/heroesController.js:94-146 | updates keep the store invariant |
| Controller.DeleteKeepsValid | backend/controllers/heroesController.js:148-164 | deletion keeps the store invariant |
| Controller.DeleteImageKeepsValid | backend/controllers/heroesController.js:166-184 | image removal keeps the store invariant |
| Controller.HandleKeepsValid | backend/routes/heroes.js:8-34 | every request keeps the store invariant, whatever the media service answers |
| Controller.CreateThenGet | backend/controllers/heroesController.js:69-87 | a created hero is found under the id the create response names |
| Controller.InsertThenRemove | backend/controllers/heroesController.js:150 | removing the document just appended gives back the earlier order and contents |
| Controller.DeleteStored | backend/controllers/heroesController.js:148-157 | deleting a stored hero removes it and issues one destroy per image |
| Controller.CreateThenDelete | backend/controllers/heroesController.js:29-164 | deleting a hero right after creating it restores the collection and destroys one resource per uploaded file |
| Controller.DeleteUnhostedImage | backend/controllers/heroesController.js:155-157 | a stored URL without `/upload/` is still destroyed, under the identifier `"null"` |
| Controller.ImageRemoval | backend/controllers/heroesController.js:173 | after an image deletion the URL is gone; every other URL keeps its count and order; other heroes and the text are unchanged |
| Controller.ImageRemovalIdempotent | backend/controllers/heroesController.js:166-177 | deleting the same image twice leaves the store as the first deletion did |
| Controller.MissingImageUrl | backend/controllers/heroesController.js:168-177 | without a URL in the body nothing is filtered out, and `"null"` is still destroyed |
| Controller.RejectedStatus | backend/controllers/heroesController.js:31-38 | the rejections are exactly the responses with status 400 or 404 |
| Controller.RejectionsAreSideEffectFree | backend/controllers/heroesController.js:29-184 | a request answered 400 or 404 changes nothing and calls nothing |
| Controller.CreateRejection | backend/controllers/heroesController.js:30-39 | a rejected create changes nothing and calls nothing |
| Controller.UpdateRejection | backend/controllers/heroesController.js:95-106 | a rejected update changes nothing and calls nothing |
| Controller.DeleteRejection | backend/controllers/heroesController.js:150-153 | a rejected delete changes nothing and calls nothing |
| Controller.DeleteImageRejection | backend/controllers/heroesController.js:170-171 | a rejected image deletion changes nothing and calls nothing |
| ClientForm.ShortFields | frontend/src/components/AddHero/CreateHero.jsx:5-12 | the fields the client schema flags are exactly the inputs shorter than their minimum as typed, each once |
| ClientForm.IssuesOfKeys | frontend/src/components/AddHero/CreateHero.jsx:5-12 | each issue names a listed field with that field's message; every listed field has an issue; distinct fields give distinct keys |
| ClientForm.TextIssues | frontend/src/components/AddHero/CreateHero.jsx:5-12 | each text issue names a too-short field with its message; every too-short field has one; no key repeats |
| ClientForm.ClientAcceptsIff | frontend/src/components/AddHero/CreateHero.jsx:5-16 | the schema accepts exactly when every input meets its minimum and at least one image is selected, with no upper bound on images |
| ClientForm.FieldErrors | frontend/src/components/AddHero/CreateHero.jsx:52-55 | no issues give an empty map; the last issue's message is shown for its key |
| ClientForm.FieldErrorsKeys | frontend/src/components/AddHero/CreateHero.jsx:52-55 | the map has an entry exactly for the keys some issue carries |
| ClientForm.FieldErrorsLastWins | frontend/src/components/AddHero/CreateHero.jsx:52-55 | the message shown for a key is that of the last issue carrying it |
| ClientForm.DistinctShown | frontend/src/components/AddHero/CreateHero.jsx:53-55 | under distinct keys every issue's message is shown |
| ClientForm.IssuesDistinct | frontend/src/components/AddHero/CreateHero.jsx:5-16 | the schema's issues never repeat a key |
| ClientForm.TextIssuesPrefix | frontend/src/components/AddHero/CreateHero.jsx:49 | the text issues come first, in order, before the image issue |
| ClientForm.ShownTextError | frontend/src/components/AddHero/CreateHero.jsx:49-56 | a field's error is shown exactly when that input is too short, and it is that field's own message |
| ClientForm.ShownImagesError | frontend/src/components/AddHero/CreateHero.jsx:49-56 | the image error is shown exactly when no file is selected, with its message |
| ClientForm.HandleChange | frontend/src/components/AddHero/CreateHero.jsx:31-33 | the edited input takes the typed value; the other inputs, the images and the errors are unchanged |
| ClientForm.HandleFileChange | frontend/src/components/AddHero/CreateHero.jsx:35-39 | newly chosen files go after the selected ones, which stay in place |
| ClientForm.RemoveAt | frontend/src/components/AddHero/CreateHero.jsx:42 | removal drops exactly the element at the index, keeping the rest in order; an index out of range changes nothing |
| ClientForm.RemoveAtInverse | frontend/src/components/AddHero/CreateHero.jsx:41-43 | putting the removed element back where it was restores the list |
| ClientForm.RemoveLastChosen | frontend/src/components/AddHero/CreateHero.jsx:35-43 | choosing files and then removing the last one leaves the earlier selection plus the other chosen files |
| ClientForm.HandleRemoveImage | frontend/src/components/AddHero/CreateHero.jsx:41-43 | the selection loses the indexed file; the inputs are unchanged |
| ClientForm.HandleSubmit | frontend/src/components/AddHero/CreateHero.jsx:45-84 | nothing is sent exactly when the schema rejects, and then the errors are shown; otherwise the form and files are sent with errors cleared; the inputs reset only on success; loading ends either way |
| Agreement.FormBody | frontend/src/services/heroServices.js:11-25 | the multipart body carries every form field as typed |
| Agreement.FormBodyCarriesForm | frontend/src/services/heroServices.js:14-16 | every body field is the form's value for that field |
| Agreement.ServerAcceptedFormPassesClient | backend/routes/heroes.js:13-17 | a form whose body the server's create chain accepts passes the client schema too |
| Agreement.FieldPassesClient | backend/routes/heroes.js:13-17 | a field the create chain accepts is long enough for the client schema |
| Agreement.PaddedNicknameGap | backend/routes/heroes.js:13 | a nickname of one letter behind a space passes the client but fails the server's create chain |
| Agreement.PaddedPassesClient | frontend/src/components/AddHero/CreateHero.jsx:6 | example: the client measures the padded nickname untrimmed and accepts it |
| Agreement.PaddedFailsServer | backend/routes/heroes.js:13 | example: the server trims the padded nickname and rejects it |
| Agreement.TooManyFilesGap | backend/routes/heroes.js:11 | a client-accepted form with more than five files is answered 500, with nothing stored and nothing uploaded |
| Agreement.ListingFractionalPage | frontend/src/components/HomePage/HomePage.jsx:9 | for `n >= 1`, a fractional page `<n>.<digits>` that the home page can request is listed, and reported, as page `n` |
| Agreement.ListingSmallFractionPage | backend/controllers/heroesController.js:9 | a fractional page `0.<digits>` or `-0.<digits>` reads as 0, and the fallback to 1 makes it page 1 |
| Agreement.ListingNegativeFractionPage | backend/controllers/heroesController.js:9-15 | a fractional page of -1 or below reads as a negative page and is answered 500 |
| Agreement.ListingExponentPage | frontend/src/components/HomePage/HomePage.jsx:9 | a page of 10^21 or more, written in exponent form `<d>[.<digits>]e+<k>`, is listed as page `d` |
| Agreement.ListingPageRoundTrip | frontend/src/services/heroServices.js:3-5 | every positive integer page below 10^21 that the home page requests is the page the server lists |

## Where the model follows the code over the documented intent

- **Empty image list.** Mongoose's `required` on an array accepts an empty array, and the image
  validator uses `every`, so an empty image list passes the schema. Only `createHero`'s own
  zero-file check keeps new heroes from having no image.
- **Partial upload failure.** `Promise.all(files.map(upload))` issues every upload before any
  answer arrives. A failed upload therefore still leaves every call issued, and the request fails
  with 500.
- **Failed destroy.** A failed destroy in `deleteHeroById` or `deleteHeroImage` answers 500. The
  document has already been removed or saved by then.
- **Padded nickname on update.** The patch chain measures the nickname untrimmed, and the update
  runs the schema's validators after the trim setter. A padded short nickname therefore passes the
  chain and then fails with 500 (`Routes.PatchPaddingGap`).
- **Variation selectors.** The chains' `isLength` does not count U+FE0E or U+FE0F, but the
  schema's `minlength` does. A nickname made of one letter and U+FE0F would therefore be stored by
  the schema, yet both chains refuse it with 400 (`Routes.SelectorDiscount`).
- **Negative page.** A negative page gives a negative `skip`, which the database refuses, so the
  answer is 500.
- **Cast errors.** A malformed id makes `findById` throw a cast error, which answers 500, not 404.
- **Missing `imageUrl`.** `getEncodedPublicId(undefined)` returns `null`, so the media service is
  asked to destroy `"null"`.

## Left out

- The database, the media service, the multipart parser and the file system are not executed.
  They are parameters or values: the store, `MediaService`'s two functions, and file paths.
  Concurrency between requests and the order in which parallel calls complete are not modelled.
- Upload options (folder, crop and quality transformation) are not modelled. They do not affect
  the returned URL's role in the model.
- Multer's field name, its storage, and its error object are not modelled. A request over the file
  cap is modelled only by its 500 answer.
- Request bodies hold strings only. Non-string values, and arrays from repeated query
  parameters, are not modelled.
- Response payloads are reduced to what the handlers decide: the status, the hero, the ids of a
  page, or the images.
  - JSON serialization is not modelled.
  - The error objects in 500 bodies are not modelled.
  - Mongoose's `_id` and version fields are not modelled.
  - For `getHeroById`, the response's document shape beyond the hero's values is not modelled.
- The schema's `minlength` and the client's zod `.min` are modelled as counting Unicode scalar
  values. JavaScript's `.length` counts UTF-16 code units, so for those two checks a character
  outside the Basic Multilingual Plane counts once here and twice there. The validator chains'
  `isLength` counts a surrogate pair once and discounts U+FE0E and U+FE0F. `Routes.ValidatorLength`
  models that exactly, so `Routes.CreateValidIff` and `Routes.PatchValidIff` differ from the
  source in nothing.
- Strings are sequences of scalar values, so the lone surrogates that make `encodeURIComponent`
  throw cannot occur.
- The decoder's `URIError` is modelled as `None`. The controller never meets it, because it only
  decodes encoder output or `"null"`. The router meets it when it decodes an `:id` segment, and
  then answers 400 (`Routes.BadParam`).
- Pagination.ParseInt: reads digits into an exact integer. JavaScript numbers lose precision above
  2^53, and that rounding is not modelled.
- Pagination.DigitsValue: it is applied only to digit strings. A character that is not a digit
  would count as 0 there.
- Controller.DeleteImage: the contract describes the saved document only when the stored document
  satisfies the schema, which every document of a valid store does. The function also answers 500
  when the save would fail.
- The React rendering, the `axios` client and the navigation in `HomePage.jsx` are not modelled.
  So are `Number(...) || 1` on the client side and the hero detail page. Only the page number the
  home page writes into the query is modelled: integer pages, fractional pages and the exponent
  form's leading digit (`Agreement.ListingPageRoundTrip`, `Agreement.ListingFractionalPage`,
  `Agreement.ListingSmallFractionPage`, `Agreement.ListingNegativeFractionPage`,
  `Agreement.ListingExponentPage`).
- Agreement.ListingPageRoundTrip: covers integer pages below 10^21 only. A fractional page such as
  `2.5` is listed as page 2, `0.5` and `-0.5` as page 1, and `-2.5` is answered 500; a page of
  10^21 or more, written `1e+21`, is listed as its leading digit. These are stated separately, not
  as round trips. How JavaScript writes fractions below 10^-6 (also exponent form) is not
  modelled.
- Logging (`console.error`, `console.log`) is not modelled.
