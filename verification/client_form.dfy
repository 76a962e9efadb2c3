/** The create form (frontend/src/components/AddHero/CreateHero.jsx): the client-side `heroSchema`,
    the per-field error map it fills, and the form's state updates. */
module ClientForm {
  import opened Wrappers
  import opened HeroSchema
  import opened Seqs
  import Media

  /** The client schema's `.min(...)` per text field. */
  function ClientMinLength(f: TextField): nat {
    match f
    case Nickname => 2
    case RealName => 2
    case OriginDescription => 10
    case Superpowers => 3
    case CatchPhrase => 3
  }

  function Message(f: TextField): string {
    match f
    case Nickname => "Nickname must be at least 2 characters"
    case RealName => "Real name must be at least 2 characters"
    case OriginDescription => "Description must be at least 10 characters"
    case Superpowers => "Superpowers must be at least 3 characters"
    case CatchPhrase => "Catch phrase must be at least 3 characters"
  }

  const ImagesMessage: string := "Please upload at least one image"

  /** The key of an error: the path of a zod issue. */
  datatype ErrorKey = TextKey(field: TextField) | ImagesKey

  datatype Issue = Issue(key: ErrorKey, message: string)

  /** The client schema's check of one input, on its length as typed, with no trimming. */
  predicate LongEnough(form: Texts, f: TextField) {
    |form.Get(f)| >= ClientMinLength(f)
  }

  /** The inputs that are too short, in schema order, each once. */
  function ShortFields(form: Texts): (r: seq<TextField>)
    ensures forall f :: f in r <==> !LongEnough(form, f)
    ensures Distinct(r)
  {
    var ok := f => LongEnough(form, f);
    TextFieldsDistinct();
    FailingDistinct(TextFields, ok);
    assert forall f :: f in TextFields by {
      forall f ensures f in TextFields {
        EveryFieldListed(f);
      }
    }
    Failing(TextFields, ok)
  }

  /** One issue per field of `fs`, in order, with that field's message. */
  function IssuesOf(fs: seq<TextField>): seq<Issue> {
    seq(|fs|, i requires 0 <= i < |fs| => Issue(TextKey(fs[i]), Message(fs[i])))
  }

  lemma IssuesOfKeys(fs: seq<TextField>)
    ensures forall i :: 0 <= i < |IssuesOf(fs)| ==>
      (IssuesOf(fs)[i].key.TextKey? && IssuesOf(fs)[i].key.field in fs
       && IssuesOf(fs)[i].message == Message(IssuesOf(fs)[i].key.field))
    ensures forall f :: f in fs ==> HasKey(IssuesOf(fs), TextKey(f))
    ensures Distinct(fs) ==> KeysDistinct(IssuesOf(fs))
  {
    var r := IssuesOf(fs);
    forall f | f in fs ensures HasKey(r, TextKey(f)) {
      var k :| 0 <= k < |fs| && fs[k] == f;
      assert r[k].key == TextKey(f);
    }
  }

  /** The issues of the text fields, in schema order: one per input that is too short, carrying
      that field's message; no key repeats. */
  function TextIssues(form: Texts): (r: seq<Issue>)
    ensures forall i :: 0 <= i < |r| ==>
      (r[i].key.TextKey? && !LongEnough(form, r[i].key.field) && r[i].message == Message(r[i].key.field))
    ensures forall f :: !LongEnough(form, f) ==> HasKey(r, TextKey(f))
    ensures KeysDistinct(r)
  {
    IssuesOfKeys(ShortFields(form));
    IssuesOf(ShortFields(form))
  }

  /** Some issue in `issues` has key `k`. */
  predicate HasKey(issues: seq<Issue>, k: ErrorKey) {
    exists i :: 0 <= i < |issues| && issues[i].key == k
  }

  /** `heroSchema.safeParse({...form, images})`'s issues: one per short text field, then one when
      no image is selected. */
  function Issues(form: Texts, images: seq<Media.File>): seq<Issue> {
    TextIssues(form) + (if |images| < 1 then [Issue(ImagesKey, ImagesMessage)] else [])
  }

  predicate ClientAccepts(form: Texts, images: seq<Media.File>) {
    Issues(form, images) == []
  }

  /** The client schema accepts exactly when every field meets its minimum as typed and at least one
      image is present; there is no upper bound on the image count. */
  lemma ClientAcceptsIff(form: Texts, images: seq<Media.File>)
    ensures ClientAccepts(form, images) <==> (forall f :: |form.Get(f)| >= ClientMinLength(f)) && |images| >= 1
  {
    var t := TextIssues(form);
    forall f ensures ClientAccepts(form, images) ==> |form.Get(f)| >= ClientMinLength(f) {
      EveryFieldListed(f);
      if |form.Get(f)| < ClientMinLength(f) {
        assert HasKey(t, TextKey(f));
      }
    }
    if !ClientAccepts(form, images) && |images| >= 1 {
      assert t != [];
      assert |form.Get(t[0].key.field)| < ClientMinLength(t[0].key.field);
    }
  }

  /** `issues.forEach(err => fieldErrors[err.path[0]] = err.message)`: later issues overwrite
      earlier ones with the same key. */
  function FieldErrors(issues: seq<Issue>): (r: map<ErrorKey, string>)
    ensures issues == [] ==> r == map[]
    ensures issues != [] ==> issues[|issues| - 1].key in r && r[issues[|issues| - 1].key] == issues[|issues| - 1].message
  {
    if issues == [] then map[]
    else
      var last := issues[|issues| - 1];
      FieldErrors(issues[..|issues| - 1])[last.key := last.message]
  }

  /** The error map has an entry exactly for the keys some issue carries. */
  lemma {:induction false} FieldErrorsKeys(issues: seq<Issue>, k: ErrorKey)
    ensures k in FieldErrors(issues) <==> HasKey(issues, k)
  {
    if issues != [] {
      var front := issues[..|issues| - 1];
      FieldErrorsKeys(front, k);
      if HasKey(front, k) {
        var i :| 0 <= i < |front| && front[i].key == k;
        assert issues[i] == front[i];
      }
      if HasKey(issues, k) {
        var i :| 0 <= i < |issues| && issues[i].key == k;
        if i < |front| {
          assert front[i] == issues[i];
        }
      }
    }
  }

  /** The message shown for a key is that of the last issue carrying it. */
  lemma {:induction false} FieldErrorsLastWins(issues: seq<Issue>, i: int)
    requires 0 <= i < |issues|
    requires forall j :: i < j < |issues| ==> issues[j].key != issues[i].key
    ensures issues[i].key in FieldErrors(issues) && FieldErrors(issues)[issues[i].key] == issues[i].message
  {
    if i < |issues| - 1 {
      var front := issues[..|issues| - 1];
      assert front[i] == issues[i];
      assert forall j :: i < j < |front| ==> front[j] == issues[j];
      FieldErrorsLastWins(front, i);
      assert issues[|issues| - 1].key != issues[i].key;
    }
  }

  /** The form's state: the five inputs, the selected files, the shown errors and the busy flag. */
  datatype ClientState = ClientState(form: Texts, images: seq<Media.File>, errors: map<ErrorKey, string>, loading: bool)

  const EmptyForm: Texts := Texts("", "", "", "", "")

  const Initial: ClientState := ClientState(EmptyForm, [], map[], false)

  /** `handleChange`: the edited input takes the typed value, the others keep theirs. */
  function HandleChange(st: ClientState, f: TextField, v: string): (r: ClientState)
    ensures r.form.Get(f) == v
    ensures forall g :: g != f ==> r.form.Get(g) == st.form.Get(g)
    ensures r.images == st.images && r.errors == st.errors
  {
    st.(form := st.form.Set(f, v))
  }

  /** `handleFileChange`: newly chosen files go after the ones already selected. */
  function HandleFileChange(st: ClientState, chosen: seq<Media.File>): (r: ClientState)
    ensures |r.images| == |st.images| + |chosen|
    ensures r.images[..|st.images|] == st.images && r.images[|st.images|..] == chosen
    ensures r.form == st.form
  {
    st.(images := st.images + chosen)
  }

  /** `images.filter((_, i) => i !== index)`. */
  function RemoveAt<T>(xs: seq<T>, index: int): (r: seq<T>)
    ensures 0 <= index < |xs| ==> |r| == |xs| - 1 && r[..index] == xs[..index] && r[index..] == xs[index + 1..]
    ensures !(0 <= index < |xs|) ==> r == xs
  {
    if 0 <= index < |xs| then xs[..index] + xs[index + 1..] else xs
  }

  /** Removing an element and putting it back where it was restores the list. */
  lemma RemoveAtInverse<T>(xs: seq<T>, index: int)
    requires 0 <= index < |xs|
    ensures RemoveAt(xs, index)[..index] + [xs[index]] + RemoveAt(xs, index)[index..] == xs
  {
    assert xs == xs[..index] + [xs[index]] + xs[index + 1..];
  }

  /** Choosing files and then removing the last one gives back the earlier selection plus the
      other chosen files. */
  lemma RemoveLastChosen(st: ClientState, chosen: seq<Media.File>)
    requires |chosen| > 0
    ensures RemoveAt(HandleFileChange(st, chosen).images, |st.images| + |chosen| - 1) == st.images + chosen[..|chosen| - 1]
  {
    var all := st.images + chosen;
    assert all[..|all| - 1] == st.images + chosen[..|chosen| - 1];
    assert all[|all|..] == [];
  }

  /** `handleRemoveImage`. */
  function HandleRemoveImage(st: ClientState, index: int): (r: ClientState)
    ensures r.images == RemoveAt(st.images, index)
    ensures r.form == st.form
  {
    st.(images := RemoveAt(st.images, index))
  }

  /** What the create request carries: the form values and the selected files. */
  datatype Sent = Sent(form: Texts, images: seq<Media.File>)

  datatype Submitted = Submitted(state: ClientState, request: Option<Sent>)

  /** `handleSubmit`, given whether the server call succeeds. A failing schema sends nothing and
      shows the field errors; otherwise the request is sent with the errors cleared, and the inputs
      reset only when the call succeeds. The busy flag is down again either way. */
  function HandleSubmit(st: ClientState, createSucceeds: bool): (r: Submitted)
    ensures r.request.None? <==> !ClientAccepts(st.form, st.images)
    ensures r.request.None? ==> r.state == st.(errors := FieldErrors(Issues(st.form, st.images)), loading := false)
    ensures r.request.Some? ==> r.request.value == Sent(st.form, st.images) && r.state.errors == map[]
    ensures r.request.Some? && createSucceeds ==> r.state.form == EmptyForm && r.state.images == []
    ensures r.request.Some? && !createSucceeds ==> r.state.form == st.form && r.state.images == st.images
    ensures !r.state.loading
  {
    var issues := Issues(st.form, st.images);
    if issues != [] then
      Submitted(st.(errors := FieldErrors(issues), loading := false), None)
    else
      var sent := Some(Sent(st.form, st.images));
      if createSucceeds then Submitted(Initial, sent)
      else Submitted(st.(errors := map[], loading := false), sent)
  }

  /** Under distinct keys, every issue's message is the one shown for its key. */
  lemma DistinctShown(issues: seq<Issue>, i: int)
    requires KeysDistinct(issues) && 0 <= i < |issues|
    ensures issues[i].key in FieldErrors(issues) && FieldErrors(issues)[issues[i].key] == issues[i].message
  {
    FieldErrorsLastWins(issues, i);
  }

  lemma IssuesDistinct(form: Texts, images: seq<Media.File>)
    ensures KeysDistinct(Issues(form, images))
  {
    var issues := Issues(form, images);
    var t := TextIssues(form);
    if |images| >= 1 {
      assert issues == t;
    } else {
      forall i, j | 0 <= i < j < |issues| ensures issues[i].key != issues[j].key {
        assert issues[i] == t[i];
        if j < |t| {
          assert issues[j] == t[j];
        } else {
          assert issues[j].key == ImagesKey;
        }
      }
    }
  }

  /** The text issues are a prefix of all issues. */
  lemma TextIssuesPrefix(form: Texts, images: seq<Media.File>, i: int)
    requires 0 <= i < |TextIssues(form)|
    ensures i < |Issues(form, images)| && Issues(form, images)[i] == TextIssues(form)[i]
  {
  }

  /** Every field's issue comes before the image issue and keys do not repeat, so each shown text
      error is that field's own message, present exactly when the field is too short. */
  lemma ShownTextError(form: Texts, images: seq<Media.File>, f: TextField)
    ensures var errors := FieldErrors(Issues(form, images));
      (TextKey(f) in errors <==> |form.Get(f)| < ClientMinLength(f))
      && (TextKey(f) in errors ==> errors[TextKey(f)] == Message(f))
  {
    var issues := Issues(form, images);
    var t := TextIssues(form);
    FieldErrorsKeys(issues, TextKey(f));
    if |form.Get(f)| < ClientMinLength(f) {
      EveryFieldListed(f);
      var i :| 0 <= i < |t| && t[i].key == TextKey(f);
      TextIssuesPrefix(form, images, i);
      IssuesDistinct(form, images);
      DistinctShown(issues, i);
    } else {
      forall i | 0 <= i < |issues| ensures issues[i].key != TextKey(f) {
        if i < |t| {
          TextIssuesPrefix(form, images, i);
        }
      }
    }
  }

  /** The image error is shown exactly when no file is selected. */
  lemma ShownImagesError(form: Texts, images: seq<Media.File>)
    ensures var errors := FieldErrors(Issues(form, images));
      (ImagesKey in errors <==> |images| == 0)
      && (ImagesKey in errors ==> errors[ImagesKey] == ImagesMessage)
  {
    var issues := Issues(form, images);
    var t := TextIssues(form);
    if |images| == 0 {
      assert issues[|issues| - 1] == Issue(ImagesKey, ImagesMessage);
    } else {
      assert issues == t;
      FieldErrorsKeys(issues, ImagesKey);
    }
  }

  predicate KeysDistinct(issues: seq<Issue>) {
    forall i, j :: 0 <= i < j < |issues| ==> issues[i].key != issues[j].key
  }
}
