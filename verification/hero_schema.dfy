/** The persistence schema `superheroSchema` (backend/models/heroes.js): five required text fields
    with minimum lengths, a trim setter on two of them, and the image-URL validator. */
module HeroSchema {
  import opened Text
  import opened Seqs

  datatype TextField = Nickname | RealName | OriginDescription | Superpowers | CatchPhrase

  /** The text fields in declaration order, the order validators report them in. */
  const TextFields: seq<TextField> := [Nickname, RealName, OriginDescription, Superpowers, CatchPhrase]

  lemma EveryFieldListed(f: TextField)
    ensures f in TextFields
  {
  }

  lemma TextFieldsDistinct()
    ensures Distinct(TextFields)
  {
  }

  /** The fields of `fields` a validator rejects, in the order given: what a chain of per-field
      validators reports. */
  function Failing(fields: seq<TextField>, ok: TextField -> bool): (r: seq<TextField>)
    ensures forall f :: f in r <==> f in fields && !ok(f)
    ensures |r| <= |fields|
  {
    if fields == [] then []
    else if ok(fields[0]) then Failing(fields[1..], ok)
    else [fields[0]] + Failing(fields[1..], ok)
  }

  /** A field is reported at most once when it is listed at most once. */
  lemma {:induction false} FailingDistinct(fields: seq<TextField>, ok: TextField -> bool)
    requires Distinct(fields)
    ensures Distinct(Failing(fields, ok))
  {
    if fields != [] {
      var tail := fields[1..];
      assert forall i :: 0 <= i < |tail| ==> tail[i] == fields[i + 1];
      assert Distinct(tail);
      assert fields[0] !in tail;
      FailingDistinct(tail, ok);
      var rest := Failing(tail, ok);
      if !ok(fields[0]) {
        var r := [fields[0]] + rest;
        assert forall i :: 0 <= i < |rest| ==> r[i + 1] == rest[i];
        forall i, j | 0 <= i < j < |r| ensures r[i] != r[j] {
          assert r[j] in tail;
        }
      }
    }
  }

  /** The five text values of a hero record or of a create form. */
  datatype Texts = Texts(nickname: string, realName: string, originDescription: string, superpowers: string, catchPhrase: string)
  {
    function Get(f: TextField): string {
      match f
      case Nickname => nickname
      case RealName => realName
      case OriginDescription => originDescription
      case Superpowers => superpowers
      case CatchPhrase => catchPhrase
    }

    /** Overwrites one field and no other. */
    function Set(f: TextField, v: string): (r: Texts)
      ensures r.Get(f) == v
      ensures forall g :: g != f ==> r.Get(g) == Get(g)
    {
      match f
      case Nickname => this.(nickname := v)
      case RealName => this.(realName := v)
      case OriginDescription => this.(originDescription := v)
      case Superpowers => this.(superpowers := v)
      case CatchPhrase => this.(catchPhrase := v)
    }
  }

  datatype Hero = Hero(text: Texts, images: seq<string>)

  /** The schema's `minlength` per field. */
  function MinLength(f: TextField): nat {
    match f
    case Nickname => 2
    case RealName => 2
    case OriginDescription => 10
    case Superpowers => 3
    case CatchPhrase => 3
  }

  /** The fields declared with `trim: true`. */
  predicate Trimmed(f: TextField) {
    f == Nickname || f == RealName
  }

  /** The value the schema stores for an assigned value: the trim setter runs on the two trimmed
      fields. */
  function Cast(f: TextField, v: string): (r: string)
    ensures Trimmed(f) ==> Trim(r) == r
    ensures |r| <= |v|
    ensures Trimmed(f) ==> r == Trim(v)
    ensures !Trimmed(f) ==> r == v
  {
    if Trimmed(f) then TrimIdempotent(v); Trim(v) else v
  }

  /** The `required` and `minlength` validators of one stored value. */
  predicate TextOk(f: TextField, v: string) {
    |v| >= MinLength(f)
  }

  predicate TextsOk(t: Texts) {
    forall f | f in TextFields :: TextOk(f, t.Get(f))
  }

  /** Every stored text value is what the setter produces: the trimmed fields carry no padding. */
  predicate Settled(t: Texts) {
    forall f | f in TextFields :: Trimmed(f) ==> Trim(t.Get(f)) == t.Get(f)
  }

  const AllowedExtensions: seq<string> := ["jpg", "jpeg", "png", "webp"]

  /** The characters the regular-expression `.` does not match. */
  predicate IsLineTerminator(c: char) {
    c == '\n' || c == '\r' || c == '\U{2028}' || c == '\U{2029}'
  }

  predicate NoLineTerminator(s: string) {
    forall i :: 0 <= i < |s| ==> !IsLineTerminator(s[i])
  }

  /** Length of the `http://` or `https://` prefix of `u`, 0 when it has neither. */
  function SchemeLength(u: string): nat {
    if StartsWith(u, "https://") then 8 else if StartsWith(u, "http://") then 7 else 0
  }

  /** `/^https?:\/\/.+\.(jpg|jpeg|png|webp)$/.test(u)`, decided directly. */
  predicate ImageUrlOk(u: string) {
    var n := SchemeLength(u);
    && n > 0
    && NoLineTerminator(u[n..])
    && exists e | e in AllowedExtensions :: |u| >= n + 2 + |e| && EndsWith(u, "." + e)
  }

  /** `u` splits as `scheme + body + "." + ext`. */
  ghost predicate SplitsAs(u: string, scheme: string, body: string, ext: string) {
    u == scheme + (body + ("." + ext))
  }

  /** The language of the regular expression itself: a scheme, one or more characters other than
      line terminators, a dot and one of the four extensions, case-sensitively. */
  ghost predicate MatchesImagePattern(u: string) {
    exists scheme, body, ext ::
      && SplitsAs(u, scheme, body, ext)
      && (scheme == "http://" || scheme == "https://")
      && |body| >= 1 && NoLineTerminator(body)
      && ext in AllowedExtensions
  }

  lemma ImageUrlOkMatches(u: string)
    requires ImageUrlOk(u)
    ensures MatchesImagePattern(u)
  {
    var n := SchemeLength(u);
    var scheme := u[..n];
    var e :| e in AllowedExtensions && |u| >= n + 2 + |e| && EndsWith(u, "." + e);
    var m := |u| - |e| - 1;
    var body := u[n..m];
    assert u[m..] == "." + e;
    SplitInThree(u, n, m);
    NoLineTerminatorSlice(u, n, m);
    assert SplitsAs(u, scheme, body, e);
  }

  lemma SplitInThree<T>(s: seq<T>, a: int, b: int)
    requires 0 <= a <= b <= |s|
    ensures s == s[..a] + (s[a..b] + s[b..])
  {
  }

  lemma NoLineTerminatorSlice(s: string, a: int, b: int)
    requires 0 <= a <= b <= |s| && NoLineTerminator(s[a..])
    ensures NoLineTerminator(s[a..b])
  {
    forall i | 0 <= i < b - a ensures !IsLineTerminator(s[a..b][i]) {
      assert s[a..b][i] == s[a..][i];
    }
  }

  lemma SchemeOfSplit(u: string, scheme: string, rest: string)
    requires u == scheme + rest
    requires scheme == "http://" || scheme == "https://"
    ensures SchemeLength(u) == |scheme|
  {
    assert u[..|scheme|] == scheme;
    if scheme == "http://" {
      assert u[4] == ':';
    }
  }

  lemma PatternMatchesImageUrlOk(u: string, scheme: string, body: string, ext: string)
    requires SplitsAs(u, scheme, body, ext)
    requires scheme == "http://" || scheme == "https://"
    requires |body| >= 1 && NoLineTerminator(body) && ext in AllowedExtensions
    ensures ImageUrlOk(u)
  {
    var dotExt := "." + ext;
    var rest := body + dotExt;
    SchemeOfSplit(u, scheme, rest);
    var n := |scheme|;
    assert u[n..] == rest;
    assert NoLineTerminator(rest) by {
      forall i | 0 <= i < |rest| ensures !IsLineTerminator(rest[i]) {
        if i < |body| {
          assert rest[i] == body[i];
        } else {
          assert rest[i] == dotExt[i - |body|];
        }
      }
    }
    assert u[|u| - |dotExt|..] == dotExt;
    assert EndsWith(u, "." + ext) && |u| >= n + 2 + |ext|;
  }

  /** The direct decision procedure accepts exactly the strings the regular expression matches. */
  lemma ImageUrlOkIffPattern(u: string)
    ensures ImageUrlOk(u) <==> MatchesImagePattern(u)
  {
    if ImageUrlOk(u) {
      ImageUrlOkMatches(u);
    }
    if MatchesImagePattern(u) {
      var scheme, body, ext :| SplitsAs(u, scheme, body, ext)
        && (scheme == "http://" || scheme == "https://")
        && |body| >= 1 && NoLineTerminator(body) && ext in AllowedExtensions;
      PatternMatchesImageUrlOk(u, scheme, body, ext);
    }
  }

  /** The `images` validator: `arr.every(...)`, so an empty list passes. */
  predicate ImagesOk(images: seq<string>) {
    forall i :: 0 <= i < |images| ==> ImageUrlOk(images[i])
  }

  /** Everything `save()` checks of a document. */
  predicate SchemaValid(h: Hero) {
    TextsOk(h.text) && ImagesOk(h.images)
  }

  /** A document as the schema builds it from assigned values: setters applied. */
  function Document(t: Texts, images: seq<string>): (h: Hero)
    ensures Settled(h.text)
    ensures forall f :: h.text.Get(f) == Cast(f, t.Get(f))
    ensures h.images == images
  {
    Hero(Texts(Cast(Nickname, t.nickname), Cast(RealName, t.realName), Cast(OriginDescription, t.originDescription),
               Cast(Superpowers, t.superpowers), Cast(CatchPhrase, t.catchPhrase)), images)
  }

  /** Padding does not count toward the trimmed fields' minimum: `"  a  "` is too short as a
      nickname, while the untrimmed origin field counts its spaces. */
  lemma PaddingDoesNotCount()
    ensures !TextOk(Nickname, Cast(Nickname, "  a  "))
    ensures TextOk(OriginDescription, Cast(OriginDescription, "    ab    "))
  {
    PaddedNickname();
  }

  lemma PaddedNickname()
    ensures Cast(Nickname, "  a  ") == "a"
  {
    assert AllSpace("  ") by {
      assert IsJsSpace(' ');
    }
    assert !IsJsSpace('a');
    TrimPadded("  ", "a", "  ");
    assert "  " + "a" + "  " == "  a  ";
  }

  /** An accepted URL ends in `g` or `p`, the last letter of every allowed extension, in lower
      case; and it is at least a scheme, one character and `.png` long. */
  lemma AcceptedUrlShape(u: string)
    requires ImageUrlOk(u)
    ensures u[|u| - 1] == 'g' || u[|u| - 1] == 'p'
    ensures |u| >= SchemeLength(u) + 5 && SchemeLength(u) >= 7
  {
    var n := SchemeLength(u);
    var e :| e in AllowedExtensions && |u| >= n + 2 + |e| && EndsWith(u, "." + e);
    assert u[|u| - 1] == ("." + e)[|e|];
  }

  /** Examples of the pattern's edges: an upper-case extension and a query string are refused,
      and so is a URL with nothing between the scheme and the extension. */
  lemma ImagePatternEdges()
    ensures !ImageUrlOk("https://a/x.JPG")
    ensures !ImageUrlOk("https://a/x.jpg?q=1")
    ensures !ImageUrlOk("https://.jpg")
  {
    if ImageUrlOk("https://a/x.JPG") {
      AcceptedUrlShape("https://a/x.JPG");
    }
    if ImageUrlOk("https://a/x.jpg?q=1") {
      AcceptedUrlShape("https://a/x.jpg?q=1");
    }
    var u := "https://.jpg";
    assert StartsWith(u, "https://") by {
      assert u[..8] == "https://";
    }
    if ImageUrlOk(u) {
      AcceptedUrlShape(u);
    }
  }
}
