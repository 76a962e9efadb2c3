/** `getEncodedPublicId` (backend/utils/cloudinaryHelpers.js): the media service's resource
    identifier recovered from a delivery URL `…/upload/[v<digits>/]<path>.<ext>`, and the
    identifier the controller hands to the media service's destroy call after decoding it. */
module PublicId {
  import opened Wrappers
  import opened Text
  import UriCodec

  const UploadMarker: string := "/upload/"

  /** `i` is where `sep` first occurs in `s`. */
  ghost predicate FirstOccurrence(s: string, sep: string, i: int) {
    OccursAt(s, sep, i) && forall j :: 0 <= j < i ==> !OccursAt(s, sep, j)
  }

  /** `p` is the text that starts at `start` and runs up to the next occurrence of `sep` or to
      the end of `s`. */
  ghost predicate PieceFrom(s: string, sep: string, start: int, p: string) {
    && 0 <= start && start + |p| <= |s| && s[start..start + |p|] == p
    && (start + |p| == |s| || OccursAt(s, sep, start + |p|))
    && forall j :: start <= j < start + |p| ==> !OccursAt(s, sep, j)
  }

  /** `s.split(sep)[1]`: the piece between the first occurrence of `sep` and the next one (or the
      end of `s`); `None` for the `undefined` JavaScript yields when `sep` does not occur. */
  function SecondPiece(s: string, sep: string): (r: Option<string>)
    requires |sep| > 0
    ensures r.None? <==> !Contains(s, sep)
    ensures r.Some? ==> FirstOccurrence(s, sep, IndexOf(s, sep, 0))
                        && PieceFrom(s, sep, IndexOf(s, sep, 0) + |sep|, r.value)
  {
    var i := IndexOf(s, sep, 0);
    FirstIndex(s, sep);
    if i == -1 then None
    else
      PieceUpToNext(s, sep, i + |sep|);
      Some(PieceAt(s, sep, i + |sep|))
  }

  /** The text from `start` up to the next occurrence of `sep` that `indexOf` finds, or to the end. */
  function PieceAt(s: string, sep: string, start: nat): string
    requires |sep| > 0 && start <= |s|
  {
    var j := IndexOf(s, sep, start);
    if j == -1 then s[start..] else s[start..j]
  }

  /** `indexOf` from 0 finds the first occurrence, and finds none exactly when there is none. */
  lemma FirstIndex(s: string, sep: string)
    requires |sep| > 0
    ensures IndexOf(s, sep, 0) == -1 <==> !Contains(s, sep)
    ensures IndexOf(s, sep, 0) != -1 ==> FirstOccurrence(s, sep, IndexOf(s, sep, 0))
  {
  }

  /** The text from `start` up to the next occurrence found by `indexOf` (or the end). */
  lemma PieceUpToNext(s: string, sep: string, start: nat)
    requires |sep| > 0 && start <= |s|
    ensures PieceFrom(s, sep, start, PieceAt(s, sep, start))
  {
  }

  /** `s` opens with a version segment `v<digits>/` of length `m`. */
  ghost predicate VersionPrefix(s: string, m: int) {
    3 <= m <= |s| && s[0] == 'v' && s[m - 1] == '/' && forall i :: 1 <= i < m - 1 ==> IsAsciiDigit(s[i])
  }

  /** `s.replace(/^v\d+\//, '')`: drops one leading version segment, if there is one. */
  function StripVersion(s: string): (r: string)
    ensures forall m :: VersionPrefix(s, m) ==> r == s[m..]
    ensures r == s || exists m :: VersionPrefix(s, m)
  {
    if |s| > 0 && s[0] == 'v' then
      var k := LeadingDigits(s[1..]);
      if k >= 1 && 1 + k < |s| && s[1 + k] == '/' then
        assert VersionPrefix(s, k + 2);
        s[k + 2..]
      else
        s
    else s
  }

  predicate IsNameChar(c: char) {
    c != '/' && c != '.'
  }

  /** Number of characters at the end of `s` that are neither `/` nor `.`. */
  function TrailingNameChars(s: string): (n: nat)
    ensures n <= |s|
    ensures forall i :: |s| - n <= i < |s| ==> IsNameChar(s[i])
    ensures n == |s| || !IsNameChar(s[|s| - n - 1])
  {
    if |s| == 0 || !IsNameChar(s[|s| - 1]) then 0 else 1 + TrailingNameChars(s[..|s| - 1])
  }

  /** A file extension starts at `d`: a `.` followed by one or more characters, none of them `/`
      or `.`, up to the end of `s`. */
  ghost predicate ExtensionAt(s: string, d: int) {
    0 <= d && d + 1 < |s| && s[d] == '.' && forall i :: d < i < |s| ==> IsNameChar(s[i])
  }

  /** `s.replace(/\.[^/.]+$/, '')`: drops the last extension; earlier dots stay. */
  function StripExtension(s: string): (r: string)
    ensures forall d :: ExtensionAt(s, d) ==> r == s[..d]
    ensures r == s || exists d :: ExtensionAt(s, d)
  {
    var k := TrailingNameChars(s);
    if k >= 1 && k < |s| && s[|s| - 1 - k] == '.' then
      assert ExtensionAt(s, |s| - 1 - k);
      s[..|s| - 1 - k]
    else
      s
  }

  /** The resource path a delivery URL names: the `/upload/` piece without its version segment
      and its extension; `None` when the URL has no `/upload/`. */
  function StrippedPath(url: string): Option<string> {
    match SecondPiece(url, UploadMarker)
    case None => None
    case Some(afterUpload) => Some(StripExtension(StripVersion(afterUpload)))
  }

  /** `getEncodedPublicId(url)`: the percent-encoded resource path, or `null` (here `None`) when
      the URL holds no `/upload/`, because indexing the split result then gives `undefined` and
      `.replace` throws. The identifier is path-free text: `/` always comes out as `%2F`. */
  function GetEncodedPublicId(url: string): (r: Option<string>)
    ensures r.None? <==> !Contains(url, UploadMarker)
    ensures r.Some? ==> forall i :: 0 <= i < |r.value| ==> UriCodec.Unreserved(r.value[i]) || r.value[i] == '%'
  {
    match StrippedPath(url)
    case None => None
    case Some(path) => Some(UriCodec.Encode(path))
  }

  /** Decoding the identifier gives back exactly the stripped path: what the controller's
      `decodeURIComponent(getEncodedPublicId(url))` relies on. */
  lemma PublicIdRoundTrip(url: string)
    ensures GetEncodedPublicId(url).Some? ==> UriCodec.Decode(GetEncodedPublicId(url).value) == StrippedPath(url)
  {
    if StrippedPath(url).Some? {
      UriCodec.DecodeEncode(StrippedPath(url).value);
    }
  }

  /** What `decodeURIComponent` receives: the identifier, or the text `"null"` that JavaScript's
      string conversion makes of a `null` identifier. */
  function DestroyArgument(url: string): string {
    GetEncodedPublicId(url).GetOr("null")
  }

  /** The identifier handed to the media service's destroy call: the stripped path itself, or
      `"null"` for a URL without `/upload/`. Decoding never throws here. */
  function DestroyTarget(url: string): (r: string)
    ensures r == StrippedPath(url).GetOr("null")
  {
    PublicIdRoundTrip(url);
    UriCodec.DecodePlain("null");
    UriCodec.Decode(DestroyArgument(url)).value
  }
}
