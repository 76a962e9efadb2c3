/** Pagination of the hero list (`getAllHeroes`, backend/controllers/heroesController.js): the
    page query parsed with `parseInt(...) || 1`, a fixed page size of 5, `skip`/`limit` slicing of
    the store's natural order and `Math.ceil(total / 5)` pages. */
module Pagination {
  import opened Wrappers
  import opened Text
  import opened Seqs

  const PageSize: nat := 5

  function Min(a: int, b: int): int {
    if a <= b then a else b
  }

  /** Value of `c` as a `parseInt` digit in base `radix` (10 or 16), -1 when it is not one. */
  function DigitValue(c: char, radix: nat): (v: int)
    requires radix == 10 || radix == 16
    ensures -1 <= v < radix
  {
    var d := if '0' <= c <= '9' then c as int - '0' as int
             else if 'a' <= c <= 'z' then c as int - 'a' as int + 10
             else if 'A' <= c <= 'Z' then c as int - 'A' as int + 10
             else 36;
    if d < radix then d else -1
  }

  predicate IsDigitOf(c: char, radix: nat)
    requires radix == 10 || radix == 16
  {
    DigitValue(c, radix) >= 0
  }

  /** Length of the longest prefix of `s` made of base-`radix` digits. */
  function LeadingRadixDigits(s: string, radix: nat): (n: nat)
    requires radix == 10 || radix == 16
    ensures n <= |s|
    ensures forall i :: 0 <= i < n ==> IsDigitOf(s[i], radix)
    ensures n == |s| || !IsDigitOf(s[n], radix)
  {
    if |s| == 0 || !IsDigitOf(s[0], radix) then 0 else 1 + LeadingRadixDigits(s[1..], radix)
  }

  /** The number a string of base-`radix` digits denotes (it is only applied to digit strings; a
      character that is not a digit would count as 0). */
  function DigitsValue(z: string, radix: nat): nat
    requires radix == 10 || radix == 16
  {
    if z == [] then 0
    else
      var front := DigitsValue(z[..|z| - 1], radix);
      var d := DigitValue(z[|z| - 1], radix);
      (if radix == 10 then front * 10 else front * 16) + (if d < 0 then 0 else d)
  }

  /** The unsigned part of `parseInt`: a `0x`/`0X` prefix switches to base 16, then the longest
      run of digits is read; `None` when there is no digit. */
  function ParseUnsigned(u: string): Option<nat> {
    if HexPrefix(u) then ReadDigits(u[2..], 16) else ReadDigits(u, 10)
  }

  predicate HexPrefix(u: string) {
    |u| >= 2 && u[0] == '0' && (u[1] == 'x' || u[1] == 'X')
  }

  /** The longest run of base-`radix` digits at the start of `w`, read as a number. */
  function ReadDigits(w: string, radix: nat): Option<nat>
    requires radix == 10 || radix == 16
  {
    var k := LeadingRadixDigits(w, radix);
    if k == 0 then None else Some(DigitsValue(w[..k], radix))
  }

  /** `parseInt(s)` without a radix (section 19.2.5 of ECMA-262): leading white space skipped, an
      optional sign, then the unsigned part; `None` for `NaN`. */
  function ParseInt(s: string): Option<int> {
    ParseSigned(s[LeadingSpaces(s)..])
  }

  /** `parseInt` after the leading white space: an optional sign, then the unsigned part. */
  function ParseSigned(t: string): Option<int> {
    if |t| > 0 && t[0] == '-' then ApplySign(true, ParseUnsigned(t[1..]))
    else if |t| > 0 && t[0] == '+' then ApplySign(false, ParseUnsigned(t[1..]))
    else ApplySign(false, ParseUnsigned(t))
  }

  function ApplySign(negative: bool, v: Option<nat>): Option<int> {
    match v
    case None => None
    case Some(x) => Some(if negative then -(x as int) else x)
  }

  /** The decimal digits of `n`, most significant first. */
  function DecimalDigits(n: nat): (r: string)
    ensures |r| > 0
    ensures forall i :: 0 <= i < |r| ==> '0' <= r[i] <= '9'
  {
    var d := ['0' + (n % 10) as char];
    if n < 10 then d else DecimalDigits(n / 10) + d
  }

  /** How JavaScript writes an integer-valued number whose magnitude is below 10^21: an optional
      minus sign and its digits. From 10^21 on JavaScript switches to exponent form (`1e+21`),
      which this does not cover. */
  function Decimal(n: int): string {
    if n < 0 then "-" + DecimalDigits(-n) else DecimalDigits(n)
  }

  lemma {:induction false} DigitsValueOfDecimal(n: nat)
    ensures DigitsValue(DecimalDigits(n), 10) == n
  {
    var z := DecimalDigits(n);
    var c := '0' + (n % 10) as char;
    assert DigitValue(c, 10) == n % 10;
    if n >= 10 {
      var front := DecimalDigits(n / 10);
      DigitsValueOfDecimal(n / 10);
      assert z == front + [c];
      assert z[..|z| - 1] == front && z[|z| - 1] == c;
      assert DigitsValue(z, 10) == DigitsValue(front, 10) * 10 + n % 10;
    } else {
      assert z == [c] && z[..0] == [];
    }
  }

  lemma ReadAllDigits(z: string)
    requires |z| > 0 && forall i :: 0 <= i < |z| ==> '0' <= z[i] <= '9'
    ensures ReadDigits(z, 10) == Some(DigitsValue(z, 10))
  {
    assert forall i :: 0 <= i < |z| ==> IsDigitOf(z[i], 10);
    assert LeadingRadixDigits(z, 10) == |z|;
    assert z[..|z|] == z;
  }

  lemma ParseUnsignedOfDigits(z: string)
    requires |z| > 0 && forall i :: 0 <= i < |z| ==> '0' <= z[i] <= '9'
    ensures ParseUnsigned(z) == Some(DigitsValue(z, 10))
  {
    assert !HexPrefix(z) by {
      if |z| >= 2 {
        assert '0' <= z[1] <= '9';
      }
    }
    ReadAllDigits(z);
  }

  /** `parseInt` of a string that starts with a non-space character skips nothing. */
  lemma ParseIntNoSpace(s: string)
    requires |s| > 0 && !IsJsSpace(s[0])
    ensures ParseInt(s) == ParseSigned(s)
  {
    assert LeadingSpaces(s) == 0;
    assert s[0..] == s;
  }

  /** `parseInt` of a string that starts with a digit is its unsigned reading. */
  lemma ParseIntOfUnsigned(z: string, v: nat)
    requires |z| > 0 && '0' <= z[0] <= '9'
    requires ParseUnsigned(z) == Some(v)
    ensures ParseInt(z) == Some(v)
  {
    ParseIntNoSpace(z);
    assert ParseSigned(z) == ApplySign(false, ParseUnsigned(z));
  }

  /** A leading minus sign negates whatever the rest of the string reads as. */
  lemma ParseIntOfSign(s: string)
    requires |s| > 0 && s[0] == '-'
    ensures ParseInt(s) == ApplySign(true, ParseUnsigned(s[1..]))
  {
    ParseIntNoSpace(s);
  }

  /** `parseInt` of a minus sign followed by a string whose unsigned reading is `v` is `-v`. */
  lemma ParseIntOfMinus(z: string, v: nat)
    requires ParseUnsigned(z) == Some(v)
    ensures ParseInt("-" + z) == Some(-(v as int))
  {
    var s := "-" + z;
    ParseIntOfSign(s);
    assert s[1..] == z;
  }

  /** `parseInt` reads back every integer JavaScript writes, so the page number a client puts into
      `?page=${page}` arrives unchanged. */
  lemma ParseIntOfDecimal(n: int)
    ensures ParseInt(Decimal(n)) == Some(n)
  {
    if n < 0 {
      ParseIntOfNegativeDecimal(n);
    } else {
      var z := DecimalDigits(n);
      assert ParseUnsigned(z) == Some(n) by {
        ParseUnsignedOfDigits(z);
        DigitsValueOfDecimal(n);
      }
      ParseIntOfUnsigned(z, n);
    }
  }

  lemma ParseIntOfNegativeDecimal(n: int)
    requires n < 0
    ensures ParseInt(Decimal(n)) == Some(n)
  {
    var z := DecimalDigits(-n);
    assert ParseUnsigned(z) == Some(-n) by {
      ParseUnsignedOfDigits(z);
      DigitsValueOfDecimal(-n);
    }
    ParseIntOfMinus(z, -n);
    assert Decimal(n) == "-" + z;
  }

  /** A run of digits followed by anything: the leading digits reach through all of them. */
  lemma {:induction false} LeadingDigitsOfAppend(z: string, rest: string)
    requires forall i :: 0 <= i < |z| ==> '0' <= z[i] <= '9'
    ensures LeadingRadixDigits(z + rest, 10) == |z| + LeadingRadixDigits(rest, 10)
    decreases |z|
  {
    if z == [] {
      assert z + rest == rest;
    } else {
      assert IsDigitOf(z[0], 10) && (z + rest)[0] == z[0];
      assert (z + rest)[1..] == z[1..] + rest;
      LeadingDigitsOfAppend(z[1..], rest);
    }
  }

  /** `parseInt` stops at the first character after the digits that is not one (and not the `x`
      of a hexadecimal prefix): the digits written out for `n` followed by such a character read as
      `n`. A decimal point and the `e` of exponent form are such characters. */
  lemma ParseIntOfDigitsThen(n: nat, rest: string)
    requires |rest| > 0 && !('0' <= rest[0] <= '9') && rest[0] != 'x' && rest[0] != 'X'
    ensures ParseUnsigned(DecimalDigits(n) + rest) == Some(n)
    ensures ParseInt(DecimalDigits(n) + rest) == Some(n)
  {
    var z := DecimalDigits(n);
    var s := z + rest;
    LeadingDigitsOfAppend(z, rest);
    assert !IsDigitOf(rest[0], 10);
    assert LeadingRadixDigits(rest, 10) == 0;
    assert s[..|z|] == z;
    DigitsValueOfDecimal(n);
    assert !HexPrefix(s) by {
      if |z| >= 2 {
        assert s[1] == z[1];
      } else {
        assert s[1] == rest[0];
      }
    }
    assert ParseUnsigned(s) == Some(n);
    ParseIntOfUnsigned(s, n);
  }

  /** `parseInt` stops at the decimal point: a number written with a fractional part reads as its
      integer part. */
  lemma ParseIntOfFraction(n: nat, frac: string)
    ensures ParseInt(DecimalDigits(n) + "." + frac) == Some(n)
  {
    var z := DecimalDigits(n);
    FractionShape(z, frac);
    ParseIntOfDigitsThen(n, "." + frac);
  }

  /** Where the decimal point goes between the digits and the fraction. */
  lemma FractionShape(z: string, frac: string)
    ensures z + "." + frac == z + ("." + frac)
    ensures "-" + z + "." + frac == "-" + (z + ("." + frac))
  {
  }

  /** A minus sign in front of a fraction: `parseInt` reads the negated integer part. */
  lemma ParseIntOfNegativeFraction(n: nat, frac: string)
    ensures ParseInt("-" + DecimalDigits(n) + "." + frac) == Some(-(n as int))
  {
    var z := DecimalDigits(n);
    FractionShape(z, frac);
    ParseIntOfDigitsThen(n, "." + frac);
    ParseIntOfMinus(z + ("." + frac), n);
  }

  /** `parseInt(req.query.page) || 1`: a missing, non-numeric or zero page becomes 1; every other
      parsed value, negative ones included, is used as it is. */
  function PageNumber(query: Option<string>): (page: int)
    ensures page != 0
    ensures page == 1 || (query.Some? && ParseInt(query.value) == Some(page))
    ensures query.Some? && ParseInt(query.value).Some? && ParseInt(query.value).value != 0 ==> page == ParseInt(query.value).value
  {
    match query
    case None => 1
    case Some(q) =>
      match ParseInt(q)
      case None => 1
      case Some(v) => if v == 0 then 1 else v
  }

  /** `(page - 1) * limit`: how many heroes the listing skips. */
  function Skip(page: int): int {
    (page - 1) * PageSize
  }

  /** `Math.ceil(total / 5)`. */
  function TotalPages(total: nat): (r: nat)
    ensures r == 0 <==> total == 0
    ensures r > 0 ==> (r - 1) * PageSize < total <= r * PageSize
  {
    (total + PageSize - 1) / PageSize
  }

  /** `.skip(skip).limit(5)` over the store's natural order: a window of at most five consecutive
      elements starting at `skip`, empty past the end. */
  function PageSlice<T>(xs: seq<T>, skip: nat): (r: seq<T>)
    ensures |r| <= PageSize
    ensures |r| == if skip >= |xs| then 0 else Min(PageSize, |xs| - skip)
    ensures forall i :: 0 <= i < |r| ==> r[i] == xs[skip + i]
  {
    if skip >= |xs| then [] else xs[skip..Min(skip + PageSize, |xs|)]
  }

  /** Pages 1 to `k` one after another. */
  function FirstPages<T>(xs: seq<T>, k: nat): seq<T> {
    if k == 0 then [] else FirstPages(xs, k - 1) + PageSlice(xs, (k - 1) * PageSize)
  }

  lemma {:induction false} FirstPagesArePrefix<T>(xs: seq<T>, k: nat)
    ensures FirstPages(xs, k) == xs[..Min(k * PageSize, |xs|)]
  {
    if k > 0 {
      FirstPagesArePrefix(xs, k - 1);
      var lo := Min((k - 1) * PageSize, |xs|);
      var hi := Min(k * PageSize, |xs|);
      assert PageSlice(xs, (k - 1) * PageSize) == xs[lo..hi];
      assert xs[..hi] == xs[..lo] + xs[lo..hi];
    }
  }

  /** Pages 1 to `TotalPages` laid end to end are the whole store, in store order. */
  lemma PagesCoverStore<T>(xs: seq<T>)
    ensures FirstPages(xs, TotalPages(|xs|)) == xs
  {
    FirstPagesArePrefix(xs, TotalPages(|xs|));
    assert xs[..|xs|] == xs;
  }

  /** Exactly pages 1 to `TotalPages` are non-empty. */
  lemma NonEmptyPages<T>(xs: seq<T>, page: int)
    requires page >= 1
    ensures PageSlice(xs, Skip(page)) != [] <==> page <= TotalPages(|xs|)
  {
  }

  /** Two different pages share no hero when the store holds each hero once. */
  lemma PagesDisjoint<T>(xs: seq<T>, p: int, q: int, x: T)
    requires Distinct(xs)
    requires 1 <= p && 1 <= q && p != q
    requires x in PageSlice(xs, Skip(p))
    ensures x !in PageSlice(xs, Skip(q))
  {
  }
}
