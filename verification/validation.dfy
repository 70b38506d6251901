/**
 * The request validators and sanitisers of api/utils/validation.js: the
 * regular-expression acceptance tests written as character-class predicates,
 * slug generation, pagination clamping, and the trimmed, length-bounded text
 * checks that answer 400 on failure.
 */
module Validation {
  import opened Wrappers
  import opened Text

  /** A request value: a string, or any other JavaScript value (missing, null, a number, an object). */
  datatype JsValue = Str(s: string) | NonString(repr: string)

  /** Why a validator threw; every such error carries status 400. */
  datatype Reason =
    | Required
    | TooShort
    | TooLong
    | FileRequired
    | FileTypeNotAllowed
    | FileTooLarge

  datatype Failure = Failure(status: nat, reason: Reason)

  const BadRequest: nat := 400

  /** JavaScript truthiness of a request value that must be a string: `!v || typeof v !== 'string'` fails. */
  predicate IsNonEmptyString(v: JsValue) {
    v.Str? && v.s != ""
  }

  // ---------------------------------------------------------------- email

  /** `[^\s@]`. */
  predicate EmailChar(c: char) { !IsSpace(c) && c != '@' }

  /**
   * One way `/^[^\s@]+@[^\s@]+\.[^\s@]+$/` matches `s`: the `@` at `at`, the
   * literal dot at `dot`, and every other character from `[^\s@]`.
   */
  predicate EmailMatch(s: string, at: int, dot: int) {
    && 0 < at && at + 1 < dot && dot + 1 < |s|
    && s[at] == '@' && s[dot] == '.'
    && (forall k :: 0 <= k < |s| && k != at ==> EmailChar(s[k]))
  }

  /** `validateEmail`: the regular expression matches in some way. */
  predicate ValidateEmail(s: string) {
    exists at, dot | 0 <= at < |s| && 0 <= dot < |s| :: EmailMatch(s, at, dot)
  }

  /** `d` has a '.' with at least one character on each side. */
  predicate DotInside(d: string) {
    exists j | 0 < j < |d| - 1 :: d[j] == '.'
  }

  /**
   * An accepted address has exactly one '@', no whitespace, a non-empty part
   * before the '@', and a '.' inside the part after it.
   */
  lemma {:induction false} EmailAccepted(s: string)
    requires ValidateEmail(s)
    ensures CountChar(s, '@') == 1
    ensures forall i :: 0 <= i < |s| ==> !IsSpace(s[i])
    ensures exists at :: 0 < at < |s| && s[at] == '@' && DotInside(s[at + 1..])
  {
    var at, dot :| 0 <= at < |s| && 0 <= dot < |s| && EmailMatch(s, at, dot);
    assert forall k :: 0 <= k < |s| && k != at ==> s[k] != '@' by {
      assert forall k :: 0 <= k < |s| && k != at ==> EmailChar(s[k]);
    }
    CountSingle(s, '@', at);
    forall i | 0 <= i < |s| ensures !IsSpace(s[i]) {
      if i != at {
        assert EmailChar(s[i]);
      }
    }
    var d := s[at + 1..];
    assert d[dot - at - 1] == '.';
    assert DotInside(d);
  }

  /** The converse: one '@' not at the start, no whitespace, and a dot inside the domain is accepted. */
  lemma {:induction false} EmailShapeAccepted(s: string, at: int)
    requires 0 < at < |s| && s[at] == '@' && CountChar(s, '@') == 1
    requires forall i :: 0 <= i < |s| ==> !IsSpace(s[i])
    requires DotInside(s[at + 1..])
    ensures ValidateEmail(s)
  {
    var d := s[at + 1..];
    var j :| 0 < j < |d| - 1 && d[j] == '.';
    forall k | 0 <= k < |s| && k != at ensures s[k] != '@' {
      if s[k] == '@' {
        CountTwo(s, '@', at, k);
      }
    }
    assert EmailMatch(s, at, at + 1 + j);
  }

  /** A character occurring exactly at one position is counted once. */
  lemma {:induction false} CountSingle(s: string, c: char, at: int)
    requires 0 <= at < |s| && s[at] == c
    requires forall k :: 0 <= k < |s| && k != at ==> s[k] != c
    ensures CountChar(s, c) == 1
  {
    if at == 0 {
      assert forall k :: 0 <= k < |s[1..]| ==> s[1..][k] == s[k + 1];
    } else {
      CountSingle(s[1..], c, at - 1);
    }
  }

  /** A character occurring at two positions is counted at least twice. */
  lemma {:induction false} CountTwo(s: string, c: char, i: int, j: int)
    requires 0 <= i < |s| && 0 <= j < |s| && i != j && s[i] == c && s[j] == c
    ensures CountChar(s, c) >= 2
  {
    if i == 0 {
      assert s[1..][j - 1] == c;
    } else if j == 0 {
      assert s[1..][i - 1] == c;
    } else {
      CountTwo(s[1..], c, i - 1, j - 1);
    }
  }

  // ------------------------------------------------------------- password

  /** `[a-zA-Z\d@$!%*?&]`. */
  predicate PasswordChar(c: char) {
    IsLower(c) || IsUpper(c) || IsDigit(c) || c in "@$!%*?&"
  }

  /** A regular-expression line terminator, which `.` does not match. */
  predicate IsLineTerminator(c: char) {
    c == '\n' || c == '\r' || c == '\U{2028}' || c == '\U{2029}'
  }

  /** The lookahead `(?=.*[class])` at the start: a class character reached over non-terminators. */
  predicate LookaheadFinds(s: string, cls: PasswordClass) {
    exists i | 0 <= i < |s| :: InPasswordClass(cls, s[i]) && NoTerminatorBefore(s, i)
  }

  predicate NoTerminatorBefore(s: string, i: int)
    requires 0 <= i <= |s|
  {
    forall k :: 0 <= k < i ==> !IsLineTerminator(s[k])
  }

  datatype PasswordClass = LowerClass | UpperClass | DigitClass

  predicate InPasswordClass(cls: PasswordClass, c: char) {
    match cls
    case LowerClass => IsLower(c)
    case UpperClass => IsUpper(c)
    case DigitClass => IsDigit(c)
  }

  /** `validatePassword`, with the three lookaheads read literally. */
  predicate ValidatePassword(s: string) {
    && LookaheadFinds(s, LowerClass) && LookaheadFinds(s, UpperClass) && LookaheadFinds(s, DigitClass)
    && |s| >= 8
    && (forall i :: 0 <= i < |s| ==> PasswordChar(s[i]))
  }

  predicate HasLower(s: string) { exists i | 0 <= i < |s| :: IsLower(s[i]) }
  predicate HasUpper(s: string) { exists i | 0 <= i < |s| :: IsUpper(s[i]) }
  predicate HasDigit(s: string) { exists i | 0 <= i < |s| :: IsDigit(s[i]) }

  /**
   * A password is accepted exactly when it has at least 8 characters, all
   * from `[A-Za-z0-9@$!%*?&]`, among them a lower-case letter, an upper-case
   * letter and a digit.
   */
  lemma {:induction false} PasswordRule(s: string)
    ensures ValidatePassword(s) <==>
              && |s| >= 8 && (forall i :: 0 <= i < |s| ==> PasswordChar(s[i]))
              && HasLower(s) && HasUpper(s) && HasDigit(s)
  {
    if && |s| >= 8 && (forall i :: 0 <= i < |s| ==> PasswordChar(s[i]))
       && HasLower(s) && HasUpper(s) && HasDigit(s)
    {
      var l :| 0 <= l < |s| && IsLower(s[l]);
      var u :| 0 <= u < |s| && IsUpper(s[u]);
      var d :| 0 <= d < |s| && IsDigit(s[d]);
      assert forall k :: 0 <= k < |s| ==> !IsLineTerminator(s[k]);
      assert NoTerminatorBefore(s, l) && NoTerminatorBefore(s, u) && NoTerminatorBefore(s, d);
      assert InPasswordClass(LowerClass, s[l]) && InPasswordClass(UpperClass, s[u]) && InPasswordClass(DigitClass, s[d]);
    }
    if ValidatePassword(s) {
      var l :| 0 <= l < |s| && InPasswordClass(LowerClass, s[l]) && NoTerminatorBefore(s, l);
      var u :| 0 <= u < |s| && InPasswordClass(UpperClass, s[u]) && NoTerminatorBefore(s, u);
      var d :| 0 <= d < |s| && InPasswordClass(DigitClass, s[d]) && NoTerminatorBefore(s, d);
      assert IsLower(s[l]) && IsUpper(s[u]) && IsDigit(s[d]);
    }
  }

  // ------------------------------------------- single-class acceptance tests

  /** `[a-zA-Z0-9_]`. */
  predicate UsernameChar(c: char) { IsLower(c) || IsUpper(c) || IsDigit(c) || c == '_' }

  /** `validateUsername`: `/^[a-zA-Z0-9_]{3,30}$/`. */
  predicate ValidateUsername(s: string) {
    3 <= |s| <= 30 && forall i :: 0 <= i < |s| ==> UsernameChar(s[i])
  }

  /** `[a-z0-9-]`. */
  predicate SlugChar(c: char) { IsLowerAlnum(c) || c == '-' }

  /** A slug character is neither changed by lower-casing nor whitespace. */
  lemma {:induction false} SlugCharFixed(ch: char)
    requires SlugChar(ch)
    ensures LowerChar(ch) == ch && !IsSpace(ch)
  {
  }

  /** `validateSlug`: `/^[a-z0-9-]+$/`. */
  predicate ValidateSlug(s: string) {
    |s| >= 1 && forall i :: 0 <= i < |s| ==> SlugChar(s[i])
  }

  /** `validateHexColor`: `/^#([A-Fa-f0-9]{6}|[A-Fa-f0-9]{3})$/`. */
  predicate ValidateHexColor(s: string) {
    (|s| == 7 || |s| == 4) && s[0] == '#' && forall i :: 1 <= i < |s| ==> IsHexDigit(s[i])
  }

  /** `validateObjectId`: `/^[0-9a-fA-F]{24}$/`. */
  predicate ValidateObjectId(s: string) {
    |s| == 24 && forall i :: 0 <= i < |s| ==> IsHexDigit(s[i])
  }

  /** Object ids are matched without regard to letter case. */
  lemma {:induction false} ObjectIdIgnoresCase(s: string)
    ensures ValidateObjectId(Lower(s)) <==> ValidateObjectId(s)
  {
    assert forall i :: 0 <= i < |s| ==> (IsHexDigit(Lower(s)[i]) <==> IsHexDigit(s[i]));
  }

  /** An accepted slug is left as it is by the schema's `lowercase` and `trim` setters. */
  lemma {:induction false} ValidSlugIsStored(s: string)
    requires ValidateSlug(s)
    ensures Lower(s) == s && Trim(s) == s
  {
    forall i | 0 <= i < |s| ensures Lower(s)[i] == s[i] {
      SlugCharFixed(s[i]);
    }
    SlugCharFixed(s[0]);
    SlugCharFixed(s[|s| - 1]);
    TrimNoop(s);
  }

  /** Every accepted username is a string of 3 to 30 characters without whitespace. */
  lemma {:induction false} UsernameHasNoSpace(s: string)
    requires ValidateUsername(s)
    ensures 3 <= |s| <= 30 && forall i :: 0 <= i < |s| ==> !IsSpace(s[i])
  {
  }

  // -------------------------------------------------------- slug generation

  /** `[a-z0-9\s-]`: what the first replacement keeps. */
  predicate SlugSourceChar(c: char) { IsLowerAlnum(c) || IsSpace(c) || c == '-' }

  /** Every character is from `[a-z0-9-]` and no two hyphens are adjacent. */
  predicate HyphenSeparated(s: string) {
    && (forall i :: 0 <= i < |s| ==> SlugChar(s[i]))
    && (forall i :: 0 <= i < |s| - 1 ==> !(s[i] == '-' && s[i + 1] == '-'))
  }

  /**
   * `generateSlug` as written: lower-case, drop characters outside
   * `[a-z0-9\s-]`, turn whitespace runs into '-', collapse hyphen runs, then
   * `trim('-')` — which ignores its argument and only removes whitespace.
   */
  function GenerateSlugAsWritten(title: string): (r: string)
    ensures HyphenSeparated(r)
  {
    var collapsed := CollapsedSlug(title);
    TrimNoop(collapsed);
    Trim(collapsed)
  }

  /** The characters `generateSlug` keeps, and how its two replacements treat them. */
  function KeptSlugChars(title: string): (r: string)
    ensures forall i :: 0 <= i < |r| ==> SlugSourceChar(r[i])
  {
    Filter(Lower(title), SlugSourceChar)
  }

  /** After `.replace(/\s+/g, '-')` only `[a-z0-9-]` is left. */
  function Dashed(title: string): (r: string)
    ensures forall i :: 0 <= i < |r| ==> SlugChar(r[i])
  {
    var kept := KeptSlugChars(title);
    var r := ReplaceRuns(kept, Space, '-');
    ReplaceRunsFrom(kept, Space, '-');
    ReplaceRunsOutside(kept, Space, '-');
    forall i | 0 <= i < |r| ensures SlugChar(r[i]) {
      assert r[i] in r;
      if r[i] != '-' {
        var k :| 0 <= k < |kept| && kept[k] == r[i];
        assert SlugSourceChar(kept[k]);
      }
    }
    r
  }

  /** The string `generateSlug` has built just before its final `trim`. */
  function CollapsedSlug(title: string): (r: string)
    ensures HyphenSeparated(r)
    ensures r == [] || (!IsSpace(r[0]) && !IsSpace(r[|r| - 1]))
  {
    var dashed := Dashed(title);
    var r := ReplaceRuns(dashed, Hyphen, '-');
    ReplaceRunsFrom(dashed, Hyphen, '-');
    ReplaceRunsSeparated(dashed, Hyphen, '-');
    forall i | 0 <= i < |r| ensures SlugChar(r[i]) {
      assert r[i] in r;
      if r[i] != '-' {
        var k :| 0 <= k < |dashed| && dashed[k] == r[i];
        assert SlugChar(dashed[k]);
      }
    }
    forall i | 0 <= i < |r| - 1 ensures !(r[i] == '-' && r[i + 1] == '-') {
      assert r[i] == '-' ==> !InClass(Hyphen, r[i + 1]);
    }
    SlugCharsNotSpace(r);
    r
  }

  /** A string of slug characters has no whitespace at either end. */
  lemma {:induction false} SlugCharsNotSpace(r: string)
    requires forall i :: 0 <= i < |r| ==> SlugChar(r[i])
    ensures r == [] || (!IsSpace(r[0]) && !IsSpace(r[|r| - 1]))
  {
    if r != [] {
      SlugCharFixed(r[0]);
      SlugCharFixed(r[|r| - 1]);
    }
  }

  /** The trim in `generateSlug` keeps the hyphen a leading space turned into. */
  lemma {:induction false} GenerateSlugKeepsLeadingHyphen()
    ensures GenerateSlugAsWritten(" a") == "-a"
  {
    CollapsedLeadingSpace();
    TrimNoop("-a");
  }

  lemma {:induction false} KeptLeadingSpace()
    ensures KeptSlugChars(" a") == " a"
  {
    assert Lower(" a") == " a";
    assert SlugSourceChar(' ') && SlugSourceChar('a');
  }

  lemma {:induction false} DashedLeadingSpace()
    ensures Dashed(" a") == "-a"
  {
    KeptLeadingSpace();
    ReplaceRunsPair(' ', 'a', Space, '-');
  }

  lemma {:induction false} CollapsedLeadingSpace()
    ensures CollapsedSlug(" a") == "-a"
  {
    DashedLeadingSpace();
    ReplaceRunsPair('-', 'a', Hyphen, '-');
  }

  /**
   * `generateSlug` as evidently intended: as written, then hyphens stripped
   * from both ends. The result is empty or an accepted slug that neither
   * starts nor ends with '-' and has no doubled hyphen.
   */
  function GenerateSlug(title: string): (r: string)
    ensures HyphenSeparated(r)
    ensures r == [] || ValidateSlug(r)
    ensures r == [] || (r[0] != '-' && r[|r| - 1] != '-')
  {
    var w := GenerateSlugAsWritten(title);
    StripSeparated(w);
    StripEndHyphens(w)
  }

  /** `generateSlug` as written keeps every letter and digit of the lower-cased title, in order, and adds only hyphens. */
  lemma {:induction false} CollapsedSlugKeepsAlnums(title: string)
    ensures Alnums(CollapsedSlug(title)) == Alnums(Lower(title))
    ensures Alnums(GenerateSlugAsWritten(title)) == Alnums(Lower(title))
  {
    var kept := KeptSlugChars(title);
    FilterAlnums(Lower(title), SlugSourceChar);
    ReplaceRunsAlnums(kept, Space, '-');
    ReplaceRunsAlnums(Dashed(title), Hyphen, '-');
    TrimNoop(CollapsedSlug(title));
  }

  /** The corrected `generateSlug` keeps the same letters and digits. */
  lemma {:induction false} GenerateSlugKeepsAlnums(title: string)
    ensures Alnums(GenerateSlug(title)) == Alnums(Lower(title))
  {
    CollapsedSlugKeepsAlnums(title);
    StripAlnums(GenerateSlugAsWritten(title));
  }

  /**
   * Where `generateSlug` puts its hyphens: a word of letters and digits,
   * then whitespace, then a tail that starts with a letter or digit, give
   * the word, one '-', and the tail's slug.
   */
  lemma {:induction false} GenerateSlugJoin(word: string, sep: string, tail: string)
    requires word != [] && forall i :: 0 <= i < |word| ==> IsLowerAlnum(LowerChar(word[i]))
    requires sep != [] && forall i :: 0 <= i < |sep| ==> IsSpace(sep[i])
    requires tail != [] && IsLowerAlnum(LowerChar(tail[0]))
    ensures CollapsedSlug(word + sep + tail) == Lower(word) + "-" + CollapsedSlug(tail)
    ensures GenerateSlugAsWritten(word + sep + tail) == Lower(word) + "-" + GenerateSlugAsWritten(tail)
    ensures GenerateSlug(word + sep + tail) == Lower(word) + "-" + GenerateSlug(tail)
  {
    var lw := Lower(word);
    var t := CollapsedSlug(tail);
    CollapsedJoin(word, sep, tail);
    TrimNoop(CollapsedSlug(word + sep + tail));
    TrimNoop(t);
    StripAfterWord(lw + "-", t);
  }

  lemma {:induction false} CollapsedJoin(word: string, sep: string, tail: string)
    requires word != [] && forall i :: 0 <= i < |word| ==> IsLowerAlnum(LowerChar(word[i]))
    requires sep != [] && forall i :: 0 <= i < |sep| ==> IsSpace(sep[i])
    requires tail != [] && IsLowerAlnum(LowerChar(tail[0]))
    ensures CollapsedSlug(word + sep + tail) == (Lower(word) + "-") + CollapsedSlug(tail)
    ensures CollapsedSlug(tail) != [] && CollapsedSlug(tail)[0] == LowerChar(tail[0])
  {
    var lw := Lower(word);
    var d := Dashed(tail);
    DashedJoin(word, sep, tail);
    ReplaceRunsJoin(lw, "-", d, Hyphen, '-');
  }

  lemma {:induction false} DashedJoin(word: string, sep: string, tail: string)
    requires word != [] && forall i :: 0 <= i < |word| ==> IsLowerAlnum(LowerChar(word[i]))
    requires sep != [] && forall i :: 0 <= i < |sep| ==> IsSpace(sep[i])
    requires tail != [] && IsLowerAlnum(LowerChar(tail[0]))
    ensures Dashed(word + sep + tail) == Lower(word) + ("-" + Dashed(tail))
    ensures Dashed(tail) != [] && Dashed(tail)[0] == LowerChar(tail[0])
    ensures forall i :: 0 <= i < |Lower(word)| ==> !InClass(Hyphen, Lower(word)[i])
  {
    var lw := Lower(word);
    var f := KeptSlugChars(tail);
    KeptJoin(word, sep, tail);
    WordOutsideClasses(lw);
    var x := lw + (sep + f);
    ReplaceRunsJoin(lw, sep, f, Space, '-');
    DashedIs(word + sep + tail, x);
    DashedIs(tail, f);
    AppendAssoc(lw, "-", Dashed(tail));
  }

  lemma {:induction false} DashedIs(title: string, kept: string)
    requires KeptSlugChars(title) == kept
    ensures Dashed(title) == ReplaceRuns(kept, Space, '-')
  {
  }

  /** A word of letters and digits holds no whitespace and no hyphen. */
  lemma {:induction false} WordOutsideClasses(w: string)
    requires forall i :: 0 <= i < |w| ==> IsLowerAlnum(w[i])
    ensures forall i :: 0 <= i < |w| ==> !InClass(Space, w[i]) && !InClass(Hyphen, w[i])
  {
  }

  /** The characters `generateSlug` keeps from a word, whitespace and a tail. */
  lemma {:induction false} KeptJoin(word: string, sep: string, tail: string)
    requires forall i :: 0 <= i < |word| ==> IsLowerAlnum(LowerChar(word[i]))
    requires forall i :: 0 <= i < |sep| ==> IsSpace(sep[i])
    requires tail != [] && IsLowerAlnum(LowerChar(tail[0]))
    ensures KeptSlugChars(word + sep + tail) == Lower(word) + (sep + KeptSlugChars(tail))
    ensures KeptSlugChars(tail) != [] && KeptSlugChars(tail)[0] == LowerChar(tail[0])
  {
    var lw, ls, lt := Lower(word), Lower(sep), Lower(tail);
    LowerJoin(word, sep, tail);
    assert ls == sep;
    FilterAppend(lw, ls + lt, SlugSourceChar);
    FilterAppend(ls, lt, SlugSourceChar);
    assert Filter(lw, SlugSourceChar) == lw;
    assert Filter(ls, SlugSourceChar) == ls;
    assert lt[0] == LowerChar(tail[0]);
  }

  /** Stripping the end hyphens of a hyphen-separated string leaves none at either end. */
  lemma {:induction false} StripSeparated(w: string)
    requires HyphenSeparated(w)
    ensures var r := StripEndHyphens(w);
            HyphenSeparated(r) && (r == [] || (r[0] != '-' && r[|r| - 1] != '-'))
  {
    var r := StripEndHyphens(w);
    var lo := if |w| > 0 && w[0] == '-' then 1 else 0;
    forall i | 0 <= i < |r| ensures SlugChar(r[i]) {
      assert r[i] == w[lo + i];
    }
    forall i | 0 <= i < |r| - 1 ensures !(r[i] == '-' && r[i + 1] == '-') {
      assert r[i] == w[lo + i] && r[i + 1] == w[lo + i + 1];
    }
    assert |w| >= 2 ==> !(w[0] == '-' && w[1] == '-') && !(w[|w| - 2] == '-' && w[|w| - 1] == '-');
  }

  // ------------------------------------------------------------- pagination

  /** `parseInt(x) || d`: a missing or unparsable value, or 0, falls back to `d`. */
  function OrDefault(x: Option<int>, d: int): int {
    if x.Some? && x.value != 0 then x.value else d
  }

  /** `validatePagination` on the results of `parseInt` (None for NaN). */
  function ValidatePagination(page: Option<int>, limit: Option<int>): (r: (int, int))
    ensures r.0 >= 1 && 1 <= r.1 <= 100
    ensures page.None? || page == Some(0) ==> r.0 == 1
    ensures limit.None? || limit == Some(0) ==> r.1 == 10
    ensures page.Some? && page.value >= 1 ==> r.0 == page.value
    ensures limit.Some? && 1 <= limit.value <= 100 ==> r.1 == limit.value
    ensures page.Some? && page.value < 0 ==> r.0 == 1
    ensures limit.Some? && limit.value < 0 ==> r.1 == 1
    ensures limit.Some? && limit.value > 100 ==> r.1 == 100
  {
    var p := OrDefault(page, 1);
    var l := OrDefault(limit, 10);
    (if p < 1 then 1 else p, if l < 1 then 1 else if l > 100 then 100 else l)
  }

  /** Clamping is idempotent: validated parameters validate to themselves. */
  lemma {:induction false} PaginationIdempotent(page: Option<int>, limit: Option<int>)
    ensures var r := ValidatePagination(page, limit);
            ValidatePagination(Some(r.0), Some(r.1)) == r
  {
  }

  // ---------------------------------------------------- bounded text checks

  /**
   * The shared shape of `validateSearchQuery`, `validateCategoryName`,
   * `validatePostContent` and `validateCommentContent`: a non-empty string
   * is required, and its trimmed form must have between `lo` and `hi`
   * characters; the trimmed form is returned.
   */
  function CheckTrimmed(v: JsValue, lo: nat, hi: nat): (r: Result<string, Failure>)
    ensures r.Ok? <==> IsNonEmptyString(v) && lo <= |Trim(v.s)| <= hi
    ensures r.Ok? ==> r.value == Trim(v.s)
    ensures r.Err? ==> r.error.status == BadRequest
    ensures r.Err? ==> (r.error.reason == Required <==> !IsNonEmptyString(v))
    ensures r.Err? && IsNonEmptyString(v) ==>
              (r.error.reason == TooShort <==> |Trim(v.s)| < lo) &&
              (r.error.reason == TooLong <==> lo <= |Trim(v.s)| && |Trim(v.s)| > hi)
  {
    if !IsNonEmptyString(v) then Err(Failure(BadRequest, Required))
    else
      var t := Trim(v.s);
      if |t| < lo then Err(Failure(BadRequest, TooShort))
      else if |t| > hi then Err(Failure(BadRequest, TooLong))
      else Ok(t)
  }

  /** `validateSearchQuery`: the trimmed query, of 2 to 100 characters. */
  function ValidateSearchQuery(v: JsValue): (r: Result<string, Failure>)
    ensures r.Ok? <==> IsNonEmptyString(v) && 2 <= |Trim(v.s)| <= 100
    ensures r.Ok? ==> r.value == Trim(v.s) && 2 <= |r.value| <= 100
    ensures r.Err? ==> r.error.status == BadRequest
  {
    CheckTrimmed(v, 2, 100)
  }

  /** `validateCategoryName`: the trimmed name, of 2 to 50 characters. */
  function ValidateCategoryName(v: JsValue): (r: Result<string, Failure>)
    ensures r.Ok? <==> IsNonEmptyString(v) && 2 <= |Trim(v.s)| <= 50
    ensures r.Ok? ==> r.value == Trim(v.s) && 2 <= |r.value| <= 50
    ensures r.Err? ==> r.error.status == BadRequest
  {
    CheckTrimmed(v, 2, 50)
  }

  /**
   * `validatePostContent`: the trimmed content must have 10 to 50000
   * characters; the result is the HTML sanitiser `sanitize` applied to it.
   */
  function ValidatePostContent(v: JsValue, sanitize: string -> string): (r: Result<string, Failure>)
    ensures r.Ok? <==> IsNonEmptyString(v) && 10 <= |Trim(v.s)| <= 50000
    ensures r.Ok? ==> r.value == sanitize(Trim(v.s))
    ensures r.Err? ==> r.error.status == BadRequest
  {
    match CheckTrimmed(v, 10, 50000)
    case Err(e) => Err(e)
    case Ok(t) => Ok(sanitize(t))
  }

  /**
   * `validateCommentContent`: the trimmed content must have 1 to 1000
   * characters; the result is the HTML sanitiser `sanitize` applied to it.
   */
  function ValidateCommentContent(v: JsValue, sanitize: string -> string): (r: Result<string, Failure>)
    ensures r.Ok? <==> IsNonEmptyString(v) && 1 <= |Trim(v.s)| <= 1000
    ensures r.Ok? ==> r.value == sanitize(Trim(v.s))
    ensures r.Err? ==> r.error.status == BadRequest
  {
    match CheckTrimmed(v, 1, 1000)
    case Err(e) => Err(e)
    case Ok(t) => Ok(sanitize(t))
  }

  /** A value a bounded check returned passes the same check again, unchanged. */
  lemma {:induction false} CheckTrimmedIdempotent(v: JsValue, lo: nat, hi: nat)
    requires lo >= 1 && CheckTrimmed(v, lo, hi).Ok?
    ensures CheckTrimmed(Str(CheckTrimmed(v, lo, hi).value), lo, hi) == CheckTrimmed(v, lo, hi)
  {
    TrimTwice(v.s);
  }

  // ------------------------------------------------------------ file upload

  datatype UploadedFile = UploadedFile(mimetype: string, size: int)

  const DefaultAllowedTypes: seq<string> := ["image/jpeg", "image/png", "image/gif"]
  const DefaultMaxSize: int := 5 * 1024 * 1024

  /** `validateFileUpload(file, allowedTypes, maxSize)`. */
  function ValidateFileUpload(file: Option<UploadedFile>, allowedTypes: seq<string>, maxSize: int)
    : (r: Result<bool, Failure>)
    ensures r.Ok? <==> file.Some? && file.value.mimetype in allowedTypes && file.value.size <= maxSize
    ensures r.Ok? ==> r.value
    ensures r.Err? ==> r.error.status == BadRequest
    ensures r.Err? ==> (r.error.reason == FileRequired <==> file.None?)
    ensures r.Err? && file.Some? ==> (r.error.reason == FileTypeNotAllowed <==> file.value.mimetype !in allowedTypes)
  {
    if file.None? then Err(Failure(BadRequest, FileRequired))
    else if file.value.mimetype !in allowedTypes then Err(Failure(BadRequest, FileTypeNotAllowed))
    else if file.value.size > maxSize then Err(Failure(BadRequest, FileTooLarge))
    else Ok(true)
  }

  /** With the default arguments: JPEG, PNG or GIF images of at most 5 MiB. */
  lemma {:induction false} DefaultUploadRule(f: UploadedFile)
    ensures ValidateFileUpload(Some(f), DefaultAllowedTypes, DefaultMaxSize).Ok? <==>
              (f.mimetype == "image/jpeg" || f.mimetype == "image/png" || f.mimetype == "image/gif")
              && f.size <= 5242880
  {
  }

  // ------------------------------------------------------------ sanitising

  predicate NotAngle(c: char) { c != '<' && c != '>' }

  /** `sanitizeUserInput`: strings lose every '<' and '>' and are trimmed; other values pass through. */
  function SanitizeUserInput(v: JsValue): (r: JsValue)
    ensures v.NonString? ==> r == v
    ensures v.Str? ==> r.Str?
    ensures r.Str? ==> forall i :: 0 <= i < |r.s| ==> r.s[i] != '<' && r.s[i] != '>'
    ensures r.Str? ==> r.s == [] || (!IsSpace(r.s[0]) && !IsSpace(r.s[|r.s| - 1]))
    ensures v.Str? ==> forall i :: 0 <= i < |r.s| ==> r.s[i] in v.s
    ensures v.Str? ==> r.s == Trim(Filter(v.s, NotAngle))
  {
    match v
    case NonString(_) => v
    case Str(s) =>
      var stripped := Filter(s, NotAngle);
      TrimKeeps(stripped);
      Str(Trim(stripped))
  }

  /** Sanitising is idempotent. */
  lemma {:induction false} SanitizeIdempotent(v: JsValue)
    ensures SanitizeUserInput(SanitizeUserInput(v)) == SanitizeUserInput(v)
  {
    if v.Str? {
      var r := SanitizeUserInput(v).s;
      assert Filter(r, NotAngle) == r;
      TrimNoop(r);
    }
  }
}
