/**
 The slug validators and nameToSlug. The regular expressions are kept as such, with their own meaning, and each is
 tied to a plain description of what it accepts.
 */
module Slugs {
  import opened Sequences

  // ---------- Regular expressions ----------

  datatype Regex =
    | Epsilon
    | Class(members: set<char>)
    | Then(first: Regex, second: Regex)
    | Either(left: Regex, right: Regex)
    | Star(body: Regex)
    | Ahead(condition: Regex)  // (?=condition)

  function Plus(r: Regex): Regex {
    Then(r, Star(r))
  }

  // r{0,n}
  function UpTo(r: Regex, n: nat): Regex {
    if n == 0 then Epsilon else Either(Epsilon, Then(r, UpTo(r, n - 1)))
  }

  // r matches the part of s from i up to j.
  ghost predicate Matches(r: Regex, s: string, i: nat, j: nat)
    requires i <= j <= |s|
    decreases r, j - i
  {
    match r
    case Epsilon => i == j
    case Class(members) => j == i + 1 && s[i] in members
    case Then(a, b) => exists k :: i <= k <= j && Matches(a, s, i, k) && Matches(b, s, k, j)
    case Either(a, b) => Matches(a, s, i, j) || Matches(b, s, i, j)
    case Star(a) => i == j || exists k :: i < k <= j && Matches(a, s, i, k) && Matches(r, s, k, j)
    case Ahead(a) => i == j && exists k :: i <= k <= |s| && Matches(a, s, i, k)
  }

  ghost predicate MatchesAll(r: Regex, s: string) {
    Matches(r, s, 0, |s|)
  }

  function Alphabet(r: Regex): set<char> {
    match r
    case Epsilon => {}
    case Class(members) => members
    case Then(a, b) => Alphabet(a) + Alphabet(b)
    case Either(a, b) => Alphabet(a) + Alphabet(b)
    case Star(a) => Alphabet(a)
    case Ahead(_) => {}
  }

  lemma {:induction false} MatchStaysInAlphabet(r: Regex, s: string, i: nat, j: nat)
    requires i <= j <= |s| && Matches(r, s, i, j)
    ensures forall k :: i <= k < j ==> s[k] in Alphabet(r)
    decreases r, j - i
  {
    match r
    case Epsilon =>
    case Class(_) =>
    case Ahead(_) =>
    case Then(a, b) =>
      var k :| i <= k <= j && Matches(a, s, i, k) && Matches(b, s, k, j);
      MatchStaysInAlphabet(a, s, i, k);
      MatchStaysInAlphabet(b, s, k, j);
    case Either(a, b) =>
      if Matches(a, s, i, j) {
        MatchStaysInAlphabet(a, s, i, j);
      } else {
        MatchStaysInAlphabet(b, s, i, j);
      }
    case Star(a) =>
      if i != j {
        var k :| i < k <= j && Matches(a, s, i, k) && Matches(r, s, k, j);
        MatchStaysInAlphabet(a, s, i, k);
        MatchStaysInAlphabet(r, s, k, j);
      }
  }

  // ---------- The validators ----------

  const LOWER_ALNUM: set<char> := set c: char | 'a' <= c <= 'z' || '0' <= c <= '9'
  const ALNUM: set<char> := set c: char | 'a' <= c <= 'z' || 'A' <= c <= 'Z' || '0' <= c <= '9'

  const UNDERSCORE: set<char> := {'_'}
  const DASH: set<char> := {'-'}
  const DOT_OR_UNDERSCORE: set<char> := {'.', '_'}

  // /^[a-z0-9]+(?:(?:(?:[._]|__|[-]*)[a-z0-9]+)+)?$/
  function Separator(): Regex {
    Either(Class(DOT_OR_UNDERSCORE), Either(Then(Class(UNDERSCORE), Class(UNDERSCORE)), Star(Class(DASH))))
  }

  function Segment(): Regex {
    Then(Separator(), Plus(Class(LOWER_ALNUM)))
  }

  function PackageSlugRegex(): Regex {
    Then(Plus(Class(LOWER_ALNUM)), Either(Epsilon, Plus(Segment())))
  }

  // /^[a-z\d](?:[a-z\d]|-(?=[a-z\d])){0,38}$/i
  function CatalogSlugItem(): Regex {
    Either(Class(ALNUM), Then(Class(DASH), Ahead(Class(ALNUM))))
  }

  function CatalogSlugRegex(): Regex {
    Then(Class(ALNUM), UpTo(CatalogSlugItem(), 38))
  }

  datatype SlugCheck = SlugRequired | SlugTooLong | SlugInvalid | SlugValid

  ghost function CheckSlug(slug: Option<string>, maxLength: nat, regex: Regex): SlugCheck {
    if slug.None? || |slug.value| == 0 then SlugRequired
    else if |slug.value| > maxLength then SlugTooLong
    else if !MatchesAll(regex, slug.value) then SlugInvalid
    else SlugValid
  }

  ghost function PackageSlugValid(slug: Option<string>): SlugCheck {
    CheckSlug(slug, 38, PackageSlugRegex())
  }

  ghost function CatalogSlugValid(slug: Option<string>): SlugCheck {
    CheckSlug(slug, 38, CatalogSlugRegex())
  }

  // ---------- What the catalog expression accepts ----------

  // Letters and digits, and dashes only where a letter or digit follows.
  predicate CatalogCharacter(s: string, k: nat)
    requires k < |s|
  {
    s[k] in ALNUM || (s[k] == '-' && k + 1 < |s| && s[k + 1] in ALNUM)
  }

  lemma ItemMatches(s: string, i: nat, j: nat)
    requires i <= j <= |s|
    ensures Matches(CatalogSlugItem(), s, i, j) <==> j == i + 1 && CatalogCharacter(s, i)
  {
    var ahead := Ahead(Class(ALNUM));
    var dash := Then(Class(DASH), ahead);
    forall k | i <= k <= j ensures Matches(ahead, s, k, j) <==> k == j && j < |s| && s[j] in ALNUM {
      if j < |s| && s[j] in ALNUM {
        assert Matches(Class(ALNUM), s, j, j + 1);
      }
    }
    assert Matches(dash, s, i, j)
      <==> exists k :: i <= k <= j && Matches(Class(DASH), s, i, k) && Matches(ahead, s, k, j);
    assert j == i + 1 && s[i] == '-' ==> Matches(Class(DASH), s, i, j);
    assert Matches(CatalogSlugItem(), s, i, j) <==> Matches(Class(ALNUM), s, i, j) || Matches(dash, s, i, j);
  }

  lemma {:induction false} ItemsMatch(s: string, i: nat, n: nat)
    requires i <= |s|
    ensures Matches(UpTo(CatalogSlugItem(), n), s, i, |s|)
       <==> |s| - i <= n && forall k :: i <= k < |s| ==> CatalogCharacter(s, k)
    decreases n
  {
    if n > 0 && i < |s| {
      var rest := UpTo(CatalogSlugItem(), n - 1);
      assert UpTo(CatalogSlugItem(), n) == Either(Epsilon, Then(CatalogSlugItem(), rest));
      assert !Matches(Epsilon, s, i, |s|);
      forall k | i <= k <= |s|
        ensures Matches(CatalogSlugItem(), s, i, k) <==> k == i + 1 && CatalogCharacter(s, i)
      {
        ItemMatches(s, i, k);
      }
      ItemsMatch(s, i + 1, n - 1);
      assert Matches(Then(CatalogSlugItem(), rest), s, i, |s|)
        <==> CatalogCharacter(s, i) && Matches(rest, s, i + 1, |s|);
    }
  }

  lemma HeadAndItemsMatch(s: string, n: nat)
    ensures Matches(Then(Class(ALNUM), UpTo(CatalogSlugItem(), n)), s, 0, |s|)
       <==> 1 <= |s| <= n + 1 && s[0] in ALNUM && forall k :: 1 <= k < |s| ==> CatalogCharacter(s, k)
  {
    var items := UpTo(CatalogSlugItem(), n);
    assert Matches(Then(Class(ALNUM), items), s, 0, |s|)
      <==> exists k :: 0 <= k <= |s| && Matches(Class(ALNUM), s, 0, k) && Matches(items, s, k, |s|);
    if |s| >= 1 {
      ItemsMatch(s, 1, n);
      assert forall k | 0 <= k <= |s| :: Matches(Class(ALNUM), s, 0, k) <==> k == 1 && s[0] in ALNUM;
    }
  }

  lemma CatalogSlugLanguage(s: string)
    ensures MatchesAll(CatalogSlugRegex(), s)
       <==> 1 <= |s| <= 39 && s[0] in ALNUM && forall k :: 1 <= k < |s| ==> CatalogCharacter(s, k)
  {
    HeadAndItemsMatch(s, 38);
  }

  lemma ValidCatalogSlug(s: string)
    ensures CatalogSlugValid(Some(s)) == SlugValid
       <==> 1 <= |s| <= 38 && s[0] in ALNUM && forall k :: 1 <= k < |s| ==> CatalogCharacter(s, k)
  {
    CatalogSlugLanguage(s);
  }

  // ---------- What the package expression accepts ----------

  lemma {:induction false} DashesMatch(s: string, i: nat, j: nat)
    requires i <= j <= |s| && forall k :: i <= k < j ==> s[k] == '-'
    ensures Matches(Star(Class(DASH)), s, i, j)
    decreases j - i
  {
    if i < j {
      DashesMatch(s, i + 1, j);
      assert Matches(Class(DASH), s, i, i + 1);
    }
  }

  lemma OneMatches(s: string, i: nat)
    requires i < |s| && s[i] in LOWER_ALNUM
    ensures Matches(Plus(Class(LOWER_ALNUM)), s, i, i + 1)
  {
    assert Matches(Class(LOWER_ALNUM), s, i, i + 1);
    assert Matches(Star(Class(LOWER_ALNUM)), s, i + 1, i + 1);
  }

  // Letters, digits, dots, underscores and dashes, beginning and ending with a letter or digit.
  predicate SlugText(s: string) {
    s != [] && s[0] in LOWER_ALNUM && s[|s| - 1] in LOWER_ALNUM
    && forall k :: 0 <= k < |s| ==> s[k] in LOWER_ALNUM || s[k] == '.' || s[k] == '_' || s[k] == '-'
  }

  // At k two different separators or two dots meet, or three underscores begin.
  predicate MixedAt(s: string, k: nat)
    requires k < |s|
  {
    (k + 1 < |s| && s[k] !in LOWER_ALNUM && s[k + 1] !in LOWER_ALNUM && (s[k] != s[k + 1] || s[k] == '.'))
    || (k + 2 < |s| && s[k] == s[k + 1] == s[k + 2] == '_')
  }

  lemma {:induction false} NextAlnum(s: string, i: nat) returns (p: nat)
    requires i < |s| && s[|s| - 1] in LOWER_ALNUM
    ensures i <= p < |s| && s[p] in LOWER_ALNUM && forall k :: i <= k < p ==> s[k] !in LOWER_ALNUM
    decreases |s| - i
  {
    if s[i] in LOWER_ALNUM {
      p := i;
    } else {
      p := NextAlnum(s, i + 1);
    }
  }

  // A run without a mixture is all dashes, one dot, or one or two underscores.
  lemma {:induction false} PureRun(s: string, i: nat, p: nat)
    requires SlugText(s) && i <= p < |s| && forall k :: i <= k < p ==> s[k] !in LOWER_ALNUM && !MixedAt(s, k)
    ensures forall k :: i <= k < p ==> s[k] == s[i]
    ensures i < p && s[i] == '_' ==> p <= i + 2
    ensures i < p && s[i] == '.' ==> p == i + 1
    decreases p - i
  {
    if i + 1 < p {
      PureRun(s, i + 1, p);
      assert !MixedAt(s, i);
    }
  }

  lemma SeparatorMatches(s: string, i: nat, p: nat)
    requires SlugText(s) && i <= p < |s| && forall k :: i <= k < p ==> s[k] !in LOWER_ALNUM && !MixedAt(s, k)
    ensures Matches(Separator(), s, i, p)
  {
    PureRun(s, i, p);
    var two := Then(Class(UNDERSCORE), Class(UNDERSCORE));
    if i < p && s[i] != '-' {
      if p == i + 1 {
        assert Matches(Class(DOT_OR_UNDERSCORE), s, i, p);
      } else {
        assert Matches(Class(UNDERSCORE), s, i, i + 1) && Matches(Class(UNDERSCORE), s, i + 1, p);
        assert Matches(two, s, i, p);
        assert Matches(Either(two, Star(Class(DASH))), s, i, p);
      }
    } else {
      DashesMatch(s, i, p);
      assert Matches(Either(two, Star(Class(DASH))), s, i, p);
    }
  }

  // The separators up to the next letter or digit, and that character, are one segment; then the next one.
  lemma {:induction false} SegmentsMatch(s: string, i: nat)
    requires SlugText(s) && i < |s| && forall k :: i <= k < |s| ==> !MixedAt(s, k)
    ensures exists p :: i < p <= |s| && Matches(Segment(), s, i, p) && Matches(Star(Segment()), s, p, |s|)
    decreases |s| - i
  {
    var p := NextAlnum(s, i);
    SeparatorMatches(s, i, p);
    OneMatches(s, p);
    assert Matches(Segment(), s, i, p + 1);
    if p + 1 < |s| {
      SegmentsMatch(s, p + 1);
    }
    assert Matches(Star(Segment()), s, p + 1, |s|);
  }

  lemma UnmixedMatches(s: string)
    requires SlugText(s) && forall k :: 0 <= k < |s| ==> !MixedAt(s, k)
    ensures MatchesAll(PackageSlugRegex(), s)
  {
    OneMatches(s, 0);
    if |s| > 1 {
      SegmentsMatch(s, 1);
      assert Matches(Plus(Segment()), s, 1, |s|);
    } else {
      assert Matches(Epsilon, s, 1, 1);
    }
    assert Matches(Either(Epsilon, Plus(Segment())), s, 1, |s|);
  }

  // The other direction: no part that the expression matches contains a mixture.

  lemma {:induction false} StarOfClass(members: set<char>, s: string, i: nat, j: nat)
    requires i <= j <= |s| && Matches(Star(Class(members)), s, i, j)
    ensures forall k :: i <= k < j ==> s[k] in members
  {
    assert Alphabet(Star(Class(members))) == members;
    MatchStaysInAlphabet(Star(Class(members)), s, i, j);
  }

  lemma PlusOfClass(members: set<char>, s: string, i: nat, j: nat)
    requires i <= j <= |s| && Matches(Plus(Class(members)), s, i, j)
    ensures i < j && forall k :: i <= k < j ==> s[k] in members
  {
    assert Alphabet(Star(Class(members))) == members;
    assert Alphabet(Plus(Class(members))) == members + members == members;
    MatchStaysInAlphabet(Plus(Class(members)), s, i, j);
    var k :| i <= k <= j && Matches(Class(members), s, i, k) && Matches(Star(Class(members)), s, k, j);
  }

  lemma TwoParts(a: Regex, b: Regex, s: string, i: nat, j: nat) returns (k: nat)
    requires i <= j <= |s| && Matches(Then(a, b), s, i, j)
    ensures i <= k <= j && Matches(a, s, i, k) && Matches(b, s, k, j)
  {
    k :| i <= k <= j && Matches(a, s, i, k) && Matches(b, s, k, j);
  }

  // A separator is one character, two underscores, or dashes only.
  lemma SeparatorText(s: string, i: nat, j: nat)
    requires i <= j <= |s| && Matches(Separator(), s, i, j)
    ensures j == i + 1 || (j == i + 2 && s[i] == s[i + 1] == '_') || forall k :: i <= k < j ==> s[k] == '-'
  {
    var two := Then(Class(UNDERSCORE), Class(UNDERSCORE));
    if Matches(Class(DOT_OR_UNDERSCORE), s, i, j) {
    } else if Matches(two, s, i, j) {
      var k := TwoParts(Class(UNDERSCORE), Class(UNDERSCORE), s, i, j);
    } else {
      assert Matches(Either(two, Star(Class(DASH))), s, i, j);
      StarOfClass(DASH, s, i, j);
    }
  }

  lemma SegmentUnmixed(s: string, i: nat, j: nat)
    requires i <= j <= |s| && Matches(Segment(), s, i, j)
    ensures i < j && s[j - 1] in LOWER_ALNUM
    ensures forall k :: i <= k < j ==> !MixedAt(s, k)
  {
    var m :| i <= m <= j && Matches(Separator(), s, i, m) && Matches(Plus(Class(LOWER_ALNUM)), s, m, j);
    SeparatorText(s, i, m);
    PlusOfClass(LOWER_ALNUM, s, m, j);
  }

  lemma {:induction false} SegmentsUnmixed(s: string, i: nat)
    requires i <= |s| && Matches(Star(Segment()), s, i, |s|)
    ensures i < |s| ==> s[|s| - 1] in LOWER_ALNUM
    ensures forall k :: i <= k < |s| ==> !MixedAt(s, k)
    decreases |s| - i
  {
    if i < |s| {
      var j :| i < j <= |s| && Matches(Segment(), s, i, j) && Matches(Star(Segment()), s, j, |s|);
      SegmentUnmixed(s, i, j);
      SegmentsUnmixed(s, j);
    }
  }

  lemma MatchedIsUnmixed(s: string)
    requires MatchesAll(PackageSlugRegex(), s)
    ensures s != [] && s[0] in LOWER_ALNUM && s[|s| - 1] in LOWER_ALNUM
    ensures forall k :: 0 <= k < |s| ==> !MixedAt(s, k)
  {
    var tail := Either(Epsilon, Plus(Segment()));
    assert Matches(Then(Plus(Class(LOWER_ALNUM)), tail), s, 0, |s|);
    var i :| 0 <= i <= |s| && Matches(Plus(Class(LOWER_ALNUM)), s, 0, i) && Matches(tail, s, i, |s|);
    PlusOfClass(LOWER_ALNUM, s, 0, i);
    if i < |s| {
      assert Matches(tail, s, i, |s|) <==> Matches(Epsilon, s, i, |s|) || Matches(Plus(Segment()), s, i, |s|);
      assert Matches(Then(Segment(), Star(Segment())), s, i, |s|);
      var j :| i <= j <= |s| && Matches(Segment(), s, i, j) && Matches(Star(Segment()), s, j, |s|);
      SegmentUnmixed(s, i, j);
      SegmentsUnmixed(s, j);
    }
  }

  lemma {:induction false} MatchedCharacters(s: string)
    requires MatchesAll(PackageSlugRegex(), s)
    ensures forall k :: 0 <= k < |s| ==> s[k] in LOWER_ALNUM || s[k] == '.' || s[k] == '_' || s[k] == '-'
  {
    MatchStaysInAlphabet(PackageSlugRegex(), s, 0, |s|);
    var allowed := LOWER_ALNUM + DOT_OR_UNDERSCORE + DASH;
    assert Alphabet(Then(Class(UNDERSCORE), Class(UNDERSCORE))) == UNDERSCORE + UNDERSCORE <= allowed;
    assert Alphabet(Separator()) <= allowed;
    assert Alphabet(Plus(Class(LOWER_ALNUM))) <= allowed;
    assert Alphabet(Plus(Segment())) <= allowed;
  }

  // The package expression accepts lower-case letters, digits, dots, underscores and dashes, with a letter or digit at
  // both ends, and between two of those one dot, one or two underscores, or any number of dashes.
  lemma PackageSlugLanguage(s: string)
    ensures MatchesAll(PackageSlugRegex(), s) <==> SlugText(s) && forall k :: 0 <= k < |s| ==> !MixedAt(s, k)
  {
    if MatchesAll(PackageSlugRegex(), s) {
      MatchedIsUnmixed(s);
      MatchedCharacters(s);
    } else if SlugText(s) && forall k :: 0 <= k < |s| ==> !MixedAt(s, k) {
      UnmixedMatches(s);
    }
  }

  // In which order the validators find fault.
  lemma ValidatorsAnswer(slug: Option<string>)
    ensures var (package, catalog) := (PackageSlugValid(slug), CatalogSlugValid(slug));
      if slug == None || slug == Some("") then package == catalog == SlugRequired
      else if |slug.value| > 38 then package == catalog == SlugTooLong
      else
        var s := slug.value;
        package == (if SlugText(s) && forall k :: 0 <= k < |s| ==> !MixedAt(s, k) then SlugValid else SlugInvalid)
        && catalog == (if s[0] in ALNUM && forall k :: 1 <= k < |s| ==> CatalogCharacter(s, k) then SlugValid
                       else SlugInvalid)
  {
    if slug.Some? && 0 < |slug.value| <= 38 {
      PackageSlugLanguage(slug.value);
      CatalogSlugLanguage(slug.value);
    }
  }

  // A slug that either validator accepts has no slash.
  lemma ValidSlugHasNoSlash(slug: string)
    requires PackageSlugValid(Some(slug)) == SlugValid || CatalogSlugValid(Some(slug)) == SlugValid
    ensures '/' !in slug
  {
    if MatchesAll(PackageSlugRegex(), slug) {
      MatchStaysInAlphabet(PackageSlugRegex(), slug, 0, |slug|);
      assert '/' !in Alphabet(Plus(Class(LOWER_ALNUM)));
      assert '/' !in Alphabet(Star(Class(DASH))) && '/' !in Alphabet(Then(Class(UNDERSCORE), Class(UNDERSCORE)));
      assert '/' !in Alphabet(Separator()) && '/' !in Alphabet(Segment()) && '/' !in Alphabet(Star(Segment()));
      assert '/' !in Alphabet(Plus(Segment()));
    } else {
      ValidCatalogSlug(slug);
      forall k | 0 <= k < |slug| ensures slug[k] != '/' {
        assert k == 0 || CatalogCharacter(slug, k);
      }
    }
  }

  // ---------- nameToSlug ----------

  function LowerChar(c: char): char {
    if 'A' <= c <= 'Z' then c - 'A' + 'a' else c
  }

  function ToLowerCase(s: string): string {
    seq(|s|, i requires 0 <= i < |s| => LowerChar(s[i]))
  }

  const CAPITALS := "ABCDEFGHIJKLMNOPQRSTUVWXYZ"
  const SMALL_LETTERS := "abcdefghijklmnopqrstuvwxyz"

  // Each capital becomes the small letter at its place in the alphabet, and every other character stays.
  lemma LowerCaseLetters(s: string, k: nat)
    requires k < |s|
    ensures |ToLowerCase(s)| == |s|
    ensures s[k] !in CAPITALS ==> ToLowerCase(s)[k] == s[k]
    ensures forall i :: 0 <= i < 26 && s[k] == CAPITALS[i] ==> ToLowerCase(s)[k] == SMALL_LETTERS[i]
  {
    forall i | 0 <= i < 26 ensures CAPITALS[i] == 'A' + i as char && SMALL_LETTERS[i] == 'a' + i as char {
    }
    if 'A' <= s[k] <= 'Z' {
      assert CAPITALS[s[k] as int - 'A' as int] == s[k];
    }
  }

  predicate WordCharacter(c: char) {
    'a' <= c <= 'z' || 'A' <= c <= 'Z' || '0' <= c <= '9' || c == '_'
  }

  // replace(/\W+/g, "-"): every maximal run of other characters becomes one dash.
  function ReplaceNonWords(s: string, inRun: bool): string {
    if s == [] then []
    else if WordCharacter(s[0]) then [s[0]] + ReplaceNonWords(s[1..], false)
    else (if inRun then [] else ['-']) + ReplaceNonWords(s[1..], true)
  }

  predicate Stripped(c: char) {
    c == '-' || c == '|' || c == '_'
  }

  // replace(/^[-|_]+/g, "")
  function StripStart(s: string): string {
    if s != [] && Stripped(s[0]) then StripStart(s[1..]) else s
  }

  // replace(/[-|_]+$/g, "")
  function StripEnd(s: string): string {
    if s != [] && Stripped(s[|s| - 1]) then StripEnd(s[..|s| - 1]) else s
  }

  function Strip(s: string): string {
    StripEnd(StripStart(s))
  }

  function Substr38(s: string): string {
    if |s| <= 38 then s else s[..38]
  }

  function NameToSlug(name: string): string {
    Strip(Substr38(Strip(ReplaceNonWords(ToLowerCase(name), false))))
  }

  // Lower-case word characters and single dashes.
  predicate Plain(s: string) {
    (forall k :: 0 <= k < |s| ==> s[k] in LOWER_ALNUM || s[k] == '_' || s[k] == '-')
    && (forall k :: 0 < k < |s| ==> s[k - 1] != '-' || s[k] != '-')
  }

  predicate SlugShape(s: string) {
    Plain(s) && |s| <= 38 && (s != [] ==> !Stripped(s[0]) && !Stripped(s[|s| - 1]))
  }

  lemma {:induction false} ReplacedIsPlain(s: string, inRun: bool)
    requires forall k :: 0 <= k < |s| ==> !('A' <= s[k] <= 'Z')
    ensures Plain(ReplaceNonWords(s, inRun))
    ensures var r := ReplaceNonWords(s, inRun); inRun && r != [] ==> r[0] != '-'
    ensures '_' !in s ==> '_' !in ReplaceNonWords(s, inRun)
    decreases |s|
  {
    if s != [] {
      ReplacedIsPlain(s[1..], !WordCharacter(s[0]));
    }
  }

  lemma StrippedIsPart(s: string)
    ensures exists i, j :: 0 <= i <= j <= |s| && Strip(s) == s[i..j]
    ensures Strip(s) != [] ==> !Stripped(Strip(s)[0]) && !Stripped(Strip(s)[|Strip(s)| - 1])
  {
    hide StripStart, StripEnd;
    var i := StripStartIsPart(s);
    var start := StripStart(s);
    var n := StripEndIsPart(start);
    assert Strip(s) == start[..n] == s[i..i + n];
    if n > 0 {
      assert start[..n][0] == start[0];
    }
  }

  lemma {:induction false} StripStartIsPart(s: string) returns (i: nat)
    ensures i <= |s| && StripStart(s) == s[i..]
    ensures StripStart(s) != [] ==> !Stripped(StripStart(s)[0])
  {
    if s != [] && Stripped(s[0]) {
      i := StripStartIsPart(s[1..]);
      assert s[1..][i..] == s[i + 1..];
      i := i + 1;
    } else {
      i := 0;
    }
  }

  lemma {:induction false} StripEndIsPart(s: string) returns (n: nat)
    ensures n <= |s| && StripEnd(s) == s[..n] && forall k :: n <= k < |s| ==> Stripped(s[k])
    ensures StripEnd(s) != [] ==> !Stripped(StripEnd(s)[|StripEnd(s)| - 1])
  {
    if s != [] && Stripped(s[|s| - 1]) {
      n := StripEndIsPart(s[..|s| - 1]);
      assert s[..|s| - 1][..n] == s[..n];
    } else {
      n := |s|;
    }
  }

  lemma PartIsPlain(s: string, part: string)
    requires Plain(s) && exists i, j :: 0 <= i <= j <= |s| && part == s[i..j]
    ensures Plain(part)
    ensures '_' !in s ==> '_' !in part
    ensures |part| <= |s|
  {
    var i, j :| 0 <= i <= j <= |s| && part == s[i..j];
    forall k | 0 < k < |part| ensures part[k - 1] != '-' || part[k] != '-' {
      assert part[k - 1] == s[i + k - 1] && part[k] == s[i + k];
    }
  }

  lemma SlugHasShape(name: string)
    ensures SlugShape(NameToSlug(name))
    ensures '_' !in name ==> '_' !in NameToSlug(name)
  {
    hide ReplaceNonWords, StripStart, StripEnd, Plain, Stripped;
    var lower := ToLowerCase(name);
    assert '_' !in name ==> '_' !in lower;
    var dashed := ReplaceNonWords(lower, false);
    ReplacedIsPlain(lower, false);
    StrippedIsPart(dashed);
    PartIsPlain(dashed, Strip(dashed));
    var short := Substr38(Strip(dashed));
    assert short == Strip(dashed)[0..|short|];
    PartIsPlain(Strip(dashed), short);
    StrippedIsPart(short);
    PartIsPlain(short, Strip(short));
  }

  lemma {:induction false} PlainIsUnreplaced(s: string, inRun: bool)
    requires Plain(s) && (inRun && s != [] ==> s[0] != '-')
    ensures ReplaceNonWords(s, inRun) == s
    decreases |s|
  {
    if s != [] {
      assert Plain(s[1..]) by { PartIsPlain(s, s[1..|s|]); }
      PlainIsUnreplaced(s[1..], !WordCharacter(s[0]));
      assert s == [s[0]] + s[1..];
    }
  }

  // The word characters of a text, in order.
  function Words(s: string): string {
    if s == [] then [] else (if WordCharacter(s[0]) then [s[0]] else []) + Words(s[1..])
  }

  lemma {:induction false} ReplacementKeepsWords(s: string, inRun: bool)
    ensures Words(ReplaceNonWords(s, inRun)) == Words(s)
    decreases |s|
  {
    if s != [] {
      var rest := ReplaceNonWords(s[1..], !WordCharacter(s[0]));
      ReplacementKeepsWords(s[1..], !WordCharacter(s[0]));
      var replaced := ReplaceNonWords(s, inRun);
      if WordCharacter(s[0]) || !inRun {
        assert replaced[1..] == rest;
      } else {
        assert replaced == rest;
      }
    }
  }

  // A name that fits loses nothing but its outer dashes and underscores: the suggestion is the replaced name,
  // stripped, and the replaced name has the name's word characters in order.
  lemma ShortNamesKeepTheirWords(name: string)
    requires |name| <= 38
    ensures NameToSlug(name) == Strip(ReplaceNonWords(ToLowerCase(name), false))
    ensures Words(ReplaceNonWords(ToLowerCase(name), false)) == Words(ToLowerCase(name))
  {
    var dashed := ReplaceNonWords(ToLowerCase(name), false);
    ReplacementKeepsWords(ToLowerCase(name), false);
    ReplacementIsNotLonger(ToLowerCase(name), false);
    StrippedIsPart(dashed);
    StripTwice(dashed);
  }

  lemma {:induction false} ReplacementIsNotLonger(s: string, inRun: bool)
    ensures |ReplaceNonWords(s, inRun)| <= |s|
    decreases |s|
  {
    if s != [] {
      ReplacementIsNotLonger(s[1..], !WordCharacter(s[0]));
    }
  }

  lemma StripTwice(s: string)
    ensures Strip(Strip(s)) == Strip(s)
  {
    StrippedIsPart(s);
  }

  // The suggestion has at most 38 characters, and suggesting again changes nothing.
  lemma NameToSlugIdempotent(name: string)
    ensures |NameToSlug(name)| <= 38
    ensures NameToSlug(NameToSlug(name)) == NameToSlug(name)
  {
    SlugHasShape(name);
    var slug := NameToSlug(name);
    assert ToLowerCase(slug) == slug;
    PlainIsUnreplaced(slug, false);
  }
}
