/**
 Which part of a name survives in the slug that nameToSlug suggests, and so for which names the validators accept
 the suggestion.
 */
module Suggestions {
  import opened Sequences
  import opened Slugs

  // ---------- The suggestion against the validators ----------

  // A suggestion is a valid catalog slug exactly when it is not empty and has no underscore.
  lemma SuggestionAsCatalogSlug(name: string)
    ensures CatalogSlugValid(Some(NameToSlug(name))) == SlugValid
       <==> NameToSlug(name) != [] && '_' !in NameToSlug(name)
  {
    SlugHasShape(name);
    var slug := NameToSlug(name);
    ValidCatalogSlug(slug);
    if CatalogSlugValid(Some(slug)) == SlugValid {
      forall k | 0 <= k < |slug| ensures slug[k] != '_' {
        assert k == 0 || CatalogCharacter(slug, k);
      }
    }
    if slug != [] && '_' !in slug {
      assert slug[0] in LOWER_ALNUM;
      forall k | 1 <= k < |slug| ensures CatalogCharacter(slug, k) {
        if slug[k] == '-' {
          assert k + 1 < |slug| && slug[k + 1] != '-';
        }
      }
    }
  }

  // It is a valid package slug exactly when it is not empty, no underscore meets a dash in it, and no three
  // underscores stand together.
  lemma SuggestionAsPackageSlug(name: string)
    ensures PackageSlugValid(Some(NameToSlug(name))) == SlugValid
       <==> NameToSlug(name) != [] && !Mixed(NameToSlug(name))
  {
    SlugHasShape(name);
    var slug := NameToSlug(name);
    if MatchesAll(PackageSlugRegex(), slug) {
      MatchedIsUnmixed(slug);
    } else if slug != [] && !Mixed(slug) {
      assert slug[0] in LOWER_ALNUM && slug[|slug| - 1] in LOWER_ALNUM;
      UnmixedMatches(slug);
    }
  }

  ghost predicate Mixed(s: string) {
    exists k :: 0 <= k < |s| && MixedAt(s, k)
  }

  // ---------- Replacing runs, seen from the end of the text ----------

  function Replaced(c: char): char {
    if WordCharacter(c) then c else '-'
  }

  // The k-th character has a place of its own in the replaced text: it is a word character, or begins a run of others.
  predicate Placed(s: string, k: nat)
    requires k < |s|
  {
    WordCharacter(s[k]) || k == 0 || WordCharacter(s[k - 1])
  }

  // The length of a text in which every run of other characters counts as one.
  function CollapsedLength(s: string): nat {
    if s == [] then 0 else CollapsedLength(s[..|s| - 1]) + if Placed(s, |s| - 1) then 1 else 0
  }

  lemma {:induction false} ReplaceAppend(a: string, b: string, inRun: bool)
    ensures ReplaceNonWords(a + b, inRun)
         == ReplaceNonWords(a, inRun)
            + ReplaceNonWords(b, if a == [] then inRun else !WordCharacter(a[|a| - 1]))
  {
    if a == [] {
      assert a + b == b;
    } else {
      assert (a + b)[0] == a[0] && (a + b)[1..] == a[1..] + b;
      ReplaceAppend(a[1..], b, !WordCharacter(a[0]));
      Associative(if WordCharacter(a[0]) then [a[0]] else if inRun then [] else ['-'],
                  ReplaceNonWords(a[1..], !WordCharacter(a[0])),
                  ReplaceNonWords(b, !WordCharacter(a[|a| - 1])));
    }
  }

  lemma ReplaceOne(c: char, inRun: bool)
    ensures ReplaceNonWords([c], inRun) == if WordCharacter(c) || !inRun then [Replaced(c)] else []
  {
    assert [c][1..] == [];
  }

  lemma ReplaceLast(s: string)
    requires s != []
    ensures ReplaceNonWords(s, false)
         == ReplaceNonWords(s[..|s| - 1], false)
            + if Placed(s, |s| - 1) then [Replaced(s[|s| - 1])] else []
  {
    hide ReplaceNonWords, WordCharacter, Replaced;
    var n := |s| - 1;
    assert s == s[..n] + [s[n]];
    ReplaceAppend(s[..n], [s[n]], false);
    ReplaceOne(s[n], n > 0 && !WordCharacter(s[n - 1]));
  }

  lemma ReplacedPrefix(s: string, q: nat)
    requires q <= |s|
    ensures ReplaceNonWords(s[..q], false) <= ReplaceNonWords(s, false)
  {
    assert s == s[..q] + s[q..];
    ReplaceAppend(s[..q], s[q..], false);
  }

  lemma {:induction false} ReplacedLength(s: string)
    ensures |ReplaceNonWords(s, false)| == CollapsedLength(s) <= |s|
  {
    if s != [] {
      ReplacedLength(s[..|s| - 1]);
      ReplaceLast(s);
    }
  }

  // A word character, and the first of every run of others, stands in the replaced text after those placed before it;
  // with ReplacedLength that is the whole replaced text.
  lemma PlacedCharacter(s: string, k: nat)
    requires k < |s| && Placed(s, k)
    ensures CollapsedLength(s[..k]) < |ReplaceNonWords(s, false)|
    ensures ReplaceNonWords(s, false)[CollapsedLength(s[..k])] == if WordCharacter(s[k]) then s[k] else '-'
  {
    hide ReplaceNonWords;
    ReplacedPrefix(s, k + 1);
    ReplaceLast(s[..k + 1]);
    assert s[..k + 1][..k] == s[..k];
    ReplacedLength(s[..k]);
  }

  lemma {:induction false} CaseKeepsLength(s: string)
    ensures CollapsedLength(ToLowerCase(s)) == CollapsedLength(s)
  {
    if s != [] {
      CaseKeepsLength(s[..|s| - 1]);
      assert ToLowerCase(s)[..|s| - 1] == ToLowerCase(s[..|s| - 1]);
    }
  }

  // Where in the text the p-th character of the replaced text comes from.
  lemma {:induction false} Origin(s: string, p: nat) returns (q: nat)
    requires p < |ReplaceNonWords(s, false)|
    ensures q < |s| && Replaced(s[q]) == ReplaceNonWords(s, false)[p]
    ensures ReplaceNonWords(s[..q + 1], false) == ReplaceNonWords(s, false)[..p + 1]
    decreases |s|
  {
    var n := |s| - 1;
    ReplaceLast(s);
    if p < |ReplaceNonWords(s[..n], false)| {
      q := Origin(s[..n], p);
      assert s[..n][..q + 1] == s[..q + 1];
    } else {
      q := n;
      assert s[..q + 1] == s;
    }
  }

  // ---------- The part of the name that is kept ----------

  ghost predicate HasLetterOrDigit(name: string) {
    exists k :: 0 <= k < |name| && name[k] in ALNUM
  }

  // From the first letter or digit up to that at last, the name has room for 38 characters after replacing.
  predicate FitsUpTo(name: string, first: nat, last: nat) {
    first <= last < |name| && name[first] in ALNUM && (forall k :: 0 <= k < first ==> name[k] !in ALNUM)
    && name[last] in ALNUM && CollapsedLength(name[first..last + 1]) <= 38
  }

  lemma {:induction false} FirstLetterOrDigit(name: string) returns (first: nat)
    requires HasLetterOrDigit(name)
    ensures first < |name| && name[first] in ALNUM && forall k :: 0 <= k < first ==> name[k] !in ALNUM
  {
    if name[0] in ALNUM {
      first := 0;
    } else {
      assert HasLetterOrDigit(name[1..]) by {
        var k :| 0 <= k < |name| && name[k] in ALNUM;
        assert name[1..][k - 1] in ALNUM;
      }
      first := FirstLetterOrDigit(name[1..]);
      forall k | 0 <= k < first + 1 ensures name[k] !in ALNUM {
        assert k > 0 ==> name[k] == name[1..][k - 1];
      }
      first := first + 1;
    }
  }

  lemma {:induction false} OnlySeparators(s: string, inRun: bool)
    requires forall k :: 0 <= k < |s| ==> s[k] !in ALNUM
    ensures forall k :: 0 <= k < |ReplaceNonWords(s, inRun)| ==> Stripped(ReplaceNonWords(s, inRun)[k])
    decreases |s|
  {
    if s != [] {
      assert s[0] !in ALNUM;
      OnlySeparators(s[1..], !WordCharacter(s[0]));
    }
  }

  lemma {:induction false} StripsSeparators(a: string, b: string)
    requires (forall k :: 0 <= k < |a| ==> Stripped(a[k])) && (b != [] ==> !Stripped(b[0]))
    ensures StripStart(a + b) == b
  {
    if a == [] {
      assert a + b == b;
    } else {
      assert (a + b)[1..] == a[1..] + b;
      StripsSeparators(a[1..], b);
    }
  }

  // What is stripped at the start is what precedes the first letter or digit.
  lemma StripsUpToFirst(s: string, first: nat)
    requires first < |s| && s[first] in ALNUM && forall k :: 0 <= k < first ==> s[k] !in ALNUM
    ensures StripStart(ReplaceNonWords(s, false)) == ReplaceNonWords(s[first..], false)
    ensures var x := ReplaceNonWords(s[first..], false); x != [] && x[0] == s[first]
  {
    assert s == s[..first] + s[first..];
    ReplaceAppend(s[..first], s[first..], false);
    OnlySeparators(s[..first], false);
    StripsSeparators(ReplaceNonWords(s[..first], false), ReplaceNonWords(s[first..], false));
  }

  // Stripping the end, shortening and stripping again keeps the longest beginning of at most 38 characters that
  // ends in neither a dash nor an underscore.
  lemma CutAt(x: string) returns (m: nat)
    requires x != [] && !Stripped(x[0])
    ensures 0 < m <= 38 && m <= |x| && Strip(Substr38(StripEnd(x))) == x[..m]
    ensures !Stripped(x[m - 1]) && forall k :: m <= k < |x| && k < 38 ==> Stripped(x[k])
  {
    var n := StripEndIsPart(x);
    var short := Substr38(StripEnd(x));
    assert n > 0 && short[0] == x[0];
    assert StripStart(short) == short;
    m := StripEndIsPart(short);
    assert short == x[..|short|];
    assert short[..m] == x[..m];
    forall k | m <= k < |x| && k < 38 ensures Stripped(x[k]) {
      assert k < |short| ==> short[k] == x[k];
    }
  }

  // The suggestion is the replaced text from the first letter or digit up to the last one that fits.
  lemma SuggestionOfLowerCase(s: string, first: nat) returns (last: nat)
    requires first < |s| && s[first] in ALNUM && forall k :: 0 <= k < first ==> s[k] !in ALNUM
    ensures FitsUpTo(s, first, last) && forall j: nat :: FitsUpTo(s, first, j) ==> j <= last
    ensures Strip(Substr38(Strip(ReplaceNonWords(s, false)))) == ReplaceNonWords(s[first..last + 1], false)
  {
    hide ReplaceNonWords, StripStart, StripEnd, CollapsedLength;
    var rest := s[first..];
    var x := ReplaceNonWords(rest, false);
    StripsUpToFirst(s, first);
    var m := CutAt(x);
    var q := Origin(rest, m - 1);
    last := first + q;
    assert rest[..q + 1] == s[first..last + 1];
    ReplacedLength(s[first..last + 1]);
    forall j: nat | FitsUpTo(s, first, j) ensures j <= last {
      if j > last {
        FurtherIsLonger(rest, q, j - first);
        assert rest[..j - first + 1] == s[first..j + 1];
        ReplacedLength(s[first..j + 1]);
      }
    }
  }

  // A letter or digit further on has its own, later place in the replaced text.
  lemma FurtherIsLonger(s: string, q: nat, j: nat)
    requires q < j < |s| && s[j] in ALNUM
    ensures var x, n := ReplaceNonWords(s, false), |ReplaceNonWords(s[..j + 1], false)|;
            |ReplaceNonWords(s[..q + 1], false)| < n <= |x| && x[n - 1] == s[j]
  {
    ReplaceLast(s[..j + 1]);
    assert s[..j + 1][..j] == s[..j] && s[..j][..q + 1] == s[..q + 1];
    ReplacedPrefix(s, j + 1);
    ReplacedPrefix(s[..j], q + 1);
  }

  // For every name with a letter or digit: the suggestion is the lower-case replaced text of its kept part, which
  // runs from the first letter or digit to the last one that still fits.
  lemma SuggestionOfPart(name: string) returns (first: nat, last: nat)
    requires HasLetterOrDigit(name)
    ensures FitsUpTo(name, first, last) && forall j: nat :: FitsUpTo(name, first, j) ==> j <= last
    ensures NameToSlug(name) == ReplaceNonWords(ToLowerCase(name[first..last + 1]), false)
  {
    hide FitsUpTo, ReplaceNonWords, StripStart, StripEnd;
    var lower := ToLowerCase(name);
    first := FirstLetterOrDigit(name);
    assert forall k :: 0 <= k <= first ==> (lower[k] in ALNUM <==> name[k] in ALNUM);
    last := SuggestionOfLowerCase(lower, first);
    forall j: nat ensures FitsUpTo(name, first, j) <==> FitsUpTo(lower, first, j) {
      CaseKeepsFit(name, first, j);
    }
    FitIsInside(name, first, last);
    assert lower[first..last + 1] == ToLowerCase(name[first..last + 1]);
  }

  lemma FitIsInside(name: string, first: nat, last: nat)
    requires FitsUpTo(name, first, last)
    ensures first <= last < |name|
  {
  }

  lemma CaseKeepsFit(name: string, first: nat, last: nat)
    ensures FitsUpTo(ToLowerCase(name), first, last) <==> FitsUpTo(name, first, last)
  {
    hide CollapsedLength;
    assert forall k :: 0 <= k < |name| ==> (ToLowerCase(name)[k] in ALNUM <==> name[k] in ALNUM);
    if first <= last < |name| {
      assert ToLowerCase(name)[first..last + 1] == ToLowerCase(name[first..last + 1]);
      CaseKeepsLength(name[first..last + 1]);
    }
  }

  // A name gets a suggestion exactly when it has a letter or digit.
  lemma SuggestsExactly(name: string)
    ensures NameToSlug(name) != [] <==> HasLetterOrDigit(name)
  {
    if HasLetterOrDigit(name) {
      var first, last := SuggestionOfPart(name);
      assert name[first..last + 1] != [];
    } else {
      var dashed := ReplaceNonWords(ToLowerCase(name), false);
      OnlySeparators(ToLowerCase(name), false);
      StripsSeparators(dashed, []);
      assert dashed + [] == dashed;
    }
  }

  // ---------- Underscores ----------

  lemma {:induction false} UnderscoresStay(s: string, inRun: bool)
    ensures '_' in ReplaceNonWords(s, inRun) <==> '_' in s
    decreases |s|
  {
    if s != [] {
      UnderscoresStay(s[1..], !WordCharacter(s[0]));
      assert '_' in s <==> s[0] == '_' || '_' in s[1..];
    }
  }

  // An underscore stands between the first letter or digit and a later one that fits.
  ghost predicate KeepsUnderscore(name: string) {
    exists first: nat, k: nat, last: nat :: FitsUpTo(name, first, last) && first < k < last && name[k] == '_'
  }

  lemma SameFirst(name: string, first: nat, last: nat, first': nat, last': nat)
    requires FitsUpTo(name, first, last) && FitsUpTo(name, first', last')
    ensures first' == first
  {
  }

  // The catalog validator accepts the suggestion exactly for the names with a letter or digit that keep no
  // underscore.
  lemma SuggestionIsCatalogSlugExactly(name: string)
    ensures CatalogSlugValid(Some(NameToSlug(name))) == SlugValid
       <==> HasLetterOrDigit(name) && !KeepsUnderscore(name)
  {
    hide CatalogSlugValid, NameToSlug, KeepsUnderscore, FitsUpTo;
    SuggestionAsCatalogSlug(name);
    SuggestsExactly(name);
    if HasLetterOrDigit(name) {
      var first, last := SuggestionOfPart(name);
      FitIsInside(name, first, last);
      UnderscoresStay(ToLowerCase(name[first..last + 1]), false);
      KeptUnderscore(name, first, last);
    }
  }

  lemma KeptUnderscore(name: string, first: nat, last: nat)
    requires FitsUpTo(name, first, last) && forall j: nat :: FitsUpTo(name, first, j) ==> j <= last
    ensures '_' in ToLowerCase(name[first..last + 1]) <==> KeepsUnderscore(name)
  {
    hide CollapsedLength;
    var lower := ToLowerCase(name[first..last + 1]);
    if k :| 0 <= k < |lower| && lower[k] == '_' {
      assert first < first + k < last && name[first + k] == '_';
    }
    if first': nat, k: nat, last': nat :| FitsUpTo(name, first', last') && first' < k < last' && name[k] == '_' {
      SameFirst(name, first, last, first', last');
      assert lower[k - first] == '_';
    }
  }

  // For a name of at most 38 characters: exactly when no underscore stands between two letters or digits.
  lemma ShortNameIsCatalogSlugExactly(name: string)
    requires |name| <= 38
    ensures CatalogSlugValid(Some(NameToSlug(name))) == SlugValid
       <==> HasLetterOrDigit(name)
            && !exists i, k, j :: 0 <= i < k < j < |name| && name[i] in ALNUM && name[k] == '_' && name[j] in ALNUM
  {
    SuggestionIsCatalogSlugExactly(name);
    if i, k, j :| 0 <= i < k < j < |name| && name[i] in ALNUM && name[k] == '_' && name[j] in ALNUM {
      var first := FirstLetterOrDigit(name);
      ReplacedLength(name[first..j + 1]);
      assert FitsUpTo(name, first, j);
    }
  }

  // ---------- Mixtures ----------

  // At k an underscore meets another separator, or three underscores begin.
  predicate ClashesAt(name: string, k: nat)
    requires k < |name|
  {
    (k + 1 < |name| && name[k] !in ALNUM && name[k + 1] !in ALNUM && (name[k] == '_') != (name[k + 1] == '_'))
    || (k + 2 < |name| && name[k] == name[k + 1] == name[k + 2] == '_')
  }

  ghost predicate Clashes(s: string) {
    exists k :: 0 <= k < |s| && ClashesAt(s, k)
  }

  predicate EndsInThreeUnderscores(s: string) {
    |s| > 2 && s[|s| - 3] == s[|s| - 2] == s[|s| - 1] == '_'
  }

  // A clash in a text of at least two characters is one in the text without its last character, or it ends there.
  lemma ClashesLast(s: string)
    requires |s| > 1
    ensures Clashes(s) <==> Clashes(s[..|s| - 1]) || ClashesAt(s, |s| - 2) || EndsInThreeUnderscores(s)
  {
    var n := |s| - 1;
    if k :| 0 <= k < |s| && ClashesAt(s, k) {
      assert k == n - 1 || EndsInThreeUnderscores(s) || ClashesAt(s[..n], k);
    }
    if k :| 0 <= k < n && ClashesAt(s[..n], k) {
      assert ClashesAt(s, k);
    }
    if EndsInThreeUnderscores(s) {
      assert ClashesAt(s, n - 2);
    }
  }

  lemma MixedLast(s: string)
    requires |s| > 1
    ensures Mixed(s) <==> Mixed(s[..|s| - 1]) || MixedAt(s, |s| - 2) || EndsInThreeUnderscores(s)
  {
    var n := |s| - 1;
    if k :| 0 <= k < |s| && MixedAt(s, k) {
      assert k == n - 1 || EndsInThreeUnderscores(s) || MixedAt(s[..n], k);
    }
    if k :| 0 <= k < n && MixedAt(s[..n], k) {
      assert MixedAt(s, k);
    }
    if EndsInThreeUnderscores(s) {
      assert MixedAt(s, n - 2);
    }
  }

  lemma {:induction false} LastReplaced(s: string)
    requires s != []
    ensures var x := ReplaceNonWords(s, false); x != [] && x[|x| - 1] == Replaced(s[|s| - 1])
  {
    ReplaceLast(s);
    if !Placed(s, |s| - 1) {
      LastReplaced(s[..|s| - 1]);
    }
  }

  // The last two characters of the text and of the replaced text are underscores together.
  lemma TwoLastUnderscores(s: string)
    ensures var x := ReplaceNonWords(s, false);
            (|s| >= 2 && s[|s| - 2] == s[|s| - 1] == '_') <==> (|x| >= 2 && x[|x| - 2] == x[|x| - 1] == '_')
  {
    if s != [] {
      LastReplaced(s);
      ReplaceLast(s);
      if |s| > 1 {
        LastReplaced(s[..|s| - 1]);
      }
    }
  }

  lemma PlacedClash(s: string)
    requires |s| > 1 && ToLowerCase(s) == s && Placed(s, |s| - 1)
    requires Mixed(ReplaceNonWords(s[..|s| - 1], false)) <==> Clashes(s[..|s| - 1])
    ensures Mixed(ReplaceNonWords(s, false)) <==> Clashes(s)
  {
    hide ReplaceNonWords, Mixed, Clashes, MixedAt, ClashesAt, Placed, EndsInThreeUnderscores;
    var n, x, x' := |s| - 1, ReplaceNonWords(s, false), ReplaceNonWords(s[..|s| - 1], false);
    ReplaceLast(s);
    LastReplaced(s[..n]);
    assert x[..|x'|] == x';
    ClashesLast(s);
    MixedLast(x);
    LastPair(s, x);
    LastThree(s, x);
  }

  lemma LastPair(s: string, x: string)
    requires |s| > 1 && |x| > 1 && ToLowerCase(s) == s
    requires x[|x| - 1] == Replaced(s[|s| - 1]) && x[|x| - 2] == Replaced(s[|s| - 2])
    ensures MixedAt(x, |x| - 2) <==> ClashesAt(s, |s| - 2)
  {
    assert s[|s| - 1] == LowerChar(s[|s| - 1]) && s[|s| - 2] == LowerChar(s[|s| - 2]);
  }

  lemma LastThree(s: string, x: string)
    requires s != [] && x == ReplaceNonWords(s[..|s| - 1], false) + [Replaced(s[|s| - 1])]
    ensures EndsInThreeUnderscores(x) <==> EndsInThreeUnderscores(s)
  {
    hide ReplaceNonWords;
    TwoLastUnderscores(s[..|s| - 1]);
  }

  lemma UnplacedClash(s: string)
    requires |s| > 1 && !Placed(s, |s| - 1)
    ensures Clashes(s) <==> Clashes(s[..|s| - 1])
  {
    hide Clashes;
    ClashesLast(s);
  }

  // Replacing neither makes nor removes a mixture.
  lemma {:induction false} ClashesStay(s: string)
    requires ToLowerCase(s) == s
    ensures Mixed(ReplaceNonWords(s, false)) <==> Clashes(s)
  {
    if |s| > 1 {
      var n := |s| - 1;
      assert forall k :: 0 <= k < |s| ==> s[k] == ToLowerCase(s)[k];
      assert ToLowerCase(s[..n]) == s[..n];
      ClashesStay(s[..n]);
      ReplaceLast(s);
      if Placed(s, n) {
        PlacedClash(s);
      } else {
        UnplacedClash(s);
        assert ReplaceNonWords(s, false) == ReplaceNonWords(s[..n], false);
      }
    }
  }

  // Between the first letter or digit and a later one that fits, an underscore meets another separator or three
  // underscores stand together.
  ghost predicate KeepsClash(name: string) {
    exists first: nat, k: nat, last: nat :: FitsUpTo(name, first, last) && first < k < last && ClashesAt(name, k)
  }

  // The package validator accepts the suggestion exactly for the names with a letter or digit that keep no clash.
  lemma SuggestionIsPackageSlugExactly(name: string)
    ensures PackageSlugValid(Some(NameToSlug(name))) == SlugValid <==> HasLetterOrDigit(name) && !KeepsClash(name)
  {
    hide PackageSlugValid, NameToSlug, KeepsClash, FitsUpTo, Mixed, Clashes;
    SuggestionAsPackageSlug(name);
    SuggestsExactly(name);
    if HasLetterOrDigit(name) {
      var first, last := SuggestionOfPart(name);
      FitIsInside(name, first, last);
      ClashesStay(ToLowerCase(name[first..last + 1]));
      KeptClash(name, first, last);
    }
  }

  lemma KeptClash(name: string, first: nat, last: nat)
    requires FitsUpTo(name, first, last) && forall j: nat :: FitsUpTo(name, first, j) ==> j <= last
    ensures Clashes(ToLowerCase(name[first..last + 1])) <==> KeepsClash(name)
  {
    hide CollapsedLength, ClashesAt;
    var lower := ToLowerCase(name[first..last + 1]);
    if k :| 0 <= k < |lower| && ClashesAt(lower, k) {
      ClashInside(name, first, last, k);
    }
    if first': nat, k: nat, last': nat :|
      FitsUpTo(name, first', last') && first' < k < last' && ClashesAt(name, k)
    {
      SameFirst(name, first, last, first', last');
      ClashBefore(name, first, k, last', last);
    }
  }

  lemma ClashInside(name: string, first: nat, last: nat, k: nat)
    requires first <= last < |name| && name[first] in ALNUM && name[last] in ALNUM
    requires first + k <= last && ClashesAt(ToLowerCase(name[first..last + 1]), k)
    ensures first < first + k < last && ClashesAt(name, first + k)
  {
    var lower := ToLowerCase(name[first..last + 1]);
    assert forall i :: 0 <= i < |lower| ==>
      (lower[i] in ALNUM <==> name[first + i] in ALNUM) && (lower[i] == '_' <==> name[first + i] == '_');
  }

  // A clash before a letter or digit lies wholly before it.
  lemma ClashBefore(name: string, first: nat, k: nat, last': nat, last: nat)
    requires first < k < last' <= last < |name| && name[last'] in ALNUM && ClashesAt(name, k)
    ensures ClashesAt(ToLowerCase(name[first..last + 1]), k - first)
  {
    var lower := ToLowerCase(name[first..last + 1]);
    assert forall i :: k - first <= i < |lower| ==>
      (lower[i] in ALNUM <==> name[first + i] in ALNUM) && (lower[i] == '_' <==> name[first + i] == '_');
  }

  // For a name of at most 38 characters: exactly when no clash stands between two letters or digits.
  lemma ShortNameIsPackageSlugExactly(name: string)
    requires |name| <= 38
    ensures PackageSlugValid(Some(NameToSlug(name))) == SlugValid
       <==> HasLetterOrDigit(name)
            && !exists i, k, j :: 0 <= i < k < j < |name| && name[i] in ALNUM && ClashesAt(name, k) && name[j] in ALNUM
  {
    SuggestionIsPackageSlugExactly(name);
    if i, k, j :| 0 <= i < k < j < |name| && name[i] in ALNUM && ClashesAt(name, k) && name[j] in ALNUM {
      var first := FirstLetterOrDigit(name);
      ReplacedLength(name[first..j + 1]);
      assert FitsUpTo(name, first, j);
    }
  }

  // For a name without an underscore either validator accepts the suggestion exactly if there is one.
  lemma SuggestionIsValid(name: string)
    requires '_' !in name
    ensures PackageSlugValid(Some(NameToSlug(name))) == SlugValid <==> HasLetterOrDigit(name)
    ensures CatalogSlugValid(Some(NameToSlug(name))) == SlugValid <==> HasLetterOrDigit(name)
  {
    SuggestionIsCatalogSlugExactly(name);
    SuggestionIsPackageSlugExactly(name);
  }

  // Names whose suggestions are refused: by the catalog validator, and by both.
  lemma RefusedByCatalogs()
    ensures NameToSlug("a_b") == "a_b" && CatalogSlugValid(Some("a_b")) == SlugInvalid
  {
    hide PackageSlugValid, CatalogSlugValid, NameToSlug;
    var s := "a_b";
    assert s[0] == 'a' && s[1] == '_' && s[2] == 'b';
    ShortSlugStays(s);
    assert !CatalogCharacter(s, 1);
    ValidatorsAnswer(Some(s));
  }

  lemma RefusedByBoth()
    ensures NameToSlug("a_-b") == "a_-b"
    ensures PackageSlugValid(Some("a_-b")) == CatalogSlugValid(Some("a_-b")) == SlugInvalid
  {
    hide PackageSlugValid, CatalogSlugValid, NameToSlug;
    var s := "a_-b";
    assert s[0] == 'a' && s[1] == '_' && s[2] == '-' && s[3] == 'b';
    ShortSlugStays(s);
    assert MixedAt(s, 1) && !CatalogCharacter(s, 1);
    ValidatorsAnswer(Some(s));
  }

  lemma ShortSlugStays(s: string)
    requires SlugShape(s)
    ensures NameToSlug(s) == s
  {
    assert ToLowerCase(s) == s;
    PlainIsUnreplaced(s, false);
  }
}
