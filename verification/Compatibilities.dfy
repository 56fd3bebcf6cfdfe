/**
 How a list of differences is folded into one severity, and how the severity picks the least version number that
 may follow the current one.
 */
module Compatibilities {
  import opened Sequences
  import opened PackageFiles
  import opened Comparison

  datatype Compatibility = Identical | MinorChange | CompatibleChange | BreakingChange
  {
    function Rank(): nat {
      match this
      case Identical => 0
      case MinorChange => 1
      case CompatibleChange => 2
      case BreakingChange => 3
    }
  }

  function LeastCompatible(a: Compatibility, b: Compatibility): Compatibility {
    if a == b then a else if a.Rank() < b.Rank() then b else a
  }

  // The severity of one difference type; None where the switch has no case for it.
  function TypeSeverity(kind: DifferenceType): Option<Compatibility> {
    match kind
    case RemoveProperty | RemoveSchema | ChangePropertyFormat | ChangePropertyType | HideProperty =>
      Some(BreakingChange)
    case AddProperty | AddSchema | UnhideProperty => Some(CompatibleChange)
    case ChangeStreamUpdateHash | ChangeStreamStats | ChangeGeneratedBy | ChangeUpdatedDate | ChangeReadmeFile
       | ChangeLicenseFile | ChangeStreamUpdateMethod => Some(Identical)
    case ChangeSourceUris => None
    case _ => Some(MinorChange)
  }

  // The kinds by what they demand. Every kind is in exactly one of these sets.
  const BREAKING: set<DifferenceType> :=
    {RemoveProperty, RemoveSchema, ChangePropertyFormat, ChangePropertyType, HideProperty}
  const COMPATIBLE: set<DifferenceType> := {AddProperty, AddSchema, UnhideProperty}
  const MINOR: set<DifferenceType> :=
    {ChangeSource, ChangeSourceConfiguration, ChangeSourceConnection, ChangeSourceCredentials, RemoveHiddenProperty,
     RemoveHiddenSchema, ChangeVersion, RemoveSource, RemoveStreamSet, ChangePropertyUnit, ChangePackageDescription,
     ChangePackageDisplayName, ChangePropertyDescription, ChangeReadmeMarkdown, ChangeLicenseMarkdown, ChangeWebsite,
     ChangeContactEmail}
  const UNNOTICED: set<DifferenceType> :=
    {ChangeStreamUpdateHash, ChangeStreamStats, ChangeGeneratedBy, ChangeUpdatedDate, ChangeReadmeFile,
     ChangeLicenseFile, ChangeStreamUpdateMethod}
  const UNMAPPED: set<DifferenceType> := {ChangeSourceUris}

  lemma BreakingKinds(kind: DifferenceType)
    ensures TypeSeverity(kind) == Some(BreakingChange) <==> kind in BREAKING
    ensures TypeSeverity(kind).None? <==> kind in UNMAPPED
  {
  }

  lemma CompatibleKinds(kind: DifferenceType)
    ensures TypeSeverity(kind) == Some(CompatibleChange) <==> kind in COMPATIBLE
  {
  }

  lemma MinorKinds(kind: DifferenceType)
    ensures TypeSeverity(kind) == Some(MinorChange) <==> kind in MINOR
  {
  }

  lemma UnnoticedKinds(kind: DifferenceType)
    ensures TypeSeverity(kind) == Some(Identical) <==> kind in UNNOTICED
  {
  }

  ghost predicate Has(diffs: seq<Difference>, kinds: set<DifferenceType>) {
    exists d :: d in diffs && d.kind in kinds
  }

  // What the list demands, by the kinds that occur in it; None where the switch throws.
  ghost function Demanded(diffs: seq<Difference>): Option<Compatibility> {
    if Has(diffs, UNMAPPED) then None
    else if Has(diffs, BREAKING) then Some(BreakingChange)
    else if Has(diffs, COMPATIBLE) then Some(CompatibleChange)
    else if Has(diffs, MINOR) then Some(MinorChange)
    else Some(Identical)
  }

  function Combine(a: Option<Compatibility>, b: Option<Compatibility>): Option<Compatibility> {
    if a.Some? && b.Some? then Some(LeastCompatible(a.value, b.value)) else None
  }

  function Severity(diffs: seq<Difference>): Option<Compatibility> {
    if diffs == [] then Some(Identical) else Combine(TypeSeverity(diffs[0].kind), Severity(diffs[1..]))
  }

  lemma {:induction false} SeverityAppend(a: seq<Difference>, b: seq<Difference>)
    ensures Severity(a + b) == Combine(Severity(a), Severity(b))
  {
    if a == [] {
      assert a + b == b;
    } else {
      assert (a + b)[1..] == a[1..] + b;
      SeverityAppend(a[1..], b);
    }
  }

  // The fold is undefined exactly on a list with an unmapped type, and otherwise is the maximum.
  lemma {:induction false} SeverityIsMaximum(diffs: seq<Difference>)
    ensures Severity(diffs).None? <==> exists d :: d in diffs && TypeSeverity(d.kind).None?
    ensures Severity(diffs).Some? ==> forall d :: d in diffs ==>
      TypeSeverity(d.kind).Some? && TypeSeverity(d.kind).value.Rank() <= Severity(diffs).value.Rank()
    ensures Severity(diffs).Some? && Severity(diffs).value != Identical ==>
      exists d :: d in diffs && TypeSeverity(d.kind) == Severity(diffs)
  {
    if diffs != [] {
      SeverityIsMaximum(diffs[1..]);
      assert forall d :: d in diffs <==> d == diffs[0] || d in diffs[1..];
    }
  }

  // The severity depends only on which kinds occur.
  lemma SeverityByKinds(diffs: seq<Difference>)
    ensures Severity(diffs) == Demanded(diffs)
  {
    hide Severity, TypeSeverity, BREAKING, COMPATIBLE, MINOR, UNNOTICED, UNMAPPED;
    SeverityIsMaximum(diffs);
    forall d | d in diffs
      ensures TypeSeverity(d.kind).None? <==> d.kind in UNMAPPED
      ensures TypeSeverity(d.kind) == Some(BreakingChange) <==> d.kind in BREAKING
      ensures TypeSeverity(d.kind) == Some(CompatibleChange) <==> d.kind in COMPATIBLE
      ensures TypeSeverity(d.kind) == Some(MinorChange) <==> d.kind in MINOR
    {
      BreakingKinds(d.kind);
      CompatibleKinds(d.kind);
      MinorKinds(d.kind);
    }
  }

  // The list has severity at most c exactly when each of its differences has.
  lemma SeverityAtMost(diffs: seq<Difference>, c: Compatibility)
    ensures (Severity(diffs).Some? && Severity(diffs).value.Rank() <= c.Rank())
       <==> forall d :: d in diffs ==> TypeSeverity(d.kind).Some? && TypeSeverity(d.kind).value.Rank() <= c.Rank()
  {
    SeverityIsMaximum(diffs);
  }

  lemma SeverityStep(diffs: seq<Difference>, i: nat)
    requires i < |diffs|
    ensures Severity(diffs[..i + 1]) == Combine(Severity(diffs[..i]), TypeSeverity(diffs[i].kind))
    ensures Severity(diffs[..i + 1]).None? ==> Severity(diffs).None?
  {
    SeverityOfOne(diffs[i]);
    hide Severity, TypeSeverity;
    assert diffs[..i + 1] == diffs[..i] + [diffs[i]] && diffs == diffs[..i + 1] + diffs[i + 1..];
    SeverityAppend(diffs[..i], [diffs[i]]);
    SeverityAppend(diffs[..i + 1], diffs[i + 1..]);
  }

  lemma SeverityOfOne(d: Difference)
    ensures Severity([d]) == TypeSeverity(d.kind)
  {
    assert [d][1..] == [];
  }

  // The switch for one difference; None where it throws.
  method FoldOne(returnValue: Compatibility, kind: DifferenceType) returns (result: Option<Compatibility>)
    ensures result == Combine(Some(returnValue), TypeSeverity(kind))
  {
    match kind {
      case RemoveProperty | RemoveSchema | ChangePropertyFormat | ChangePropertyType | HideProperty =>
        result := Some(BreakingChange);
      case AddProperty | AddSchema | UnhideProperty =>
        result := Some(if returnValue.Rank() > CompatibleChange.Rank() then returnValue else CompatibleChange);
      case ChangeSource | ChangeSourceConfiguration | ChangeSourceConnection | ChangeSourceCredentials
         | RemoveHiddenProperty | RemoveHiddenSchema | ChangeVersion | RemoveSource | RemoveStreamSet
         | ChangePropertyUnit | ChangePackageDescription | ChangePackageDisplayName | ChangePropertyDescription
         | ChangeReadmeMarkdown | ChangeLicenseMarkdown | ChangeWebsite | ChangeContactEmail =>
        result := Some(if returnValue.Rank() > MinorChange.Rank() then returnValue else MinorChange);
      case ChangeStreamUpdateHash | ChangeStreamStats | ChangeGeneratedBy | ChangeUpdatedDate | ChangeReadmeFile
         | ChangeLicenseFile | ChangeStreamUpdateMethod =>
        result := Some(returnValue);
      case ChangeSourceUris =>
        result := None;
    }
  }

  method DiffCompatibility(diffs: seq<Difference>) returns (result: Option<Compatibility>)
    ensures result == Severity(diffs) == Demanded(diffs)
  {
    SeverityByKinds(diffs);
    var returnValue := Identical;
    for i := 0 to |diffs|
      invariant Severity(diffs[..i]) == Some(returnValue)
    {
      SeverityStep(diffs, i);
      var next := FoldOne(returnValue, diffs[i].kind);
      if next.None? {
        return None;
      }
      returnValue := next.value;
    }
    assert diffs[..|diffs|] == diffs;
    return Some(returnValue);
  }

  // ---------- Version numbers ----------

  function NextVersion(current: Version, compatibility: Compatibility): Version {
    match compatibility
    case BreakingChange => Version(current.major + 1, 0, 0)
    case CompatibleChange => Version(current.major, current.minor + 1, 0)
    case MinorChange => Version(current.major, current.minor, current.patch + 1)
    case Identical => current
  }

  // The severity that the step from one version number to a later one announces.
  function Bump(from: Version, to: Version): Compatibility {
    if from.major != to.major then BreakingChange
    else if from.minor != to.minor then CompatibleChange
    else if from.patch != to.patch then MinorChange
    else Identical
  }

  // nextVersion is the least version number that announces at least the given severity: a number is at or above
  // it exactly when it is at or above the current one and announces that much.
  lemma NextVersionIsLeastBump(current: Version, compatibility: Compatibility, to: Version)
    ensures NextVersion(current, compatibility).AtMost(to)
       <==> current.AtMost(to) && compatibility.Rank() <= Bump(current, to).Rank()
  {
    match compatibility
    case BreakingChange =>
      if current.major < to.major { assert current.Less(to); }
    case CompatibleChange =>
    case MinorChange =>
    case Identical =>
  }
}
