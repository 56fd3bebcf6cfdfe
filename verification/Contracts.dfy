/**
 What an absence of breaking differences means: an inductive relation between the two property trees, and from it
 the promise to consumers that every visible path keeps its types.
 */
module Contracts {
  import opened Sequences
  import opened PackageFiles
  import opened Comparison
  import opened Compatibilities

  // No difference of one of these types.
  ghost predicate Avoids(diffs: seq<Difference>, kinds: set<DifferenceType>) {
    forall d :: d in diffs ==> d.kind !in kinds
  }

  lemma AvoidsBreaking(diffs: seq<Difference>)
    ensures Avoids(diffs, BREAKING) <==> forall d :: d in diffs ==> TypeSeverity(d.kind) != Some(BreakingChange)
  {
  }

  lemma AvoidsAppend(a: seq<Difference>, b: seq<Difference>, kinds: set<DifferenceType>)
    ensures Avoids(a + b, kinds) <==> Avoids(a, kinds) && Avoids(b, kinds)
  {
    assert forall d :: d in a + b <==> d in a || d in b;
  }

  lemma AvoidsWhen(condition: bool, kind: DifferenceType, pointer: string, kinds: set<DifferenceType>)
    ensures Avoids(When(condition, kind, pointer), kinds) <==> condition ==> kind !in kinds
  {
    if condition {
      assert Difference(kind, pointer) in When(condition, kind, pointer);
    }
  }

  // One more conditional push of an allowed type.
  lemma PushAvoids(start: seq<Difference>, condition: bool, kind: DifferenceType, pointer: string,
                   kinds: set<DifferenceType>) returns (r: seq<Difference>)
    requires Avoids(start, kinds) && kind !in kinds
    ensures r == start + When(condition, kind, pointer) && Avoids(r, kinds)
  {
    r := start + When(condition, kind, pointer);
    AvoidsAppend(start, When(condition, kind, pointer), kinds);
  }

  lemma {:induction false} FlatMapAvoids<T>(xs: seq<T>, f: T -> seq<Difference>, kinds: set<DifferenceType>)
    ensures Avoids(FlatMap(xs, f), kinds) <==> forall x :: x in xs ==> Avoids(f(x), kinds)
  {
    if xs != [] {
      FlatMapAvoids(xs[1..], f, kinds);
      AvoidsAppend(f(xs[0]), FlatMap(xs[1..], f), kinds);
      assert forall x :: x in xs <==> x == xs[0] || x in xs[1..];
    }
  }

  // ---------- Property trees ----------

  // Every prior key is hidden and gone, or still there with the same type names, not turned hidden, and related
  // again in its object properties.
  ghost predicate Preserves(prior: Properties, next: Properties)
    decreases prior, 1
  {
    forall key :: key in prior.at ==> PreservesKey(prior, next, key)
  }

  ghost predicate PreservesKey(prior: Properties, next: Properties, key: string)
    requires key in prior.at
    decreases prior, 0
  {
    if key !in next.at then prior.at[key].Hidden()
    else
      prior.at[key].typeNames == next.at[key].typeNames
      && (next.at[key].Hidden() ==> prior.at[key].Hidden())
      && (prior.at[key].Children().Some? ==>
            next.at[key].Children().Some?
            && Preserves(prior.at[key].Children().value, next.at[key].Children().value))
  }

  lemma ChangesAvoid(prior: Property, next: Property, pointer: string, kinds: set<DifferenceType>)
    ensures Avoids(PropertyChanges(prior, next, pointer), kinds) <==>
      (prior.description != next.description ==> ChangePropertyDescription !in kinds)
      && (prior.typeNames != next.typeNames ==> ChangePropertyType !in kinds)
      && (!prior.Hidden() && next.Hidden() ==> HideProperty !in kinds)
      && (prior.Hidden() && !next.Hidden() ==> UnhideProperty !in kinds)
      && (prior.unit != next.unit ==> ChangePropertyUnit !in kinds)
  {
    var d := When(prior.description != next.description, ChangePropertyDescription, pointer);
    var t := When(prior.typeNames != next.typeNames, ChangePropertyType, pointer);
    var h := When(!prior.Hidden() && next.Hidden(), HideProperty, pointer);
    var u := When(prior.Hidden() && !next.Hidden(), UnhideProperty, pointer);
    var n := When(prior.unit != next.unit, ChangePropertyUnit, pointer);
    AvoidsWhen(prior.description != next.description, ChangePropertyDescription, pointer, kinds);
    AvoidsWhen(prior.typeNames != next.typeNames, ChangePropertyType, pointer, kinds);
    AvoidsWhen(!prior.Hidden() && next.Hidden(), HideProperty, pointer, kinds);
    AvoidsWhen(prior.Hidden() && !next.Hidden(), UnhideProperty, pointer, kinds);
    AvoidsWhen(prior.unit != next.unit, ChangePropertyUnit, pointer, kinds);
    AvoidsAppend(d, t, kinds);
    AvoidsAppend(d + t, h, kinds);
    AvoidsAppend(d + t + h, u, kinds);
    AvoidsAppend(d + t + h + u, n, kinds);
  }

  lemma ForwardAvoidsBreaking(prior: Properties, next: Properties, pointer: string, key: string)
    requires key in prior.at
    ensures Avoids(ForwardAt(prior, next, pointer)(key), BREAKING) <==>
      if key !in next.at then prior.at[key].Hidden()
      else prior.at[key].typeNames == next.at[key].typeNames && (next.at[key].Hidden() ==> prior.at[key].Hidden())
  {
    if key in next.at {
      ChangesAvoid(prior.at[key], next.at[key], PropertyPointer(pointer, key), BREAKING);
    } else {
      AvoidsWhen(true, if prior.at[key].Hidden() then RemoveHiddenProperty else RemoveProperty,
                 PropertyPointer(pointer, key), BREAKING);
    }
  }

  lemma {:induction false} ReverseAvoidsBreaking(prior: Properties, next: Properties, pointer: string, key: string)
    requires WellFormed(prior) && WellFormed(next) && Comparable(prior, next)
    requires key in next.at
    ensures Avoids(ReverseAt(prior, next, pointer)(key), BREAKING) <==>
      (key in prior.at && prior.at[key].Children().Some? && next.at[key].Children().Some? ==>
         Preserves(prior.at[key].Children().value, next.at[key].Children().value))
    decreases prior, 0
  {
    if key in prior.at && prior.at[key].Children().Some? && next.at[key].Children().Some? {
      NonBreakingIffPreserves(prior.at[key].Children().value, next.at[key].Children().value,
                              PropertyPointer(pointer, key));
    }
  }

  lemma {:induction false} NonBreakingIffPreserves(prior: Properties, next: Properties, pointer: string)
    requires WellFormed(prior) && WellFormed(next) && Comparable(prior, next)
    ensures Avoids(PropertyDiffs(prior, next, pointer), BREAKING) <==> Preserves(prior, next)
    decreases prior, 1
  {
    var forward, reverse := ForwardAt(prior, next, pointer), ReverseAt(prior, next, pointer);
    AvoidsAppend(FlatMap(prior.keys, forward), FlatMap(next.keys, reverse), BREAKING);
    FlatMapAvoids(prior.keys, forward, BREAKING);
    FlatMapAvoids(next.keys, reverse, BREAKING);
    forall key | key in prior.at
      ensures Avoids(forward(key), BREAKING) && (key in next.at ==> Avoids(reverse(key), BREAKING))
        <==> PreservesKey(prior, next, key)
    {
      ForwardAvoidsBreaking(prior, next, pointer, key);
      if key in next.at {
        ReverseAvoidsBreaking(prior, next, pointer, key);
      }
    }
    forall key | key in next.at && key !in prior.at ensures Avoids(reverse(key), BREAKING) {
      ReverseAvoidsBreaking(prior, next, pointer, key);
    }
  }

  // ---------- Schemas ----------

  ghost predicate PreservesSchema(prior: Schema, newSchemas: seq<Schema>) {
    if HasTitle(newSchemas, prior.title)
    then forall b :: b in newSchemas && b.title == prior.title ==> Preserves(prior.properties, b.properties)
    else prior.Hidden()
  }

  lemma SchemaAvoidsBreaking(prior: Schema, newSchemas: seq<Schema>)
    requires WellFormed(prior.properties) && forall s | s in newSchemas :: WellFormed(s.properties)
    requires ComparableSchema(prior, newSchemas)
    ensures Avoids(SchemaAgainst(newSchemas)(prior), BREAKING) <==> PreservesSchema(prior, newSchemas)
  {
    if HasTitle(newSchemas, prior.title) {
      FlatMapAvoids(newSchemas, MatchAgainst(prior), BREAKING);
      forall b | b in newSchemas && b.title == prior.title
        ensures Avoids(MatchAgainst(prior)(b), BREAKING) <==> Preserves(prior.properties, b.properties)
      {
        NonBreakingIffPreserves(prior.properties, b.properties, "#" + "/" + b.title);
      }
    } else {
      AvoidsWhen(true, if prior.Hidden() then RemoveHiddenSchema else RemoveSchema, "", BREAKING);
    }
  }

  // Neither the package fields nor the sources can make a change more than minor, or be unknown to the switch.
  const ABOVE_MINOR: set<DifferenceType> := BREAKING + {AddProperty, AddSchema, UnhideProperty, ChangeSourceUris}

  lemma HeaderAtMostMinor(changed: HeaderChanges)
    ensures Avoids(HeaderDiffs(changed), ABOVE_MINOR)
  {
    hide When, Avoids;
    var r := When(changed.description, ChangePackageDescription, "#");
    AvoidsWhen(changed.description, ChangePackageDescription, "#", ABOVE_MINOR);
    r := PushAvoids(r, changed.displayName, ChangePackageDisplayName, "#", ABOVE_MINOR);
    r := PushAvoids(r, changed.version, ChangeVersion, "#", ABOVE_MINOR);
    r := PushAvoids(r, changed.readmeFile, ChangeReadmeFile, "#", ABOVE_MINOR);
    r := PushAvoids(r, changed.website, ChangeWebsite, "#", ABOVE_MINOR);
    r := PushAvoids(r, changed.contactEmail, ChangeContactEmail, "#", ABOVE_MINOR);
    r := PushAvoids(r, changed.readmeMarkdown, ChangeReadmeMarkdown, "#", ABOVE_MINOR);
    r := PushAvoids(r, changed.licenseFile, ChangeLicenseFile, "#", ABOVE_MINOR);
    r := PushAvoids(r, changed.licenseMarkdown, ChangeLicenseMarkdown, "#", ABOVE_MINOR);
    r := PushAvoids(r, changed.generatedBy, ChangeGeneratedBy, "#", ABOVE_MINOR);
    r := PushAvoids(r, changed.updatedDate, ChangeUpdatedDate, "#", ABOVE_MINOR);
  }

  lemma SourcesAtMostMinor(priorSources: seq<Source>, newSources: seq<Source>)
    ensures Avoids(SourcesDiffs(priorSources, newSources), ABOVE_MINOR)
  {
    hide Avoids, SourceAgainst;
    FlatMapAvoids(priorSources, SourceAgainst(newSources), ABOVE_MINOR);
    forall prior | prior in priorSources ensures Avoids(SourceAgainst(newSources)(prior), ABOVE_MINOR) {
      OneSourceAtMostMinor(prior, newSources);
    }
  }

  lemma OneSourceAtMostMinor(prior: Source, newSources: seq<Source>)
    ensures Avoids(SourceAgainst(newSources)(prior), ABOVE_MINOR)
  {
    hide Avoids, SourceDiffs, HasSlug;
    FlatMapAvoids(newSources, MatchSource(prior), ABOVE_MINOR);
    forall next | next in newSources ensures Avoids(MatchSource(prior)(next), ABOVE_MINOR) {
      SourceAtMostMinor(prior, next, "#");
      AvoidsNothing(ABOVE_MINOR);
    }
    AvoidsOne(RemoveSource, "", ABOVE_MINOR);
  }

  lemma AvoidsNothing(kinds: set<DifferenceType>)
    ensures Avoids([], kinds)
  {
  }

  lemma SourceAtMostMinor(prior: Source, next: Source, pointer: string)
    ensures Avoids(SourceDiffs(prior, next, pointer), ABOVE_MINOR)
  {
    var streams := StreamAgainst(next.streamSets, pointer);
    AvoidsAppend(SourceHeadDiffs(prior, next, pointer), FlatMap(prior.streamSets, streams), ABOVE_MINOR);
    SourceHeadAtMostMinor(prior, next, pointer);
    FlatMapAvoids(prior.streamSets, streams, ABOVE_MINOR);
    forall s | s in prior.streamSets ensures Avoids(streams(s), ABOVE_MINOR) {
      StreamAtMostMinor(s, next.streamSets, pointer);
    }
  }

  lemma SourceHeadAtMostMinor(prior: Source, next: Source, pointer: string)
    ensures Avoids(SourceHeadDiffs(prior, next, pointer), ABOVE_MINOR)
  {
    if prior.kind == next.kind {
      var r := When(prior.configuration != next.configuration, ChangeSourceConfiguration, pointer);
      r := PushAvoids(r, prior.connectionConfiguration != next.connectionConfiguration,
                      ChangeSourceConnection, pointer, ABOVE_MINOR);
      r := PushAvoids(r, prior.credentialsIdentifier != next.credentialsIdentifier,
                      ChangeSourceCredentials, pointer, ABOVE_MINOR);
    }
  }

  lemma StreamAtMostMinor(prior: StreamSet, newStreamSets: seq<StreamSet>, pointer: string)
    ensures Avoids(StreamAgainst(newStreamSets, pointer)(prior), ABOVE_MINOR)
  {
    hide When, Avoids, FindStreamSet;
    var next := FindStreamSet(newStreamSets, prior.slug);
    if next.Some? {
      var counted := prior.inspectedCount != next.value.inspectedCount;
      AvoidsWhen(counted, ChangeStreamStats, pointer, ABOVE_MINOR);
      var r := PushAvoids(When(counted, ChangeStreamStats, pointer),
                          prior.lastUpdateHash != next.value.lastUpdateHash && prior.lastUpdateHash.Some?,
                          ChangeStreamUpdateHash, pointer, ABOVE_MINOR);
      var methods := next.value.updateMethods != prior.updateMethods;
      AvoidsWhen(methods, ChangeStreamUpdateMethod, pointer, ABOVE_MINOR);
      AvoidsAppend(When(methods, ChangeStreamUpdateMethod, pointer), r, ABOVE_MINOR);
    } else {
      AvoidsOne(RemoveStreamSet, pointer, ABOVE_MINOR);
    }
  }

  lemma AvoidsOne(kind: DifferenceType, pointer: string, kinds: set<DifferenceType>)
    requires kind !in kinds
    ensures Avoids([Difference(kind, pointer)], kinds)
  {
  }

  lemma PackageAvoids(a: PackageFile, b: PackageFile, kinds: set<DifferenceType>)
    requires kinds <= ABOVE_MINOR
    ensures Avoids(PackageDiffs(a, b), kinds)
       <==> forall prior :: prior in a.schemas ==> Avoids(SchemaAgainst(b.schemas)(prior), kinds)
  {
    HeaderAtMostMinor(ChangedFields(a, b));
    SourcesAtMostMinor(a.sources, b.sources);
    AvoidsAppend(HeaderDiffs(ChangedFields(a, b)) + SchemasDiffs(a.schemas, b.schemas),
                 SourcesDiffs(a.sources, b.sources), kinds);
    AvoidsAppend(HeaderDiffs(ChangedFields(a, b)), SchemasDiffs(a.schemas, b.schemas), kinds);
    FlatMapAvoids(a.schemas, SchemaAgainst(b.schemas), kinds);
  }

  // No breaking difference between two files exactly when every prior schema is preserved.
  lemma PackageNonBreaking(a: PackageFile, b: PackageFile)
    requires WellFormedFile(a) && WellFormedFile(b) && ComparableSchemas(a.schemas, b.schemas)
    ensures Avoids(PackageDiffs(a, b), BREAKING) <==> forall s :: s in a.schemas ==> PreservesSchema(s, b.schemas)
  {
    PackageAvoids(a, b, BREAKING);
    forall prior | prior in a.schemas
      ensures Avoids(SchemaAgainst(b.schemas)(prior), BREAKING) <==> PreservesSchema(prior, b.schemas)
    {
      SchemaAvoidsBreaking(prior, b.schemas);
    }
  }

  // comparePackages never produces a type that the severity switch does not know.
  lemma {:induction false} PropertyDiffsMapped(prior: Properties, next: Properties, pointer: string)
    ensures Avoids(PropertyDiffs(prior, next, pointer), {ChangeSourceUris})
    decreases prior
  {
    AvoidsAppend(FlatMap(prior.keys, ForwardAt(prior, next, pointer)),
                 FlatMap(next.keys, ReverseAt(prior, next, pointer)), {ChangeSourceUris});
    FlatMapAvoids(prior.keys, ForwardAt(prior, next, pointer), {ChangeSourceUris});
    FlatMapAvoids(next.keys, ReverseAt(prior, next, pointer), {ChangeSourceUris});
    forall key ensures Avoids(ForwardAt(prior, next, pointer)(key), {ChangeSourceUris})
               ensures Avoids(ReverseAt(prior, next, pointer)(key), {ChangeSourceUris})
    {
      if key in prior.at && key in next.at {
        ChangesAvoid(prior.at[key], next.at[key], PropertyPointer(pointer, key), {ChangeSourceUris});
        if prior.at[key].Children().Some? && next.at[key].Children().Some? {
          PropertyDiffsMapped(prior.at[key].Children().value, next.at[key].Children().value,
                              PropertyPointer(pointer, key));
        }
      }
    }
  }

  lemma PackageDiffsMapped(a: PackageFile, b: PackageFile)
    ensures Severity(PackageDiffs(a, b)).Some?
  {
    PackageAvoids(a, b, {ChangeSourceUris});
    forall prior | prior in a.schemas ensures Avoids(SchemaAgainst(b.schemas)(prior), {ChangeSourceUris}) {
      SchemaDiffsMapped(prior, b.schemas);
    }
    MappedHasSeverity(PackageDiffs(a, b));
  }

  lemma MappedHasSeverity(diffs: seq<Difference>)
    ensures Avoids(diffs, {ChangeSourceUris}) <==> Severity(diffs).Some?
  {
    SeverityIsMaximum(diffs);
  }

  lemma SchemaDiffsMapped(prior: Schema, newSchemas: seq<Schema>)
    ensures Avoids(SchemaAgainst(newSchemas)(prior), {ChangeSourceUris})
  {
    FlatMapAvoids(newSchemas, MatchAgainst(prior), {ChangeSourceUris});
    forall next | next in newSchemas ensures Avoids(MatchAgainst(prior)(next), {ChangeSourceUris}) {
      PropertyDiffsMapped(prior.properties, next.properties, "#" + "/" + next.title);
    }
  }

  // ---------- What a consumer sees ----------

  // The path leads through object properties, nothing on it is hidden, and its end has these type names.
  ghost predicate VisiblePath(properties: Properties, path: seq<string>, types: set<TypeName>)
    decreases |path|
  {
    path != [] && path[0] in properties.at && !properties.at[path[0]].Hidden()
    && if |path| == 1 then properties.at[path[0]].typeNames == types
       else properties.at[path[0]].Children().Some?
            && VisiblePath(properties.at[path[0]].Children().value, path[1..], types)
  }

  lemma {:induction false} PreservesVisiblePath(prior: Properties, next: Properties, path: seq<string>,
                                                types: set<TypeName>)
    requires Preserves(prior, next) && VisiblePath(prior, path, types)
    ensures VisiblePath(next, path, types)
    decreases |path|
  {
    if |path| > 1 {
      PreservesVisiblePath(prior.at[path[0]].Children().value, next.at[path[0]].Children().value, path[1..], types);
    }
  }

  // The file shows a schema of this title, and in it the path with these types; the empty path is the schema.
  ghost predicate Shows(file: PackageFile, title: string, path: seq<string>, types: set<TypeName>) {
    exists schema :: schema in file.schemas && schema.title == title && !schema.Hidden()
      && (path == [] || VisiblePath(schema.properties, path, types))
  }

  ghost predicate Contract(a: PackageFile, b: PackageFile) {
    forall title, path, types :: Shows(a, title, path, types) ==> Shows(b, title, path, types)
  }

  // No schema title that was visible is left with hidden schemas only.
  ghost predicate KeepsSchemasVisible(a: PackageFile, b: PackageFile) {
    forall was | was in a.schemas && !was.Hidden() && HasTitle(b.schemas, was.title) ::
      exists now :: now in b.schemas && now.title == was.title && !now.Hidden()
  }

  // The comparison does not look at a schema's own hidden flag, so a step without breaking differences honours the
  // contract exactly when it hides no visible schema.
  lemma NonBreakingHonoursContract(a: PackageFile, b: PackageFile)
    requires WellFormedFile(a) && WellFormedFile(b) && ComparableSchemas(a.schemas, b.schemas)
    requires Avoids(PackageDiffs(a, b), BREAKING)
    ensures Contract(a, b) <==> KeepsSchemasVisible(a, b)
  {
    PackageNonBreaking(a, b);
    if KeepsSchemasVisible(a, b) {
      forall title, path, types | Shows(a, title, path, types) ensures Shows(b, title, path, types) {
        var was :| was in a.schemas && was.title == title && !was.Hidden()
          && (path == [] || VisiblePath(was.properties, path, types));
        assert HasTitle(b.schemas, title);
        var now :| now in b.schemas && now.title == title && !now.Hidden();
        if path != [] {
          PreservesVisiblePath(was.properties, now.properties, path, types);
        }
      }
    }
    if Contract(a, b) {
      forall was | was in a.schemas && !was.Hidden() && HasTitle(b.schemas, was.title)
        ensures exists now :: now in b.schemas && now.title == was.title && !now.Hidden()
      {
        assert Shows(a, was.title, [], {});
        assert Shows(b, was.title, [], {});
      }
    }
  }
}
