/**
 comparePackages and its helpers. Each loop that pushes to a response array is a method; it is proved equal to a
 function that names the differences in the order the loop pushes them, and the theorems about those functions
 are in the modules that follow.
 */
module Comparison {
  import opened Sequences
  import opened PackageFiles

  datatype DifferenceType =
    | RemoveSchema | RemoveHiddenSchema | AddSchema | RemoveSource | ChangePackageDisplayName
    | ChangePackageDescription | ChangeSource | ChangeSourceConnection | ChangeSourceCredentials
    | ChangeSourceConfiguration | ChangeStreamUpdateMethod | ChangeSourceUris | ChangeStreamStats
    | ChangeStreamUpdateHash | AddProperty | HideProperty | UnhideProperty | RemoveProperty
    | RemoveHiddenProperty | ChangePropertyType | ChangePropertyFormat | ChangePropertyUnit
    | ChangePropertyDescription | ChangeGeneratedBy | ChangeUpdatedDate | ChangeVersion | ChangeReadmeMarkdown
    | ChangeLicenseMarkdown | ChangeReadmeFile | ChangeLicenseFile | ChangeWebsite | ChangeContactEmail
    | RemoveStreamSet

  datatype Difference = Difference(kind: DifferenceType, pointer: string)

  function When(condition: bool, kind: DifferenceType, pointer: string): seq<Difference> {
    if condition then [Difference(kind, pointer)] else []
  }

  // response.push({ type: kind, pointer }) under a condition.
  method PushIf(start: seq<Difference>, condition: bool, kind: DifferenceType, pointer: string)
    returns (response: seq<Difference>)
    ensures response == start + When(condition, kind, pointer)
  {
    response := start;
    if condition {
      response := response + [Difference(kind, pointer)];
    }
  }

  // ---------- Properties ----------

  // The recursion reads objectProperties on the new side wherever the prior side has it and the new side is an
  // object at all; a file that lacks it there makes the comparison throw.
  predicate Comparable(prior: Properties, next: Properties)
    decreases prior, 1
  {
    forall key | key in next.at :: ComparableAt(prior, next, key)
  }

  predicate ComparableAt(prior: Properties, next: Properties, key: string)
    requires key in next.at
    decreases prior, 0
  {
    key in prior.at && prior.at[key].Children().Some? && ObjectType in next.at[key].typeNames ==>
      next.at[key].objectProperties.Some?
      && Comparable(prior.at[key].Children().value, next.at[key].objectProperties.value)
  }

  function PropertyPointer(pointer: string, key: string): string {
    pointer + "/properties/" + key
  }

  function PropertyChanges(prior: Property, next: Property, pointer: string): seq<Difference> {
    When(prior.description != next.description, ChangePropertyDescription, pointer)
    + When(prior.typeNames != next.typeNames, ChangePropertyType, pointer)
    + When(!prior.Hidden() && next.Hidden(), HideProperty, pointer)
    + When(prior.Hidden() && !next.Hidden(), UnhideProperty, pointer)
    + When(prior.unit != next.unit, ChangePropertyUnit, pointer)
  }

  function ForwardDiffs(prior: Properties, next: Properties, pointer: string, key: string): seq<Difference> {
    if key !in prior.at then []
    else if key in next.at then PropertyChanges(prior.at[key], next.at[key], PropertyPointer(pointer, key))
    else [Difference(if prior.at[key].Hidden() then RemoveHiddenProperty else RemoveProperty,
                     PropertyPointer(pointer, key))]
  }

  function ReverseDiffs(prior: Properties, next: Properties, pointer: string, key: string): seq<Difference>
    decreases prior, 0
  {
    if key !in prior.at then [Difference(AddProperty, PropertyPointer(pointer, key))]
    else if key in next.at && prior.at[key].Children().Some? && next.at[key].Children().Some? then
      PropertyDiffs(prior.at[key].Children().value, next.at[key].Children().value, PropertyPointer(pointer, key))
    else []
  }

  function ForwardAt(prior: Properties, next: Properties, pointer: string): string -> seq<Difference> {
    key => ForwardDiffs(prior, next, pointer, key)
  }

  function ReverseAt(prior: Properties, next: Properties, pointer: string): string -> seq<Difference>
    decreases prior, 1
  {
    key => ReverseDiffs(prior, next, pointer, key)
  }

  function PropertyDiffs(prior: Properties, next: Properties, pointer: string): seq<Difference>
    decreases prior, 2
  {
    FlatMap(prior.keys, ForwardAt(prior, next, pointer)) + FlatMap(next.keys, ReverseAt(prior, next, pointer))
  }

  method CompareHidden(start: seq<Difference>, prior: Property, next: Property, pointer: string)
    returns (response: seq<Difference>)
    ensures response == start + When(!prior.Hidden() && next.Hidden(), HideProperty, pointer)
                        + When(prior.Hidden() && !next.Hidden(), UnhideProperty, pointer)
  {
    response := start;
    if !prior.Hidden() && next.Hidden() {
      response := response + [Difference(HideProperty, pointer)];
    } else if prior.Hidden() && !next.Hidden() {
      response := response + [Difference(UnhideProperty, pointer)];
    }
  }

  // The part of the forward loop for a key that both sides have.
  method CompareProperty(prior: Property, next: Property, pointer: string) returns (response: seq<Difference>)
    ensures response == PropertyChanges(prior, next, pointer)
  {
    hide When;
    response := PushIf([], prior.description != next.description, ChangePropertyDescription, pointer);
    response := PushIf(response,
      !(prior.typeNames <= next.typeNames) || !(next.typeNames <= prior.typeNames), ChangePropertyType, pointer);
    response := CompareHidden(response, prior, next, pointer);
    response := PushIf(response, prior.unit != next.unit, ChangePropertyUnit, pointer);
  }

  // The forward loop.
  method CompareForward(prior: Properties, next: Properties, pointer: string) returns (response: seq<Difference>)
    requires WellFormed(prior) && WellFormed(next)
    ensures response == FlatMap(prior.keys, ForwardAt(prior, next, pointer))
  {
    response := [];
    for i := 0 to |prior.keys|
      invariant response == FlatMap(prior.keys[..i], ForwardAt(prior, next, pointer))
    {
      var priorKey := prior.keys[i];
      assert priorKey in prior.keys;
      FlatMapStep(prior.keys, i, ForwardAt(prior, next, pointer));
      var here := pointer + "/properties/" + priorKey;
      if priorKey !in next.keys {
        if prior.at[priorKey].Hidden() {
          response := response + [Difference(RemoveHiddenProperty, here)];
        } else {
          response := response + [Difference(RemoveProperty, here)];
        }
      } else {
        var changes := CompareProperty(prior.at[priorKey], next.at[priorKey], here);
        response := response + changes;
      }
    }
    assert prior.keys[..|prior.keys|] == prior.keys;
  }

  // Both loops; None where the code throws, because it reads the keys of an objectProperties that is not there.
  method CompareProperties(prior: Properties, next: Properties, pointer: string)
    returns (response: Option<seq<Difference>>)
    requires WellFormed(prior) && WellFormed(next)
    ensures response == if Comparable(prior, next) then Some(PropertyDiffs(prior, next, pointer)) else None
    decreases prior
  {
    var forward := CompareForward(prior, next, pointer);
    var reverse: seq<Difference> := [];
    for i := 0 to |next.keys|
      invariant reverse == FlatMap(next.keys[..i], ReverseAt(prior, next, pointer))
      invariant forall k | 0 <= k < i :: ComparableAt(prior, next, next.keys[k])
    {
      var nextKey := next.keys[i];
      assert nextKey in next.keys;
      FlatMapStep(next.keys, i, ReverseAt(prior, next, pointer));
      var here := pointer + "/properties/" + nextKey;
      if nextKey !in prior.at {
        reverse := reverse + [Difference(AddProperty, here)];
      } else if prior.at[nextKey].Children().Some? && ObjectType in next.at[nextKey].typeNames {
        if next.at[nextKey].objectProperties.None? {
          assert !ComparableAt(prior, next, nextKey);
          return None;
        }
        var changes := CompareProperties(prior.at[nextKey].Children().value,
                                         next.at[nextKey].objectProperties.value, here);
        if changes.None? {
          assert !ComparableAt(prior, next, nextKey);
          return None;
        }
        reverse := reverse + changes.value;
      }
    }
    assert next.keys[..|next.keys|] == next.keys;
    forall key | key in next.at ensures ComparableAt(prior, next, key) {
      assert key in next.keys;
    }
    return Some(forward + reverse);
  }

  // ---------- Schemas ----------

  function SchemaDiffs(prior: Schema, next: Schema, pointer: string): seq<Difference> {
    PropertyDiffs(prior.properties, next.properties, pointer + "/" + next.title)
  }

  function MatchAgainst(prior: Schema): Schema -> seq<Difference> {
    (next: Schema) => if prior.title == next.title then SchemaDiffs(prior, next, "#") else []
  }

  predicate HasTitle(schemas: seq<Schema>, title: string) {
    exists i :: 0 <= i < |schemas| && schemas[i].title == title
  }

  function SchemaAgainst(newSchemas: seq<Schema>): Schema -> seq<Difference> {
    (prior: Schema) =>
      if HasTitle(newSchemas, prior.title) then FlatMap(newSchemas, MatchAgainst(prior))
      else [Difference(if prior.Hidden() then RemoveHiddenSchema else RemoveSchema, "")]
  }

  function SchemasDiffs(priorSchemas: seq<Schema>, newSchemas: seq<Schema>): seq<Difference> {
    FlatMap(priorSchemas, SchemaAgainst(newSchemas))
  }

  predicate ComparableSchema(prior: Schema, newSchemas: seq<Schema>) {
    forall b | b in newSchemas && prior.title == b.title :: Comparable(prior.properties, b.properties)
  }

  predicate ComparableSchemas(priorSchemas: seq<Schema>, newSchemas: seq<Schema>) {
    forall a | a in priorSchemas :: ComparableSchema(a, newSchemas)
  }

  method CompareSchema(prior: Schema, next: Schema, pointer: string) returns (response: Option<seq<Difference>>)
    requires WellFormed(prior.properties) && WellFormed(next.properties)
    ensures response
         == if Comparable(prior.properties, next.properties) then Some(SchemaDiffs(prior, next, pointer)) else None
  {
    response := CompareProperties(prior.properties, next.properties, pointer + "/" + next.title);
  }

  // The inner loop: every new schema with the same title is compared, and found says whether there is one.
  method CompareSchemaAgainst(prior: Schema, newSchemas: seq<Schema>)
    returns (found: bool, response: Option<seq<Difference>>)
    requires WellFormed(prior.properties) && forall s | s in newSchemas :: WellFormed(s.properties)
    ensures response.Some? <==> ComparableSchema(prior, newSchemas)
    ensures response.Some? ==> found == HasTitle(newSchemas, prior.title)
    ensures response.Some? ==> response.value == FlatMap(newSchemas, MatchAgainst(prior))
  {
    hide WellFormed, Comparable, PropertyDiffs;
    found := false;
    var diffs: seq<Difference> := [];
    for j := 0 to |newSchemas|
      invariant found == exists k :: 0 <= k < j && newSchemas[k].title == prior.title
      invariant diffs == FlatMap(newSchemas[..j], MatchAgainst(prior))
      invariant forall k | 0 <= k < j && prior.title == newSchemas[k].title ::
        Comparable(prior.properties, newSchemas[k].properties)
    {
      FlatMapStep(newSchemas, j, MatchAgainst(prior));
      if prior.title == newSchemas[j].title {
        found := true;
        var changes := CompareSchema(prior, newSchemas[j], "#");
        if changes.None? {
          return found, None;
        }
        diffs := diffs + changes.value;
      }
    }
    assert newSchemas[..|newSchemas|] == newSchemas;
    response := Some(diffs);
  }

  // One pass of the outer loop.
  method CompareOneSchema(schemaA: Schema, newSchemas: seq<Schema>) returns (response: Option<seq<Difference>>)
    requires WellFormed(schemaA.properties) && forall s | s in newSchemas :: WellFormed(s.properties)
    ensures response
         == if ComparableSchema(schemaA, newSchemas) then Some(SchemaAgainst(newSchemas)(schemaA)) else None
  {
    hide WellFormed, HasTitle, ComparableSchema, FlatMap;
    var found, changes := CompareSchemaAgainst(schemaA, newSchemas);
    if changes.None? {
      return None;
    }
    if found {
      response := changes;
    } else if schemaA.Hidden() {
      response := Some([Difference(RemoveHiddenSchema, "")]);
    } else {
      response := Some([Difference(RemoveSchema, "")]);
    }
  }

  method CompareSchemas(priorSchemas: seq<Schema>, newSchemas: seq<Schema>)
    returns (response: Option<seq<Difference>>)
    requires forall s | s in priorSchemas :: WellFormed(s.properties)
    requires forall s | s in newSchemas :: WellFormed(s.properties)
    ensures response
         == if ComparableSchemas(priorSchemas, newSchemas) then Some(SchemasDiffs(priorSchemas, newSchemas)) else None
  {
    hide WellFormed, SchemaAgainst, ComparableSchema;
    var diffs: seq<Difference> := [];
    for i := 0 to |priorSchemas|
      invariant diffs == FlatMap(priorSchemas[..i], SchemaAgainst(newSchemas))
      invariant forall k | 0 <= k < i :: ComparableSchema(priorSchemas[k], newSchemas)
    {
      FlatMapStep(priorSchemas, i, SchemaAgainst(newSchemas));
      var changes := CompareOneSchema(priorSchemas[i], newSchemas);
      if changes.None? {
        return None;
      }
      diffs := diffs + changes.value;
    }
    assert priorSchemas[..|priorSchemas|] == priorSchemas;
    response := Some(diffs);
  }

  // ---------- Sources ----------

  // The four branches of compareStream test the same inspected count, so at most one difference is pushed.
  function StreamDiffs(prior: StreamSet, next: StreamSet, pointer: string): seq<Difference> {
    When(prior.inspectedCount != next.inspectedCount, ChangeStreamStats, pointer)
    + When(prior.lastUpdateHash != next.lastUpdateHash && prior.lastUpdateHash.Some?,
           ChangeStreamUpdateHash, pointer)
  }

  // Array.find: the first stream set with the slug.
  function FindStreamSet(streamSets: seq<StreamSet>, slug: string): (r: Option<StreamSet>)
    ensures r.Some? ==> r.value in streamSets && r.value.slug == slug
    ensures r.None? ==> forall s | s in streamSets :: s.slug != slug
  {
    if streamSets == [] then None
    else if streamSets[0].slug == slug then Some(streamSets[0])
    else FindStreamSet(streamSets[1..], slug)
  }

  function StreamAgainst(newStreamSets: seq<StreamSet>, pointer: string): StreamSet -> seq<Difference> {
    (prior: StreamSet) =>
      var next := FindStreamSet(newStreamSets, prior.slug);
      if next.None? then [Difference(RemoveStreamSet, pointer)]
      else When(next.value.updateMethods != prior.updateMethods, ChangeStreamUpdateMethod, pointer)
           + StreamDiffs(prior, next.value, pointer)
  }

  function SourceHeadDiffs(prior: Source, next: Source, pointer: string): seq<Difference> {
    if prior.kind != next.kind then [Difference(ChangeSource, pointer)]
    else
      When(prior.configuration != next.configuration, ChangeSourceConfiguration, pointer)
      + When(prior.connectionConfiguration != next.connectionConfiguration, ChangeSourceConnection, pointer)
      + When(prior.credentialsIdentifier != next.credentialsIdentifier, ChangeSourceCredentials, pointer)
  }

  function SourceDiffs(prior: Source, next: Source, pointer: string): seq<Difference> {
    SourceHeadDiffs(prior, next, pointer) + FlatMap(prior.streamSets, StreamAgainst(next.streamSets, pointer))
  }

  function MatchSource(prior: Source): Source -> seq<Difference> {
    (next: Source) => if prior.slug == next.slug then SourceDiffs(prior, next, "#") else []
  }

  predicate HasSlug(sources: seq<Source>, slug: string) {
    exists i :: 0 <= i < |sources| && sources[i].slug == slug
  }

  function SourceAgainst(newSources: seq<Source>): Source -> seq<Difference> {
    (prior: Source) =>
      if HasSlug(newSources, prior.slug) then FlatMap(newSources, MatchSource(prior))
      else [Difference(RemoveSource, "")]
  }

  function SourcesDiffs(priorSources: seq<Source>, newSources: seq<Source>): seq<Difference> {
    FlatMap(priorSources, SourceAgainst(newSources))
  }

  // Two absent configurations are equal, an absent and a present one differ, and two present ones are compared
  // deeply, which is equality of the option values.
  predicate CompareConfigObjects(prior: Option<Configuration>, next: Option<Configuration>) {
    if prior.None? && next.None? then true
    else if prior.None? != next.None? then false
    else prior.value == next.value
  }

  method CompareStream(prior: StreamSet, next: StreamSet, pointer: string) returns (response: seq<Difference>)
    ensures response == StreamDiffs(prior, next, pointer)
  {
    response := PushIf([], prior.inspectedCount != next.inspectedCount, ChangeStreamStats, pointer);
    response := PushIf(response, prior.lastUpdateHash != next.lastUpdateHash && prior.lastUpdateHash.Some?,
                       ChangeStreamUpdateHash, pointer);
  }

  method CompareSourceHead(prior: Source, next: Source, pointer: string) returns (response: seq<Difference>)
    ensures response == SourceHeadDiffs(prior, next, pointer)
  {
    if prior.kind != next.kind {
      response := [Difference(ChangeSource, pointer)];
    } else {
      response := PushIf([], !CompareConfigObjects(prior.configuration, next.configuration),
                         ChangeSourceConfiguration, pointer);
      response := PushIf(response,
        !CompareConfigObjects(prior.connectionConfiguration, next.connectionConfiguration),
        ChangeSourceConnection, pointer);
      response := PushIf(response, prior.credentialsIdentifier != next.credentialsIdentifier,
                         ChangeSourceCredentials, pointer);
    }
  }

  method CompareSource(prior: Source, next: Source, pointer: string) returns (response: seq<Difference>)
    ensures response == SourceDiffs(prior, next, pointer)
  {
    response := CompareSourceHead(prior, next, pointer);
    ghost var head := response;
    for i := 0 to |prior.streamSets|
      invariant response == head + FlatMap(prior.streamSets[..i], StreamAgainst(next.streamSets, pointer))
    {
      var priorStreamSet := prior.streamSets[i];
      FlatMapStep(prior.streamSets, i, StreamAgainst(next.streamSets, pointer));
      Associative(head, FlatMap(prior.streamSets[..i], StreamAgainst(next.streamSets, pointer)),
                  StreamAgainst(next.streamSets, pointer)(priorStreamSet));
      var nextStreamSet := FindStreamSet(next.streamSets, priorStreamSet.slug);
      if nextStreamSet.None? {
        response := response + [Difference(RemoveStreamSet, pointer)];
        continue;
      }
      ghost var start := response;
      var methodDiffs := When(nextStreamSet.value.updateMethods != priorStreamSet.updateMethods,
                          ChangeStreamUpdateMethod, pointer);
      response := response + methodDiffs;
      var diffs := CompareStream(priorStreamSet, nextStreamSet.value, pointer);
      response := response + diffs;
      Associative(start, methodDiffs, diffs);
    }
    assert prior.streamSets[..|prior.streamSets|] == prior.streamSets;
  }

  // The inner loop: every new source with the same slug is compared, and found says whether there is one.
  method CompareSourceAgainst(prior: Source, newSources: seq<Source>)
    returns (found: bool, response: seq<Difference>)
    ensures found == HasSlug(newSources, prior.slug)
    ensures response == FlatMap(newSources, MatchSource(prior))
  {
    found, response := false, [];
    for j := 0 to |newSources|
      invariant found == exists k :: 0 <= k < j && newSources[k].slug == prior.slug
      invariant response == FlatMap(newSources[..j], MatchSource(prior))
    {
      FlatMapStep(newSources, j, MatchSource(prior));
      if prior.slug == newSources[j].slug {
        found := true;
        var diffs := CompareSource(prior, newSources[j], "#");
        response := response + diffs;
      }
    }
    assert newSources[..|newSources|] == newSources;
  }

  method CompareSources(priorSources: seq<Source>, newSources: seq<Source>) returns (response: seq<Difference>)
    ensures response == SourcesDiffs(priorSources, newSources)
  {
    response := [];
    for i := 0 to |priorSources|
      invariant response == FlatMap(priorSources[..i], SourceAgainst(newSources))
    {
      FlatMapStep(priorSources, i, SourceAgainst(newSources));
      var found, diffs := CompareSourceAgainst(priorSources[i], newSources);
      if found {
        response := response + diffs;
      } else {
        response := response + [Difference(RemoveSource, "")];
      }
    }
    assert priorSources[..|priorSources|] == priorSources;
  }

  // ---------- Packages ----------

  // Which of the package's own fields differ.
  datatype HeaderChanges = HeaderChanges(
    description: bool, displayName: bool, version: bool, readmeFile: bool, website: bool, contactEmail: bool,
    readmeMarkdown: bool, licenseFile: bool, licenseMarkdown: bool, generatedBy: bool, updatedDate: bool)

  function ChangedFields(a: PackageFile, b: PackageFile): HeaderChanges {
    HeaderChanges(
      a.description != b.description, a.displayName != b.displayName, a.version != b.version,
      a.readmeFile != b.readmeFile, a.website != b.website, a.contactEmail != b.contactEmail,
      a.readmeMarkdown != b.readmeMarkdown, a.licenseFile != b.licenseFile, a.licenseMarkdown != b.licenseMarkdown,
      a.generatedBy != b.generatedBy, a.updatedDate != b.updatedDate)
  }

  function HeaderDiffs(changed: HeaderChanges): seq<Difference> {
    When(changed.description, ChangePackageDescription, "#")
    + When(changed.displayName, ChangePackageDisplayName, "#")
    + When(changed.version, ChangeVersion, "#")
    + When(changed.readmeFile, ChangeReadmeFile, "#")
    + When(changed.website, ChangeWebsite, "#")
    + When(changed.contactEmail, ChangeContactEmail, "#")
    + When(changed.readmeMarkdown, ChangeReadmeMarkdown, "#")
    + When(changed.licenseFile, ChangeLicenseFile, "#")
    + When(changed.licenseMarkdown, ChangeLicenseMarkdown, "#")
    + When(changed.generatedBy, ChangeGeneratedBy, "#")
    + When(changed.updatedDate, ChangeUpdatedDate, "#")
  }

  function PackageDiffs(a: PackageFile, b: PackageFile): seq<Difference> {
    HeaderDiffs(ChangedFields(a, b)) + SchemasDiffs(a.schemas, b.schemas) + SourcesDiffs(a.sources, b.sources)
  }

  method CompareHeaders(a: PackageFile, b: PackageFile) returns (response: seq<Difference>)
    ensures response == HeaderDiffs(ChangedFields(a, b))
  {
    response := When(a.description != b.description, ChangePackageDescription, "#");
    response := PushIf(response, a.displayName != b.displayName, ChangePackageDisplayName, "#");
    response := PushIf(response, a.version != b.version, ChangeVersion, "#");
    response := PushIf(response, a.readmeFile != b.readmeFile, ChangeReadmeFile, "#");
    response := PushIf(response, a.website != b.website, ChangeWebsite, "#");
    response := PushIf(response, a.contactEmail != b.contactEmail, ChangeContactEmail, "#");
    response := PushIf(response, a.readmeMarkdown != b.readmeMarkdown, ChangeReadmeMarkdown, "#");
    response := PushIf(response, a.licenseFile != b.licenseFile, ChangeLicenseFile, "#");
    response := PushIf(response, a.licenseMarkdown != b.licenseMarkdown, ChangeLicenseMarkdown, "#");
    response := PushIf(response, a.generatedBy != b.generatedBy, ChangeGeneratedBy, "#");
    response := PushIf(response, a.updatedDate != b.updatedDate, ChangeUpdatedDate, "#");
  }

  // None where the comparison of two schemas throws.
  method ComparePackages(a: PackageFile, b: PackageFile) returns (response: Option<seq<Difference>>)
    requires WellFormedFile(a) && WellFormedFile(b)
    ensures response == if ComparableSchemas(a.schemas, b.schemas) then Some(PackageDiffs(a, b)) else None
  {
    var diffs := CompareHeaders(a, b);
    var schemaDiffs := CompareSchemas(a.schemas, b.schemas);
    if schemaDiffs.None? {
      return None;
    }
    diffs := diffs + schemaDiffs.value;
    var sourceDiffs := CompareSources(a.sources, b.sources);
    response := Some(diffs + sourceDiffs);
  }
}
