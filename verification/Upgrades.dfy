/**
 upgradePackageFile: the chain of in-place migrations from any earlier schema version to 0.32.1. The chain of ifs in
 the method is proved to be the iteration of single upgrade steps until none applies.
 */
module Upgrades {
  import opened Sequences
  import opened PackageFiles
  import opened PropertyRewrite

  datatype Release =
    | V0_2_0 | V0_3_0 | V0_4_0 | V0_5_0 | V0_6_0 | V0_7_0 | V0_8_0 | V0_8_1 | V0_9_0 | V0_31_5 | V0_32_1

  // $schema, split into what precedes the version number and the version number.
  datatype SchemaUrl = SchemaUrl(base: string, release: Release)

  const DOCS := "https://datapm.io/docs/package-file-schema-"

  datatype PublishMethod = SchemaOnly | SchemaAndData | SchemaProxyData

  datatype LegacySource = LegacySource(uri: string, kind: string, configuration: Option<Configuration>,
                                       lastUpdateHash: Option<string>)

  // After the step to 0.6.0 connectionConfiguration may be the same object as configuration.
  datatype Connection = NoConnection | SameObject | OwnConnection(Configuration)

  datatype UpgradedStream = UpgradedStream(slug: string, schemaTitles: seq<string>, lastUpdateHash: Option<string>,
                                           updateMethods: Option<seq<UpdateMethod>>)

  datatype UpgradedSource = UpgradedSource(
    slug: string,
    kind: string,
    uris: seq<string>,
    configuration: Option<Configuration>,
    connection: Connection,
    streamSets: seq<UpgradedStream>)
  {
    function ConnectionConfiguration(): Option<Configuration> {
      match connection
      case NoConnection => None
      case SameObject => configuration
      case OwnConnection(c) => Some(c)
    }
  }

  datatype SchemaFields = SchemaFields(title: string, source: Option<LegacySource>)

  // Everything the chain reads or writes; schemas and forests have one element for each schema.
  datatype Document = Document(
    schemaUrl: Option<SchemaUrl>,
    displayName: string,
    readmeFile: Option<string>,
    readmeMarkdown: Option<string>,
    licenseFile: Option<string>,
    licenseMarkdown: Option<string>,
    canonical: Option<bool>,
    publishMethods: Option<seq<Option<PublishMethod>>>,  // of each registry
    sources: Option<seq<UpgradedSource>>,
    schemas: seq<SchemaFields>,
    forests: seq<Forest>)

  // ---------- Single steps ----------

  // How far the file has come; the absent $schema of 0.1.0 is 0.
  function Rank(d: Document): nat {
    if d.schemaUrl.None? then 0
    else match d.schemaUrl.value.release
         case V0_2_0 => 1 case V0_3_0 => 2 case V0_4_0 => 3 case V0_5_0 => 4 case V0_6_0 => 5 case V0_7_0 => 6
         case V0_8_0 => 7 case V0_8_1 => 8 case V0_9_0 => 9 case V0_31_5 => 10 case V0_32_1 => 11
  }

  // Up to 0.8.1 the whole URL is compared, later only its end.
  predicate StepApplies(d: Document) {
    Rank(d) < 11 && (1 <= Rank(d) <= 8 ==> d.schemaUrl.value.base == DOCS)
  }

  function At(d: Document, release: Release): Document {
    d.(schemaUrl := Some(SchemaUrl(if d.schemaUrl.Some? then d.schemaUrl.value.base else DOCS, release)))
  }

  // The loop assigns sources anew for each schema that has a source, so the last one remains.
  function SourcesFromSchemas(schemas: seq<SchemaFields>, sources: Option<seq<UpgradedSource>>)
    : Option<seq<UpgradedSource>>
  {
    if schemas == [] then sources
    else
      SourcesFromSchemas(schemas[1..],
        if schemas[0].source.None? then sources
        else Some([SourceOf(schemas[0].title, schemas[0].source.value)]))
  }

  function SourceOf(title: string, source: LegacySource): UpgradedSource {
    UpgradedSource(source.uri, source.kind, [source.uri], source.configuration, NoConnection,
                   [UpgradedStream(source.uri, [title], source.lastUpdateHash, None)])
  }

  function WithoutSources(schemas: seq<SchemaFields>): seq<SchemaFields> {
    seq(|schemas|, i requires 0 <= i < |schemas| => schemas[i].(source := None))
  }

  function Each<T>(xs: seq<T>, f: T -> T): (r: seq<T>)
    ensures |r| == |xs| && forall i :: 0 <= i < |xs| ==> r[i] == f(xs[i])
  {
    seq(|xs|, i requires 0 <= i < |xs| => f(xs[i]))
  }

  function UrisIntoConfiguration(s: UpgradedSource): UpgradedSource {
    if s.configuration.None? then s
    else s.(configuration := Some(s.configuration.value["uris" := JsonArray(Strings(s.uris))]))
  }

  function Strings(xs: seq<string>): seq<Json> {
    seq(|xs|, i requires 0 <= i < |xs| => JsonString(xs[i]))
  }

  function ConfigurationAsConnection(s: UpgradedSource): UpgradedSource {
    s.(connection := if s.configuration.Some? then SameObject else OwnConnection(map[]))
  }

  function DefaultUpdateMethods(s: UpgradedSource): UpgradedSource {
    s.(streamSets := Each(s.streamSets, WithUpdateMethods))
  }

  function WithUpdateMethods(streamSet: UpgradedStream): UpgradedStream {
    if streamSet.updateMethods.None? then streamSet.(updateMethods := Some([])) else streamSet
  }

  function FilePatternToRegex(s: UpgradedSource): UpgradedSource {
    if s.configuration.Some? && "filePattern" in s.configuration.value
       && s.configuration.value["filePattern"] != JsonNull then
      s.(configuration := Some(s.configuration.value["fileRegex" := s.configuration.value["filePattern"]]
                               - {"filePattern"}))
    else s
  }

  function ReadmeAndLicense(d: Document): Document {
    var readmeFile := if d.readmeMarkdown.Some? then None else d.readmeFile;
    var licenseFile := if d.licenseMarkdown.Some? then None else d.licenseFile;
    d.(readmeFile := readmeFile, licenseFile := licenseFile,
       readmeMarkdown :=
         if readmeFile.None? && d.readmeMarkdown.None? then Some("# " + d.displayName) else d.readmeMarkdown,
       licenseMarkdown :=
         if licenseFile.None? && d.licenseMarkdown.None? then Some("No license defined") else d.licenseMarkdown)
  }

  // One migration; None where upgradePackageFile throws a TypeError.
  function Step(d: Document): Option<Document>
    requires StepApplies(d)
  {
    match Rank(d)
    case 0 => Some(At(d, V0_2_0))
    case 1 => Some(At(d.(sources := SourcesFromSchemas(d.schemas, d.sources), schemas := WithoutSources(d.schemas)),
                      V0_3_0))
    case 2 => Some(At(d, V0_4_0))
    case 3 =>
      if d.sources.None? || exists i :: 0 <= i < |d.sources.value| && d.sources.value[i].configuration.None? then None
      else Some(At(d.(sources := Some(Each(d.sources.value, UrisIntoConfiguration))), V0_5_0))
    case 4 =>
      if d.sources.None? then None
      else Some(At(d.(sources := Some(Each(d.sources.value, ConfigurationAsConnection))), V0_6_0))
    case 5 =>
      var methods := if d.publishMethods.None? then None
                     else Some(Each(d.publishMethods.value, (m: Option<PublishMethod>) => Some(SchemaOnly)));
      Some(At(d.(publishMethods := methods), V0_7_0))
    case 6 => Some(At(d.(canonical := if d.canonical.None? then Some(true) else d.canonical), V0_8_0))
    case 7 =>
      if d.sources.None? then None
      else Some(At(d.(sources := Some(Each(d.sources.value, DefaultUpdateMethods))), V0_8_1))
    case 8 =>
      if d.sources.None? then None
      else Some(At(d.(sources := Some(Each(d.sources.value, FilePatternToRegex)),
                      forests := Each(d.forests, TypedForest)), V0_9_0))
    case 9 =>
      if !(forall i | 0 <= i < |d.forests| :: RewritableForest(d.forests[i])) then None
      else Some(At(d.(forests := Each(d.forests, RewriteForest)), V0_31_5))
    case _ => Some(At(ReadmeAndLicense(d), V0_32_1))
  }

  lemma StepRaisesRank(d: Document)
    requires StepApplies(d)
    ensures Step(d).Some? ==> Rank(Step(d).value) == Rank(d) + 1
  {
  }

  // Steps until none applies.
  function Upgrade(d: Document): Option<Document>
    decreases 11 - Rank(d)
  {
    if !StepApplies(d) then Some(d)
    else
      var next := Step(d);
      if next.None? then None else Upgrade(next.value)
  }

  // ---------- Theorems ----------

  // URLs that the chain recognises at every step.
  predicate Recognised(d: Document) {
    d.schemaUrl.Some? ==> d.schemaUrl.value.base == DOCS || Rank(d) >= 9
  }

  // A recognised file ends at 0.32.1, and upgrading it again changes nothing.
  lemma {:induction false} UpgradeEndsAtLatest(d: Document)
    requires Recognised(d) && Upgrade(d).Some?
    ensures Rank(Upgrade(d).value) == 11
    ensures Upgrade(Upgrade(d).value) == Upgrade(d)
    decreases 11 - Rank(d)
  {
    hide Step, Rank, StepApplies, Recognised;
    NextStage(d);
    if StepApplies(d) {
      UpgradeEndsAtLatest(Step(d).value);
    }
  }

  lemma NextStage(d: Document)
    requires Recognised(d)
    ensures Rank(d) <= 11 && (StepApplies(d) <==> Rank(d) < 11)
    ensures StepApplies(d) && Step(d).Some? ==> Recognised(Step(d).value) && Rank(Step(d).value) == Rank(d) + 1
  {
    if StepApplies(d) {
      StepRaisesRank(d);
    }
  }

  predicate ExactlyOne<T>(a: Option<T>, b: Option<T>) {
    a.Some? != b.Some?
  }

  lemma StepKeepsTexts(d: Document)
    requires Rank(d) < 10 && StepApplies(d) && Step(d).Some?
    ensures var e := Step(d).value;
            e.readmeFile == d.readmeFile && e.readmeMarkdown == d.readmeMarkdown
            && e.licenseFile == d.licenseFile && e.licenseMarkdown == d.licenseMarkdown
            && e.displayName == d.displayName && Rank(e) == Rank(d) + 1
  {
  }

  // A file that enters at 0.31.5 or earlier leaves with its readme, and its license, in exactly one place: the
  // Markdown text it came with, or else the file it came with, or else a default text.
  lemma {:induction false} OneReadmeOneLicense(d: Document)
    requires Recognised(d) && Rank(d) <= 10 && Upgrade(d).Some?
    ensures var e := Upgrade(d).value;
            ExactlyOne(e.readmeFile, e.readmeMarkdown) && ExactlyOne(e.licenseFile, e.licenseMarkdown)
            && e.readmeFile == (if d.readmeMarkdown.Some? then None else d.readmeFile)
            && e.readmeMarkdown == (if d.readmeMarkdown.Some? then d.readmeMarkdown
                                    else if d.readmeFile.Some? then None else Some("# " + d.displayName))
            && e.licenseFile == (if d.licenseMarkdown.Some? then None else d.licenseFile)
            && e.licenseMarkdown == (if d.licenseMarkdown.Some? then d.licenseMarkdown
                                     else if d.licenseFile.Some? then None else Some("No license defined"))
    decreases 11 - Rank(d)
  {
    if Rank(d) < 10 {
      StepKeepsTexts(d);
      StepKeepsUpgradable(d);
      hide Step;
      OneReadmeOneLicense(Step(d).value);
    } else {
      var e := Step(d).value;
      assert Upgrade(d) == Upgrade(e) && Upgrade(e) == Some(e);
    }
  }

  // The sources that the step to 0.4.0 reads.
  function EarlySources(d: Document): Option<seq<UpgradedSource>> {
    if Rank(d) <= 1 then SourcesFromSchemas(d.schemas, d.sources) else d.sources
  }

  function LateForests(d: Document): seq<Forest> {
    if Rank(d) <= 8 then Each(d.forests, TypedForest) else d.forests
  }

  // What a file must bring so that no step throws.
  predicate Upgradable(d: Document) {
    (Rank(d) <= 8 ==> EarlySources(d).Some?)
    && (Rank(d) <= 3 ==> forall i | 0 <= i < |EarlySources(d).value| :: EarlySources(d).value[i].configuration.Some?)
    && (Rank(d) <= 9 ==> forall i | 0 <= i < |LateForests(d)| :: RewritableForest(LateForests(d)[i]))
  }

  lemma StepKeepsUpgradable(d: Document)
    requires Recognised(d) && StepApplies(d)
    ensures Step(d).Some? ==> Recognised(Step(d).value) && (Upgradable(Step(d).value) <==> Upgradable(d))
    ensures Step(d).None? ==> !Upgradable(d)
  {
    if Rank(d) == 3 && d.sources.Some? {
      assert EarlySources(d) == d.sources;
      if i :| 0 <= i < |d.sources.value| && d.sources.value[i].configuration.None? {
        assert EarlySources(d).value[i].configuration.None?;
      }
    }
    assert Rank(d) == 9 ==> LateForests(d) == d.forests;
    if Step(d).Some? {
      var e := Step(d).value;
      assert Rank(e) == Rank(d) + 1;
      assert Rank(d) < 3 ==> EarlySources(e) == EarlySources(d);
      assert EarlySources(e).Some? <==> EarlySources(d).Some?;
      assert Rank(d) < 9 ==> LateForests(e) == LateForests(d);
    }
  }

  lemma EndIsUpgradable(d: Document)
    requires Recognised(d) && !StepApplies(d)
    ensures Upgradable(d)
  {
  }

  // The upgrade goes through exactly for the files that bring this.
  lemma {:induction false} UpgradeSucceedsExactly(d: Document)
    requires Recognised(d)
    ensures Upgrade(d).Some? <==> Upgradable(d)
    decreases 11 - Rank(d)
  {
    hide Step, Upgradable, Recognised, StepApplies, Rank;
    NextStage(d);
    if StepApplies(d) {
      StepKeepsUpgradable(d);
      if Step(d).Some? {
        UpgradeSucceedsExactly(Step(d).value);
      }
    } else {
      EndIsUpgradable(d);
    }
  }

  // With several schemas that bring a source, only the last one's survives the step to 0.3.0.
  lemma {:induction false} OnlyLastSourceSurvives(schemas: seq<SchemaFields>, sources: Option<seq<UpgradedSource>>,
                                                  last: nat)
    requires last < |schemas| && schemas[last].source.Some?
    requires forall i :: last < i < |schemas| ==> schemas[i].source.None?
    ensures SourcesFromSchemas(schemas, sources) == Some([SourceOf(schemas[last].title, schemas[last].source.value)])
    decreases last
  {
    var first :=
      if schemas[0].source.None? then sources else Some([SourceOf(schemas[0].title, schemas[0].source.value)]);
    if last > 0 {
      OnlyLastSourceSurvives(schemas[1..], first, last - 1);
    } else {
      NoMoreSources(schemas[1..], first);
    }
  }

  lemma {:induction false} NoMoreSources(schemas: seq<SchemaFields>, sources: Option<seq<UpgradedSource>>)
    requires forall i :: 0 <= i < |schemas| ==> schemas[i].source.None?
    ensures SourcesFromSchemas(schemas, sources) == sources
  {
    if schemas != [] {
      NoMoreSources(schemas[1..], sources);
    }
  }

  // What the whole chain makes of a source that enters at 0.4.0 or earlier.
  function FullyUpgraded(s: UpgradedSource): UpgradedSource {
    FilePatternToRegex(DefaultUpdateMethods(ConfigurationAsConnection(UrisIntoConfiguration(s))))
  }

  // The sources from 0.4.0 on are mapped one by one, so none is lost, added or moved.
  lemma UpgradedSources(d: Document)
    requires Recognised(d) && Rank(d) <= 3 && Upgrade(d).Some?
    ensures EarlySources(d).Some?
    ensures Upgrade(d).value.sources == Some(Each(EarlySources(d).value, FullyUpgraded))
  {
    UpgradeSucceedsExactly(d);
    SourcesFrom(d);
    assert Upgrade(d).value.sources.value == Each(EarlySources(d).value, FullyUpgraded);
  }

  // The part of that map that is still to come at each stage.
  function Remaining(rank: nat, s: UpgradedSource): UpgradedSource {
    if rank <= 3 then FullyUpgraded(s)
    else if rank == 4 then FilePatternToRegex(DefaultUpdateMethods(ConfigurationAsConnection(s)))
    else if rank <= 7 then FilePatternToRegex(DefaultUpdateMethods(s))
    else if rank == 8 then FilePatternToRegex(s)
    else s
  }

  lemma {:induction false} SourcesFrom(d: Document)
    requires Recognised(d) && Upgrade(d).Some?
    ensures EarlySources(d).Some? ==>
      var before, after := EarlySources(d).value, Upgrade(d).value.sources;
      after.Some? && |after.value| == |before|
      && forall i :: 0 <= i < |before| ==> after.value[i] == Remaining(Rank(d), before[i])
    decreases 11 - Rank(d)
  {
    if StepApplies(d) {
      StepRaisesRank(d);
      StepKeepsUpgradable(d);
      SourcesFrom(Step(d).value);
    }
  }

  // A source of an early file comes out with its addresses in its configuration, the same configuration for
  // connecting, update methods everywhere, and no file pattern under the old name.
  lemma FullyUpgradedSource(s: UpgradedSource)
    requires s.configuration.Some?
    ensures var t := FullyUpgraded(s);
      t.slug == s.slug && t.kind == s.kind && t.configuration.Some?
      && t.ConnectionConfiguration() == t.configuration
      && "uris" in t.configuration.value && t.configuration.value["uris"] == JsonArray(Strings(s.uris))
      && |t.streamSets| == |s.streamSets|
      && (forall i | 0 <= i < |s.streamSets| ::
            t.streamSets[i] == s.streamSets[i].(updateMethods := t.streamSets[i].updateMethods)
            && t.streamSets[i].updateMethods == Some(s.streamSets[i].updateMethods.GetOr([])))
      && ("filePattern" in t.configuration.value ==> t.configuration.value["filePattern"] == JsonNull)
      && ("filePattern" in s.configuration.value && s.configuration.value["filePattern"] != JsonNull ==>
            "fileRegex" in t.configuration.value
            && t.configuration.value["fileRegex"] == s.configuration.value["filePattern"])
  {
    assert "uris" != "filePattern" && "uris" != "fileRegex" by {
      assert |"uris"| == 4 && |"filePattern"| == 11 && |"fileRegex"| == 9;
    }
    assert "filePattern" != "fileRegex" by { assert |"filePattern"| == 11 && |"fileRegex"| == 9; }
  }

  // What the rest of the chain makes of a source, field by field and key by key, from whatever version on.
  lemma RemainingSource(rank: nat, s: UpgradedSource)
    requires rank <= 3 ==> s.configuration.Some?
    ensures var t := Remaining(rank, s);
      t.slug == s.slug && t.kind == s.kind && t.uris == s.uris
      && t.connection == (if rank > 4 then s.connection
                          else if s.configuration.Some? then SameObject else OwnConnection(map[]))
      && |t.streamSets| == |s.streamSets|
      && (forall i | 0 <= i < |s.streamSets| ::
            t.streamSets[i] == if rank > 7 then s.streamSets[i]
                               else s.streamSets[i].(updateMethods := Some(s.streamSets[i].updateMethods.GetOr([]))))
      && (t.configuration.Some? <==> s.configuration.Some?)
      && (s.configuration.Some? ==> ConfigurationUpgraded(rank, s.uris, s.configuration.value, t.configuration.value))
  {
    assert "uris" != "filePattern" && "uris" != "fileRegex" by {
      assert |"uris"| == 4 && |"filePattern"| == 11 && |"fileRegex"| == 9;
    }
    assert "filePattern" != "fileRegex" by { assert |"filePattern"| == 11 && |"fileRegex"| == 9; }
  }

  predicate SameAt(was: Configuration, now: Configuration, key: string) {
    (key in now <==> key in was) && (key in was ==> now[key] == was[key])
  }

  // The addresses are there, a file pattern has become a file regex, and every other key is as it was.
  ghost predicate ConfigurationUpgraded(rank: nat, uris: seq<string>, was: Configuration, now: Configuration) {
    (if rank <= 3 then "uris" in now && now["uris"] == JsonArray(Strings(uris)) else SameAt(was, now, "uris"))
    && (if rank <= 8 && "filePattern" in was && was["filePattern"] != JsonNull
        then "filePattern" !in now && "fileRegex" in now && now["fileRegex"] == was["filePattern"]
        else SameAt(was, now, "filePattern") && SameAt(was, now, "fileRegex"))
    && forall key :: key != "uris" && key != "filePattern" && key != "fileRegex" ==> SameAt(was, now, key)
  }

  // In a file that succeeds, from whatever version, each source is upgraded in its place.
  lemma UpgradedSourceFields(d: Document, i: nat)
    requires Recognised(d) && Upgrade(d).Some? && EarlySources(d).Some? && i < |EarlySources(d).value|
    ensures var s, after := EarlySources(d).value[i], Upgrade(d).value.sources;
      after.Some? && |after.value| == |EarlySources(d).value|
      && var t := after.value[i];
         t.slug == s.slug && t.kind == s.kind && t.uris == s.uris
         && t.connection == (if Rank(d) > 4 then s.connection
                             else if s.configuration.Some? then SameObject else OwnConnection(map[]))
         && |t.streamSets| == |s.streamSets|
         && (forall k | 0 <= k < |s.streamSets| ::
               t.streamSets[k] == if Rank(d) > 7 then s.streamSets[k]
                                  else s.streamSets[k].(updateMethods := Some(s.streamSets[k].updateMethods.GetOr([]))))
         && (t.configuration.Some? <==> s.configuration.Some?)
         && (s.configuration.Some? ==>
               ConfigurationUpgraded(Rank(d), s.uris, s.configuration.value, t.configuration.value))
  {
    UpgradeSucceedsExactly(d);
    SourcesFrom(d);
    assert Rank(d) <= 3 ==> EarlySources(d).value[i].configuration.Some?;
    hide Upgrade, Rank, EarlySources, Remaining, ConfigurationUpgraded, Recognised, Upgradable;
    RemainingSource(Rank(d), EarlySources(d).value[i]);
  }

  // A file from before 0.3.0 ends with one source, that of its last schema with one.
  lemma ExtractedSource(d: Document, last: nat)
    requires Recognised(d) && Rank(d) <= 1 && Upgrade(d).Some?
    requires last < |d.schemas| && d.schemas[last].source.Some?
    requires forall i :: last < i < |d.schemas| ==> d.schemas[i].source.None?
    ensures var source, after := d.schemas[last].source.value, Upgrade(d).value.sources;
      after.Some? && |after.value| == 1
      && var t := after.value[0];
         t.slug == source.uri && t.kind == source.kind && t.uris == [source.uri] && t.connection == SameObject
         && t.streamSets == [UpgradedStream(source.uri, [d.schemas[last].title], source.lastUpdateHash, Some([]))]
         && source.configuration.Some? && t.configuration.Some?
         && ConfigurationUpgraded(0, [source.uri], source.configuration.value, t.configuration.value)
  {
    OnlyLastSourceSurvives(d.schemas, d.sources, last);
    UpgradeSucceedsExactly(d);
    UpgradedSourceFields(d, 0);
    assert EarlySources(d).value[0].configuration.Some?;
  }

  // ---------- The other fields ----------

  lemma StepFields(d: Document)
    requires StepApplies(d) && Step(d).Some?
    ensures var e := Step(d).value;
      e.displayName == d.displayName
      && e.schemaUrl.Some? && e.schemaUrl.value.base == (if d.schemaUrl.Some? then d.schemaUrl.value.base else DOCS)
      && e.canonical == (if Rank(d) == 6 then Some(d.canonical.GetOr(true)) else d.canonical)
      && (if Rank(d) == 5 && d.publishMethods.Some?
          then e.publishMethods.Some? && |e.publishMethods.value| == |d.publishMethods.value|
               && forall i | 0 <= i < |d.publishMethods.value| :: e.publishMethods.value[i] == Some(SchemaOnly)
          else e.publishMethods == d.publishMethods)
      && |e.schemas| == |d.schemas|
      && (forall i | 0 <= i < |d.schemas| ::
            e.schemas[i] == if Rank(d) == 1 then d.schemas[i].(source := None) else d.schemas[i])
      && (Rank(d) == 10 ==> e.forests == d.forests)
  {
  }

  // What becomes of the fields that one step changes, whatever version the file enters at: no schema keeps a source
  // from before 0.3.0, every registry from before 0.7.0 publishes the schema only, a file from before 0.8.0 is
  // canonical unless it says otherwise, and later files keep what they have.
  lemma {:induction false} UpgradedFields(d: Document)
    requires Recognised(d) && Upgrade(d).Some?
    ensures var e := Upgrade(d).value;
      e.displayName == d.displayName
      && e.schemaUrl == Some(SchemaUrl(if d.schemaUrl.Some? then d.schemaUrl.value.base else DOCS, V0_32_1))
      && e.canonical == (if Rank(d) <= 6 then Some(d.canonical.GetOr(true)) else d.canonical)
      && (if Rank(d) <= 5 && d.publishMethods.Some?
          then e.publishMethods.Some? && |e.publishMethods.value| == |d.publishMethods.value|
               && forall i | 0 <= i < |d.publishMethods.value| :: e.publishMethods.value[i] == Some(SchemaOnly)
          else e.publishMethods == d.publishMethods)
      && |e.schemas| == |d.schemas|
      && (forall i | 0 <= i < |d.schemas| ::
            e.schemas[i] == if Rank(d) <= 1 then d.schemas[i].(source := None) else d.schemas[i])
      && (Rank(d) >= 10 ==> e.forests == d.forests) && (Rank(d) == 11 ==> e == d)
    decreases 11 - Rank(d)
  {
    NextStage(d);
    if StepApplies(d) {
      hide Step, Recognised, StepApplies;
      StepFields(d);
      UpgradedFields(Step(d).value);
    }
  }

  // A file from 0.9.0 keeps all its paths and ends without a legacy field, if its children are below objects.
  lemma UpgradeKeepsPaths(d: Document, i: nat, path: seq<string>)
    requires Recognised(d) && Rank(d) == 9 && Upgrade(d).Some?
    requires i < |d.forests| && LegacyForest(d.forests[i])
    ensures |Upgrade(d).value.forests| == |d.forests| && CurrentForest(Upgrade(d).value.forests[i])
    ensures var before, after := ReadLegacy(d.forests[i], path), ReadCurrent(Upgrade(d).value.forests[i], path);
            (before.Some? <==> after.Some?) && (before.Some? ==> after.value.types == before.value.types)
  {
    UpgradedForests(d);
    PathsPreserved(d.forests[i], path);
    LegacyIsBelowObjects(d.forests[i]);
    RewriteIsCompleteExactly(d.forests[i]);
  }

  // The property trees of the result: typed at the top level for early files, and rewritten for all up to 0.9.0.
  lemma {:induction false} UpgradedForests(d: Document)
    requires Recognised(d) && Rank(d) <= 9 && Upgrade(d).Some?
    ensures Upgrade(d).value.forests == Each(LateForests(d), RewriteForest)
    decreases 11 - Rank(d)
  {
    if Rank(d) < 9 {
      UpgradedForests(Step(d).value);
    } else {
      var e := Step(d).value;
      assert Upgrade(e) == Upgrade(Step(e).value) && Upgrade(Step(e).value) == Step(e);
    }
  }

  // The type has the statistics that valueTypes had under the text, and is there only if they were.
  predicate Filed(valueTypes: Option<map<string, Statistics>>, text: string, types: map<TypeName, Statistics>,
                  t: TypeName)
  {
    if valueTypes.Some? && text in valueTypes.value then t in types && types[t] == valueTypes.value[text]
    else t !in types
  }

  // A top-level property of a file that enters at 0.8.1 or earlier ends with exactly the nine known types that its
  // valueTypes had, each with its statistics. Other names are dropped, valueTypes is gone, and the rest is kept.
  lemma UpgradedTypes(d: Document, i: nat, j: nat)
    requires Recognised(d) && Rank(d) <= 8 && Upgrade(d).Some?
    requires i < |d.forests| && j < |d.forests[i].entries|
    ensures var forests := Upgrade(d).value.forests;
      |forests| == |d.forests| && |forests[i].entries| == |d.forests[i].entries|
      && var before, after := d.forests[i].entries[j], forests[i].entries[j];
         after.key == before.key && after.tree.attributes == before.tree.attributes
         && after.tree.valueTypes == None && after.tree.types.Some?
         && var was, now := before.tree.valueTypes, after.tree.types.value;
            Filed(was, "integer", now, IntegerType) && Filed(was, "number", now, NumberType)
            && Filed(was, "string", now, StringType) && Filed(was, "boolean", now, BooleanType)
            && Filed(was, "date", now, DateType) && Filed(was, "date-time", now, DateTimeType)
            && Filed(was, "object", now, ObjectType) && Filed(was, "array", now, ArrayType)
            && Filed(was, "null", now, NullType)
  {
    hide Step, Upgrade, Recognised, RewriteForest, TypedForest;
    UpgradedForests(d);
    assert LateForests(d) == Each(d.forests, TypedForest);
    var entry := d.forests[i].entries[j];
    assert Upgrade(d).value.forests[i].entries[j] == Named(entry.key, Rewrite(Typed(entry.tree)));
  }

  // ---------- The file object ----------

  // after is on before's way through the chain, and no step below the rank applies to it any more.
  ghost predicate Reached(before: Document, after: Document, rank: nat) {
    Upgrade(after) == Upgrade(before) && (StepApplies(after) ==> Rank(after) >= rank)
  }

  lemma StepTaken(before: Document, d: Document, next: Document)
    requires Upgrade(d) == Upgrade(before) && StepApplies(d) && Step(d) == Some(next)
    ensures Upgrade(next) == Upgrade(before) && Rank(next) == Rank(d) + 1
  {
    StepRaisesRank(d);
    hide Step;
  }

  lemma StepThrows(before: Document, d: Document)
    requires Upgrade(d) == Upgrade(before) && StepApplies(d) && Step(d).None?
    ensures Upgrade(before).None?
  {
  }

  class PackageDocument {
    var schemaUrl: Option<SchemaUrl>
    const displayName: string
    var readmeFile: Option<string>
    var readmeMarkdown: Option<string>
    var licenseFile: Option<string>
    var licenseMarkdown: Option<string>
    var canonical: Option<bool>
    var publishMethods: Option<seq<Option<PublishMethod>>>
    var sources: Option<seq<UpgradedSource>>
    var schemas: seq<SchemaFields>
    var tables: seq<seq<Entry>>  // the properties of each schema
    ghost var forests: seq<Forest>  // the trees they stand for
    ghost var footprints: seq<set<object>>  // and the objects they consist of

    ghost function Repr(): set<object>
      reads this
    {
      set i, o | 0 <= i < |footprints| && o in footprints[i] :: o
    }

    ghost predicate Valid()
      reads this, Repr()
    {
      |tables| == |forests| == |footprints|
      && (forall i | 0 <= i < |tables| ::
            footprints[i] <= Repr() && this !in footprints[i] && ValidTable(tables[i], forests[i], footprints[i]))
      && (forall i, j | 0 <= i < j < |footprints| :: footprints[i] !! footprints[j])
    }

    ghost function View(): Document
      reads this
    {
      Document(schemaUrl, displayName, readmeFile, readmeMarkdown, licenseFile, licenseMarkdown, canonical,
               publishMethods, sources, schemas, forests)
    }

    method SourcesOutOfSchemas()
      modifies this`sources, this`schemas
      ensures sources == SourcesFromSchemas(old(schemas), old(sources)) && schemas == WithoutSources(old(schemas))
    {
      for i := 0 to |schemas|
        invariant |schemas| == |old(schemas)|
        invariant SourcesFromSchemas(old(schemas)[i..], sources) == SourcesFromSchemas(old(schemas), old(sources))
        invariant forall j | 0 <= j < i :: schemas[j] == old(schemas)[j].(source := None)
        invariant forall j | i <= j < |schemas| :: schemas[j] == old(schemas)[j]
      {
        assert old(schemas)[i..][0] == schemas[i] && old(schemas)[i..][1..] == old(schemas)[i + 1..];
        if schemas[i].source.Some? {
          sources := Some([SourceOf(schemas[i].title, schemas[i].source.value)]);
          schemas := schemas[i := schemas[i].(source := None)];
        }
      }
    }

    // A loop over sources that rewrites each in place.
    method RewriteSources(f: UpgradedSource -> UpgradedSource)
      requires sources.Some?
      modifies this`sources
      ensures sources == Some(Each(old(sources).value, f))
    {
      for i := 0 to |sources.value|
        invariant sources.Some? && |sources.value| == |old(sources).value|
        invariant forall j | 0 <= j < i :: sources.value[j] == f(old(sources).value[j])
        invariant forall j | i <= j < |sources.value| :: sources.value[j] == old(sources).value[j]
      {
        sources := Some(sources.value[i := f(sources.value[i])]);
      }
      assert sources.value == Each(old(sources).value, f);
    }

    method RewriteReadmeAndLicense()
      modifies this`readmeFile, this`readmeMarkdown, this`licenseFile, this`licenseMarkdown
      ensures View() == ReadmeAndLicense(old(View()))
    {
      if readmeFile.Some? && readmeMarkdown.Some? {
        readmeFile := None;
      }
      if licenseFile.Some? && licenseMarkdown.Some? {
        licenseFile := None;
      }
      if readmeFile.None? && readmeMarkdown.None? {
        readmeMarkdown := Some("# " + displayName);
      }
      if licenseFile.None? && licenseMarkdown.None? {
        licenseMarkdown := Some("No license defined");
      }
    }

    method TypeSchemas()
      requires Valid()
      modifies this`forests, Repr()
      ensures Valid() && footprints == old(footprints) && tables == old(tables)
      ensures forests == Each(old(forests), TypedForest)
    {
      hide TypedForest, ValidTable;
      ghost var before := forests;
      for i := 0 to |tables|
        invariant |forests| == |tables|
        invariant forall j | 0 <= j < i :: forests[j] == TypedForest(before[j])
        invariant forall j | i <= j < |tables| :: forests[j] == before[j]
        invariant Valid()
      {
        TypeProperties(tables[i], forests[i], footprints[i]);
        forests := forests[i := TypedForest(forests[i])];
      }
      assert forests == Each(before, TypedForest);
    }

    method RewriteSchemas() returns (ok: bool)
      requires Valid()
      modifies this`forests, Repr()
      ensures ok <==> forall i | 0 <= i < |old(forests)| :: RewritableForest(old(forests)[i])
      ensures ok ==> Valid() && footprints == old(footprints) && tables == old(tables)
      ensures ok ==> forests == Each(old(forests), RewriteForest)
    {
      hide RewriteForest, RewritableForest, ValidTable;
      ghost var before := forests;
      for i := 0 to |tables|
        invariant |forests| == |tables|
        invariant forall j | 0 <= j < i :: forests[j] == RewriteForest(before[j]) && RewritableForest(before[j])
        invariant forall j | i <= j < |tables| :: forests[j] == before[j]
        invariant Valid()
      {
        ok := RecurseProperties(tables[i], forests[i], footprints[i]);
        if !ok {
          return;
        }
        forests := forests[i := RewriteForest(forests[i])];
      }
      assert forests == Each(before, RewriteForest);
      ok := true;
    }

    // The steps up to 0.4.0.
    method UpgradeTo040(ghost before: Document) returns (ok: bool)
      requires Valid() && Reached(before, View(), 0)
      modifies this, Repr()
      ensures !ok ==> Upgrade(before).None?
      ensures ok ==> Valid() && Repr() == old(Repr()) && Reached(before, View(), 3)
    {
      hide Upgrade, ValidTable;
      ghost var d := View();
      if schemaUrl.None? {
        schemaUrl := Some(SchemaUrl(DOCS, V0_2_0));
        StepTaken(before, d, View());
      }
      d := View();
      if schemaUrl == Some(SchemaUrl(DOCS, V0_2_0)) {
        schemaUrl := Some(SchemaUrl(DOCS, V0_3_0));
        SourcesOutOfSchemas();
        StepTaken(before, d, View());
      }
      d := View();
      if schemaUrl == Some(SchemaUrl(DOCS, V0_3_0)) {
        schemaUrl := Some(SchemaUrl(DOCS, V0_4_0));
        StepTaken(before, d, View());
      }
      d := View();
      ok := true;
    }

    // The step to 0.5.0.
    method UpgradeTo050(ghost before: Document) returns (ok: bool)
      requires Valid() && Reached(before, View(), 3)
      modifies this, Repr()
      ensures !ok ==> Upgrade(before).None?
      ensures ok ==> Valid() && Repr() == old(Repr()) && Reached(before, View(), 4)
    {
      hide Upgrade, ValidTable;
      ghost var d := View();
      if schemaUrl == Some(SchemaUrl(DOCS, V0_4_0)) {
        schemaUrl := Some(SchemaUrl(DOCS, V0_5_0));
        if sources.None? || exists i :: 0 <= i < |sources.value| && sources.value[i].configuration.None? {
          StepThrows(before, d);
          return false;
        }
        RewriteSources(UrisIntoConfiguration);
        StepTaken(before, d, View());
      }
      d := View();
      ok := true;
    }

    // The steps up to 0.7.0.
    method UpgradeTo070(ghost before: Document) returns (ok: bool)
      requires Valid() && Reached(before, View(), 4)
      modifies this, Repr()
      ensures !ok ==> Upgrade(before).None?
      ensures ok ==> Valid() && Repr() == old(Repr()) && Reached(before, View(), 6)
    {
      hide Upgrade, ValidTable;
      ghost var d := View();
      if schemaUrl == Some(SchemaUrl(DOCS, V0_5_0)) {
        schemaUrl := Some(SchemaUrl(DOCS, V0_6_0));
        if sources.None? {
          StepThrows(before, d);
          return false;
        }
        RewriteSources(ConfigurationAsConnection);
        StepTaken(before, d, View());
      }
      d := View();
      if schemaUrl == Some(SchemaUrl(DOCS, V0_6_0)) {
        schemaUrl := Some(SchemaUrl(DOCS, V0_7_0));
        if publishMethods.Some? {
          publishMethods := Some(Each(publishMethods.value, (m: Option<PublishMethod>) => Some(SchemaOnly)));
        }
        StepTaken(before, d, View());
      }
      d := View();
      ok := true;
    }

    // The steps up to 0.8.1.
    method UpgradeTo081(ghost before: Document) returns (ok: bool)
      requires Valid() && Reached(before, View(), 6)
      modifies this, Repr()
      ensures !ok ==> Upgrade(before).None?
      ensures ok ==> Valid() && Repr() == old(Repr()) && Reached(before, View(), 8)
    {
      hide Upgrade, ValidTable;
      ghost var d := View();
      if schemaUrl == Some(SchemaUrl(DOCS, V0_7_0)) {
        schemaUrl := Some(SchemaUrl(DOCS, V0_8_0));
        if canonical.None? {
          canonical := Some(true);
        }
        StepTaken(before, d, View());
      }
      d := View();
      if schemaUrl == Some(SchemaUrl(DOCS, V0_8_0)) {
        schemaUrl := Some(SchemaUrl(DOCS, V0_8_1));
        if sources.None? {
          StepThrows(before, d);
          return false;
        }
        RewriteSources(DefaultUpdateMethods);
        StepTaken(before, d, View());
      }
      d := View();
      ok := true;
    }

    // The step to 0.9.0.
    method UpgradeTo090(ghost before: Document) returns (ok: bool)
      requires Valid() && Reached(before, View(), 8)
      modifies this, Repr()
      ensures !ok ==> Upgrade(before).None?
      ensures ok ==> Valid() && Repr() == old(Repr()) && Reached(before, View(), 9)
    {
      hide Upgrade, ValidTable;
      ghost var d := View();
      if schemaUrl == Some(SchemaUrl(DOCS, V0_8_1)) {
        schemaUrl := Some(SchemaUrl(DOCS, V0_9_0));
        if sources.None? {
          StepThrows(before, d);
          return false;
        }
        RewriteSources(FilePatternToRegex);
        TypeSchemas();
        StepTaken(before, d, View());
      }
      d := View();
      ok := true;
    }

    // The step to 0.31.5.
    method UpgradeTo0315(ghost before: Document) returns (ok: bool)
      requires Valid() && Reached(before, View(), 9)
      modifies this, Repr()
      ensures !ok ==> Upgrade(before).None?
      ensures ok ==> Valid() && Repr() == old(Repr()) && Reached(before, View(), 10)
    {
      hide Upgrade, ValidTable, RewriteForest, RewritableForest;
      ghost var d := View();
      if schemaUrl.Some? && schemaUrl.value.release == V0_9_0 {
        schemaUrl := Some(schemaUrl.value.(release := V0_31_5));
        ok := RewriteSchemas();
        if !ok {
          StepThrows(before, d);
          return;
        }
        StepTaken(before, d, View());
      }
      d := View();
      ok := true;
    }

    // The step to 0.32.1.
    method UpgradeTo0321(ghost before: Document) returns (ok: bool)
      requires Valid() && Reached(before, View(), 10)
      modifies this, Repr()
      ensures !ok ==> Upgrade(before).None?
      ensures ok ==> Valid() && Repr() == old(Repr()) && Reached(before, View(), 11)
    {
      hide Upgrade, ValidTable;
      ghost var d := View();
      if schemaUrl.Some? && schemaUrl.value.release == V0_31_5 {
        schemaUrl := Some(schemaUrl.value.(release := V0_32_1));
        RewriteReadmeAndLicense();
        StepTaken(before, d, View());
      }
      d := View();
      ok := true;
    }

    // ok is false where the code throws a TypeError.
    method UpgradePackageFile() returns (ok: bool)
      requires Valid()
      modifies this, Repr()
      ensures ok <==> Upgrade(old(View())).Some?
      ensures ok ==> Valid() && View() == Upgrade(old(View())).value
    {
      ghost var before := View();
      ok := UpgradeTo040(before);
      if ok {
        ok := UpgradeTo050(before);
      }
      if ok {
        ok := UpgradeTo070(before);
      }
      if ok {
        ok := UpgradeTo081(before);
      }
      if ok {
        ok := UpgradeTo090(before);
      }
      if ok {
        ok := UpgradeTo0315(before);
      }
      if ok {
        ok := UpgradeTo0321(before);
      }
    }
  }
}
