/**
 Laws of the comparison as a whole: a file compared with itself shows nothing, swapping the two sides swaps
 additions with removals, and the order in which things are listed does not matter.
 */
module ComparisonLaws {
  import opened Sequences
  import opened PackageFiles
  import opened Comparison
  import opened Compatibilities
  import opened Contracts

  // ---------- A file compared with itself ----------

  lemma {:induction false} PropertiesReflexive(properties: Properties, pointer: string)
    requires WellFormed(properties)
    ensures PropertyDiffs(properties, properties, pointer) == []
    decreases properties
  {
    forall key | key in properties.at
      ensures ForwardAt(properties, properties, pointer)(key) == []
      ensures ReverseAt(properties, properties, pointer)(key) == []
    {
      if properties.at[key].Children().Some? {
        PropertiesReflexive(properties.at[key].Children().value, PropertyPointer(pointer, key));
      }
    }
    FlatMapEmpty(properties.keys, ForwardAt(properties, properties, pointer));
    FlatMapEmpty(properties.keys, ReverseAt(properties, properties, pointer));
  }

  // Titles and slugs name one thing each.
  ghost predicate UniqueNames(file: PackageFile) {
    (forall i, j :: 0 <= i < j < |file.schemas| ==> file.schemas[i].title != file.schemas[j].title)
    && (forall i, j :: 0 <= i < j < |file.sources| ==> file.sources[i].slug != file.sources[j].slug)
    && (forall source | source in file.sources :: UniqueStreamSets(source))
  }

  ghost predicate UniqueStreamSets(source: Source) {
    forall i, j :: 0 <= i < j < |source.streamSets| ==> source.streamSets[i].slug != source.streamSets[j].slug
  }

  // Two lists of schemas that differ at most in their hidden flags.
  ghost predicate SameUpToHiding(a: seq<Schema>, b: seq<Schema>) {
    |a| == |b| && forall i :: 0 <= i < |a| ==> a[i].title == b[i].title && a[i].properties == b[i].properties
  }

  lemma SchemasReflexive(a: seq<Schema>, b: seq<Schema>)
    requires forall s | s in a :: WellFormed(s.properties)
    requires forall i, j :: 0 <= i < j < |a| ==> a[i].title != a[j].title
    requires SameUpToHiding(a, b)
    ensures SchemasDiffs(a, b) == []
  {
    forall s | s in a ensures SchemaAgainst(b)(s) == [] {
      SchemaMatchesOnlyItself(a, b, s);
      FlatMapEmpty(b, MatchAgainst(s));
    }
    FlatMapEmpty(a, SchemaAgainst(b));
  }

  lemma SchemaMatchesOnlyItself(a: seq<Schema>, b: seq<Schema>, s: Schema)
    requires forall i, j :: 0 <= i < j < |a| ==> a[i].title != a[j].title
    requires SameUpToHiding(a, b) && s in a && WellFormed(s.properties)
    ensures HasTitle(b, s.title)
    ensures forall t :: t in b ==> MatchAgainst(s)(t) == []
  {
    hide PropertyDiffs, WellFormed;
    var i :| 0 <= i < |a| && a[i] == s;
    assert b[i].title == s.title;
    forall t | t in b ensures MatchAgainst(s)(t) == [] {
      var j :| 0 <= j < |b| && b[j] == t;
      if s.title == t.title {
        assert a[i].title == a[j].title;
        PropertiesReflexive(s.properties, "#" + "/" + t.title);
      }
    }
  }

  lemma {:induction false} FindsItself(streamSets: seq<StreamSet>, i: nat)
    requires i < |streamSets|
    requires forall i, j :: 0 <= i < j < |streamSets| ==> streamSets[i].slug != streamSets[j].slug
    ensures FindStreamSet(streamSets, streamSets[i].slug) == Some(streamSets[i])
  {
    if i > 0 {
      assert streamSets[0].slug != streamSets[i].slug;
      FindsItself(streamSets[1..], i - 1);
    }
  }

  lemma SourceReflexive(source: Source, pointer: string)
    requires UniqueStreamSets(source)
    ensures SourceDiffs(source, source, pointer) == []
  {
    var streams := StreamAgainst(source.streamSets, pointer);
    forall s | s in source.streamSets ensures streams(s) == [] {
      var i :| 0 <= i < |source.streamSets| && source.streamSets[i] == s;
      FindsItself(source.streamSets, i);
    }
    FlatMapEmpty(source.streamSets, streams);
  }

  lemma SourcesReflexive(sources: seq<Source>)
    requires forall i, j :: 0 <= i < j < |sources| ==> sources[i].slug != sources[j].slug
    requires forall source | source in sources :: UniqueStreamSets(source)
    ensures SourcesDiffs(sources, sources) == []
  {
    forall s | s in sources ensures SourceAgainst(sources)(s) == [] {
      SourceMatchesOnlyItself(sources, s);
      FlatMapEmpty(sources, MatchSource(s));
    }
    FlatMapEmpty(sources, SourceAgainst(sources));
  }

  lemma SourceMatchesOnlyItself(sources: seq<Source>, s: Source)
    requires forall i, j :: 0 <= i < j < |sources| ==> sources[i].slug != sources[j].slug
    requires s in sources && UniqueStreamSets(s)
    ensures HasSlug(sources, s.slug)
    ensures forall t :: t in sources ==> MatchSource(s)(t) == []
  {
    var i :| 0 <= i < |sources| && sources[i] == s;
    forall t | t in sources ensures MatchSource(s)(t) == [] {
      var j :| 0 <= j < |sources| && sources[j] == t;
      if i == j {
        SourceReflexive(s, "#");
      }
    }
  }

  lemma NoChangedField(file: PackageFile)
    ensures HeaderDiffs(ChangedFields(file, file)) == []
  {
  }

  lemma {:induction false} AlwaysComparable(properties: Properties)
    ensures Comparable(properties, properties)
    decreases properties
  {
    forall key | key in properties.at && properties.at[key].Children().Some?
      ensures Comparable(properties.at[key].Children().value, properties.at[key].Children().value)
    {
      AlwaysComparable(properties.at[key].Children().value);
    }
  }

  // Comparing a file with itself, or with itself after hiding or showing any of its schemas, reports nothing.
  lemma ReflexiveUpToSchemaHiding(file: PackageFile, schemas: seq<Schema>)
    requires WellFormedFile(file) && UniqueNames(file) && SameUpToHiding(file.schemas, schemas)
    ensures ComparableSchemas(file.schemas, schemas)
    ensures PackageDiffs(file, file.(schemas := schemas)) == []
  {
    forall a, b | a in file.schemas && b in schemas && a.title == b.title
      ensures Comparable(a.properties, b.properties)
    {
      var i :| 0 <= i < |schemas| && schemas[i] == b;
      assert file.schemas[i].title == a.title;
      AlwaysComparable(a.properties);
    }
    SchemasReflexive(file.schemas, schemas);
    SourcesReflexive(file.sources);
    NoChangedField(file);
    assert ChangedFields(file, file.(schemas := schemas)) == ChangedFields(file, file);
  }

  // So hiding a visible schema always goes unreported, and always takes the schema from its consumers.
  lemma HidingASchemaGoesUnreported(file: PackageFile, i: nat)
    requires WellFormedFile(file) && UniqueNames(file)
    requires i < |file.schemas| && !file.schemas[i].Hidden()
    ensures var hidden := file.(schemas := file.schemas[i := file.schemas[i].(hidden := Some(true))]);
            PackageDiffs(file, hidden) == [] && !Contract(file, hidden)
  {
    hide WellFormed, PropertyDiffs, Shows;
    var schema := file.schemas[i];
    var hidden := file.(schemas := file.schemas[i := schema.(hidden := Some(true))]);
    ReflexiveUpToSchemaHiding(file, hidden.schemas);
    ShownAlone(file, i);
    HiddenIsNotShown(file, i, hidden);
  }

  lemma ShownAlone(file: PackageFile, i: nat)
    requires i < |file.schemas| && !file.schemas[i].Hidden()
    ensures Shows(file, file.schemas[i].title, [], {})
  {
    assert file.schemas[i] in file.schemas;
  }

  lemma HiddenIsNotShown(file: PackageFile, i: nat, hidden: PackageFile)
    requires UniqueNames(file) && i < |file.schemas|
    requires hidden == file.(schemas := file.schemas[i := file.schemas[i].(hidden := Some(true))])
    ensures !Shows(hidden, file.schemas[i].title, [], {})
  {
    forall s | s in hidden.schemas && s.title == file.schemas[i].title ensures s.Hidden() {
      var j :| 0 <= j < |hidden.schemas| && hidden.schemas[j] == s;
      assert file.schemas[j].title == file.schemas[i].title;
    }
  }

  // ---------- Swapping the two sides ----------

  predicate Reported(prior: Properties, next: Properties, pointer: string, kind: DifferenceType, place: string) {
    Difference(kind, place) in PropertyDiffs(prior, next, pointer)
  }

  // One level of the comparison: a difference is reported at a key both sides iterate over, or below such a key.
  lemma ReportedAt(prior: Properties, next: Properties, pointer: string, d: Difference)
    requires WellFormed(prior) && WellFormed(next)
    ensures d in PropertyDiffs(prior, next, pointer) <==>
      (exists key :: key in prior.at && d in ForwardDiffs(prior, next, pointer, key))
      || (exists key :: key in next.at && d in ReverseDiffs(prior, next, pointer, key))
  {
    FlatMapMember(prior.keys, ForwardAt(prior, next, pointer), d);
    FlatMapMember(next.keys, ReverseAt(prior, next, pointer), d);
  }

  // The type that the opposite comparison reports at the same place.
  predicate Opposite(kind: DifferenceType, swapped: DifferenceType) {
    match kind
    case AddProperty => swapped == RemoveProperty || swapped == RemoveHiddenProperty
    case RemoveProperty | RemoveHiddenProperty => swapped == AddProperty
    case HideProperty => swapped == UnhideProperty
    case UnhideProperty => swapped == HideProperty
    case ChangePropertyType | ChangePropertyUnit | ChangePropertyDescription => swapped == kind
    case _ => false
  }

  // Every difference has its opposite, at the same pointer, when the sides are swapped.
  lemma {:induction false} SwapReportsOpposite(prior: Properties, next: Properties, pointer: string, d: Difference)
    requires WellFormed(prior) && WellFormed(next)
    requires d in PropertyDiffs(prior, next, pointer)
    ensures exists swapped :: Opposite(d.kind, swapped)
              && Difference(swapped, d.pointer) in PropertyDiffs(next, prior, pointer)
    decreases prior
  {
    hide PropertyDiffs, WellFormed;
    ChildrenWellFormed(prior);
    ChildrenWellFormed(next);
    ReportedAt(prior, next, pointer, d);
    if key :| key in next.at && d in ReverseDiffs(prior, next, pointer, key) {
      var opposite: Difference;
      if key in prior.at {
        var below := PropertyPointer(pointer, key);
        SwapReportsOpposite(prior.at[key].Children().value, next.at[key].Children().value, below, d);
        var swapped :| Opposite(d.kind, swapped) && Difference(swapped, d.pointer)
          in PropertyDiffs(next.at[key].Children().value, prior.at[key].Children().value, below);
        opposite := Difference(swapped, d.pointer);
        assert opposite in ReverseDiffs(next, prior, pointer, key);
      } else {
        opposite := ForwardDiffs(next, prior, pointer, key)[0];
        assert opposite in ForwardDiffs(next, prior, pointer, key);
      }
      ReportedAt(next, prior, pointer, opposite);
      assert Opposite(d.kind, opposite.kind);
    } else {
      var key :| key in prior.at && d in ForwardDiffs(prior, next, pointer, key);
      var opposite: Difference;
      if key in next.at {
        opposite := OppositeChange(prior.at[key], next.at[key], PropertyPointer(pointer, key), d);
        assert opposite in ForwardDiffs(next, prior, pointer, key);
      } else {
        opposite := Difference(AddProperty, d.pointer);
        assert opposite in ReverseDiffs(next, prior, pointer, key);
      }
      ReportedAt(next, prior, pointer, opposite);
      assert Opposite(d.kind, opposite.kind);
    }
  }

  lemma ChildrenWellFormed(properties: Properties)
    requires WellFormed(properties)
    ensures forall key | key in properties.at && properties.at[key].Children().Some? ::
      WellFormed(properties.at[key].Children().value)
  {
  }

  lemma ChangeMember(prior: Property, next: Property, pointer: string, d: Difference)
    ensures d in PropertyChanges(prior, next, pointer) <==>
      d.pointer == pointer
      && match d.kind
         case ChangePropertyDescription => prior.description != next.description
         case ChangePropertyType => prior.typeNames != next.typeNames
         case HideProperty => !prior.Hidden() && next.Hidden()
         case UnhideProperty => prior.Hidden() && !next.Hidden()
         case ChangePropertyUnit => prior.unit != next.unit
         case _ => false
  {
  }

  lemma OppositeChange(prior: Property, next: Property, pointer: string, d: Difference)
    returns (opposite: Difference)
    requires d in PropertyChanges(prior, next, pointer)
    ensures Opposite(d.kind, opposite.kind) && opposite.pointer == d.pointer
    ensures opposite in PropertyChanges(next, prior, pointer)
  {
    ChangeMember(prior, next, pointer, d);
    opposite := Difference(
      match d.kind case HideProperty => UnhideProperty case UnhideProperty => HideProperty case _ => d.kind,
      pointer);
    ChangeMember(next, prior, pointer, opposite);
  }

  lemma SwappedKind(prior: Properties, next: Properties, pointer: string, kind: DifferenceType, place: string)
    requires WellFormed(prior) && WellFormed(next)
    ensures Reported(prior, next, pointer, kind, place) ==>
      exists swapped :: Opposite(kind, swapped) && Reported(next, prior, pointer, swapped, place)
  {
    if Reported(prior, next, pointer, kind, place) {
      SwapReportsOpposite(prior, next, pointer, Difference(kind, place));
    }
  }

  // At every nesting depth, what one direction adds the other removes, hiding and unhiding trade places, and a
  // change of type, unit or description is seen from both sides.
  lemma SwapDuality(a: Properties, b: Properties, pointer: string, place: string)
    requires WellFormed(a) && WellFormed(b)
    ensures Reported(a, b, pointer, AddProperty, place)
       <==> Reported(b, a, pointer, RemoveProperty, place) || Reported(b, a, pointer, RemoveHiddenProperty, place)
    ensures Reported(a, b, pointer, HideProperty, place) <==> Reported(b, a, pointer, UnhideProperty, place)
    ensures forall kind | kind in {ChangePropertyType, ChangePropertyUnit, ChangePropertyDescription} ::
      Reported(a, b, pointer, kind, place) <==> Reported(b, a, pointer, kind, place)
  {
    hide Reported, WellFormed;
    SwappedKind(a, b, pointer, AddProperty, place);
    SwappedKind(b, a, pointer, RemoveProperty, place);
    SwappedKind(b, a, pointer, RemoveHiddenProperty, place);
    SwappedKind(a, b, pointer, HideProperty, place);
    SwappedKind(b, a, pointer, UnhideProperty, place);
    forall kind | kind in {ChangePropertyType, ChangePropertyUnit, ChangePropertyDescription}
      ensures Reported(a, b, pointer, kind, place) <==> Reported(b, a, pointer, kind, place)
    {
      SwappedKind(a, b, pointer, kind, place);
      SwappedKind(b, a, pointer, kind, place);
    }
  }
}
