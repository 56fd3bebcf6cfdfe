/**
 The order in which a file lists its schemas, sources, stream sets and property keys has no effect on the required
 next version: rearranging either side keeps the same differences.
 */
module ListingOrder {
  import opened Sequences
  import opened PackageFiles
  import opened Comparison
  import opened Compatibilities
  import opened ComparisonLaws
  import opened Publishing

  // The same properties with their keys listed in any order, at every depth.
  ghost predicate SameProperties(a: Properties, b: Properties) {
    multiset(a.keys) == multiset(b.keys) && a.at.Keys == b.at.Keys
    && forall key | key in a.at ::
         a.at[key].description == b.at[key].description && a.at[key].hidden == b.at[key].hidden
         && a.at[key].unit == b.at[key].unit && a.at[key].typeNames == b.at[key].typeNames
         && (a.at[key].objectProperties.Some? <==> b.at[key].objectProperties.Some?)
         && (a.at[key].objectProperties.Some? ==>
               SameProperties(a.at[key].objectProperties.value, b.at[key].objectProperties.value))
  }

  lemma {:induction false} KeyOrderIrrelevant(a: Properties, a': Properties, b: Properties, b': Properties,
                                              pointer: string)
    requires WellFormed(a) && SameProperties(a, a') && WellFormed(b) && SameProperties(b, b')
    ensures multiset(PropertyDiffs(a, b, pointer)) == multiset(PropertyDiffs(a', b', pointer))
    decreases a
  {
    forall key | key in b.at
      ensures multiset(ReverseAt(a, b, pointer)(key)) == multiset(ReverseAt(a', b', pointer)(key))
    {
      if key in a.at && a.at[key].Children().Some? && b.at[key].Children().Some? {
        KeyOrderIrrelevant(a.at[key].Children().value, a'.at[key].Children().value,
                           b.at[key].Children().value, b'.at[key].Children().value, PropertyPointer(pointer, key));
      }
    }
    forall key | key in a.at ensures ForwardAt(a, b, pointer)(key) == ForwardAt(a', b', pointer)(key) {
      if key in b.at {
        assert PropertyChanges(a.at[key], b.at[key], PropertyPointer(pointer, key))
            == PropertyChanges(a'.at[key], b'.at[key], PropertyPointer(pointer, key));
      }
    }
    FlatMapPermuted(a.keys, a'.keys, ForwardAt(a, b, pointer), ForwardAt(a', b', pointer));
    FlatMapPermuted(b.keys, b'.keys, ReverseAt(a, b, pointer), ReverseAt(a', b', pointer));
  }

  // ---------- Schemas ----------

  ghost function SameSchema(): (Schema, Schema) -> bool {
    (s: Schema, t: Schema) => s.title == t.title && s.hidden == t.hidden && SameProperties(s.properties, t.properties)
  }

  lemma TitlesRearranged(xs: seq<Schema>, ys: seq<Schema>, title: string)
    requires Rearranged(xs, ys, SameSchema())
    ensures HasTitle(xs, title) <==> HasTitle(ys, title)
  {
    RearrangedHas(xs, ys, SameSchema(), (s: Schema) => s.title == title);
  }

  lemma SchemaOrderIrrelevant(s: Schema, s': Schema, b: seq<Schema>, b': seq<Schema>)
    requires SameSchema()(s, s') && Rearranged(b, b', SameSchema())
    requires WellFormed(s.properties) && forall t | t in b :: WellFormed(t.properties)
    ensures multiset(SchemaAgainst(b)(s)) == multiset(SchemaAgainst(b')(s'))
  {
    TitlesRearranged(b, b', s.title);
    forall t, t' | t in b && t' in b' && SameSchema()(t, t')
      ensures multiset(MatchAgainst(s)(t)) == multiset(MatchAgainst(s')(t'))
    {
      if s.title == t.title {
        KeyOrderIrrelevant(s.properties, s'.properties, t.properties, t'.properties, "#" + "/" + t.title);
      }
    }
    FlatMapRearranged(b, b', SameSchema(), MatchAgainst(s), MatchAgainst(s'));
  }

  lemma SchemasOrderIrrelevant(a: seq<Schema>, a': seq<Schema>, b: seq<Schema>, b': seq<Schema>)
    requires Rearranged(a, a', SameSchema()) && Rearranged(b, b', SameSchema())
    requires (forall s | s in a :: WellFormed(s.properties)) && (forall t | t in b :: WellFormed(t.properties))
    ensures multiset(SchemasDiffs(a, b)) == multiset(SchemasDiffs(a', b'))
  {
    forall s, s' | s in a && s' in a' && SameSchema()(s, s')
      ensures multiset(SchemaAgainst(b)(s)) == multiset(SchemaAgainst(b')(s'))
    {
      SchemaOrderIrrelevant(s, s', b, b');
    }
    FlatMapRearranged(a, a', SameSchema(), SchemaAgainst(b), SchemaAgainst(b'));
  }

  // ---------- Sources ----------

  ghost predicate SameSourceFields(s: Source, t: Source) {
    s.slug == t.slug && s.kind == t.kind && s.configuration == t.configuration
    && s.connectionConfiguration == t.connectionConfiguration && s.credentialsIdentifier == t.credentialsIdentifier
    && multiset(s.streamSets) == multiset(t.streamSets)
  }

  ghost function SameSource(): (Source, Source) -> bool {
    (s: Source, t: Source) => SameSourceFields(s, t)
  }

  lemma SlugsRearranged(xs: seq<Source>, ys: seq<Source>, slug: string)
    requires Rearranged(xs, ys, SameSource())
    ensures HasSlug(xs, slug) <==> HasSlug(ys, slug)
  {
    RearrangedHas(xs, ys, SameSource(), (s: Source) => s.slug == slug);
  }

  // Array.find takes the first match, so with a repeated slug the order would matter; with unique slugs it cannot.
  lemma FindOrderIrrelevant(xs: seq<StreamSet>, ys: seq<StreamSet>, slug: string)
    requires multiset(xs) == multiset(ys)
    requires forall i, j :: 0 <= i < j < |xs| ==> xs[i].slug != xs[j].slug
    ensures FindStreamSet(xs, slug) == FindStreamSet(ys, slug)
  {
    var x, y := FindStreamSet(xs, slug), FindStreamSet(ys, slug);
    assert forall s :: s in xs <==> s in multiset(xs);
    assert forall s :: s in ys <==> s in multiset(ys);
    if x.Some? {
      assert x.value in ys;
      var i :| 0 <= i < |xs| && xs[i] == x.value;
      assert y.value in xs;
      var j :| 0 <= j < |xs| && xs[j] == y.value;
    }
  }

  lemma SourcePairOrderIrrelevant(s: Source, s': Source, t: Source, t': Source, pointer: string)
    requires SameSourceFields(s, s') && SameSourceFields(t, t') && UniqueStreamSets(t)
    ensures multiset(SourceDiffs(s, t, pointer)) == multiset(SourceDiffs(s', t', pointer))
  {
    var f, g := StreamAgainst(t.streamSets, pointer), StreamAgainst(t'.streamSets, pointer);
    forall x | x in s.streamSets ensures f(x) == g(x) {
      FindOrderIrrelevant(t.streamSets, t'.streamSets, x.slug);
    }
    FlatMapPermuted(s.streamSets, s'.streamSets, f, g);
    SameHead(s, s', t, t', pointer);
    hide SourceHeadDiffs, FlatMap, FindStreamSet;
  }

  lemma SameHead(s: Source, s': Source, t: Source, t': Source, pointer: string)
    requires SameSourceFields(s, s') && SameSourceFields(t, t')
    ensures SourceHeadDiffs(s, t, pointer) == SourceHeadDiffs(s', t', pointer)
  {
  }

  lemma SourceOrderIrrelevant(s: Source, s': Source, b: seq<Source>, b': seq<Source>)
    requires SameSource()(s, s') && Rearranged(b, b', SameSource())
    requires forall t | t in b :: UniqueStreamSets(t)
    ensures multiset(SourceAgainst(b)(s)) == multiset(SourceAgainst(b')(s'))
  {
    SlugsRearranged(b, b', s.slug);
    forall t, t' | t in b && t' in b' && SameSource()(t, t')
      ensures multiset(MatchSource(s)(t)) == multiset(MatchSource(s')(t'))
    {
      SourcePairOrderIrrelevant(s, s', t, t', "#");
    }
    FlatMapRearranged(b, b', SameSource(), MatchSource(s), MatchSource(s'));
  }

  lemma SourcesOrderIrrelevant(a: seq<Source>, a': seq<Source>, b: seq<Source>, b': seq<Source>)
    requires Rearranged(a, a', SameSource()) && Rearranged(b, b', SameSource())
    requires forall t | t in b :: UniqueStreamSets(t)
    ensures multiset(SourcesDiffs(a, b)) == multiset(SourcesDiffs(a', b'))
  {
    forall s, s' | s in a && s' in a' && SameSource()(s, s')
      ensures multiset(SourceAgainst(b)(s)) == multiset(SourceAgainst(b')(s'))
    {
      SourceOrderIrrelevant(s, s', b, b');
    }
    FlatMapRearranged(a, a', SameSource(), SourceAgainst(b), SourceAgainst(b'));
  }

  // ---------- Whole files ----------

  // The same file with its schemas, sources, stream sets and property keys listed in any order.
  ghost predicate Relisted(a: PackageFile, b: PackageFile) {
    b == a.(schemas := b.schemas, sources := b.sources)
    && Rearranged(a.schemas, b.schemas, SameSchema()) && Rearranged(a.sources, b.sources, SameSource())
  }

  lemma SameSeverity(a: seq<Difference>, b: seq<Difference>)
    requires multiset(a) == multiset(b)
    ensures Severity(a) == Severity(b)
  {
    hide Severity;
    assert forall d :: d in a <==> d in multiset(a);
    assert forall d :: d in b <==> d in multiset(b);
    SeverityIsMaximum(a);
    SeverityIsMaximum(b);
  }

  lemma {:induction false} ComparableInAnyOrder(a: Properties, a': Properties, b: Properties, b': Properties)
    requires Comparable(a, b) && SameProperties(a, a') && SameProperties(b, b')
    ensures Comparable(a', b')
    decreases a
  {
    forall key | key in a'.at && key in b'.at && a'.at[key].Children().Some? && ObjectType in b'.at[key].typeNames
      ensures b'.at[key].objectProperties.Some?
              && Comparable(a'.at[key].Children().value, b'.at[key].objectProperties.value)
    {
      ComparableInAnyOrder(a.at[key].Children().value, a'.at[key].Children().value,
                           b.at[key].objectProperties.value, b'.at[key].objectProperties.value);
    }
  }

  lemma {:induction false} SamePropertiesBack(a: Properties, b: Properties)
    requires SameProperties(a, b)
    ensures SameProperties(b, a)
    decreases a
  {
    forall key | key in b.at && a.at[key].objectProperties.Some?
      ensures SameProperties(b.at[key].objectProperties.value, a.at[key].objectProperties.value)
    {
      SamePropertiesBack(a.at[key].objectProperties.value, b.at[key].objectProperties.value);
    }
  }

  lemma ComparableSchemasInAnyOrder(a: seq<Schema>, a': seq<Schema>, b: seq<Schema>, b': seq<Schema>)
    requires Rearranged(a, a', SameSchema()) && Rearranged(b, b', SameSchema())
    ensures ComparableSchemas(a, b) <==> ComparableSchemas(a', b')
  {
    forall s', t' | ComparableSchemas(a, b) && s' in a' && t' in b' && s'.title == t'.title
      ensures Comparable(s'.properties, t'.properties)
    {
      var s := Original(a, a', SameSchema(), s');
      var t := Original(b, b', SameSchema(), t');
      ComparableInAnyOrder(s.properties, s'.properties, t.properties, t'.properties);
    }
    forall s, t | ComparableSchemas(a', b') && s in a && t in b && s.title == t.title
      ensures Comparable(s.properties, t.properties)
    {
      var s' := Relocated(a, a', SameSchema(), s);
      var t' := Relocated(b, b', SameSchema(), t);
      SamePropertiesBack(s.properties, s'.properties);
      SamePropertiesBack(t.properties, t'.properties);
      ComparableInAnyOrder(s'.properties, s.properties, t'.properties, t.properties);
    }
  }

  // The order of listing has no effect on the differences, their severity, and what the version gate answers.
  lemma ListingOrderIrrelevant(a: PackageFile, a': PackageFile, b: PackageFile, b': PackageFile)
    requires WellFormedFile(a) && WellFormedFile(b) && Relisted(a, a') && Relisted(b, b')
    requires forall source | source in b.sources :: UniqueStreamSets(source)
    ensures multiset(PackageDiffs(a, b)) == multiset(PackageDiffs(a', b'))
    ensures Severity(PackageDiffs(a, b)) == Severity(PackageDiffs(a', b'))
    ensures Gate(a, b) == Gate(a', b')
  {
    hide Severity, Rearranged, WellFormed, SchemasDiffs, SourcesDiffs, HeaderDiffs, ComparableSchemas;
    SchemasOrderIrrelevant(a.schemas, a'.schemas, b.schemas, b'.schemas);
    SourcesOrderIrrelevant(a.sources, a'.sources, b.sources, b'.sources);
    assert ChangedFields(a, b) == ChangedFields(a', b');
    SameSeverity(PackageDiffs(a, b), PackageDiffs(a', b'));
    ComparableSchemasInAnyOrder(a.schemas, a'.schemas, b.schemas, b'.schemas);
  }
}
