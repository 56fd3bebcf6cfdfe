/**
 What the version gate answers, said on the two files: which numbers it accepts, which it asks for, and when it fails.
 */
module GateAnswers {
  import opened Sequences
  import opened PackageFiles
  import opened Comparison
  import opened Compatibilities
  import opened Reports
  import opened Publishing

  // Some difference between the files is of one of these kinds.
  ghost predicate Shown(a: PackageFile, b: PackageFile, kinds: set<DifferenceType>) {
    exists d :: FileReport(a, b, d) && d.kind in kinds
  }

  // The file's number is accepted from the given number on.
  function From(least: Version, existing: Version, number: Version): Outcome {
    if number.Less(least) then HigherVersionRequired(existing, least) else Created
  }

  lemma ShownIsReported(a: PackageFile, b: PackageFile, kinds: set<DifferenceType>)
    requires WellFormedFile(a) && WellFormedFile(b)
    ensures Has(PackageDiffs(a, b), kinds) <==> Shown(a, b, kinds)
  {
    hide PackageDiffs, FileReport, WellFormedFile;
    forall d ensures d in PackageDiffs(a, b) <==> FileReport(a, b, d) {
      PackageDiffsExactly(a, b, d);
    }
  }

  // The gate fails exactly where a path leads to an object without object properties that had some before. Otherwise
  // the differences between the two files alone decide which numbers it accepts.
  lemma GateExactly(prior: PackageFile, file: PackageFile)
    requires WellFormedFile(prior) && WellFormedFile(file)
    ensures var v := prior.version;
      Gate(prior, file) ==
        if SchemasThrow(prior.schemas, file.schemas) then Failed(ComparisonThrew)
        else if Shown(prior, file, BREAKING) then From(Version(v.major + 1, 0, 0), v, file.version)
        else if Shown(prior, file, COMPATIBLE) then From(Version(v.major, v.minor + 1, 0), v, file.version)
        else if Shown(prior, file, MINOR) then From(Version(v.major, v.minor, v.patch + 1), v, file.version)
        else Updated
  {
    hide PackageDiffs, SchemasThrow, ComparableSchemas, Severity, Shown, Has, WellFormedFile;
    SchemasThrowExactly(prior.schemas, file.schemas);
    SeverityByKinds(PackageDiffs(prior, file));
    GateOutcomes(prior, file);
    ShownIsReported(prior, file, BREAKING);
    ShownIsReported(prior, file, COMPATIBLE);
    ShownIsReported(prior, file, MINOR);
  }

  // A property that is new in a schema, at any depth, demands the next minor version if nothing breaks.
  lemma AddedPropertyDemandsMinorVersion(prior: PackageFile, file: PackageFile, was: Schema, now: Schema,
                                         path: seq<string>)
    requires WellFormedFile(prior) && WellFormedFile(file) && !SchemasThrow(prior.schemas, file.schemas)
    requires was in prior.schemas && now in file.schemas && was.title == now.title
    requires DiffersAt(was.properties, now.properties, path, AddProperty)
    ensures Shown(prior, file, BREAKING)
            || Gate(prior, file)
               == From(Version(prior.version.major, prior.version.minor + 1, 0), prior.version, file.version)
  {
    GateExactly(prior, file);
    hide FileReport, SchemasThrow, DiffersAt, Gate;
    AddedIsShown(prior, file, was, now, path);
  }

  lemma AddedIsShown(a: PackageFile, b: PackageFile, was: Schema, now: Schema, path: seq<string>)
    requires was in a.schemas && now in b.schemas && was.title == now.title
    requires DiffersAt(was.properties, now.properties, path, AddProperty)
    ensures Shown(a, b, COMPATIBLE)
  {
    hide DiffersAt, HeaderReport, SourceReport;
    var d := Difference(AddProperty, "#/" + now.title + Place(path));
    assert SchemaReport(a.schemas, b.schemas, d);
    assert FileReport(a, b, d) && d.kind in COMPATIBLE;
  }

  // A source whose type changed keeps a file from replacing the stored one under its number.
  lemma ChangedSourceDemandsNewVersion(prior: PackageFile, file: PackageFile, was: Source, now: Source)
    requires WellFormedFile(prior) && WellFormedFile(file) && !SchemasThrow(prior.schemas, file.schemas)
    requires was in prior.sources && now in file.sources && was.slug == now.slug && was.kind != now.kind
    ensures Gate(prior, file) != Updated && (Gate(prior, file) == Created ==> prior.version.Less(file.version))
  {
    GateExactly(prior, file);
    hide FileReport, SchemasThrow, Gate;
    ChangedSourceIsShown(prior, file, was, now);
  }

  lemma ChangedSourceIsShown(a: PackageFile, b: PackageFile, was: Source, now: Source)
    requires was in a.sources && now in b.sources && was.slug == now.slug && was.kind != now.kind
    ensures Shown(a, b, MINOR)
  {
    hide HeaderReport, SchemaReport;
    var d := Difference(ChangeSource, "#");
    assert SourcesDiffer(was, now, ChangeSource);
    assert SourceReport(a.sources, b.sources, d);
    assert FileReport(a, b, d) && d.kind in MINOR;
  }
}
