/**
 createOrUpdateVersion over one package: its version rows, the stored package files and the comparison rows. A
 transaction that throws leaves all three as they were.
 */
module Publishing {
  import opened Sequences
  import opened PackageFiles
  import opened Comparison
  import opened Compatibilities
  import opened Contracts

  datatype Row = Row(id: nat, version: Version)

  datatype ComparisonRow = ComparisonRow(newId: nat, oldId: nat, differences: seq<Difference>)

  datatype Store = Store(nextId: nat, rows: seq<Row>, files: map<Version, PackageFile>,
                         comparisons: seq<ComparisonRow>)

  datatype Failure = StoredFileMissing | ComparisonThrew | UnmappedDifference | DuplicateVersion

  datatype Outcome =
    | Created
    | Updated
    | HigherVersionRequired(existing: Version, minNext: Version)
    | Failed(reason: Failure)
  {
    predicate Accepted() {
      Created? || Updated?
    }
  }

  // ORDER BY major DESC, minor DESC, patch DESC, first row.
  function FindLatestVersion(rows: seq<Row>): (latest: Option<Row>)
    ensures latest.None? <==> rows == []
    ensures latest.Some? ==> latest.value in rows
    ensures latest.Some? ==> forall row | row in rows :: row.version.AtMost(latest.value.version)
  {
    if rows == [] then None
    else
      var rest := FindLatestVersion(rows[1..]);
      if rest.Some? && rows[0].version.Less(rest.value.version) then rest else Some(rows[0])
  }

  predicate HasVersion(rows: seq<Row>, version: Version) {
    exists i :: 0 <= i < |rows| && rows[i].version == version
  }

  // How the file compares with the latest stored one: what the version gate answers.
  function Gate(prior: PackageFile, file: PackageFile): Outcome {
    if !ComparableSchemas(prior.schemas, file.schemas) then Failed(ComparisonThrew)
    else
      var compatibility := Severity(PackageDiffs(prior, file));
      if compatibility.None? then Failed(UnmappedDifference)
      else
        var minNext := NextVersion(prior.version, compatibility.value);
        if compatibility.value.Identical? then Updated
        else if file.version.Less(minNext) then HigherVersionRequired(prior.version, minNext)
        else Created
  }

  function Insert(s: Store, file: PackageFile, comparisons: seq<ComparisonRow>): Store {
    Store(s.nextId + 1, s.rows + [Row(s.nextId, file.version)], s.files[file.version := file],
          s.comparisons + comparisons)
  }

  // The state and the answer after one publish, as one transaction.
  function Publish(s: Store, file: PackageFile): (Store, Outcome) {
    var latest := FindLatestVersion(s.rows);
    if latest.None? then (Insert(s, file, []), Created)
    else if latest.value.version !in s.files then (s, Failed(StoredFileMissing))
    else
      var prior := s.files[latest.value.version];
      var outcome := Gate(prior, file);
      if outcome.Updated? then (s.(files := s.files[file.version := file]), Updated)
      else if !outcome.Created? then (s, outcome)
      else if HasVersion(s.rows, file.version) then (s, Failed(DuplicateVersion))
      else
        (Insert(s, file, [ComparisonRow(s.nextId, latest.value.id, PackageDiffs(prior, file))]), Created)
  }

  method CheckAgainstLatest(packageFile: PackageFile, file: PackageFile)
    returns (outcome: Outcome, differences: seq<Difference>)
    requires WellFormedFile(packageFile) && WellFormedFile(file)
    ensures outcome == Gate(packageFile, file)
    ensures outcome == Failed(ComparisonThrew) || differences == PackageDiffs(packageFile, file)
  {
    var result := ComparePackages(packageFile, file);
    if result.None? {
      return Failed(ComparisonThrew), [];
    }
    differences := result.value;
    var compatibility := DiffCompatibility(differences);
    if compatibility.None? {
      return Failed(UnmappedDifference), differences;
    }
    var minNextVersion := NextVersion(packageFile.version, compatibility.value);
    if compatibility.value == Identical {
      outcome := Updated;
    } else if file.version.Less(minNextVersion) {
      outcome := HigherVersionRequired(packageFile.version, minNextVersion);
    } else {
      outcome := Created;
    }
  }

  class VersionStore {
    var nextId: nat
    var rows: seq<Row>
    var files: map<Version, PackageFile>
    var comparisons: seq<ComparisonRow>
    ghost var accepted: seq<PackageFile>  // every file accepted so far, in order

    ghost function State(): Store
      reads this
    {
      Store(nextId, rows, files, comparisons)
    }

    ghost predicate Valid()
      reads this
    {
      History(State(), accepted)
    }

    constructor ()
      ensures Valid() && State() == Empty() && accepted == []
    {
      nextId, rows, files, comparisons, accepted := 0, [], map[], [], [];
    }

    // The insert of VersionRepository.save, under the unique (major, minor, patch) key.
    method SaveVersion(version: Version) returns (saved: Option<Row>)
      modifies this`nextId, this`rows
      ensures saved.None? <==> HasVersion(old(rows), version)
      ensures saved.None? ==> rows == old(rows) && nextId == old(nextId)
      ensures saved.Some? ==>
        saved.value == Row(old(nextId), version) && rows == old(rows) + [saved.value] && nextId == old(nextId) + 1
    {
      if HasVersion(rows, version) {
        return None;
      }
      saved := Some(Row(nextId, version));
      rows, nextId := rows + [saved.value], nextId + 1;
    }

    // The body of the transaction.
    method Transact(file: PackageFile) returns (outcome: Outcome)
      requires WellFormedFile(file)
      requires var latest := FindLatestVersion(rows);
               latest.Some? && latest.value.version in files ==> WellFormedFile(files[latest.value.version])
      modifies this`nextId, this`rows, this`files, this`comparisons
      ensures State() == Publish(old(State()), file).0 && outcome == Publish(old(State()), file).1
    {
      var latestVersion := FindLatestVersion(rows);
      if latestVersion.None? {
        var _ := SaveVersion(file.version);
        files := files[file.version := file];
        assert comparisons == old(comparisons) + [];
        return Created;
      }
      if latestVersion.value.version !in files {
        return Failed(StoredFileMissing);
      }
      var differences;
      outcome, differences := CheckAgainstLatest(files[latestVersion.value.version], file);
      if !outcome.Accepted() {
        return;
      }
      if outcome.Created? {
        var savedVersion := SaveVersion(file.version);
        if savedVersion.None? {
          return Failed(DuplicateVersion);
        }
        comparisons := comparisons + [ComparisonRow(savedVersion.value.id, latestVersion.value.id, differences)];
      }
      files := files[file.version := file];
    }

    method CreateOrUpdateVersion(file: PackageFile) returns (outcome: Outcome)
      requires Valid() && WellFormedFile(file)
      modifies this
      ensures Valid()
      ensures State() == Publish(old(State()), file).0 && outcome == Publish(old(State()), file).1
      ensures accepted == old(accepted) + if outcome.Accepted() then [file] else []
    {
      hide Publish, RowsAscend, FilesMatchRows, Linked, Announced;
      PublishKeepsHistory(State(), accepted, file);
      if rows != [] {
        StoredWellFormed(State(), accepted);
      }
      outcome := Transact(file);
      accepted := accepted + if outcome.Accepted() then [file] else [];
    }

    // saveNewPackageFile: on a version conflict, publish once more under the version number asked for.
    method SaveNewPackageFile(file: PackageFile) returns (published: PackageFile, outcome: Outcome)
      requires Valid() && WellFormedFile(file)
      modifies this
      ensures Valid()
      ensures var first := Publish(old(State()), file).1;
              published == (if first.HigherVersionRequired? then file.(version := first.minNext) else file)
              && (first.HigherVersionRequired? ==> outcome == Created)
      ensures State() == Publish(old(State()), published).0 && outcome == Publish(old(State()), published).1
      ensures outcome.Accepted() || outcome == Failed(ComparisonThrew)
    {
      hide Publish, History;
      published := file;
      OneFailure(State(), accepted, file);
      ghost var before, acceptedBefore := State(), accepted;
      outcome := CreateOrUpdateVersion(published);
      if outcome.HigherVersionRequired? {
        RejectionKeepsState(before, file);
        RetryIsAccepted(before, acceptedBefore, file);
        published := published.(version := outcome.minNext);
        outcome := CreateOrUpdateVersion(published);
      }
    }
  }

  // ---------- Runs ----------

  function Empty(): Store {
    Store(0, [], map[], [])
  }

  function Run(files: seq<PackageFile>): Store {
    if files == [] then Empty() else Publish(Run(files[..|files| - 1]), files[|files| - 1]).0
  }

  // The files that the run accepted, in order.
  function Accepted(files: seq<PackageFile>): seq<PackageFile> {
    if files == [] then []
    else
      Accepted(files[..|files| - 1])
      + if Publish(Run(files[..|files| - 1]), files[|files| - 1]).1.Accepted() then [files[|files| - 1]] else []
  }

  // b may be accepted directly after a: its number announces at least what changed.
  ghost predicate Announced(a: PackageFile, b: PackageFile) {
    WellFormedFile(a) && WellFormedFile(b) && ComparableSchemas(a.schemas, b.schemas)
    && Severity(PackageDiffs(a, b)).Some?
    && a.version.AtMost(b.version)
    && Severity(PackageDiffs(a, b)).value.Rank() <= Bump(a.version, b.version).Rank()
    && (Severity(PackageDiffs(a, b)).value == Identical <==> a.version == b.version)
  }

  // The comparison row of the i-th and (i+1)-th version row records the publish that created the latter.
  ghost predicate Linked(s: Store, accepted: seq<PackageFile>, i: nat)
    requires i < |s.comparisons| && i + 1 < |s.rows| && s.rows[i].version in s.files
  {
    exists j :: 0 < j < |accepted|
      && accepted[j - 1] == s.files[s.rows[i].version] && accepted[j].version == s.rows[i + 1].version
      && s.comparisons[i]
         == ComparisonRow(s.rows[i + 1].id, s.rows[i].id, PackageDiffs(accepted[j - 1], accepted[j]))
  }

  ghost predicate RowsAscend(s: Store) {
    (forall i, j :: 0 <= i < j < |s.rows| ==>
       s.rows[i].version.Less(s.rows[j].version) && s.rows[i].id < s.rows[j].id)
    && (forall i :: 0 <= i < |s.rows| ==> s.rows[i].id < s.nextId)
  }

  ghost predicate FilesMatchRows(s: Store) {
    (forall version :: version in s.files <==> HasVersion(s.rows, version))
    && (forall version | version in s.files :: s.files[version].version == version)
  }

  // What every run keeps: rows ascend in creation order, each has its one file, the latest file is the last
  // accepted one, each accepted file announces its changes, and the comparison rows form one chain.
  ghost predicate History(s: Store, accepted: seq<PackageFile>) {
    RowsAscend(s) && FilesMatchRows(s)
    && (s.rows == [] <==> accepted == [])
    && (forall f | f in accepted :: WellFormedFile(f))
    && (accepted != [] ==> s.files[s.rows[|s.rows| - 1].version] == accepted[|accepted| - 1])
    && (forall j | 0 < j < |accepted| :: Announced(accepted[j - 1], accepted[j]))
    && |s.comparisons| == (if s.rows == [] then 0 else |s.rows| - 1)
    && (forall i | 0 <= i < |s.comparisons| :: Linked(s, accepted, i))
  }

  lemma StoredWellFormed(s: Store, accepted: seq<PackageFile>)
    requires History(s, accepted) && s.rows != []
    ensures FindLatestVersion(s.rows) == Some(s.rows[|s.rows| - 1])
    ensures accepted != [] && RowsAscend(s)
    ensures var version := s.rows[|s.rows| - 1].version;
            version in s.files && s.files[version] == accepted[|accepted| - 1] && s.files[version].version == version
    ensures WellFormedFile(accepted[|accepted| - 1])
  {
    LatestIsNewest(s);
    assert HasVersion(s.rows, s.rows[|s.rows| - 1].version);
  }

  // findLatestVersion returns the row created last.
  lemma LatestIsNewest(s: Store)
    requires RowsAscend(s) && s.rows != []
    ensures FindLatestVersion(s.rows) == Some(s.rows[|s.rows| - 1])
  {
    hide FindLatestVersion;
    var latest := FindLatestVersion(s.rows).value;
    var i :| 0 <= i < |s.rows| && s.rows[i] == latest;
    assert s.rows[|s.rows| - 1] in s.rows;
  }

  // ---------- Severity of whole comparisons ----------

  // The package's own fields require at most a patch, and a changed version number does require one.
  lemma HeaderSeverity(changed: HeaderChanges)
    ensures Severity(HeaderDiffs(changed)).Some?
    ensures Severity(HeaderDiffs(changed)).value.Rank() <= MinorChange.Rank()
    ensures changed.version ==> Severity(HeaderDiffs(changed)) == Some(MinorChange)
  {
    hide HeaderDiffs, Avoids, Severity;
    HeaderAtMostMinor(changed);
    AtMostMinor(HeaderDiffs(changed));
    if changed.version {
      VersionInHeader(changed);
      SeverityIsMaximum(HeaderDiffs(changed));
    }
  }

  lemma AtMostMinor(diffs: seq<Difference>)
    requires Avoids(diffs, ABOVE_MINOR)
    ensures Severity(diffs).Some? && Severity(diffs).value.Rank() <= MinorChange.Rank()
  {
    SeverityAtMost(diffs, MinorChange);
  }

  lemma VersionInHeader(changed: HeaderChanges)
    requires changed.version
    ensures Difference(ChangeVersion, "#") in HeaderDiffs(changed)
  {
    assert Difference(ChangeVersion, "#") in When(changed.version, ChangeVersion, "#");
  }

  lemma PackageSeverity(a: PackageFile, b: PackageFile)
    ensures Severity(PackageDiffs(a, b))
         == Combine(Combine(Severity(HeaderDiffs(ChangedFields(a, b))), Severity(SchemasDiffs(a.schemas, b.schemas))),
                    Severity(SourcesDiffs(a.sources, b.sources)))
  {
    SeverityAppend(HeaderDiffs(ChangedFields(a, b)), SchemasDiffs(a.schemas, b.schemas));
    SeverityAppend(HeaderDiffs(ChangedFields(a, b)) + SchemasDiffs(a.schemas, b.schemas),
                   SourcesDiffs(a.sources, b.sources));
  }

  // A changed version number is itself a minor change, so an identical file keeps the number.
  lemma IdenticalKeepsVersion(a: PackageFile, b: PackageFile)
    requires Severity(PackageDiffs(a, b)) == Some(Identical)
    ensures a.version == b.version
  {
    PackageSeverity(a, b);
    HeaderSeverity(ChangedFields(a, b));
  }

  // Writing another version number into a changed file never alters the severity.
  lemma RenumberingKeepsSeverity(a: PackageFile, b: PackageFile, version: Version)
    requires Severity(PackageDiffs(a, b)) != Some(Identical) && version != a.version
    ensures Severity(PackageDiffs(a, b.(version := version))) == Severity(PackageDiffs(a, b))
  {
    hide PackageDiffs, SchemasDiffs, SourcesDiffs, HeaderDiffs;
    var c := b.(version := version);
    PackageSeverity(a, b);
    PackageSeverity(a, c);
    HeaderSeverity(ChangedFields(a, b));
    HeaderSeverity(ChangedFields(a, c));
    assert ChangedFields(a, c) == ChangedFields(a, b).(version := true);
  }

  // ---------- One publish ----------

  // What the gate answers: a comparison that throws is the only failure, an identical file keeps its number, and
  // otherwise the number decides, with the least number that would do in the rejection.
  lemma GateOutcomes(prior: PackageFile, file: PackageFile)
    ensures Severity(PackageDiffs(prior, file)).Some?
    ensures var severity, outcome := Severity(PackageDiffs(prior, file)).value, Gate(prior, file);
      if !ComparableSchemas(prior.schemas, file.schemas) then outcome == Failed(ComparisonThrew)
      else if severity == Identical then outcome == Updated && file.version == prior.version
      else if prior.version.AtMost(file.version) && severity.Rank() <= Bump(prior.version, file.version).Rank()
        then outcome == Created && prior.version.Less(file.version)
      else outcome == HigherVersionRequired(prior.version, NextVersion(prior.version, severity))
  {
    hide PackageDiffs, ComparableSchemas, Severity;
    PackageDiffsMapped(prior, file);
    var severity := Severity(PackageDiffs(prior, file)).value;
    NextVersionIsLeastBump(prior.version, severity, file.version);
    if severity == Identical {
      IdenticalKeepsVersion(prior, file);
    }
  }

  // In every reachable state the answer is the gate's answer about the last accepted file: that file is found, and
  // a number that passes the gate is never taken already.
  lemma PublishAnswersGate(s: Store, accepted: seq<PackageFile>, file: PackageFile)
    requires History(s, accepted) && WellFormedFile(file)
    ensures accepted == [] ==> Publish(s, file).1 == Created
    ensures accepted != [] ==> Publish(s, file).1 == Gate(accepted[|accepted| - 1], file)
  {
    if accepted != [] {
      StoredWellFormed(s, accepted);
      TakenVersionsAreNotNewer(s, file.version);
      GateOutcomes(accepted[|accepted| - 1], file);
      hide History, Gate, HasVersion, FindLatestVersion;
    }
  }

  lemma TakenVersionsAreNotNewer(s: Store, version: Version)
    requires RowsAscend(s) && s.rows != []
    ensures HasVersion(s.rows, version) ==> version.AtMost(s.rows[|s.rows| - 1].version)
  {
  }

  lemma LinkKept(s: Store, s': Store, accepted: seq<PackageFile>, file: PackageFile, i: nat)
    requires i < |s.comparisons| && i + 1 < |s.rows| && s.rows[i].version in s.files && Linked(s, accepted, i)
    requires s.rows <= s'.rows && s.comparisons <= s'.comparisons
    requires s.rows[i].version in s'.files && s'.files[s.rows[i].version] == s.files[s.rows[i].version]
    ensures Linked(s', accepted + [file], i)
  {
    var j :| 0 < j < |accepted|
      && accepted[j - 1] == s.files[s.rows[i].version] && accepted[j].version == s.rows[i + 1].version
      && s.comparisons[i]
         == ComparisonRow(s.rows[i + 1].id, s.rows[i].id, PackageDiffs(accepted[j - 1], accepted[j]));
    assert (accepted + [file])[j - 1] == accepted[j - 1] && (accepted + [file])[j] == accepted[j];
  }

  lemma AnnouncedKept(accepted: seq<PackageFile>, file: PackageFile)
    requires forall j | 0 < j < |accepted| :: Announced(accepted[j - 1], accepted[j])
    requires accepted != [] ==> Announced(accepted[|accepted| - 1], file)
    ensures forall j | 0 < j < |accepted + [file]| :: Announced((accepted + [file])[j - 1], (accepted + [file])[j])
  {
  }

  lemma UpdateKeepsHistory(s: Store, accepted: seq<PackageFile>, file: PackageFile)
    requires History(s, accepted) && accepted != [] && Announced(accepted[|accepted| - 1], file)
    requires WellFormedFile(file) && file.version == accepted[|accepted| - 1].version
    ensures History(s.(files := s.files[file.version := file]), accepted + [file])
  {
    hide PackageDiffs, Announced;
    var s' := s.(files := s.files[file.version := file]);
    assert file.version == s.rows[|s.rows| - 1].version;
    AnnouncedKept(accepted, file);
    forall i | 0 <= i < |s'.comparisons| ensures Linked(s', accepted + [file], i) {
      assert s.rows[i].version.Less(s.rows[|s.rows| - 1].version);
      LinkKept(s, s', accepted, file, i);
    }
  }

  lemma InsertKeepsRows(s: Store, file: PackageFile, comparisons: seq<ComparisonRow>)
    requires RowsAscend(s) && FilesMatchRows(s)
    requires s.rows != [] ==> s.rows[|s.rows| - 1].version.Less(file.version)
    ensures RowsAscend(Insert(s, file, comparisons)) && FilesMatchRows(Insert(s, file, comparisons))
    ensures file.version !in s.files
  {
    var s' := Insert(s, file, comparisons);
    forall i | 0 <= i < |s.rows| ensures s.rows[i].version.Less(file.version) {
      assert i == |s.rows| - 1 || s.rows[i].version.Less(s.rows[|s.rows| - 1].version);
    }
    forall version ensures version in s'.files <==> HasVersion(s'.rows, version) {
      assert s'.rows[|s.rows|].version == file.version;
      if HasVersion(s.rows, version) {
        var i :| 0 <= i < |s.rows| && s.rows[i].version == version;
        assert s'.rows[i].version == version;
      }
    }
  }

  lemma CreateKeepsHistory(s: Store, accepted: seq<PackageFile>, file: PackageFile)
    requires History(s, accepted) && accepted != [] && Announced(accepted[|accepted| - 1], file)
    requires WellFormedFile(file) && accepted[|accepted| - 1].version.Less(file.version)
    ensures var link := ComparisonRow(s.nextId, s.rows[|s.rows| - 1].id,
                                      PackageDiffs(accepted[|accepted| - 1], file));
            History(Insert(s, file, [link]), accepted + [file])
  {
    hide PackageDiffs, Announced, WellFormedFile, Linked;
    var n := |s.rows| - 1;
    var link := ComparisonRow(s.nextId, s.rows[n].id, PackageDiffs(accepted[|accepted| - 1], file));
    assert s.rows[n].version == accepted[|accepted| - 1].version;
    InsertKeepsRows(s, file, [link]);
    AnnouncedKept(accepted, file);
    NewLink(s, accepted, file, link);
  }

  lemma NewLink(s: Store, accepted: seq<PackageFile>, file: PackageFile, link: ComparisonRow)
    requires History(s, accepted) && accepted != [] && file.version !in s.files
    requires link == ComparisonRow(s.nextId, s.rows[|s.rows| - 1].id,
                                   PackageDiffs(accepted[|accepted| - 1], file))
    ensures var s' := Insert(s, file, [link]);
      forall i | 0 <= i < |s'.comparisons| :: s'.rows[i].version in s'.files && Linked(s', accepted + [file], i)
  {
    hide PackageDiffs, Announced, WellFormedFile, RowsAscend;
    var s' := Insert(s, file, [link]);
    forall i | 0 <= i < |s'.comparisons| ensures s'.rows[i].version in s'.files && Linked(s', accepted + [file], i) {
      assert HasVersion(s.rows, s.rows[i].version);
      if i < |s.comparisons| {
        LinkKept(s, s', accepted, file, i);
      } else {
        var j := |accepted|;
        assert (accepted + [file])[j - 1] == s'.files[s'.rows[i].version] && (accepted + [file])[j] == file;
      }
    }
  }

  lemma CreatedIsAnnounced(prior: PackageFile, file: PackageFile)
    requires WellFormedFile(prior) && WellFormedFile(file) && Gate(prior, file).Accepted()
    ensures Announced(prior, file)
    ensures Gate(prior, file).Updated? ==> file.version == prior.version
    ensures Gate(prior, file).Created? ==> prior.version.Less(file.version)
  {
    hide PackageDiffs, ComparableSchemas, Severity, WellFormedFile, Gate;
    GateOutcomes(prior, file);
  }

  // The invariant of every run.
  lemma PublishKeepsHistory(s: Store, accepted: seq<PackageFile>, file: PackageFile)
    requires History(s, accepted) && WellFormedFile(file)
    ensures History(Publish(s, file).0, accepted + if Publish(s, file).1.Accepted() then [file] else [])
  {
    PublishAnswersGate(s, accepted, file);
    if accepted == [] {
      InsertKeepsRows(s, file, []);
    } else {
      hide Gate, Announced, Linked, WellFormedFile, RowsAscend, FilesMatchRows;
      StoredWellFormed(s, accepted);
      var prior := accepted[|accepted| - 1];
      if Gate(prior, file).Accepted() {
        CreatedIsAnnounced(prior, file);
      }
      if Gate(prior, file).Updated? {
        UpdateKeepsHistory(s, accepted, file);
      } else if Gate(prior, file).Created? {
        CreateKeepsHistory(s, accepted, file);
      } else {
        assert accepted + [] == accepted;
      }
    }
  }

  // A stored file is always found, its differences are always mapped, and a version number is never taken.
  lemma OneFailure(s: Store, accepted: seq<PackageFile>, file: PackageFile)
    requires History(s, accepted) && WellFormedFile(file)
    ensures var outcome := Publish(s, file).1;
            outcome.Accepted() || outcome.HigherVersionRequired? || outcome == Failed(ComparisonThrew)
  {
    PublishAnswersGate(s, accepted, file);
    if accepted != [] {
      hide Gate, History, Publish;
      GateOutcomes(accepted[|accepted| - 1], file);
    }
  }

  lemma RejectionKeepsState(s: Store, file: PackageFile)
    ensures !Publish(s, file).1.Accepted() ==> Publish(s, file).0 == s
  {
  }

  // A rejected publish succeeds when repeated under the number in the rejection.
  lemma RetryIsAccepted(s: Store, accepted: seq<PackageFile>, file: PackageFile)
    requires History(s, accepted) && WellFormedFile(file)
    requires Publish(s, file).1.HigherVersionRequired?
    ensures Publish(s, file.(version := Publish(s, file).1.minNext)).1 == Created
  {
    hide History, Publish;
    var minNext := Publish(s, file).1.minNext;
    var retried := file.(version := minNext);
    PublishAnswersGate(s, accepted, file);
    PublishAnswersGate(s, accepted, retried);
    GateAcceptsItsAnswer(accepted[|accepted| - 1], file);
  }

  lemma GateAcceptsItsAnswer(prior: PackageFile, file: PackageFile)
    requires Gate(prior, file).HigherVersionRequired?
    ensures Gate(prior, file.(version := Gate(prior, file).minNext)) == Created
  {
    hide PackageDiffs, Severity, Gate;
    GateOutcomes(prior, file);
    var minNext := Gate(prior, file).minNext;
    var severity := Severity(PackageDiffs(prior, file));
    RenumberingKeepsSeverity(prior, file, minNext);
    NextVersionIsLeastBump(prior.version, severity.value, minNext);
    GateOutcomes(prior, file.(version := minNext));
  }
}
