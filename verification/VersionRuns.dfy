/**
 What holds over every run of publishes, starting from a package without versions.
 */
module VersionRuns {
  import opened Sequences
  import opened PackageFiles
  import opened Comparison
  import opened Compatibilities
  import opened Contracts
  import opened ComparisonLaws
  import opened Publishing

  ghost predicate AllWellFormed(files: seq<PackageFile>) {
    forall file | file in files :: WellFormedFile(file)
  }

  lemma {:induction false} RunKeepsHistory(files: seq<PackageFile>)
    requires AllWellFormed(files)
    ensures History(Run(files), Accepted(files))
  {
    if files != [] {
      hide History, Publish;
      var before := files[..|files| - 1];
      RunKeepsHistory(before);
      PublishKeepsHistory(Run(before), Accepted(before), files[|files| - 1]);
    } else {
      assert Run(files) == Empty() && Accepted(files) == [];
    }
  }

  // ---------- The consumers' contract ----------

  // A step inside one major version has no breaking difference.
  lemma SameMajorIsNonBreaking(a: PackageFile, b: PackageFile)
    requires Announced(a, b) && a.version.major == b.version.major
    ensures Avoids(PackageDiffs(a, b), BREAKING)
  {
    hide PackageDiffs;
    SeverityIsMaximum(PackageDiffs(a, b));
    AvoidsBreaking(PackageDiffs(a, b));
  }

  // Each file may be accepted directly after the one before it.
  ghost predicate Chained(accepted: seq<PackageFile>) {
    forall k | 0 < k < |accepted| :: Announced(accepted[k - 1], accepted[k])
  }

  // No step from the i-th to the j-th file hides a schema.
  ghost predicate SchemasStayVisible(accepted: seq<PackageFile>, i: nat, j: nat)
    requires j < |accepted|
  {
    forall k | i < k <= j :: KeepsSchemasVisible(accepted[k - 1], accepted[k])
  }

  lemma {:induction false} MajorsAscend(accepted: seq<PackageFile>, i: nat, j: nat)
    requires Chained(accepted) && i <= j < |accepted|
    ensures accepted[i].version.major <= accepted[j].version.major
    decreases j
  {
    if i < j {
      MajorsAscend(accepted, i, j - 1);
      assert Announced(accepted[j - 1], accepted[j]);
    }
  }

  lemma StepHonoursContract(a: PackageFile, b: PackageFile)
    requires Announced(a, b) && a.version.major == b.version.major && KeepsSchemasVisible(a, b)
    ensures Contract(a, b)
  {
    hide PackageDiffs;
    SameMajorIsNonBreaking(a, b);
    NonBreakingHonoursContract(a, b);
  }

  lemma ContractTransitive(a: PackageFile, b: PackageFile, c: PackageFile)
    requires Contract(a, b) && Contract(b, c)
    ensures Contract(a, c)
  {
    hide Shows;
  }

  lemma LastLink(accepted: seq<PackageFile>, i: nat, j: nat)
    requires Chained(accepted) && i < j < |accepted| && SchemasStayVisible(accepted, i, j)
    ensures Announced(accepted[j - 1], accepted[j]) && KeepsSchemasVisible(accepted[j - 1], accepted[j])
    ensures SchemasStayVisible(accepted, i, j - 1)
  {
    hide Announced, KeepsSchemasVisible;
  }

  lemma LastStepHonoursContract(accepted: seq<PackageFile>, i: nat, j: nat)
    requires Chained(accepted) && i < j < |accepted| && SchemasStayVisible(accepted, i, j)
    requires accepted[i].version.major == accepted[j].version.major
    ensures accepted[i].version.major == accepted[j - 1].version.major
    ensures SchemasStayVisible(accepted, i, j - 1) && Contract(accepted[j - 1], accepted[j])
  {
    hide Announced, KeepsSchemasVisible, Contract, Chained, SchemasStayVisible;
    LastLink(accepted, i, j);
    MajorsAscend(accepted, i, j - 1);
    MajorsAscend(accepted, j - 1, j);
    StepHonoursContract(accepted[j - 1], accepted[j]);
  }

  lemma {:induction false} ContractAlongChain(accepted: seq<PackageFile>, i: nat, j: nat)
    requires Chained(accepted) && i <= j < |accepted| && SchemasStayVisible(accepted, i, j)
    requires accepted[i].version.major == accepted[j].version.major
    ensures Contract(accepted[i], accepted[j])
    decreases j
  {
    if i < j {
      hide Contract, Chained, SchemasStayVisible;
      LastStepHonoursContract(accepted, i, j);
      ContractAlongChain(accepted, i, j - 1);
      ContractTransitive(accepted[i], accepted[j - 1], accepted[j]);
    }
  }

  // Over every run in which no step hides a schema, any two accepted files of one major version keep the contract:
  // what the earlier one shows, the later one shows with the same types.
  lemma ContractOverRun(files: seq<PackageFile>, i: nat, j: nat)
    requires AllWellFormed(files)
    ensures var accepted := Accepted(files);
            (i <= j < |accepted| && accepted[i].version.major == accepted[j].version.major
             && SchemasStayVisible(accepted, i, j)) ==>
              Contract(accepted[i], accepted[j])
  {
    var accepted := Accepted(files);
    if i <= j < |accepted| && accepted[i].version.major == accepted[j].version.major
       && SchemasStayVisible(accepted, i, j) {
      RunKeepsHistory(files);
      hide Contract, SchemasStayVisible, Announced;
      ContractAlongChain(accepted, i, j);
    }
  }

  // ---------- Stored files ----------

  // The version exists and is not the newest one.
  ghost predicate Superseded(s: Store, version: Version) {
    version in s.files && s.rows != [] && version != s.rows[|s.rows| - 1].version
  }

  // From s to s' rows and comparison rows were only added, and the version's file stayed what it was.
  ghost predicate Frozen(s: Store, s': Store, version: Version) {
    s.rows <= s'.rows && s.comparisons <= s'.comparisons
    && version in s.files && version in s'.files && s'.files[version] == s.files[version]
  }

  // A publish leaves everything, or replaces the newest file, or adds a version that no file had.
  lemma PublishShape(s: Store, accepted: seq<PackageFile>, file: PackageFile)
    requires History(s, accepted) && WellFormedFile(file) && s.rows != []
    ensures var s' := Publish(s, file).0;
      s' == s
      || (s' == s.(files := s.files[file.version := file]) && file.version == s.rows[|s.rows| - 1].version)
      || (file.version !in s.files && exists links :: s' == Insert(s, file, links))
  {
    hide History, Gate, RowsAscend, FindLatestVersion, HasVersion, PackageDiffs, Severity, WellFormedFile;
    StoredWellFormed(s, accepted);
    PublishAnswersGate(s, accepted, file);
    GateOutcomes(accepted[|accepted| - 1], file);
    FilesHaveRows(s, accepted);
  }

  lemma FilesHaveRows(s: Store, accepted: seq<PackageFile>)
    requires History(s, accepted)
    ensures forall version | version in s.files :: HasVersion(s.rows, version)
  {
    hide RowsAscend, Announced, Linked, HasVersion, WellFormedFile;
  }

  lemma PublishFreezesSuperseded(s: Store, accepted: seq<PackageFile>, file: PackageFile, version: Version)
    requires History(s, accepted) && WellFormedFile(file) && Superseded(s, version)
    ensures Frozen(s, Publish(s, file).0, version) && Superseded(Publish(s, file).0, version)
  {
    hide Publish, History, WellFormedFile;
    PublishShape(s, accepted, file);
  }

  lemma FrozenTransitive(s: Store, s': Store, s'': Store, version: Version)
    requires Frozen(s, s', version) && Frozen(s', s'', version)
    ensures Frozen(s, s'', version)
  {
  }

  lemma RunOfOneMore(files: seq<PackageFile>, file: PackageFile)
    ensures Run(files + [file]) == Publish(Run(files), file).0
  {
    assert (files + [file])[..|files + [file]| - 1] == files;
  }

  // The file of a superseded version never changes again, whatever is published later.
  lemma {:induction false} SupersededNeverChanges(files: seq<PackageFile>, more: seq<PackageFile>, version: Version)
    requires AllWellFormed(files + more)
    requires Superseded(Run(files), version)
    ensures Frozen(Run(files), Run(files + more), version) && Superseded(Run(files + more), version)
    decreases |more|
  {
    if more == [] {
      assert files + more == files;
    } else {
      hide History, Publish, Run, Accepted, Frozen, Superseded;
      var prefix, last := files + more[..|more| - 1], more[|more| - 1];
      assert files + more == prefix + [last];
      RunOfOneMore(prefix, last);
      SupersededNeverChanges(files, more[..|more| - 1], version);
      RunKeepsHistory(prefix);
      PublishFreezesSuperseded(Run(prefix), Accepted(prefix), last, version);
      FrozenTransitive(Run(files), Run(prefix), Run(files + more), version);
    }
  }

  // Every version row has exactly one stored file, whose own version is the row's, and no file lacks a row.
  lemma RowsAndFilesCorrespond(files: seq<PackageFile>, version: Version)
    requires AllWellFormed(files)
    ensures version in Run(files).files <==>
      exists i :: 0 <= i < |Run(files).rows| && Run(files).rows[i].version == version
    ensures forall i, j :: 0 <= i < j < |Run(files).rows| ==> Run(files).rows[i].version != Run(files).rows[j].version
    ensures version in Run(files).files ==> Run(files).files[version].version == version
  {
    RunKeepsHistory(files);
  }

  // ---------- Version numbers and comparison rows ----------

  // The number of b is above that of a by at least what the differences demand, and there are differences.
  predicate AnnouncesDifferences(a: PackageFile, b: PackageFile) {
    var severity := Severity(PackageDiffs(a, b));
    severity.Some? && severity.value != Identical && severity.value.Rank() <= Bump(a.version, b.version).Rank()
  }

  // The next publish after any run. If it creates a row, its number is above every stored one and announces the
  // changes; the unique key is never violated.
  lemma NextPublishAfterRun(files: seq<PackageFile>, file: PackageFile)
    requires AllWellFormed(files) && WellFormedFile(file)
    ensures var s, accepted, outcome := Run(files), Accepted(files), Publish(Run(files), file).1;
      (outcome.Created? ==>
         (forall row | row in s.rows :: row.version.Less(file.version))
         && FindLatestVersion(Publish(s, file).0.rows) == Some(Row(s.nextId, file.version))
         && (s.rows != [] ==> accepted != [] && AnnouncesDifferences(accepted[|accepted| - 1], file)))
      && (outcome.Accepted() || outcome.HigherVersionRequired? || outcome == Failed(ComparisonThrew))
  {
    hide History, Run, Accepted, Publish, AnnouncesDifferences, WellFormedFile;
    RunKeepsHistory(files);
    OneFailure(Run(files), Accepted(files), file);
    if Publish(Run(files), file).1.Created? {
      CreatedIsNewest(Run(files), Accepted(files), file);
      if Run(files).rows != [] {
        CreatedAnnounces(Run(files), Accepted(files), file);
      }
    }
  }

  lemma CreatedAnnounces(s: Store, accepted: seq<PackageFile>, file: PackageFile)
    requires History(s, accepted) && WellFormedFile(file) && Publish(s, file).1.Created? && s.rows != []
    ensures accepted != [] && AnnouncesDifferences(accepted[|accepted| - 1], file)
  {
    PublishAnswersGate(s, accepted, file);
    hide Gate, Publish, PackageDiffs;
    GateOutcomes(accepted[|accepted| - 1], file);
  }

  lemma CreatedIsNewest(s: Store, accepted: seq<PackageFile>, file: PackageFile)
    requires History(s, accepted) && WellFormedFile(file) && Publish(s, file).1.Created?
    ensures forall row | row in s.rows :: row.version.Less(file.version)
    ensures FindLatestVersion(Publish(s, file).0.rows) == Some(Row(s.nextId, file.version))
  {
    hide Gate, Announced, Linked, WellFormedFile, Severity, PackageDiffs, FindLatestVersion;
    PublishAnswersGate(s, accepted, file);
    if accepted != [] {
      GateOutcomes(accepted[|accepted| - 1], file);
      StoredWellFormed(s, accepted);
    }
    InsertKeepsRows(s, file, []);
    LatestIsNewest(Insert(s, file, []));
    RowsOfCreated(s, file);
    forall row | row in s.rows ensures row.version.Less(file.version) {
      var i :| 0 <= i < |s.rows| && s.rows[i] == row;
      assert i == |s.rows| - 1 || row.version.Less(s.rows[|s.rows| - 1].version);
    }
  }

  lemma RowsOfCreated(s: Store, file: PackageFile)
    requires Publish(s, file).1.Created?
    ensures Publish(s, file).0.rows == Insert(s, file, []).rows
  {
    hide Gate, HasVersion, FindLatestVersion, PackageDiffs;
  }

  // The i-th comparison row links the i-th and (i+1)-th version row. It holds what comparePackages reports between
  // the file the older version still has and the file the newer one was created with, and never more than the two
  // version numbers announce.
  lemma ComparisonRowsFormChain(files: seq<PackageFile>, i: nat)
    requires AllWellFormed(files) && i < |Run(files).comparisons|
    ensures |Run(files).rows| == |Run(files).comparisons| + 1
    ensures var s := Run(files);
      var link, older, newer := s.comparisons[i], s.rows[i], s.rows[i + 1];
      link.newId == newer.id && link.oldId == older.id && older.version in s.files
      && (exists created :: created in files && created.version == newer.version
            && link.differences == PackageDiffs(s.files[older.version], created))
      && Severity(link.differences).Some? && Severity(link.differences).value != Identical
      && Severity(link.differences).value.Rank() <= Bump(older.version, newer.version).Rank()
  {
    RunKeepsHistory(files);
    AcceptedWerePublished(files);
    var s, accepted := Run(files), Accepted(files);
    assert Linked(s, accepted, i);
    var j :| 0 < j < |accepted|
      && accepted[j - 1] == s.files[s.rows[i].version] && accepted[j].version == s.rows[i + 1].version
      && s.comparisons[i]
         == ComparisonRow(s.rows[i + 1].id, s.rows[i].id, PackageDiffs(accepted[j - 1], accepted[j]));
    assert Announced(accepted[j - 1], accepted[j]);
    assert s.rows[i].version.Less(s.rows[i + 1].version);
    assert accepted[j] in files;
  }

  lemma {:induction false} AcceptedWerePublished(files: seq<PackageFile>)
    ensures forall file :: file in Accepted(files) ==> file in files
  {
    if files != [] {
      AcceptedWerePublished(files[..|files| - 1]);
    }
  }

  // Publishing the latest file again changes nothing: no version row, no comparison row, the same files.
  lemma RepublishingIsIdle(files: seq<PackageFile>)
    requires AllWellFormed(files) && Accepted(files) != []
    requires UniqueNames(Accepted(files)[|Accepted(files)| - 1])
    ensures Publish(Run(files), Accepted(files)[|Accepted(files)| - 1]) == (Run(files), Updated)
  {
    hide PackageDiffs, Announced, Linked, ComparableSchemas, WellFormed, UniqueNames, Run, Accepted;
    var s, latest := Run(files), Accepted(files)[|Accepted(files)| - 1];
    RunKeepsHistory(files);
    ReflexiveUpToSchemaHiding(latest, latest.schemas);
    assert latest.(schemas := latest.schemas) == latest;
    StoredWellFormed(s, Accepted(files));
    assert s.files[latest.version := latest] == s.files;
  }
}
