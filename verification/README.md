# DataPM registry: package comparison, publishing and its neighbours

A Dafny model of the parts of DataPM that decide whether a new version of a data package may be published, and of
four neighbouring algorithms, with proofs about every input, every run and every reachable state.

| file | what it models |
|---|---|
| `Sequences.dfy` | options, concatenated per-element results, rearranged lists |
| `PackageFiles.dfy` | the parts of a package file that a comparison reads, and version numbers |
| `Comparison.dfy` | `comparePackages` and its helpers, loop by loop |
| `Compatibilities.dfy` | `diffCompatibility`, `leastCompatible`, `nextVersion` |
| `Contracts.dfy` | what an absence of breaking differences promises to consumers |
| `ComparisonLaws.dfy`, `ListingOrder.dfy` | reflexivity, duality, independence of listing order |
| `Reports.dfy` | exactly what a comparison reports, where, and when it throws, on the two files themselves |
| `Publishing.dfy` | `createOrUpdateVersion`, the version store, `saveNewPackageFile` |
| `GateAnswers.dfy` | exactly what the version gate answers, on the two files themselves |
| `VersionRuns.dfy` | what holds over every run of publishes |
| `PropertyRewrite.dfy` | the in-place rewrite of nested properties, on a tree of mutable objects |
| `Upgrades.dfy` | the whole of `upgradePackageFile` on a mutable file object |
| `Slugs.dfy` | regular expressions, the slug validators, `nameToSlug` |
| `Suggestions.dfy` | which names get a suggestion that the validators accept |
| `CacheKeys.dfy`, `SessionCaches.dfy` | the session cache and its string keys |
| `Visibility.dfy` | requests about catalogs and packages, and which packages are public |
| `RequestAnswers.dfy` | when each request is carried out and which row it leaves |
| `Registries.dfy` | the methods that carry out these requests on the two tables |

## How to read it

* Code that works by changing things is a method or a class: the comparison loops push to a response, the version
  store, the session cache and the repositories are classes, and the property rewrite works on linked objects.
  Each such method equals a function of its input or of the old state, and the theorems are about those functions.
* A JavaScript object is its keys in enumeration order together with the map from key to value. `WellFormed` says
  that the keys are listed once each, at every depth, which every JavaScript object guarantees.
* A transaction that throws leaves the state as it was. Where the comparison throws a `TypeError`, because the new side
  is an object type without `objectProperties`, the comparison methods answer `None` and publishing fails with
  `ComparisonThrew`; `Reports.SchemasThrowExactly` says on which paths this happens.
* The comparison, the gate, the upgrade and the requests are specified by functions in the shape of the code. What
  these functions compute is then proved in terms that do not use them: paths, pointers, sets of difference types,
  literal names, and the fields of files, rows and requests.
* Versions are triples of numbers. A database row's `createdAt`, `updatedAt`, description and author are not kept.
* A promise in the session cache is kept as what it settles to, and a loader as the promise it returns if called.

## Where the code differs from what is said about it

* A comment at `lib/src/PackageUtil.ts:518` says that a changed version number requires one *minor* version more. The
  code asks for a *patch*, and the proofs follow the code. That the class is not "identical" is what keeps the file
  of an unchanged package under its own version number (`Publishing.IdenticalKeepsVersion`).
* Comments at `lib/src/PackageUtil.ts:248-249` and `282-283` speak of the most compatible match. All matches are
  compared and all their differences are kept.
* The comparison does not look at a schema's own `hidden` flag. So "no breaking difference" promises consumers
  nothing about schemas that become hidden: `ComparisonLaws.HidingASchemaGoesUnreported` shows that hiding any
  visible schema is never reported, and `Contracts.NonBreakingHonoursContract` that this is the only way a
  non-breaking step can break the contract.
* `nameToSlug` can suggest a slug that the validators refuse: `a_b` gives `a_b`, which no catalog may be called, and
  `a_-b` gives `a_-b`, which neither validator accepts (`Suggestions.RefusedByCatalogs`, `Suggestions.RefusedByBoth`).
  For which names this happens is proved on the name itself. With at most 38 characters, the catalog validator refuses
  exactly the names in which an underscore stands between two letters or digits, and the package validator those in
  which, between two letters or digits, an underscore meets another separator or three underscores stand together;
  both refuse the names without a letter or digit. In longer names only what still fits into 38 characters counts, each run of other
  characters being one (`Suggestions.SuggestionIsCatalogSlugExactly`, `Suggestions.SuggestionIsPackageSlugExactly`).
* `updatePackage` with a new catalog slug checks publicity against the catalog the package was in. If the `catalogId`
  it assigns is what is saved, although the row's loaded `catalog` still is the former one, a public package can enter
  a private catalog and stay public: `Visibility.MisplacingRun` is a run that does so, and
  `Visibility.PublicInPublicExactly` says that such an update is the one request that breaks the rule. `movePackage`
  takes the publicity away and needs no condition (`Visibility.MovePackageKeepsPublicity`).
* A catalog whose slug is blank cannot be deleted while it has packages, because they are looked up by slugs.
* The step from 0.2.0 keeps the source of the last schema only (`Upgrades.OnlyLastSourceSurvives`), and throws later
  if no schema has one or that one has no configuration (`Upgrades.UpgradeSucceedsExactly`).
* Children of a 0.9.0 property that is not of object type stay in the legacy field
  (`PropertyRewrite.RewriteIsCompleteExactly`).
* The default readme is always `"# "` and the display name: the `??` in `lib/src/PackageUtil.ts:982` binds weaker
  than `+`, so its right side is never used.

## Model

| member | source | states |
|---|---|---|
| Comparison.CompareProperty | lib/src/PackageUtil.ts:403-429 | For a key on both sides: a difference for each of description, type names (as sets), hiding, unhiding and unit, in this order |
| Comparison.CompareProperties | lib/src/PackageUtil.ts:379-456 | The response holds, in order, what each prior key and then each new key contributes, and recurses where both sides are objects; none where the keys of missing object properties are read |
| Comparison.CompareSchema | lib/src/PackageUtil.ts:368-377 | Two schemas are compared by their properties only, under a pointer ending in the new title |
| Comparison.CompareForward | lib/src/PackageUtil.ts:382-430 | The forward loop pushes, in order, what each prior key contributes |
| Comparison.CompareOneSchema | lib/src/PackageUtil.ts:240-266 | A prior schema is compared with all its matches, or reported removed, hidden or not |
| Comparison.CompareSchemaAgainst | lib/src/PackageUtil.ts:243-253 | Every new schema with the prior title is compared; found says whether there is one |
| Comparison.CompareSchemas | lib/src/PackageUtil.ts:238-269 | Forward only: each prior schema is compared with all its matches, or reported removed, hidden or not |
| Comparison.FindStreamSet | lib/src/PackageUtil.ts:347 | The first stream set with the slug; none exactly when no stream set has it |
| Comparison.CompareStream | lib/src/PackageUtil.ts:297-313 | A changed inspected count once, and a changed hash only if there was one |
| Comparison.CompareSourceHead | lib/src/PackageUtil.ts:319-342 | A changed type hides the finer differences of configuration, connection and credentials |
| Comparison.CompareSource | lib/src/PackageUtil.ts:317-363 | The source's own differences, then those of each prior stream set against the first of the same slug |
| Comparison.CompareSourceAgainst | lib/src/PackageUtil.ts:277-286 | Every new source with the prior slug is compared; found says whether there is one |
| Comparison.CompareSources | lib/src/PackageUtil.ts:272-295 | Each prior source is compared with all its matches or reported removed |
| Comparison.CompareHeaders | lib/src/PackageUtil.ts:160-226 | One difference for each changed field of the package itself, in the order of the code |
| Comparison.ComparePackages | lib/src/PackageUtil.ts:160-235 | The package's own fields, then the schemas, then the sources; none where the comparison of the schemas throws |
| Compatibilities.SeverityAppend | lib/src/PackageUtil.ts:493-548 | The severity of two lists together is the less compatible of the two severities |
| Compatibilities.SeverityIsMaximum | lib/src/PackageUtil.ts:493-548 | The fold throws exactly on a list with an unmapped type; otherwise it is the maximum over the single differences |
| Compatibilities.SeverityByKinds | lib/src/PackageUtil.ts:497-544 | The severity is decided by which types occur: it is breaking, compatible or minor by the first of three listed sets that occurs, identical if none does, and undefined with the unmapped type |
| Compatibilities.FoldOne | lib/src/PackageUtil.ts:497-544 | The switch raises the severity so far to that of one difference, or throws |
| Compatibilities.DiffCompatibility | lib/src/PackageUtil.ts:493-548 | The loop over the switch answers what the listed sets of types demand, and throws on the unmapped type |
| Compatibilities.NextVersionIsLeastBump | lib/src/PackageUtil.ts:550-569 | A version number is at or above nextVersion exactly when it is at or above the current one and announces at least the severity |
| Contracts.NonBreakingIffPreserves | lib/src/PackageUtil.ts:379-456 | No breaking difference between two property trees exactly when each prior key is hidden and gone, or there with the same type names, not turned hidden, and related again below |
| Contracts.PackageNonBreaking | lib/src/PackageUtil.ts:160-269 | No breaking difference between two files exactly when each prior schema has only preserving matches, or is hidden and has none |
| Contracts.HeaderAtMostMinor | lib/src/PackageUtil.ts:163-225 | The package's own fields never require more than a patch |
| Contracts.SourcesAtMostMinor | lib/src/PackageUtil.ts:272-363 | Sources and stream sets never require more than a patch |
| Contracts.PropertyDiffsMapped | lib/src/PackageUtil.ts:379-456 | At no nesting depth does the comparison of properties produce a type without a severity |
| Contracts.PackageDiffsMapped | lib/src/PackageUtil.ts:493-548 | The severity switch never throws on what comparePackages produces |
| Contracts.PreservesVisiblePath | lib/src/PackageUtil.ts:379-456 | The relation carries every visible path, through any nesting, to the new side with the same type names |
| Contracts.NonBreakingHonoursContract | lib/src/PackageUtil.ts:238-269 | Without breaking differences, everything shown stays shown with the same types exactly when no visible schema is left hidden |
| ComparisonLaws.PropertiesReflexive | lib/src/PackageUtil.ts:379-456 | A property tree of any depth compared with itself shows no difference |
| ComparisonLaws.SourceReflexive | lib/src/PackageUtil.ts:317-363 | A source with unique stream set slugs compared with itself shows no difference |
| ComparisonLaws.ReflexiveUpToSchemaHiding | lib/src/PackageUtil.ts:160-456 | A file with unique names compared with itself shows no difference, also after any change of its schemas' hidden flags |
| ComparisonLaws.HidingASchemaGoesUnreported | lib/src/PackageUtil.ts:368-377 | Hiding any visible schema of any file with unique names is not reported and takes the schema from its consumers |
| ComparisonLaws.SwapReportsOpposite | lib/src/PackageUtil.ts:379-456 | Every reported difference has its opposite at the same pointer when the two sides are swapped |
| ComparisonLaws.SwapDuality | lib/src/PackageUtil.ts:379-456 | At every depth an addition is a removal (hidden or not) seen from the other side, hiding and unhiding swap, and changes of type, unit and description are symmetric |
| ComparisonLaws.ChangeMember | lib/src/PackageUtil.ts:403-429 | For a key on both sides a difference is reported exactly where description, type names, hiding or unit differ in its way |
| Reports.PropertyDiffsExactly | lib/src/PackageUtil.ts:379-456 | A difference is reported exactly when a path of keys leads, through object properties on both sides, to a key whose presence, hiding, types, unit or description differ in its way, and its pointer spells that path |
| Reports.ReportedOnce | lib/src/PackageUtil.ts:379-456 | Where keys have no slash, no difference is reported twice |
| Reports.ThrowsExactly | lib/src/PackageUtil.ts:443-449 | Comparing two property trees throws exactly when a path leads to a property with object properties before that is an object without any after |
| Reports.SchemasThrowExactly | lib/src/PackageUtil.ts:238-253 | Comparing the schemas throws exactly when two of one title have such a path |
| Reports.SchemasReportExactly | lib/src/PackageUtil.ts:238-269 | A difference of schemas is a prior one without a namesake, hidden or not, or stands at a path at which two of one title differ |
| Reports.SourceHeadReports | lib/src/PackageUtil.ts:319-342 | A changed type of source is reported alone; configuration, connection and credentials exactly where they differ under the same type |
| Reports.StreamReports | lib/src/PackageUtil.ts:297-361 | A stream set without a counterpart is reported removed; otherwise exactly changed methods, a changed count and a changed hash that was there before |
| Reports.SourcesReportExactly | lib/src/PackageUtil.ts:272-363 | A difference of sources is a prior one without a namesake, or one of two of one slug that differ in type, configuration, connection, credentials or a stream set |
| Reports.HeaderReports | lib/src/PackageUtil.ts:160-226 | Each changed field of the package itself is reported under its own type, and nothing else is |
| Reports.PackageDiffsExactly | lib/src/PackageUtil.ts:160-456 | comparePackages reports a difference exactly where the two files differ in one of these ways |
| ListingOrder.KeyOrderIrrelevant | lib/src/PackageUtil.ts:379-456 | Reordering property keys at any depth keeps the multiset of differences |
| ListingOrder.FindOrderIrrelevant | lib/src/PackageUtil.ts:347 | With unique slugs the first match does not depend on the order |
| ListingOrder.SchemasOrderIrrelevant | lib/src/PackageUtil.ts:238-269 | Reordering the schemas of either file keeps the multiset of differences |
| ListingOrder.SourcesOrderIrrelevant | lib/src/PackageUtil.ts:272-363 | Reordering sources and stream sets of either file keeps the multiset of differences |
| ListingOrder.ListingOrderIrrelevant | lib/src/PackageUtil.ts:160-548 | Reordering anything in either file keeps the multiset of differences, the severity and the gate's answer, hence the required next version |
| ListingOrder.ComparableSchemasInAnyOrder | lib/src/PackageUtil.ts:443-452 | Whether the comparison throws does not depend on the order either |
| Publishing.FindLatestVersion | backend/src/repository/VersionRepository.ts:68-90 | A row whose (major, minor, patch) is lexicographically greatest; none exactly when there are no rows |
| Publishing.CheckAgainstLatest | backend/src/business/CreateVersion.ts:82-119 | The gate's answer about the stored file and the new one, with the comparison result |
| Publishing.VersionStore.SaveVersion | backend/src/repository/VersionRepository.ts:39-66 | A new row with a fresh id at the end, or a violation of the unique key and no change |
| Publishing.VersionStore.Transact | backend/src/business/CreateVersion.ts:42-176 | One publish as one transaction over version rows, comparison rows and files |
| Publishing.VersionStore.CreateOrUpdateVersion | backend/src/business/CreateVersion.ts:32-180 | The same, keeping the invariant of every reachable store |
| Publishing.VersionStore.SaveNewPackageFile | backend/src/job/BackendJobContextBase.ts:259-282 | After at most one retry the publish is accepted, unless the comparison throws; a rejected file is stored under the number in the rejection |
| Publishing.LatestIsNewest | backend/src/repository/VersionRepository.ts:77-90 | The lexicographically greatest row is the one created last |
| Publishing.IdenticalKeepsVersion | lib/src/PackageUtil.ts:175-180 | A file classed identical has the stored file's own version number |
| Publishing.RenumberingKeepsSeverity | backend/src/job/BackendJobContextBase.ts:270-271 | Writing another version number into a changed file never alters the severity |
| Publishing.GateOutcomes | backend/src/business/CreateVersion.ts:82-119 | Identical files are updates; otherwise a number that announces the changes is accepted, and any other is answered with the least one that would do |
| GateAnswers.GateExactly | backend/src/business/CreateVersion.ts:82-119 | The gate fails exactly on such a path; otherwise the differences between the two files decide whether it asks for the next major, minor or patch version, in that order, or takes the file for unchanged |
| GateAnswers.AddedPropertyDemandsMinorVersion | lib/src/PackageUtil.ts:506-510 | A property added to a schema at any depth, with nothing breaking, demands the next minor version |
| GateAnswers.ChangedSourceDemandsNewVersion | lib/src/PackageUtil.ts:512-513 | A source of another type never lets a file replace the stored one under its number |
| Publishing.PublishAnswersGate | backend/src/business/CreateVersion.ts:62-130 | In every reachable store the answer is the gate's about the last accepted file: that file is found, and an accepted number is never taken |
| Publishing.PublishKeepsHistory | backend/src/business/CreateVersion.ts:62-176 | Rows ascend in creation order, each has its one file, every accepted file announces its changes, and comparison rows form one chain |
| Publishing.OneFailure | backend/src/business/CreateVersion.ts:62-130 | A missing stored file, an unmapped difference and a duplicate version number never occur |
| Publishing.RetryIsAccepted | backend/src/job/BackendJobContextBase.ts:268-280 | A rejected publish repeated under the returned minNextVersion is accepted against the same store |
| VersionRuns.RunKeepsHistory | backend/src/business/CreateVersion.ts:32-180 | The invariant holds after every run of publishes |
| VersionRuns.SameMajorIsNonBreaking | backend/src/business/CreateVersion.ts:86-119 | An accepted step inside one major version has no breaking difference |
| VersionRuns.ContractOverRun | backend/src/business/CreateVersion.ts:62-129 | Over every run in which no step hides a schema, any two accepted files of one major version keep the contract: all visible schemas and property paths stay visible with the same types |
| VersionRuns.SupersededNeverChanges | backend/src/business/CreateVersion.ts:132-176 | The file of a superseded version, and all older rows and comparison rows, never change again |
| VersionRuns.RowsAndFilesCorrespond | backend/src/business/CreateVersion.ts:132-176 | In every reachable store each version row has exactly one file, whose version is the row's |
| VersionRuns.NextPublishAfterRun | backend/src/business/CreateVersion.ts:88-124 | After any run, a created version is above every stored one, becomes the latest, and announces at least the severity of the differences from the last accepted file |
| VersionRuns.ComparisonRowsFormChain | backend/src/business/CreateVersion.ts:168-170 | Each version but the first is linked to the one before it by one comparison row that holds the comparePackages result of that step, of no greater severity than the two numbers announce |
| VersionRuns.RepublishingIsIdle | backend/src/business/CreateVersion.ts:92-95 | Publishing the latest file again changes no row, no comparison row and no file |
| PropertyRewrite.PropertyNode.TypeNode | lib/src/PackageUtil.ts:904-937 | A loop files each of a property's valueTypes under the type of its name, drops unknown names, and removes valueTypes |
| PropertyRewrite.PropertyNode.RewriteNode | lib/src/PackageUtil.ts:949-962 | One property and everything below it is rewritten in place, or the read of types throws |
| PropertyRewrite.TypeProperties | lib/src/PackageUtil.ts:902-940 | The top-level properties of a schema get their types, and the trees below are untouched |
| PropertyRewrite.RecurseProperties | lib/src/PackageUtil.ts:948-962 | The recursion ends and leaves the rewritten tree in the same objects; it throws exactly on trees with children but no types along the way |
| PropertyRewrite.PathsPreserved | lib/src/PackageUtil.ts:943-967 | Every path read through properties before leads, through types.object.objectProperties after, to the same types and statistics, and no other path appears |
| PropertyRewrite.RewriteIsCompleteExactly | lib/src/PackageUtil.ts:952-961 | No legacy field is left exactly when every property with children has an object type |
| Upgrades.PackageDocument.SourcesOutOfSchemas | lib/src/PackageUtil.ts:734-764 | Sources with one stream set each come from the schemas, each overwriting the one before, and leave the schemas |
| Upgrades.PackageDocument.RewriteSources | lib/src/PackageUtil.ts:829-843 | A loop over the sources changes each in place |
| Upgrades.PackageDocument.RewriteReadmeAndLicense | lib/src/PackageUtil.ts:969-986 | Readme and license end up in one place each, with a default text if there is none |
| Upgrades.PackageDocument.TypeSchemas | lib/src/PackageUtil.ts:902-940 | All schemas' top-level properties are typed, with their trees otherwise as they were |
| Upgrades.PackageDocument.RewriteSchemas | lib/src/PackageUtil.ts:943-967 | All schemas' property trees are rewritten, or the rewrite throws |
| Upgrades.PackageDocument.UpgradePackageFile | lib/src/PackageUtil.ts:714-989 | The chain of ifs is the iteration of single migration steps until none applies, and throws exactly when one of them does |
| Upgrades.UpgradeEndsAtLatest | lib/src/PackageUtil.ts:714-989 | From any recognised starting version the file ends at 0.32.1, and a second upgrade changes nothing |
| Upgrades.OneReadmeOneLicense | lib/src/PackageUtil.ts:969-986 | A file that enters at 0.31.5 or earlier leaves with exactly one readme and one license field: its Markdown text, or else its file, or else a default text |
| Upgrades.UpgradeSucceedsExactly | lib/src/PackageUtil.ts:714-989 | The upgrade throws for no file but those that lack sources, an early configuration, or types above children |
| Upgrades.OnlyLastSourceSurvives | lib/src/PackageUtil.ts:734-764 | Of several schemas with a source, only the last one's source is in the result |
| Upgrades.UpgradedSources | lib/src/PackageUtil.ts:824-893 | The chain changes sources one by one, in place and order |
| Upgrades.FullyUpgradedSource | lib/src/PackageUtil.ts:824-893 | An early source ends with its addresses in its configuration, the same configuration for connecting, its stream sets with update methods and otherwise as they were, and its file pattern as a file regex |
| Upgrades.UpgradedSourceFields | lib/src/PackageUtil.ts:824-893 | From whatever version, each source ends with the addresses, connection, stream sets and configuration keys that the remaining steps give it, and otherwise as it was |
| Upgrades.ExtractedSource | lib/src/PackageUtil.ts:734-764 | A file from before 0.3.0 ends with one source, whose slug, type, address, stream set, title and hash come from the last schema with a source |
| Upgrades.UpgradedFields | lib/src/PackageUtil.ts:714-872 | No schema keeps a source from before 0.3.0, every registry from before 0.7.0 publishes the schema only, a missing canonical from before 0.8.0 is true, and later files keep these fields |
| Upgrades.UpgradedForests | lib/src/PackageUtil.ts:895-967 | The property trees of the result are the typed and rewritten trees of the input |
| Upgrades.UpgradedTypes | lib/src/PackageUtil.ts:902-940 | In a file from 0.8.1 or earlier each top-level property ends with exactly the types named in its valueTypes, name by name, with their statistics and its attributes |
| Upgrades.UpgradeKeepsPaths | lib/src/PackageUtil.ts:943-967 | A 0.9.0 file keeps all its property paths with their statistics and ends without a legacy field |
| Slugs.CatalogSlugLanguage | lib/src/Validators.ts:3 | The catalog expression accepts one to 39 letters, digits and dashes that begin with and never put a dash before anything but a letter or digit |
| Slugs.PackageSlugLanguage | lib/src/Validators.ts:1 | The package expression accepts lower-case letters and digits with between two of them nothing, one dot, one or two underscores, or dashes |
| Slugs.ValidatorsAnswer | lib/src/Validators.ts:38-65 | Both validators ask first for a slug, then for at most 38 characters, then for their language |
| Slugs.MatchedIsUnmixed | lib/src/Validators.ts:1 | Whatever the package expression accepts has no mixed separators and no three underscores together |
| Slugs.ValidSlugHasNoSlash | lib/src/Validators.ts:1-65 | A slug that either validator accepts has no slash |
| Slugs.LowerCaseLetters | lib/src/NameUtil.ts:2 | Each capital becomes the small letter at its place in the alphabet, and other characters stay |
| Slugs.SlugHasShape | lib/src/NameUtil.ts:1-11 | A suggestion has lower-case letters, digits, underscores and single dashes, none of the last two at its ends, and at most 38 characters |
| Slugs.ReplacementKeepsWords | lib/src/NameUtil.ts:2 | Replacing the runs of other characters keeps every word character in order |
| Slugs.ShortNamesKeepTheirWords | lib/src/NameUtil.ts:1-11 | A name of at most 38 characters is only replaced and stripped, never cut |
| Slugs.NameToSlugIdempotent | lib/src/NameUtil.ts:1-11 | A suggestion has at most 38 characters, and suggesting again changes nothing |
| Suggestions.SuggestionAsCatalogSlug | lib/src/Validators.ts:38-50 | A suggestion is a valid catalog slug exactly when it is not empty and has no underscore |
| Suggestions.SuggestionAsPackageSlug | lib/src/Validators.ts:53-65 | A suggestion is a valid package slug exactly when it is not empty and has neither mixed separators nor three underscores together |
| Suggestions.SuggestionOfPart | lib/src/NameUtil.ts:1-11 | The suggestion is the replaced lower-case text of the name from its first letter or digit up to the last one that fits into 38 characters |
| Suggestions.PlacedCharacter | lib/src/NameUtil.ts:2 | Each word character, and a dash for each run of others, stands in its place in the replaced text |
| Suggestions.SuggestsExactly | lib/src/NameUtil.ts:1-11 | A name gets a suggestion exactly when it has a letter or digit |
| Suggestions.SuggestionIsCatalogSlugExactly | lib/src/Validators.ts:38-50 | The catalog validator accepts the suggestion exactly for the names with a letter or digit and no underscore between the first and a later one that fits |
| Suggestions.ShortNameIsCatalogSlugExactly | lib/src/Validators.ts:38-50 | For names of at most 38 characters: exactly with a letter or digit and no underscore between two of them |
| Suggestions.SuggestionIsPackageSlugExactly | lib/src/Validators.ts:53-65 | The package validator accepts the suggestion exactly for the names with a letter or digit in whose kept part no underscore meets another separator and no three underscores stand together |
| Suggestions.ShortNameIsPackageSlugExactly | lib/src/Validators.ts:53-65 | For names of at most 38 characters: exactly with a letter or digit and no such clash between two of them |
| Suggestions.SuggestionIsValid | lib/src/NameUtil.ts:1-11 | For a name without an underscore each validator accepts the suggestion exactly when the name has a letter or digit |
| Suggestions.RefusedByCatalogs | lib/src/Validators.ts:38-50 | The name a_b is suggested as it is and is no catalog slug |
| Suggestions.RefusedByBoth | lib/src/Validators.ts:38-65 | The name a_-b is suggested as it is and is neither a package nor a catalog slug |
| CacheKeys.DecimalInjective | backend/src/session-cache.ts:230-232 | Different numbers have different decimal texts |
| CacheKeys.KeysDoNotCollide | backend/src/session-cache.ts:230-327 | Two pairs of key builder and arguments with the same key are the same pair, including the two that share PACKAGE_ID- and the two that share COLLECTION_PERMISSION_ID- |
| CacheKeys.SlashFreeKeyIsOwn | backend/src/session-cache.ts:230-327 | The key of an entity without slashes in its slugs belongs to no other entity, validated or not |
| CacheKeys.KeyIsSharedExactly | backend/src/session-cache.ts:246-262 | Some other entity has the same key exactly when the entity is a package or version identifier with a slash in a slug |
| SessionCaches.SessionCache.Clear | backend/src/session-cache.ts:13-15 | Nothing is cached any more |
| SessionCaches.SessionCache.StoreToCache | backend/src/session-cache.ts:27-29 | The data is cached under the key as a resolved promise, and other keys are unchanged |
| SessionCaches.SessionCache.LoadDataAsync | backend/src/session-cache.ts:182-201 | The cached promise is answered unless there is none or a reload is forced; then the loader is called and its promise cached |
| SessionCaches.SessionCache.LoadEntity | backend/src/session-cache.ts:31-38 | A wrapper loads under the key of its own builder |
| SessionCaches.CacheHoldsLatestWrite | backend/src/session-cache.ts:182-201 | After any run a key is cached exactly if it was written since the last clear, with the value of the latest write |
| SessionCaches.LoadAnswersLatestWrite | backend/src/session-cache.ts:182-201 | Every load in every run answers the latest value written to its key, a failure included |
| SessionCaches.LoaderRunsOnce | backend/src/session-cache.ts:189-200 | Between two calls of a key's loader the cache was cleared, or the second load was forced |
| SessionCaches.LoaderIsCalledExactly | backend/src/session-cache.ts:189-200 | A load calls its loader exactly if it is forced, or its key was neither stored nor loaded since the last clear |
| SessionCaches.LoadAnswersExactly | backend/src/session-cache.ts:182-201 | A load is answered with what the latest store, forced load or first load since the last clear put there, itself included |
| SessionCaches.EntityLoadIsItsOwn | backend/src/session-cache.ts:17-327 | In every run a load of an entity is answered with the latest value loaded or stored for that same entity |
| Visibility.LookupsAreComplete | backend/src/repository/PackageRepository.ts:48-70 | A catalog or package is found by its slugs exactly when there is one |
| Registries.Registry.CreateCatalog | backend/src/repository/CatalogRepository.ts:120-172 | A new catalog, or the refusal of a blank, reserved or used slug and no change |
| Registries.Registry.HidePackagesOf | backend/src/repository/CatalogRepository.ts:205-210 | The cascade loop makes exactly the catalog's packages private |
| Registries.Registry.UpdateCatalog | backend/src/repository/CatalogRepository.ts:174-241 | Slug and publicity change as asked, with the cascade, or nothing changes |
| Registries.Registry.DeletePackagesOf | backend/src/repository/PackageRepository.ts:469-478 | Deleting by slugs, one by one, removes exactly the catalog's packages, or is refused for a blank catalog slug and removes none |
| Registries.Registry.DeleteCatalog | backend/src/repository/CatalogRepository.ts:263-289 | The catalog and its packages are gone, and nothing else, or nothing is |
| Registries.Registry.CreatePackage | backend/src/repository/PackageRepository.ts:275-333 | A new private package in an existing catalog, or a refusal for its catalog, slug, display name or description, and no change |
| Registries.Registry.UpdatePackage | backend/src/repository/PackageRepository.ts:335-413 | Catalog, slug, texts and publicity change as asked after the checks, or nothing changes |
| Registries.Registry.MovePackage | backend/src/resolvers/PackageResolver.ts:487-526 | The package moves to a catalog that has no package of its slug, and is private if that catalog is, or nothing changes |
| Registries.Registry.DeletePackage | backend/src/repository/PackageRepository.ts:438-465 | The one package with these slugs is gone, or there is none |
| Visibility.FindsItsPackage | backend/src/repository/PackageRepository.ts:48-70 | Looking a package up by its slugs finds that package |
| Visibility.HandleKeepsKeys | backend/src/repository/CatalogRepository.ts:120-289 | No request breaks a unique index or leaves a package without its catalog or a slug |
| Visibility.PublicInPublicExactly | backend/src/repository/PackageRepository.ts:365-398 | A request keeps every public package in a public catalog exactly when it is not an update that takes a package that is or becomes public into a private catalog |
| Visibility.MisplacingRun | backend/src/repository/PackageRepository.ts:365-398 | A run from empty tables whose last request is such an update, is carried out, and breaks the rule |
| Visibility.MovePackageKeepsPublicity | backend/src/resolvers/PackageResolver.ts:514-526 | A move keeps the rule without any condition |
| Visibility.MovedPackageIsFound | backend/src/resolvers/PackageResolver.ts:497-526 | After a move the package is found under the new catalog and no longer under the old one, and other packages are as they were |
| Visibility.CatalogRequestsAreLocal | backend/src/repository/CatalogRepository.ts:202-289 | Changing or deleting a catalog reaches its own packages only, all of them, and of a changed catalog's packages only whether they are public |
| RequestAnswers.CatalogCreated | backend/src/repository/CatalogRepository.ts:120-172 | Carried out exactly for a slug that is not blank, reserved or used up to case; the new row has it |
| RequestAnswers.CatalogUpdated | backend/src/repository/CatalogRepository.ts:174-241 | Carried out exactly if a new slug is neither reserved nor used; the row has the given slug and publicity |
| RequestAnswers.CatalogDeleted | backend/src/repository/CatalogRepository.ts:263-289 | Carried out unless the slug is blank and there are packages |
| RequestAnswers.PackageCreated | backend/src/repository/PackageRepository.ts:275-333 | Carried out exactly with slug, display name and description, and a slug not used in the catalog; the new row is private and without versions |
| RequestAnswers.PackageUpdated | backend/src/repository/PackageRepository.ts:335-413 | When the update is carried out, and the row it leaves, from the request's fields |
| RequestAnswers.PackageMoved | backend/src/resolvers/PackageResolver.ts:497-526 | Carried out exactly into another catalog in which the slug is not used; the row keeps its texts and versions, and its publicity if the target is public |
| RequestAnswers.PackageDeleted | backend/src/repository/PackageRepository.ts:438-465 | The package goes, unless the catalog slug is blank |
| RequestAnswers.UnknownCatalogIsRefused | backend/src/repository/PackageRepository.ts:56-60 | Requests about an unknown catalog are answered with CATALOG_NOT_FOUND |
| RequestAnswers.UnknownPackageIsRefused | backend/src/repository/PackageRepository.ts:438-453 | Requests about an unknown package are refused |
| Visibility.PublicInPublicAlways | backend/src/repository/CatalogRepository.ts:202-212 | In every state reachable without such an update, moves included, a public package lies in an existing public catalog |

## Left out

- Transact: does not model several packages at once; the rows, files and comparison rows of one package are independent of the others'.
- SaveNewPackageFile: does not model the creation of a package that does not exist yet, nor the permission checks before the publish.
- LoadDataAsync: does not model a promise that is still pending; it is identified with what it settles to.
- PackageDocument: does not capture aliasing of configuration objects beyond the one that the step to 0.6.0 creates between configuration and connectionConfiguration.
- SourcesOutOfSchemas: does not model the statistics of the stream set that it creates, which are carried data.
- UpgradePackageFile: does not model a `$schema` whose text before the version number contains that number, or two schemas with one title in the step to 0.9.0.
- The statistics that the steps from 0.1.0 and 0.3.0 convert (record counts, numbers kept as text, null dates): carried data.
- UpdatePackage: takes the assigned `catalogId` as the one that is saved; which of it and the loaded `catalog` wins is not in the repository.
- MovePackage: does not model permissions and follows, nor a package that the session cache still holds.
- NameToSlug: does not model letters outside ASCII that lower-case into ASCII ones.
- `deleteVersions`, file storage and the JSON round trip of a stored file: input and output; a stored file is read back as it was written.
- Activity log, readme search vectors, permissions, images, notifications and the GraphQL layer: no effect on the modelled state.
- Display names, descriptions and websites of catalogs: independent fields.
- A source or stream set that is null in a package file, and comparisons of dates that are not valid dates: excluded by the file's own schema.
- Pre-release and build tags of version numbers, and version texts that are not in canonical form.
- Parsing and validation of package files before the upgrade, and the conversion of date texts: foreign libraries.
