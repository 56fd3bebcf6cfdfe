/**
 Catalogs and packages and who may see them: which requests keep every public package in a public catalog. The two
 tables are maps from row id to row; a transaction that throws leaves them as they were.
 */
module Visibility {
  import opened Sequences
  import opened Slugs

  datatype Catalog = Catalog(slug: string, isPublic: bool)

  datatype Package = Package(catalogId: nat, slug: string, displayName: string, description: string, isPublic: bool,
                             versions: nat)

  datatype Tables = Tables(nextId: nat, catalogs: map<nat, Catalog>, packages: map<nat, Package>)

  datatype Error =
    | CatalogSlugRequired | ReservedKeyword | CatalogSlugNotAvailable | CatalogNotFound | PackageNotFound
    | PackageNameRequired | PackageDisplayNameRequired | PackageDescriptionRequired | CatalogNotPublic
    | PackageHasNoVersions | IdentifierNotValid | MoveToSameCatalog | PackageIdentifierNotAvailable | UniqueKeyViolated

  datatype Result = Done | Refused(error: Error)

  // What an update of a package asks to be changed.
  datatype PackageChanges = PackageChanges(
    catalogSlug: Option<string>, packageSlug: Option<string>, displayName: Option<string>,
    description: Option<string>, publicity: Option<bool>)

  datatype Request =
    | CreateCatalog(slug: string, isPublic: bool)
    | UpdateCatalog(slug: string, newSlug: Option<string>, publicity: Option<bool>)
    | DeleteCatalog(slug: string)
    | CreatePackage(catalogSlug: string, packageSlug: string, displayName: string, description: string)
    | UpdatePackage(catalogSlug: string, packageSlug: string, changes: PackageChanges)
    | MovePackage(catalogSlug: string, packageSlug: string, targetSlug: string)
    | DeletePackage(catalogSlug: string, packageSlug: string)
    | AddVersion(catalogSlug: string, packageSlug: string)  // a publish that created a version row

  const RESERVED: set<string> :=
    {"admin", "user", "catalog", "collection", "ws", "latest", "trending", "top", "recent", "recently", "my", "me",
     "docs", "images", "graphql", "accept-invite", "client-installers", "sitemap", "group"}

  // What trim() removes.
  predicate WhiteSpace(c: char) {
    c == ' ' || '\t' <= c <= '\r' || c == '\U{00A0}' || c == '\U{1680}' || '\U{2000}' <= c <= '\U{200A}'
    || c == '\U{2028}' || c == '\U{2029}' || c == '\U{202F}' || c == '\U{205F}' || c == '\U{3000}' || c == '\U{FEFF}'
  }

  // trim().length === 0
  predicate Blank(s: string) {
    forall c | c in s :: WhiteSpace(c)
  }

  // A given, non-empty new value, as JavaScript's truthiness test on the optional argument reads it.
  predicate Given(value: Option<string>) {
    value.Some? && value.value != []
  }

  // ---------- Lookups and unique keys ----------

  // WHERE slug = ...
  ghost predicate CatalogAt(t: Tables, id: nat, slug: string) {
    id in t.catalogs && t.catalogs[id].slug == slug
  }

  // WHERE LOWER(slug) = ...
  ghost predicate CatalogLike(t: Tables, id: nat, slug: string) {
    id in t.catalogs && ToLowerCase(t.catalogs[id].slug) == ToLowerCase(slug)
  }

  ghost predicate PackageAt(t: Tables, id: nat, catalogSlug: string, slug: string) {
    id in t.packages && t.packages[id].slug == slug && CatalogLike(t, t.packages[id].catalogId, catalogSlug)
  }

  // The unique indexes on lower(slug) and on (lower(slug), catalog_id), the foreign key to the catalog, and the
  // slugs that packages must have.
  ghost predicate Keys(t: Tables) {
    (forall i, j | i in t.catalogs && j in t.catalogs ::
       ToLowerCase(t.catalogs[i].slug) == ToLowerCase(t.catalogs[j].slug) ==> i == j)
    && (forall i, j | i in t.packages && j in t.packages ::
          (t.packages[i].catalogId == t.packages[j].catalogId
           && ToLowerCase(t.packages[i].slug) == ToLowerCase(t.packages[j].slug)) ==> i == j)
    && (forall i | i in t.packages :: t.packages[i].catalogId in t.catalogs && !Blank(t.packages[i].slug))
    && (forall i | i in t.catalogs :: i < t.nextId) && (forall i | i in t.packages :: i < t.nextId)
  }

  // Every public package lies in a public catalog.
  ghost predicate PublicInPublic(t: Tables) {
    forall i | i in t.packages && t.packages[i].isPublic ::
      t.packages[i].catalogId in t.catalogs && t.catalogs[t.packages[i].catalogId].isPublic
  }

  function FindId<T>(rows: map<nat, T>, n: nat, wanted: T -> bool): (id: Option<nat>)
    ensures id.Some? ==> id.value in rows && wanted(rows[id.value])
    ensures id.None? ==> forall i | i in rows && i < n :: !wanted(rows[i])
  {
    if n == 0 then None
    else if n - 1 in rows && wanted(rows[n - 1]) then Some(n - 1)
    else FindId(rows, n - 1, wanted)
  }

  function FindCatalog(t: Tables, slug: string): (id: Option<nat>)
    ensures id.Some? ==> CatalogAt(t, id.value, slug)
  {
    FindId(t.catalogs, t.nextId, (c: Catalog) => c.slug == slug)
  }

  function FindCatalogLike(t: Tables, slug: string): (id: Option<nat>)
    ensures id.Some? ==> CatalogLike(t, id.value, slug)
  {
    FindId(t.catalogs, t.nextId, (c: Catalog) => ToLowerCase(c.slug) == ToLowerCase(slug))
  }

  function FindPackage(t: Tables, catalogSlug: string, slug: string): (id: Option<nat>)
    ensures id.Some? ==> PackageAt(t, id.value, catalogSlug, slug)
  {
    var catalog := FindCatalogLike(t, catalogSlug);
    if catalog.None? then None
    else FindId(t.packages, t.nextId, (p: Package) => p.catalogId == catalog.value && p.slug == slug)
  }

  // findPackage, which throws if there is no such catalog.
  datatype Located = Found(id: nat) | Missing(error: Error)

  function LocatePackage(t: Tables, catalogSlug: string, slug: string): (r: Located)
    ensures r.Found? ==> PackageAt(t, r.id, catalogSlug, slug)
  {
    var id := FindPackage(t, catalogSlug, slug);
    if FindCatalogLike(t, catalogSlug).None? then Missing(CatalogNotFound)
    else if id.None? then Missing(PackageNotFound)
    else Found(id.value)
  }

  // The same after validateIdentifier.
  function IdentifyPackage(t: Tables, catalogSlug: string, slug: string): (r: Located)
    ensures r.Found? ==> PackageAt(t, r.id, catalogSlug, slug)
  {
    if Blank(catalogSlug) || Blank(slug) then Missing(IdentifierNotValid) else LocatePackage(t, catalogSlug, slug)
  }

  predicate CatalogKeyTaken(t: Tables, id: nat, slug: string) {
    exists i | i in t.catalogs :: i != id && ToLowerCase(t.catalogs[i].slug) == ToLowerCase(slug)
  }

  predicate PackageKeyTaken(t: Tables, id: nat, row: Package) {
    exists i | i in t.packages ::
      i != id && t.packages[i].catalogId == row.catalogId && ToLowerCase(t.packages[i].slug) == ToLowerCase(row.slug)
  }

  // ---------- The requests ----------

  function WithCatalog(t: Tables, id: nat, row: Catalog): (Tables, Result) {
    if CatalogKeyTaken(t, id, row.slug) then (t, Refused(UniqueKeyViolated))
    else (t.(catalogs := t.catalogs[id := row], nextId := if id < t.nextId then t.nextId else id + 1), Done)
  }

  function WithPackage(t: Tables, id: nat, row: Package): (Tables, Result) {
    if PackageKeyTaken(t, id, row) then (t, Refused(UniqueKeyViolated))
    else (t.(packages := t.packages[id := row], nextId := if id < t.nextId then t.nextId else id + 1), Done)
  }

  function HidePackages(packages: map<nat, Package>, catalogId: nat): map<nat, Package> {
    map i | i in packages :: if packages[i].catalogId == catalogId then packages[i].(isPublic := false) else packages[i]
  }

  function OutsideCatalog(packages: map<nat, Package>, catalogId: nat): map<nat, Package> {
    map i | i in packages && packages[i].catalogId != catalogId :: packages[i]
  }

  function Handle(t: Tables, request: Request): (Tables, Result) {
    match request
    case CreateCatalog(slug, isPublic) => HandleCreateCatalog(t, slug, isPublic)
    case UpdateCatalog(slug, newSlug, publicity) => HandleUpdateCatalog(t, slug, newSlug, publicity)
    case DeleteCatalog(slug) => HandleDeleteCatalog(t, slug)
    case CreatePackage(catalogSlug, packageSlug, displayName, description) =>
      HandleCreatePackage(t, catalogSlug, packageSlug, displayName, description)
    case UpdatePackage(catalogSlug, packageSlug, changes) => HandleUpdatePackage(t, catalogSlug, packageSlug, changes)
    case MovePackage(catalogSlug, packageSlug, targetSlug) => HandleMovePackage(t, catalogSlug, packageSlug, targetSlug)
    case DeletePackage(catalogSlug, packageSlug) => HandleDeletePackage(t, catalogSlug, packageSlug)
    case AddVersion(catalogSlug, packageSlug) => HandleAddVersion(t, catalogSlug, packageSlug)
  }

  function HandleCreateCatalog(t: Tables, slug: string, isPublic: bool): (Tables, Result) {
    if Blank(slug) then (t, Refused(CatalogSlugRequired))
    else if ToLowerCase(slug) in RESERVED then (t, Refused(ReservedKeyword))
    else if FindCatalog(t, slug).Some? then (t, Refused(CatalogSlugNotAvailable))
    else WithCatalog(t, t.nextId, Catalog(slug, isPublic))
  }

  function HandleUpdateCatalog(t: Tables, slug: string, newSlug: Option<string>, publicity: Option<bool>)
    : (Tables, Result)
  {
    var id := FindCatalog(t, slug);
    if id.None? then (t, Refused(CatalogNotFound))
    else
      var row := t.catalogs[id.value];
      var renamed := Given(newSlug) && row.slug != newSlug.value;
      if renamed && ToLowerCase(newSlug.value) in RESERVED then (t, Refused(ReservedKeyword))
      else
        var hidden := publicity == Some(false) && row.isPublic;
        var packages := if hidden then HidePackages(t.packages, id.value) else t.packages;
        var saved := WithCatalog(t.(packages := packages), id.value,
          Catalog(if renamed then newSlug.value else row.slug,
                  if publicity.Some? then publicity.value else row.isPublic));
        if saved.1 == Done then saved else (t, saved.1)
  }

  // A catalog whose slug is blank cannot be deleted while it has packages, because they are looked up by slugs.
  function HandleDeleteCatalog(t: Tables, slug: string): (Tables, Result) {
    var id := FindCatalog(t, slug);
    if id.None? then (t, Done)
    else if Blank(t.catalogs[id.value].slug) && exists i | i in t.packages :: t.packages[i].catalogId == id.value then
      (t, Refused(IdentifierNotValid))
    else (t.(catalogs := t.catalogs - {id.value}, packages := OutsideCatalog(t.packages, id.value)), Done)
  }

  // validation in PackageRepository.
  function Validation(row: Package): Result {
    if Blank(row.slug) then Refused(PackageNameRequired)
    else if Blank(row.displayName) then Refused(PackageDisplayNameRequired)
    else if Blank(row.description) then Refused(PackageDescriptionRequired)
    else Done
  }

  function WithValidPackage(t: Tables, id: nat, row: Package): (Tables, Result) {
    if Validation(row) != Done then (t, Validation(row)) else WithPackage(t, id, row)
  }

  function HandleCreatePackage(t: Tables, catalogSlug: string, packageSlug: string, displayName: string,
                               description: string): (Tables, Result)
  {
    var catalog := FindCatalogLike(t, catalogSlug);
    if catalog.None? then (t, Refused(CatalogNotFound))
    else WithValidPackage(t, t.nextId, Package(catalog.value, packageSlug, displayName, description, false, 0))
  }

  function Changed(value: Option<string>, was: string): string {
    if Given(value) then value.value else was
  }

  // The row as updatePackage is about to save it.
  function UpdatedPackage(row: Package, newCatalogId: nat, changes: PackageChanges): Package {
    Package(newCatalogId, Changed(changes.packageSlug, row.slug), Changed(changes.displayName, row.displayName),
            Changed(changes.description, row.description),
            if changes.publicity.Some? then changes.publicity.value else row.isPublic, row.versions)
  }

  // The catalog that the update asks for.
  function NewCatalogId(t: Tables, row: Package, changes: PackageChanges): Option<nat>
    requires row.catalogId in t.catalogs
  {
    if Given(changes.catalogSlug) && changes.catalogSlug.value != t.catalogs[row.catalogId].slug
    then FindCatalog(t, changes.catalogSlug.value)
    else Some(row.catalogId)
  }

  // The check on publicity looks at the catalog the package was in.
  function HandleUpdatePackage(t: Tables, catalogSlug: string, packageSlug: string, changes: PackageChanges)
    : (Tables, Result)
  {
    var found := LocatePackage(t, catalogSlug, packageSlug);
    if found.Missing? then (t, Refused(found.error))
    else
      var row := t.packages[found.id];
      var target := NewCatalogId(t, row, changes);
      var switched := changes.publicity.Some? && changes.publicity.value != row.isPublic;
      if target.None? then (t, Refused(CatalogNotFound))
      else if switched && changes.publicity.value && !t.catalogs[row.catalogId].isPublic then
        (t, Refused(CatalogNotPublic))
      else if switched && row.versions == 0 then (t, Refused(PackageHasNoVersions))
      else WithValidPackage(t, found.id, UpdatedPackage(row, target.value, changes))
  }

  // A package that moves into a private catalog becomes private.
  function MovedPackage(t: Tables, row: Package, target: nat): Package
    requires target in t.catalogs
  {
    row.(catalogId := target, isPublic := row.isPublic && t.catalogs[target].isPublic)
  }

  function HandleMovePackage(t: Tables, catalogSlug: string, packageSlug: string, targetSlug: string): (Tables, Result)
  {
    if catalogSlug == targetSlug then (t, Refused(MoveToSameCatalog))
    else
      var existing := IdentifyPackage(t, targetSlug, packageSlug);
      if existing.Found? then (t, Refused(PackageIdentifierNotAvailable))
      else if existing.error != PackageNotFound then (t, Refused(existing.error))
      else
        var found := IdentifyPackage(t, catalogSlug, packageSlug);
        if found.Missing? then (t, Refused(found.error))
        else
          var target := FindCatalogLike(t, targetSlug).value;
          WithPackage(t, found.id, MovedPackage(t, t.packages[found.id], target))
  }

  function HandleDeletePackage(t: Tables, catalogSlug: string, packageSlug: string): (Tables, Result) {
    var found := IdentifyPackage(t, catalogSlug, packageSlug);
    if found.Missing? then (t, Refused(found.error)) else (t.(packages := t.packages - {found.id}), Done)
  }

  function HandleAddVersion(t: Tables, catalogSlug: string, packageSlug: string): (Tables, Result) {
    var found := IdentifyPackage(t, catalogSlug, packageSlug);
    if found.Missing? then (t, Refused(found.error))
    else
      var row := t.packages[found.id];
      (t.(packages := t.packages[found.id := row.(versions := row.versions + 1)]), Done)
  }

  // ---------- What every request keeps ----------

  function NoRows(): Tables {
    Tables(0, map[], map[])
  }

  function Run(requests: seq<Request>): Tables {
    if requests == [] then NoRows() else Handle(Run(requests[..|requests| - 1]), requests[|requests| - 1]).0
  }

  // ---------- Lookups ----------

  // A row that satisfies the condition is found exactly when there is one.
  lemma LookupsAreComplete(t: Tables, catalogSlug: string, packageSlug: string)
    requires Keys(t)
    ensures FindCatalog(t, catalogSlug).Some? <==> exists id :: CatalogAt(t, id, catalogSlug)
    ensures FindCatalogLike(t, catalogSlug).Some? <==> exists id :: CatalogLike(t, id, catalogSlug)
    ensures FindPackage(t, catalogSlug, packageSlug).Some? <==> exists id :: PackageAt(t, id, catalogSlug, packageSlug)
  {
    if id: nat :| PackageAt(t, id, catalogSlug, packageSlug) {
      assert FindCatalogLike(t, catalogSlug) == Some(t.packages[id].catalogId);
    }
  }

  // Slugs are unique, so looking a row up by its slugs finds that row.
  lemma FindsItsPackage(t: Tables, id: nat)
    requires Keys(t) && id in t.packages
    ensures FindPackage(t, t.catalogs[t.packages[id].catalogId].slug, t.packages[id].slug) == Some(id)
  {
    var row := t.packages[id];
    var catalog := FindCatalogLike(t, t.catalogs[row.catalogId].slug);
    assert catalog == Some(row.catalogId);
  }

  // ---------- Keys ----------

  lemma FewerPackagesKeepKeys(t: Tables, packages: map<nat, Package>)
    requires Keys(t) && forall i | i in packages :: i in t.packages && packages[i] == t.packages[i]
    ensures Keys(t.(packages := packages))
  {
  }

  lemma WithCatalogKeepsKeys(t: Tables, id: nat, row: Catalog)
    requires Keys(t)
    ensures Keys(WithCatalog(t, id, row).0)
  {
  }

  lemma WithPackageKeepsKeys(t: Tables, id: nat, row: Package)
    requires Keys(t) && row.catalogId in t.catalogs && !Blank(row.slug)
    ensures Keys(WithPackage(t, id, row).0)
  {
  }

  lemma SameSlugsKeepKeys(t: Tables, packages: map<nat, Package>)
    requires Keys(t) && packages.Keys == t.packages.Keys
    requires forall i | i in packages ::
      packages[i].catalogId == t.packages[i].catalogId && packages[i].slug == t.packages[i].slug
    ensures Keys(t.(packages := packages))
  {
    var t' := t.(packages := packages);
    assert forall i | i in t'.packages :: i in t.packages;
  }

  lemma HidingKeepsKeys(t: Tables, catalogId: nat)
    requires Keys(t)
    ensures Keys(t.(packages := HidePackages(t.packages, catalogId)))
  {
    hide Keys;
    SameSlugsKeepKeys(t, HidePackages(t.packages, catalogId));
  }

  lemma CatalogInTables(t: Tables, id: nat)
    requires Keys(t) && id in t.packages
    ensures t.packages[id].catalogId in t.catalogs && !Blank(t.packages[id].slug) && id < t.nextId
  {
  }

  lemma UpdateCatalogKeepsKeys(t: Tables, slug: string, newSlug: Option<string>, publicity: Option<bool>)
    requires Keys(t)
    ensures Keys(HandleUpdateCatalog(t, slug, newSlug, publicity).0)
  {
    hide Keys, WithCatalog, HidePackages;
    var id := FindCatalog(t, slug);
    if id.Some? {
      var row := t.catalogs[id.value];
      var hiding := t.(packages := HidePackages(t.packages, id.value));
      HidingKeepsKeys(t, id.value);
      var updated := Catalog(if Given(newSlug) && row.slug != newSlug.value then newSlug.value else row.slug,
                             if publicity.Some? then publicity.value else row.isPublic);
      WithCatalogKeepsKeys(t, id.value, updated);
      WithCatalogKeepsKeys(hiding, id.value, updated);
    }
  }

  lemma DeleteCatalogKeepsKeys(t: Tables, slug: string)
    requires Keys(t)
    ensures Keys(HandleDeleteCatalog(t, slug).0)
  {
  }

  lemma CreatePackageKeepsKeys(t: Tables, catalogSlug: string, packageSlug: string, displayName: string,
                               description: string)
    requires Keys(t)
    ensures Keys(HandleCreatePackage(t, catalogSlug, packageSlug, displayName, description).0)
  {
    hide Keys, WithPackage;
    var catalog := FindCatalogLike(t, catalogSlug);
    if catalog.Some? && !Blank(packageSlug) {
      WithPackageKeepsKeys(t, t.nextId, Package(catalog.value, packageSlug, displayName, description, false, 0));
    }
  }

  lemma UpdatePackageKeepsKeys(t: Tables, catalogSlug: string, packageSlug: string, changes: PackageChanges)
    requires Keys(t)
    ensures Keys(HandleUpdatePackage(t, catalogSlug, packageSlug, changes).0)
  {
    hide Keys, WithPackage;
    var found := LocatePackage(t, catalogSlug, packageSlug);
    if found.Found? {
      CatalogInTables(t, found.id);
      var row := t.packages[found.id];
      var target := NewCatalogId(t, row, changes);
      if target.Some? && !Blank(UpdatedPackage(row, target.value, changes).slug) {
        WithPackageKeepsKeys(t, found.id, UpdatedPackage(row, target.value, changes));
      }
    }
  }

  lemma MovePackageKeepsKeys(t: Tables, catalogSlug: string, packageSlug: string, targetSlug: string)
    requires Keys(t)
    ensures Keys(HandleMovePackage(t, catalogSlug, packageSlug, targetSlug).0)
  {
    hide Keys, WithPackage;
    var found, target := IdentifyPackage(t, catalogSlug, packageSlug), FindCatalogLike(t, targetSlug);
    if found.Found? && target.Some? {
      CatalogInTables(t, found.id);
      WithPackageKeepsKeys(t, found.id, MovedPackage(t, t.packages[found.id], target.value));
    }
  }

  lemma AddVersionKeepsKeys(t: Tables, catalogSlug: string, packageSlug: string)
    requires Keys(t)
    ensures Keys(HandleAddVersion(t, catalogSlug, packageSlug).0)
  {
    hide Keys;
    SameSlugsKeepKeys(t, HandleAddVersion(t, catalogSlug, packageSlug).0.packages);
  }

  // Nothing a request does breaks a unique index or leaves a package without its catalog or a slug.
  lemma HandleKeepsKeys(t: Tables, request: Request)
    requires Keys(t)
    ensures Keys(Handle(t, request).0)
  {
    hide Keys, HandleUpdateCatalog, HandleDeleteCatalog, HandleCreatePackage, HandleUpdatePackage, HandleMovePackage,
         HandleAddVersion, WithCatalog;
    match request
    case CreateCatalog(slug, isPublic) => WithCatalogKeepsKeys(t, t.nextId, Catalog(slug, isPublic));
    case UpdateCatalog(slug, newSlug, publicity) => UpdateCatalogKeepsKeys(t, slug, newSlug, publicity);
    case DeleteCatalog(slug) => DeleteCatalogKeepsKeys(t, slug);
    case CreatePackage(catalogSlug, packageSlug, displayName, description) =>
      CreatePackageKeepsKeys(t, catalogSlug, packageSlug, displayName, description);
    case UpdatePackage(catalogSlug, packageSlug, changes) =>
      UpdatePackageKeepsKeys(t, catalogSlug, packageSlug, changes);
    case MovePackage(catalogSlug, packageSlug, targetSlug) =>
      MovePackageKeepsKeys(t, catalogSlug, packageSlug, targetSlug);
    case DeletePackage(_, _) => FewerPackagesKeepKeys(t, Handle(t, request).0.packages);
    case AddVersion(catalogSlug, packageSlug) => AddVersionKeepsKeys(t, catalogSlug, packageSlug);
  }

  // ---------- Publicity ----------

  // The request takes a package that is or becomes public into a catalog that is not.
  ghost predicate MovesIntoPrivate(t: Tables, request: Request) {
    request.UpdatePackage?
    && var found := LocatePackage(t, request.catalogSlug, request.packageSlug);
       found.Found? && t.packages[found.id].catalogId in t.catalogs
       && var row := t.packages[found.id];
          Given(request.changes.catalogSlug) && request.changes.catalogSlug.value != t.catalogs[row.catalogId].slug
          && var target := FindCatalog(t, request.changes.catalogSlug.value);
             target.Some? && !t.catalogs[target.value].isPublic
             && (if request.changes.publicity.Some? then request.changes.publicity.value else row.isPublic)
  }

  // Saving a package row keeps the rule exactly when the row does.
  lemma RowPublicity(t: Tables, id: nat, row: Package)
    requires PublicInPublic(t) && row.catalogId in t.catalogs && WithPackage(t, id, row).1 == Done
    ensures PublicInPublic(WithPackage(t, id, row).0) <==> (row.isPublic ==> t.catalogs[row.catalogId].isPublic)
  {
    var t' := WithPackage(t, id, row).0;
    assert t'.packages == t.packages[id := row] && t'.catalogs == t.catalogs;
    assert t'.packages[id] == row;
  }

  lemma CreateCatalogKeepsPublicity(t: Tables, slug: string, isPublic: bool)
    requires Keys(t) && PublicInPublic(t)
    ensures PublicInPublic(HandleCreateCatalog(t, slug, isPublic).0)
  {
  }

  lemma UpdateCatalogKeepsPublicity(t: Tables, slug: string, newSlug: Option<string>, publicity: Option<bool>)
    requires PublicInPublic(t)
    ensures PublicInPublic(HandleUpdateCatalog(t, slug, newSlug, publicity).0)
  {
  }

  lemma DeletionsKeepPublicity(t: Tables, request: Request)
    requires PublicInPublic(t) && (request.DeleteCatalog? || request.DeletePackage? || request.AddVersion?)
    ensures PublicInPublic(Handle(t, request).0)
  {
  }

  lemma CreatePackageKeepsPublicity(t: Tables, catalogSlug: string, packageSlug: string, displayName: string,
                                    description: string)
    requires PublicInPublic(t)
    ensures PublicInPublic(HandleCreatePackage(t, catalogSlug, packageSlug, displayName, description).0)
  {
    var catalog := FindCatalogLike(t, catalogSlug);
    if HandleCreatePackage(t, catalogSlug, packageSlug, displayName, description).1 == Done {
      hide PublicInPublic, WithPackage;
      RowPublicity(t, t.nextId, Package(catalog.value, packageSlug, displayName, description, false, 0));
    }
  }

  lemma UpdatePackagePublicity(t: Tables, request: Request)
    requires Keys(t) && PublicInPublic(t) && request.UpdatePackage? && Handle(t, request).1 == Done
    ensures PublicInPublic(Handle(t, request).0) <==> !MovesIntoPrivate(t, request)
  {
    var id := LocatePackage(t, request.catalogSlug, request.packageSlug).id;
    CatalogInTables(t, id);
    var row := t.packages[id];
    var updated := UpdatedPackage(row, NewCatalogId(t, row, request.changes).value, request.changes);
    assert row.isPublic ==> t.catalogs[row.catalogId].isPublic;
    hide Keys, PublicInPublic, WithPackage;
    RowPublicity(t, id, updated);
  }

  // A move needs no condition, because it takes the publicity of a package that enters a private catalog.
  lemma MovePackageKeepsPublicity(t: Tables, catalogSlug: string, packageSlug: string, targetSlug: string)
    requires PublicInPublic(t)
    ensures PublicInPublic(HandleMovePackage(t, catalogSlug, packageSlug, targetSlug).0)
  {
    hide PublicInPublic, WithPackage;
    if HandleMovePackage(t, catalogSlug, packageSlug, targetSlug).1 == Done {
      var id := IdentifyPackage(t, catalogSlug, packageSlug).id;
      RowPublicity(t, id, MovedPackage(t, t.packages[id], FindCatalogLike(t, targetSlug).value));
    } else {
      RefusalChangesNothing(t, Request.MovePackage(catalogSlug, packageSlug, targetSlug));
    }
  }

  // A request that is carried out keeps every public package in a public catalog exactly when it is not such an
  // update.
  lemma PublicInPublicExactly(t: Tables, request: Request)
    requires Keys(t) && PublicInPublic(t) && Handle(t, request).1 == Done
    ensures PublicInPublic(Handle(t, request).0) <==> !MovesIntoPrivate(t, request)
  {
    hide Keys, PublicInPublic, HandleCreateCatalog, HandleUpdateCatalog, HandleDeleteCatalog, HandleCreatePackage,
         HandleUpdatePackage, HandleMovePackage, HandleDeletePackage, HandleAddVersion;
    match request
    case CreateCatalog(slug, isPublic) => CreateCatalogKeepsPublicity(t, slug, isPublic);
    case UpdateCatalog(slug, newSlug, publicity) => UpdateCatalogKeepsPublicity(t, slug, newSlug, publicity);
    case CreatePackage(catalogSlug, packageSlug, displayName, description) =>
      CreatePackageKeepsPublicity(t, catalogSlug, packageSlug, displayName, description);
    case UpdatePackage(_, _, _) => UpdatePackagePublicity(t, request);
    case MovePackage(catalogSlug, packageSlug, targetSlug) =>
      MovePackageKeepsPublicity(t, catalogSlug, packageSlug, targetSlug);
    case _ => DeletionsKeepPublicity(t, request);
  }

  lemma RefusalChangesNothing(t: Tables, request: Request)
    requires Handle(t, request).1 != Done
    ensures Handle(t, request).0 == t
  {
  }

  // A change to a catalog reaches only that catalog's packages, and of those only whether they are public; deleting
  // it removes exactly them.
  lemma CatalogRequestsAreLocal(t: Tables, request: Request, id: nat)
    requires Keys(t) && PublicInPublic(t) && (request.UpdateCatalog? || request.DeleteCatalog?)
    requires FindCatalog(t, request.slug) == Some(id) && Handle(t, request).1 == Done
    ensures var packages := Handle(t, request).0.packages;
      forall i | i in t.packages ::
        if t.packages[i].catalogId != id then i in packages && packages[i] == t.packages[i]
        else if request.DeleteCatalog? then i !in packages
        else i in packages && packages[i] == t.packages[i].(isPublic := packages[i].isPublic)
             && (packages[i].isPublic <==> t.packages[i].isPublic && request.publicity != Some(false))
    ensures Handle(t, request).0.packages.Keys <= t.packages.Keys
  {
  }

  lemma StepKeepsPublicity(t: Tables, request: Request)
    requires Keys(t) && PublicInPublic(t) && !MovesIntoPrivate(t, request)
    ensures Keys(Handle(t, request).0) && PublicInPublic(Handle(t, request).0)
  {
    hide Handle, Keys, PublicInPublic, MovesIntoPrivate;
    HandleKeepsKeys(t, request);
    if Handle(t, request).1 == Done {
      PublicInPublicExactly(t, request);
    } else {
      RefusalChangesNothing(t, request);
    }
  }

  // In every state that requests lead to, without an update that takes a public package into a private catalog, a
  // public package lies in an existing public catalog. Moves by movePackage are among the requests.
  lemma {:induction false} PublicInPublicAlways(requests: seq<Request>)
    requires forall i | 0 <= i < |requests| :: !MovesIntoPrivate(Run(requests[..i]), requests[i])
    ensures Keys(Run(requests)) && PublicInPublic(Run(requests))
  {
    if requests != [] {
      hide Handle, Keys, PublicInPublic, MovesIntoPrivate;
      var n := |requests| - 1;
      var before := requests[..n];
      forall i | 0 <= i < n ensures !MovesIntoPrivate(Run(before[..i]), before[i]) {
        assert before[..i] == requests[..i];
      }
      PublicInPublicAlways(before);
      StepKeepsPublicity(Run(before), requests[n]);
    }
  }

  lemma OnePackageAt(t: Tables, i: nat, j: nat, catalogSlug: string, packageSlug: string)
    requires Keys(t) && PackageAt(t, i, catalogSlug, packageSlug) && PackageAt(t, j, catalogSlug, packageSlug)
    ensures i == j
  {
  }

  lemma FoundAt(t: Tables, id: nat, catalogSlug: string, packageSlug: string)
    requires Keys(t) && PackageAt(t, id, catalogSlug, packageSlug)
    ensures LocatePackage(t, catalogSlug, packageSlug) == Found(id)
  {
    LookupsAreComplete(t, catalogSlug, packageSlug);
    OnePackageAt(t, id, FindPackage(t, catalogSlug, packageSlug).value, catalogSlug, packageSlug);
    assert CatalogLike(t, t.packages[id].catalogId, catalogSlug);
    hide Keys, PackageAt, FindPackage, FindCatalogLike;
  }

  // After a move the package is found under its new catalog and no longer under the old one.
  lemma MovedPackageIsFound(t: Tables, catalogSlug: string, packageSlug: string, targetSlug: string)
    requires Keys(t) && HandleMovePackage(t, catalogSlug, packageSlug, targetSlug).1 == Done
    ensures var t' := HandleMovePackage(t, catalogSlug, packageSlug, targetSlug).0;
      var found := IdentifyPackage(t, catalogSlug, packageSlug);
      found.Found? && IdentifyPackage(t', targetSlug, packageSlug) == found
      && IdentifyPackage(t', catalogSlug, packageSlug) == Missing(PackageNotFound)
      && t'.packages.Keys == t.packages.Keys
      && (forall i | i in t.packages && i != found.id :: t'.packages[i] == t.packages[i])
  {
    hide Keys, FindPackage, FindCatalogLike, MovedPackage, PackageKeyTaken;
    var t' := HandleMovePackage(t, catalogSlug, packageSlug, targetSlug).0;
    var id, target := IdentifyPackage(t, catalogSlug, packageSlug).id, FindCatalogLike(t, targetSlug).value;
    MovePackageKeepsKeys(t, catalogSlug, packageSlug, targetSlug);
    assert t' == WithPackage(t, id, MovedPackage(t, t.packages[id], target)).0;
    MovedRow(t, id, target);
    assert PackageAt(t', id, targetSlug, packageSlug);
    FoundAt(t', id, targetSlug, packageSlug);
    if j: nat :| PackageAt(t', j, catalogSlug, packageSlug) {
      if j == id {
        OneCatalogLike(t, t.packages[id].catalogId, target, catalogSlug);
        FoundAt(t, id, targetSlug, packageSlug);
      } else {
        OnePackageAt(t, id, j, catalogSlug, packageSlug);
      }
    }
    LookupsAreComplete(t', catalogSlug, packageSlug);
    CatalogInTables(t, id);
    assert CatalogLike(t', t.packages[id].catalogId, catalogSlug);
  }

  lemma MovedRow(t: Tables, id: nat, target: nat)
    requires id in t.packages && target in t.catalogs
    ensures MovedPackage(t, t.packages[id], target).slug == t.packages[id].slug
    ensures MovedPackage(t, t.packages[id], target).catalogId == target
  {
  }

  lemma OneCatalogLike(t: Tables, i: nat, j: nat, slug: string)
    requires Keys(t) && CatalogLike(t, i, slug) && CatalogLike(t, j, slug)
    ensures i == j
  {
  }

  // ---------- A run that leaves a public package in a private catalog ----------

  lemma RunOfOneMore(requests: seq<Request>, request: Request)
    ensures Run(requests + [request]) == Handle(Run(requests), request).0
  {
    assert (requests + [request])[..|requests + [request]| - 1] == requests;
  }

  const NO_CHANGES := PackageChanges(None, None, None, None, None)
  const BOTH_CATALOGS: map<nat, Catalog> := map[0 := Catalog("a", true), 1 := Catalog("b", false)]

  // A public catalog, a private one, and a package that is made public in the first.
  const CATALOGS: seq<Request> := [Request.CreateCatalog("a", true)] + [Request.CreateCatalog("b", false)]
  const PREPARATION: seq<Request> :=
    CATALOGS + [Request.CreatePackage("a", "p", "name", "text")] + [Request.AddVersion("a", "p")]
    + [Request.UpdatePackage("a", "p", NO_CHANGES.(publicity := Some(true)))]

  const MISPLACING := Request.UpdatePackage("a", "p", NO_CHANGES.(catalogSlug := Some("b")))

  function OnePackage(catalogId: nat, isPublic: bool, versions: nat): Tables {
    Tables(3, BOTH_CATALOGS, map[2 := Package(catalogId, "p", "name", "text", isPublic, versions)])
  }

  lemma SlugsOfTheRun()
    ensures ToLowerCase("a") == "a" && ToLowerCase("b") == "b" && ToLowerCase("p") == "p" && "a" != "b"
    ensures "a" !in RESERVED && "b" !in RESERVED
    ensures !Blank("a") && !Blank("b") && !Blank("p") && !Blank("name") && !Blank("text")
  {
    assert "a"[0] == 'a' && "b"[0] == 'b' && "p"[0] == 'p';
    assert "a"[0] in "a" && "b"[0] in "b" && "p"[0] in "p" && "name"[0] in "name" && "text"[0] in "text";
  }

  lemma CatalogsPrepared()
    ensures Run(CATALOGS) == Tables(2, BOTH_CATALOGS, map[])
  {
    SlugsOfTheRun();
    RunOfOneMore([], Request.CreateCatalog("a", true));
    RunOfOneMore([Request.CreateCatalog("a", true)], Request.CreateCatalog("b", false));
    assert [] + [Request.CreateCatalog("a", true)] == [Request.CreateCatalog("a", true)];
    hide Blank;
    assert Run([]) == NoRows();
    assert Handle(NoRows(), Request.CreateCatalog("a", true)).0 == Tables(1, map[0 := Catalog("a", true)], map[]);
  }

  lemma PreparedLookups(isPublic: bool, versions: nat)
    ensures var t := OnePackage(0, isPublic, versions);
            FindCatalog(t, "b") == Some(1) && LocatePackage(t, "a", "p") == Found(2)
            && IdentifyPackage(t, "a", "p") == Found(2)
            && forall row: Package :: !PackageKeyTaken(t, 2, row)
  {
    SlugsOfTheRun();
    var t := OnePackage(0, isPublic, versions);
    assert CatalogAt(t, 1, "b") && CatalogLike(t, 0, "a") && PackageAt(t, 2, "a", "p");
    assert Keys(t);
    LookupsAreComplete(t, "b", "p");
    FoundAt(t, 2, "a", "p");
  }

  lemma PackageCreated()
    ensures Handle(Run(CATALOGS), Request.CreatePackage("a", "p", "name", "text")).0 == OnePackage(0, false, 0)
  {
    CatalogsPrepared();
    SlugsOfTheRun();
    hide Run, Blank;
    var t := Run(CATALOGS);
    assert CatalogLike(t, 0, "a");
    assert FindCatalogLike(t, "a") == Some(0);
  }

  lemma PackagePublished()
    ensures var publish := Request.UpdatePackage("a", "p", NO_CHANGES.(publicity := Some(true)));
            Handle(OnePackage(0, false, 1), publish).0 == OnePackage(0, true, 1)
  {
    PreparedLookups(false, 1);
    SlugsOfTheRun();
    hide Blank, LocatePackage, PackageKeyTaken;
  }

  lemma VersionAdded()
    ensures Handle(OnePackage(0, false, 0), Request.AddVersion("a", "p")).0 == OnePackage(0, false, 1)
  {
    PreparedLookups(false, 0);
    hide IdentifyPackage;
  }

  lemma RunOfThreeMore(requests: seq<Request>, a: Request, b: Request, c: Request)
    ensures Run(requests + [a] + [b] + [c]) == Handle(Handle(Handle(Run(requests), a).0, b).0, c).0
  {
    hide Handle, Run;
    RunOfOneMore(requests, a);
    RunOfOneMore(requests + [a], b);
    RunOfOneMore(requests + [a] + [b], c);
  }

  lemma PackagePrepared()
    ensures Run(PREPARATION) == OnePackage(0, true, 1)
  {
    PackageCreated();
    VersionAdded();
    PackagePublished();
    hide Run, Handle, OnePackage;
    RunOfThreeMore(CATALOGS, Request.CreatePackage("a", "p", "name", "text"), Request.AddVersion("a", "p"),
                   Request.UpdatePackage("a", "p", NO_CHANGES.(publicity := Some(true))));
  }

  lemma PackageMisplaced()
    ensures Handle(OnePackage(0, true, 1), MISPLACING).0 == OnePackage(1, true, 1)
    ensures Handle(OnePackage(0, true, 1), MISPLACING).1 == Done
    ensures MovesIntoPrivate(OnePackage(0, true, 1), MISPLACING)
  {
    PreparedLookups(true, 1);
    SlugsOfTheRun();
    hide Blank, LocatePackage, FindCatalog, PackageKeyTaken;
  }

  // So the rule is not an invariant of all runs.
  lemma MisplacingRun()
    ensures PublicInPublic(Run(PREPARATION)) && Handle(Run(PREPARATION), MISPLACING).1 == Done
    ensures MovesIntoPrivate(Run(PREPARATION), MISPLACING)
    ensures !PublicInPublic(Run(PREPARATION + [MISPLACING]))
  {
    PackagePrepared();
    PackageMisplaced();
    RunOfOneMore(PREPARATION, MISPLACING);
    hide Run, Handle, MovesIntoPrivate;
    assert OnePackage(1, true, 1).packages[2].isPublic;
  }
}
