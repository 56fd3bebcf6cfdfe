/**
 The repositories of catalogs and packages: each method changes the two tables as the request of the same name is
 specified to.
 */
module Registries {
  import opened Sequences
  import opened Slugs
  import opened Visibility

  class Registry {
    var nextId: nat
    var catalogs: map<nat, Catalog>
    var packages: map<nat, Package>

    function State(): Tables
      reads this
    {
      Tables(nextId, catalogs, packages)
    }

    ghost predicate Valid()
      reads this
    {
      Keys(State())
    }

    constructor ()
      ensures Valid() && State() == NoRows()
    {
      nextId, catalogs, packages := 0, map[], map[];
    }

    // save under the unique index; a violation is reported and nothing is written.
    method SaveCatalog(id: nat, row: Catalog) returns (result: Result)
      modifies this`catalogs, this`nextId
      ensures State() == WithCatalog(old(State()), id, row).0 && result == WithCatalog(old(State()), id, row).1
    {
      if CatalogKeyTaken(State(), id, row.slug) {
        return Refused(UniqueKeyViolated);
      }
      catalogs := catalogs[id := row];
      nextId := if id < nextId then nextId else id + 1;
      result := Done;
    }

    method SavePackage(id: nat, row: Package) returns (result: Result)
      modifies this`packages, this`nextId
      ensures State() == WithPackage(old(State()), id, row).0 && result == WithPackage(old(State()), id, row).1
    {
      if PackageKeyTaken(State(), id, row) {
        return Refused(UniqueKeyViolated);
      }
      packages := packages[id := row];
      nextId := if id < nextId then nextId else id + 1;
      result := Done;
    }

    method CreateCatalog(slug: string, isPublic: bool) returns (result: Result)
      requires Valid()
      modifies this
      ensures State() == HandleCreateCatalog(old(State()), slug, isPublic).0
      ensures result == HandleCreateCatalog(old(State()), slug, isPublic).1
      ensures Valid()
    {
      HandleKeepsKeys(State(), Request.CreateCatalog(slug, isPublic));
      hide Keys;
      if Blank(slug) {
        return Refused(CatalogSlugRequired);
      }
      if ToLowerCase(slug) in RESERVED {
        return Refused(ReservedKeyword);
      }
      if FindCatalog(State(), slug).Some? {
        return Refused(CatalogSlugNotAvailable);
      }
      result := SaveCatalog(nextId, Catalog(slug, isPublic));
    }

    // The cascade: when a catalog stops being public, so does each of its packages.
    method HidePackagesOf(catalogId: nat)
      modifies this`packages
      ensures packages == HidePackages(old(packages), catalogId)
    {
      ghost var before := packages;
      var remaining := set i | i in packages && packages[i].catalogId == catalogId;
      while remaining != {}
        invariant remaining <= packages.Keys && packages.Keys == before.Keys
        invariant forall i | i in remaining :: before[i].catalogId == catalogId
        invariant forall i | i in packages && before[i].catalogId == catalogId && i !in remaining ::
          packages[i] == before[i].(isPublic := false)
        invariant forall i | i in packages && (before[i].catalogId != catalogId || i in remaining) ::
          packages[i] == before[i]
        decreases |remaining|
      {
        var i :| i in remaining;
        packages := packages[i := packages[i].(isPublic := false)];
        remaining := remaining - {i};
      }
    }

    method UpdateCatalog(slug: string, newSlug: Option<string>, publicity: Option<bool>) returns (result: Result)
      requires Valid()
      modifies this
      ensures State() == HandleUpdateCatalog(old(State()), slug, newSlug, publicity).0
      ensures result == HandleUpdateCatalog(old(State()), slug, newSlug, publicity).1
      ensures Valid()
    {
      HandleKeepsKeys(State(), Request.UpdateCatalog(slug, newSlug, publicity));
      var id := FindCatalog(State(), slug);
      if id.None? {
        return Refused(CatalogNotFound);
      }
      var catalog, before := catalogs[id.value], packages;
      if Given(newSlug) && catalog.slug != newSlug.value {
        if ToLowerCase(newSlug.value) in RESERVED {
          return Refused(ReservedKeyword);
        }
        catalog := catalog.(slug := newSlug.value);
      }
      if publicity.Some? && catalog.isPublic != publicity.value {
        catalog := catalog.(isPublic := publicity.value);
        if !catalog.isPublic {
          HidePackagesOf(id.value);
        }
      }
      result := SaveCatalog(id.value, catalog);
      if result != Done {
        packages := before;
      }
    }

    method DeletePackage(catalogSlug: string, packageSlug: string) returns (result: Result)
      requires Valid()
      modifies this`packages
      ensures State() == HandleDeletePackage(old(State()), catalogSlug, packageSlug).0
      ensures result == HandleDeletePackage(old(State()), catalogSlug, packageSlug).1
      ensures Valid()
    {
      hide Keys, IdentifyPackage;
      HandleKeepsKeys(State(), Request.DeletePackage(catalogSlug, packageSlug));
      var found := IdentifyPackage(State(), catalogSlug, packageSlug);
      if found.Missing? {
        return Refused(found.error);
      }
      packages := packages - {found.id};
      result := Done;
    }

    // deletePackages: each package of the catalog is looked up by its slugs and deleted. A blank catalog slug is
    // refused at the first lookup.
    method DeletePackagesOf(catalogId: nat) returns (result: Result)
      requires Valid() && catalogId in catalogs
      modifies this`packages
      ensures Valid()
      ensures result == Done <==> !Blank(catalogs[catalogId].slug)
                                  || forall i | i in old(packages) :: old(packages)[i].catalogId != catalogId
      ensures result == Done ==> packages == OutsideCatalog(old(packages), catalogId)
      ensures result != Done ==> packages == old(packages) && result == Refused(IdentifierNotValid)
    {
      hide HandleDeletePackage, IdentifyPackage, Keys;
      ghost var before := packages;
      var remaining := set i | i in packages && packages[i].catalogId == catalogId;
      while remaining != {}
        invariant Valid()
        invariant remaining <= packages.Keys && forall i | i in remaining :: packages[i].catalogId == catalogId
        invariant forall i :: i in packages ==> i in before && packages[i] == before[i]
        invariant forall i :: i in before && i !in packages ==> before[i].catalogId == catalogId
        invariant forall i :: i in packages && packages[i].catalogId == catalogId ==> i in remaining
        invariant Blank(catalogs[catalogId].slug) ==> packages == before
        decreases |remaining|
      {
        var i :| i in remaining;
        DeletesItsPackage(State(), i);
        result := DeletePackage(catalogs[catalogId].slug, packages[i].slug);
        if result != Done {
          return;
        }
        remaining := remaining - {i};
      }
      result := Done;
    }

    // The catalog goes last.
    method DeleteCatalog(slug: string) returns (result: Result)
      requires Valid()
      modifies this
      ensures State() == HandleDeleteCatalog(old(State()), slug).0
      ensures result == HandleDeleteCatalog(old(State()), slug).1
      ensures Valid()
    {
      HandleKeepsKeys(State(), Request.DeleteCatalog(slug));
      hide Keys;
      var id := FindCatalog(State(), slug);
      if id.None? {
        return Done;
      }
      result := DeletePackagesOf(id.value);
      if result == Done {
        catalogs := catalogs - {id.value};
      }
    }

    // validation, then save.
    method SaveValidPackage(id: nat, row: Package) returns (result: Result)
      modifies this`packages, this`nextId
      ensures State() == WithValidPackage(old(State()), id, row).0
      ensures result == WithValidPackage(old(State()), id, row).1
    {
      result := Validation(row);
      if result == Done {
        result := SavePackage(id, row);
      }
    }

    method CreatePackage(catalogSlug: string, packageSlug: string, displayName: string, description: string)
      returns (result: Result)
      requires Valid()
      modifies this
      ensures State() == HandleCreatePackage(old(State()), catalogSlug, packageSlug, displayName, description).0
      ensures result == HandleCreatePackage(old(State()), catalogSlug, packageSlug, displayName, description).1
      ensures Valid()
    {
      hide Keys;
      HandleKeepsKeys(State(), Request.CreatePackage(catalogSlug, packageSlug, displayName, description));
      var catalog := FindCatalogLike(State(), catalogSlug);
      if catalog.None? {
        return Refused(CatalogNotFound);
      }
      result := SaveValidPackage(nextId, Package(catalog.value, packageSlug, displayName, description, false, 0));
    }

    // The slug, display name and description that an update gives.
    method ChangeTexts(before: Package, changes: PackageChanges) returns (row: Package)
      ensures row == before.(slug := Changed(changes.packageSlug, before.slug),
                             displayName := Changed(changes.displayName, before.displayName),
                             description := Changed(changes.description, before.description))
    {
      row := before;
      if Given(changes.packageSlug) && changes.packageSlug.value != row.slug {
        row := row.(slug := changes.packageSlug.value);
      }
      if Given(changes.displayName) && changes.displayName.value != row.displayName {
        row := row.(displayName := changes.displayName.value);
      }
      if Given(changes.description) && changes.description.value != row.description {
        row := row.(description := changes.description.value);
      }
    }

    method UpdatePackage(catalogSlug: string, packageSlug: string, changes: PackageChanges) returns (result: Result)
      requires Valid()
      modifies this
      ensures State() == HandleUpdatePackage(old(State()), catalogSlug, packageSlug, changes).0
      ensures result == HandleUpdatePackage(old(State()), catalogSlug, packageSlug, changes).1
      ensures Valid()
    {
      hide Keys, Changed, WithPackage, Validation, LocatePackage;
      HandleKeepsKeys(State(), Request.UpdatePackage(catalogSlug, packageSlug, changes));
      var found := LocatePackage(State(), catalogSlug, packageSlug);
      if found.Missing? {
        return Refused(found.error);
      }
      var row := packages[found.id];
      var catalog := catalogs[row.catalogId];
      if Given(changes.catalogSlug) && changes.catalogSlug.value != catalog.slug {
        var target := FindCatalog(State(), changes.catalogSlug.value);
        if target.None? {
          return Refused(CatalogNotFound);
        }
        row := row.(catalogId := target.value);
      }
      row := ChangeTexts(row, changes);
      if changes.publicity.Some? && changes.publicity.value != row.isPublic {
        if changes.publicity.value && !catalog.isPublic {
          return Refused(CatalogNotPublic);
        }
        if row.versions == 0 {
          return Refused(PackageHasNoVersions);
        }
        row := row.(isPublic := changes.publicity.value);
      }
      result := SaveValidPackage(found.id, row);
    }

    // movePackage, which saves through the same repository.
    method MovePackage(catalogSlug: string, packageSlug: string, targetSlug: string) returns (result: Result)
      requires Valid()
      modifies this
      ensures State() == HandleMovePackage(old(State()), catalogSlug, packageSlug, targetSlug).0
      ensures result == HandleMovePackage(old(State()), catalogSlug, packageSlug, targetSlug).1
      ensures Valid()
    {
      hide Keys;
      HandleKeepsKeys(State(), Request.MovePackage(catalogSlug, packageSlug, targetSlug));
      if catalogSlug == targetSlug {
        return Refused(MoveToSameCatalog);
      }
      var existing := IdentifyPackage(State(), targetSlug, packageSlug);
      if existing.Found? {
        return Refused(PackageIdentifierNotAvailable);
      }
      if existing.error != PackageNotFound {
        return Refused(existing.error);
      }
      var found := IdentifyPackage(State(), catalogSlug, packageSlug);
      if found.Missing? {
        return Refused(found.error);
      }
      var target := FindCatalogLike(State(), targetSlug).value;
      var row := packages[found.id].(catalogId := target);
      if !catalogs[target].isPublic {
        row := row.(isPublic := false);
      }
      result := SavePackage(found.id, row);
    }
  }

  lemma DeletesItsPackage(t: Tables, id: nat)
    requires Keys(t) && id in t.packages && t.packages[id].catalogId in t.catalogs
    ensures var slug := t.catalogs[t.packages[id].catalogId].slug;
      HandleDeletePackage(t, slug, t.packages[id].slug)
      == if Blank(slug) then (t, Refused(IdentifierNotValid)) else (t.(packages := t.packages - {id}), Done)
  {
    FindsItsPackage(t, id);
    CatalogInTables(t, id);
  }
}
