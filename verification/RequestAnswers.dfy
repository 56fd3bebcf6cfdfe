/**
 What each request about catalogs and packages does, said on the two tables and the request's own fields: when it is
 carried out, and which row it leaves.
 */
module RequestAnswers {
  import opened Sequences
  import opened Slugs
  import opened Visibility

  // Some package other than the given one has this slug in the catalog, up to case.
  ghost predicate SlugUsed(t: Tables, id: nat, catalogId: nat, slug: string) {
    exists i | i in t.packages ::
      i != id && t.packages[i].catalogId == catalogId && ToLowerCase(t.packages[i].slug) == ToLowerCase(slug)
  }

  // An optional new value counts if it is there and not empty.
  function NewValue(value: Option<string>, was: string): string {
    if value == None || value == Some("") then was else value.value
  }

  lemma CatalogCreated(t: Tables, slug: string, isPublic: bool)
    requires Keys(t)
    ensures var (after, result) := Handle(t, Request.CreateCatalog(slug, isPublic));
      (result == Done <==>
         !Blank(slug) && ToLowerCase(slug) !in RESERVED && !exists id :: CatalogLike(t, id, slug))
      && (result == Done ==>
            t.nextId !in t.catalogs && after.catalogs == t.catalogs[t.nextId := Catalog(slug, isPublic)]
            && after.packages == t.packages)
  {
    hide RESERVED, Blank;
    LookupsAreComplete(t, slug, slug);
    assert FindCatalog(t, slug).Some? ==> CatalogLike(t, FindCatalog(t, slug).value, slug);
    hide FindCatalog, FindCatalogLike, FindPackage;
    if CatalogKeyTaken(t, t.nextId, slug) {
      var i :| i in t.catalogs && ToLowerCase(t.catalogs[i].slug) == ToLowerCase(slug);
      assert CatalogLike(t, i, slug);
    }
  }

  // A catalog gets the new slug and publicity that are given, and keeps the others.
  lemma CatalogUpdated(t: Tables, id: nat, slug: string, newSlug: Option<string>, publicity: Option<bool>)
    requires Keys(t) && CatalogAt(t, id, slug)
    ensures var (after, result) := Handle(t, Request.UpdateCatalog(slug, newSlug, publicity));
      var target := NewValue(newSlug, slug);
      (result == Done <==>
         (target == slug || ToLowerCase(target) !in RESERVED)
         && !exists other :: other != id && CatalogLike(t, other, target))
      && (result == Done ==>
            after.catalogs == t.catalogs[id := Catalog(target, publicity.GetOr(t.catalogs[id].isPublic))])
  {
    CatalogFound(t, id, slug);
    hide RESERVED, FindCatalog, Keys, HidePackages, WithCatalog, CatalogLike, ToLowerCase;
    var target := NewValue(newSlug, slug);
    var row := Catalog(target, publicity.GetOr(t.catalogs[id].isPublic));
    CatalogSaved(t, t.packages, id, row);
    CatalogSaved(t, HidePackages(t.packages, id), id, row);
  }

  lemma CatalogFound(t: Tables, id: nat, slug: string)
    requires Keys(t) && CatalogAt(t, id, slug)
    ensures FindCatalog(t, slug) == Some(id)
  {
    LookupsAreComplete(t, slug, slug);
    OneCatalogLike(t, id, FindCatalog(t, slug).value, slug);
  }

  lemma CatalogLikeFound(t: Tables, id: nat, slug: string)
    requires Keys(t) && CatalogLike(t, id, slug)
    ensures FindCatalogLike(t, slug) == Some(id)
  {
    LookupsAreComplete(t, slug, slug);
    OneCatalogLike(t, id, FindCatalogLike(t, slug).value, slug);
  }

  lemma CatalogSaved(t: Tables, packages: map<nat, Package>, id: nat, row: Catalog)
    ensures var (after, result) := WithCatalog(t.(packages := packages), id, row);
      (result == Done <==> !exists other :: other != id && CatalogLike(t, other, row.slug))
      && (result == Done ==> after.catalogs == t.catalogs[id := row] && after.packages == packages)
      && (result == Done || result == Refused(UniqueKeyViolated))
  {
    if other: nat :| other != id && CatalogLike(t, other, row.slug) {
      assert other in t.catalogs;
    }
    if i :| i in t.catalogs && i != id && ToLowerCase(t.catalogs[i].slug) == ToLowerCase(row.slug) {
      assert CatalogLike(t, i, row.slug);
    }
  }

  lemma PackageSaved(t: Tables, id: nat, row: Package)
    ensures var (after, result) := WithPackage(t, id, row);
      (result == Done <==> !SlugUsed(t, id, row.catalogId, row.slug))
      && (result == Done ==> after.packages == t.packages[id := row] && after.catalogs == t.catalogs)
      && (result == Done || result == Refused(UniqueKeyViolated))
  {
  }

  lemma CatalogDeleted(t: Tables, id: nat, slug: string)
    requires Keys(t) && CatalogAt(t, id, slug)
    ensures var (after, result) := Handle(t, Request.DeleteCatalog(slug));
      (result == Done <==> !Blank(slug) || forall i | i in t.packages :: t.packages[i].catalogId != id)
      && (result == Done ==> after.catalogs == t.catalogs - {id})
  {
    CatalogFound(t, id, slug);
    hide FindCatalog, Keys, Blank, OutsideCatalog;
  }

  // Updates of unknown catalogs and packages in unknown catalogs are refused.
  lemma UnknownCatalogIsRefused(t: Tables, request: Request)
    requires Keys(t)
    requires match request
             case UpdateCatalog(slug, _, _) => !exists id :: CatalogAt(t, id, slug)
             case CreatePackage(catalogSlug, _, _, _) => !exists id :: CatalogLike(t, id, catalogSlug)
             case UpdatePackage(catalogSlug, _, _) => !exists id :: CatalogLike(t, id, catalogSlug)
             case _ => false
    ensures Handle(t, request).1 == Refused(CatalogNotFound)
  {
  }

  // A request about a package that does not exist is refused.
  lemma UnknownPackageIsRefused(t: Tables, request: Request)
    requires request.UpdatePackage? || request.MovePackage? || request.DeletePackage? || request.AddVersion?
    requires !exists id :: PackageAt(t, id, request.catalogSlug, request.packageSlug)
    ensures Handle(t, request).1 != Done
  {
  }

  // A new package is private and without versions.
  lemma PackageCreated(t: Tables, catalogId: nat, catalogSlug: string, packageSlug: string, displayName: string,
                       description: string)
    requires Keys(t) && CatalogLike(t, catalogId, catalogSlug)
    ensures var (after, result) := Handle(t, Request.CreatePackage(catalogSlug, packageSlug, displayName, description));
      (result == Done <==>
         !Blank(packageSlug) && !Blank(displayName) && !Blank(description)
         && !SlugUsed(t, t.nextId, catalogId, packageSlug))
      && (result == Done ==>
            t.nextId !in t.packages && after.catalogs == t.catalogs
            && after.packages
               == t.packages[t.nextId := Package(catalogId, packageSlug, displayName, description, false, 0)])
  {
    CatalogLikeFound(t, catalogId, catalogSlug);
    assert t.nextId !in t.packages;
    hide FindCatalogLike, Keys, Blank, WithPackage, SlugUsed;
    PackageSaved(t, t.nextId, Package(catalogId, packageSlug, displayName, description, false, 0));
  }

  // The row that an update leaves: the catalog asked for, and the texts and publicity that are given.
  lemma PackageUpdated(t: Tables, id: nat, catalogSlug: string, packageSlug: string, changes: PackageChanges,
                       target: nat)
    requires Keys(t) && PackageAt(t, id, catalogSlug, packageSlug)
    requires var current := t.packages[id].catalogId;
      if NewValue(changes.catalogSlug, t.catalogs[current].slug) == t.catalogs[current].slug then target == current
      else CatalogAt(t, target, changes.catalogSlug.value)
    ensures var (after, result) := Handle(t, Request.UpdatePackage(catalogSlug, packageSlug, changes));
      var row := t.packages[id];
      var slug, displayName, description := NewValue(changes.packageSlug, row.slug),
            NewValue(changes.displayName, row.displayName), NewValue(changes.description, row.description);
      (result == Done <==>
         (changes.publicity == Some(true) && !row.isPublic ==> t.catalogs[row.catalogId].isPublic)
         && (changes.publicity.GetOr(row.isPublic) != row.isPublic ==> row.versions > 0)
         && !Blank(slug) && !Blank(displayName) && !Blank(description) && !SlugUsed(t, id, target, slug))
      && (result == Done ==>
            after.catalogs == t.catalogs
            && after.packages == t.packages[id :=
                 Package(target, slug, displayName, description, changes.publicity.GetOr(row.isPublic), row.versions)])
  {
    hide Keys, FindPackage, FindCatalogLike, FindCatalog, WithPackage, SlugUsed, Blank;
    FoundAt(t, id, catalogSlug, packageSlug);
    CatalogInTables(t, id);
    var row := t.packages[id];
    var current := t.catalogs[row.catalogId].slug;
    if NewValue(changes.catalogSlug, current) != current {
      CatalogFound(t, target, changes.catalogSlug.value);
    }
    assert NewCatalogId(t, row, changes) == Some(target);
    PackageSaved(t, id, UpdatedPackage(row, target, changes));
    hide LocatePackage, NewCatalogId;
  }

  lemma PackageMoved(t: Tables, id: nat, catalogSlug: string, packageSlug: string, targetSlug: string, target: nat)
    requires Keys(t) && PackageAt(t, id, catalogSlug, packageSlug) && CatalogLike(t, target, targetSlug)
    ensures var (after, result) := Handle(t, Request.MovePackage(catalogSlug, packageSlug, targetSlug));
      var row := t.packages[id];
      (result == Done <==>
         catalogSlug != targetSlug && !Blank(catalogSlug) && !Blank(targetSlug)
         && row.catalogId != target && !SlugUsed(t, id, target, packageSlug))
      && (result == Done ==>
            after.catalogs == t.catalogs
            && after.packages == t.packages[id :=
                 Package(target, row.slug, row.displayName, row.description,
                         row.isPublic && t.catalogs[target].isPublic, row.versions)])
  {
    hide Keys, FindPackage, FindCatalogLike, WithPackage, Blank;
    FoundAt(t, id, catalogSlug, packageSlug);
    CatalogInTables(t, id);
    CatalogLikeFound(t, target, targetSlug);
    TargetOccupied(t, id, packageSlug, targetSlug, target);
    PackageSaved(t, id, MovedPackage(t, t.packages[id], target));
    hide LocatePackage, SlugUsed;
  }

  // The target has a package of exactly this slug only if its own row is there, or the slug is used.
  lemma TargetOccupied(t: Tables, id: nat, packageSlug: string, targetSlug: string, target: nat)
    requires Keys(t) && id in t.packages && t.packages[id].slug == packageSlug && CatalogLike(t, target, targetSlug)
    ensures LocatePackage(t, targetSlug, packageSlug).Found? ==>
      t.packages[id].catalogId == target || SlugUsed(t, id, target, packageSlug)
    ensures t.packages[id].catalogId == target ==> LocatePackage(t, targetSlug, packageSlug).Found?
    ensures LocatePackage(t, targetSlug, packageSlug).Missing? ==>
      LocatePackage(t, targetSlug, packageSlug).error == PackageNotFound
  {
    CatalogLikeFound(t, target, targetSlug);
    var found := LocatePackage(t, targetSlug, packageSlug);
    if found.Found? {
      OneCatalogLike(t, target, t.packages[found.id].catalogId, targetSlug);
    }
    if t.packages[id].catalogId == target {
      FoundAt(t, id, targetSlug, packageSlug);
    }
  }

  lemma PackageDeleted(t: Tables, id: nat, catalogSlug: string, packageSlug: string)
    requires Keys(t) && PackageAt(t, id, catalogSlug, packageSlug)
    ensures var (after, result) := Handle(t, Request.DeletePackage(catalogSlug, packageSlug));
      (result == Done <==> !Blank(catalogSlug))
      && (result == Done ==> after.packages == t.packages - {id} && after.catalogs == t.catalogs)
  {
    FoundAt(t, id, catalogSlug, packageSlug);
    CatalogInTables(t, id);
    hide Keys, LocatePackage, Blank;
  }

  lemma VersionAdded(t: Tables, id: nat, catalogSlug: string, packageSlug: string)
    requires Keys(t) && PackageAt(t, id, catalogSlug, packageSlug)
    ensures var (after, result) := Handle(t, Request.AddVersion(catalogSlug, packageSlug));
      var row := t.packages[id];
      (result == Done <==> !Blank(catalogSlug))
      && (result == Done ==>
            after.packages == t.packages[id := row.(versions := row.versions + 1)] && after.catalogs == t.catalogs)
  {
    FoundAt(t, id, catalogSlug, packageSlug);
    CatalogInTables(t, id);
    hide Keys, LocatePackage, Blank;
  }
}
