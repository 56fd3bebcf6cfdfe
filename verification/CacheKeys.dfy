/**
 The string keys that the session cache's loaders build, and why no two of them collide.
 */
module CacheKeys {
  import opened Sequences
  import opened Slugs

  datatype Permission = MANAGE | VIEW | EDIT | NONE

  // One constructor for each key builder, with its arguments.
  datatype Entity =
    | UserById(id: nat)
    | UserByUsername(username: string)
    | PackageById(id: nat)
    | ActivityLogById(id: nat)
    | PackageByIdentifier(catalogSlug: string, packageSlug: string)
    | VersionByIdentifier(catalogSlug: string, packageSlug: string, major: nat, minor: nat, patch: nat)
    | LatestPackageVersion(id: nat)
    | PackageVersions(id: nat)
    | PackagePermissions(id: nat)
    | CatalogPermissions(id: nat)
    | CatalogPackagePermissions(id: nat)
    | PackagePermissionStatus(id: nat, permission: Permission)
    | CatalogById(id: nat)
    | CatalogBySlug(slug: string)
    | CollectionById(id: nat)
    | CollectionBySlug(slug: string)
    | CollectionPermissionStatus(id: nat, permission: Permission)
    | CollectionPermissions(id: nat)
    | GroupById(id: nat)
    | GroupBySlug(slug: string)
    | GroupPermissions(id: nat)
    | AllGroups

  // The slugs in a package or version identifier are ones the validators accept; nothing else is asked.
  ghost predicate ValidEntity(e: Entity) {
    (e.PackageByIdentifier? || e.VersionByIdentifier?) ==>
      CatalogSlugValid(Some(e.catalogSlug)) == SlugValid && PackageSlugValid(Some(e.packageSlug)) == SlugValid
  }

  // No slug in a package or version identifier has a slash.
  predicate SlashFree(e: Entity) {
    (e.PackageByIdentifier? || e.VersionByIdentifier?) ==> '/' !in e.catalogSlug && '/' !in e.packageSlug
  }

  function Digit(n: nat): char
    requires n < 10
  {
    '0' + n as char
  }

  // A number as JavaScript's + appends it to a string.
  function Decimal(n: nat): string {
    if n < 10 then [Digit(n)] else Decimal(n / 10) + [Digit(n % 10)]
  }

  function PermissionName(p: Permission): string {
    match p
    case MANAGE => "MANAGE"
    case VIEW => "VIEW"
    case EDIT => "EDIT"
    case NONE => "NONE"
  }

  // The text before the first dash, or all of it. Two pairs of builders share theirs.
  function Label(e: Entity): string {
    match e
    case UserById(_) => "USER_ID"
    case UserByUsername(_) => "USER_USERNAME"
    case PackageById(_) => "PACKAGE_ID"
    case ActivityLogById(_) => "ACTIVITY_LOG_ID"
    case PackageByIdentifier(_, _) => "PACKAGE_ID"
    case VersionByIdentifier(_, _, _, _, _) => "VERSION_ID"
    case LatestPackageVersion(_) => "PACKAGE_LATEST_VERSION_ID"
    case PackageVersions(_) => "PACKAGE_VERSION_ID"
    case PackagePermissions(_) => "PACKAGE_PERMISSIONS_ID"
    case CatalogPermissions(_) => "CATALOG_PERMISSIONS_ID"
    case CatalogPackagePermissions(_) => "CATALOG_PACKAGE_PERMISSIONS_ID"
    case PackagePermissionStatus(_, _) => "PACKAGE_PERMISSION_ID"
    case CatalogById(_) => "CATALOG_ID"
    case CatalogBySlug(_) => "CATALOG_SLUG"
    case CollectionById(_) => "COLLECTION_ID"
    case CollectionBySlug(_) => "COLLECTION_SLUG"
    case CollectionPermissionStatus(_, _) => "COLLECTION_PERMISSION_ID"
    case CollectionPermissions(_) => "COLLECTION_PERMISSION_ID"
    case GroupById(_) => "GROUP_ID"
    case GroupBySlug(_) => "GROUP_SLUG"
    case GroupPermissions(_) => "GROUP_PERMISSIONS_ID"
    case AllGroups => "GROUPS"
  }

  // The text after it.
  function Argument(e: Entity): string {
    match e
    case AllGroups => ""
    case UserByUsername(username) => username
    case CatalogBySlug(slug) => slug
    case CollectionBySlug(slug) => slug
    case GroupBySlug(slug) => slug
    case PackageByIdentifier(catalogSlug, packageSlug) => catalogSlug + "/" + packageSlug
    case VersionByIdentifier(catalogSlug, packageSlug, major, minor, patch) =>
      catalogSlug + "/" + (packageSlug + "/" + (Decimal(major) + "." + (Decimal(minor) + "." + Decimal(patch))))
    case PackagePermissionStatus(id, permission) => Decimal(id) + "_" + PermissionName(permission)
    case CollectionPermissionStatus(id, permission) => Decimal(id) + "_" + PermissionName(permission)
    case _ => Decimal(e.id)
  }

  function Key(e: Entity): string {
    if e.AllGroups? then Label(e) else Label(e) + "-" + Argument(e)
  }

  // ---------- Taking a key apart ----------

  // Text up to the first separator is determined, and so is the rest.
  lemma {:induction false} SplitUnique(a: string, b: string, c: string, d: string, separator: string)
    requires |separator| == 1 && separator[0] !in a && separator[0] !in c
    requires a + separator + b == c + separator + d
    ensures a == c && b == d
  {
    var left, right := a + separator + b, c + separator + d;
    assert left[0] == if a == [] then separator[0] else a[0];
    assert right[0] == if c == [] then separator[0] else c[0];
    if a == [] {
      assert left[1..] == b && right[1..] == d;
    } else {
      assert left[1..] == a[1..] + separator + b && right[1..] == c[1..] + separator + d;
      SplitUnique(a[1..], b, c[1..], d, separator);
    }
  }

  lemma {:induction false} DecimalDigits(n: nat)
    ensures Decimal(n) != [] && forall c :: c in Decimal(n) ==> '0' <= c <= '9'
  {
    if n >= 10 {
      DecimalDigits(n / 10);
    }
  }

  lemma {:induction false} DecimalInjective(m: nat, n: nat)
    requires Decimal(m) == Decimal(n)
    ensures m == n
  {
    var d, e := Decimal(m), Decimal(n);
    if m >= 10 && n >= 10 {
      assert d[..|d| - 1] == Decimal(m / 10) && e[..|e| - 1] == Decimal(n / 10);
      DecimalInjective(m / 10, n / 10);
      assert d[|d| - 1] == Digit(m % 10) && e[|e| - 1] == Digit(n % 10);
    } else if m >= 10 {
      DecimalDigits(m / 10);
    } else if n >= 10 {
      DecimalDigits(n / 10);
    } else {
      assert d[0] == e[0];
    }
  }

  // Length and first letter already tell the labels apart, except in the two shared pairs.
  function Fingerprint(e: Entity): (nat, char) {
    match e
    case UserById(_) => (7, 'U')
    case UserByUsername(_) => (13, 'U')
    case PackageById(_) => (10, 'P')
    case ActivityLogById(_) => (15, 'A')
    case PackageByIdentifier(_, _) => (10, 'P')
    case VersionByIdentifier(_, _, _, _, _) => (10, 'V')
    case LatestPackageVersion(_) => (25, 'P')
    case PackageVersions(_) => (18, 'P')
    case PackagePermissions(_) => (22, 'P')
    case CatalogPermissions(_) => (22, 'C')
    case CatalogPackagePermissions(_) => (30, 'C')
    case PackagePermissionStatus(_, _) => (21, 'P')
    case CatalogById(_) => (10, 'C')
    case CatalogBySlug(_) => (12, 'C')
    case CollectionById(_) => (13, 'C')
    case CollectionBySlug(_) => (15, 'C')
    case CollectionPermissionStatus(_, _) => (24, 'C')
    case CollectionPermissions(_) => (24, 'C')
    case GroupById(_) => (8, 'G')
    case GroupBySlug(_) => (10, 'G')
    case GroupPermissions(_) => (20, 'G')
    case AllGroups => (6, 'G')
  }

  lemma LabelHasNoDash(e: Entity)
    ensures '-' !in Label(e)
  {
    match e
    case PackageById(_) =>
    case LatestPackageVersion(_) => PackageLabelsHaveNoDash(e);
    case PackageVersions(_) => PackageLabelsHaveNoDash(e);
    case PackagePermissions(_) => PackageLabelsHaveNoDash(e);
    case CatalogPermissions(_) => PackageLabelsHaveNoDash(e);
    case CatalogPackagePermissions(_) => PackageLabelsHaveNoDash(e);
    case PackagePermissionStatus(_, _) => PackageLabelsHaveNoDash(e);
    case CollectionPermissionStatus(_, _) => assert '-' !in "COLLECTION_PERMISSION_ID";
    case CollectionPermissions(_) => assert '-' !in "COLLECTION_PERMISSION_ID";
    case CollectionBySlug(_) => assert '-' !in "COLLECTION_SLUG";
    case GroupPermissions(_) => assert '-' !in "GROUP_PERMISSIONS_ID";
    case ActivityLogById(_) => assert '-' !in "ACTIVITY_LOG_ID";
    case _ =>
  }

  lemma PackageLabelsHaveNoDash(e: Entity)
    requires e.LatestPackageVersion? || e.PackageVersions? || e.PackagePermissions? || e.CatalogPermissions?
             || e.CatalogPackagePermissions? || e.PackagePermissionStatus?
    ensures '-' !in Label(e)
  {
    match e
    case LatestPackageVersion(_) => assert '-' !in "PACKAGE_LATEST_VERSION_ID";
    case PackageVersions(_) => assert '-' !in "PACKAGE_VERSION_ID";
    case PackagePermissions(_) => assert '-' !in "PACKAGE_PERMISSIONS_ID";
    case CatalogPermissions(_) => assert '-' !in "CATALOG_PERMISSIONS_ID";
    case CatalogPackagePermissions(_) => assert '-' !in "CATALOG_PACKAGE_PERMISSIONS_ID";
    case PackagePermissionStatus(_, _) => assert '-' !in "PACKAGE_PERMISSION_ID";
  }

  lemma LabelFingerprint(e: Entity)
    ensures |Label(e)| == Fingerprint(e).0 && Label(e)[0] == Fingerprint(e).1
  {
  }

  function Slashes(s: string): nat {
    if s == [] then 0 else (if s[0] == '/' then 1 else 0) + Slashes(s[1..])
  }

  lemma {:induction false} SlashesAdd(a: string, b: string)
    ensures Slashes(a + b) == Slashes(a) + Slashes(b)
  {
    if a == [] {
      assert a + b == b;
    } else {
      assert (a + b)[1..] == a[1..] + b;
      SlashesAdd(a[1..], b);
    }
  }

  lemma {:induction false} NoSlashes(s: string)
    ensures Slashes(s) == 0 <==> '/' !in s
  {
    if s != [] {
      NoSlashes(s[1..]);
      assert '/' in s <==> s[0] == '/' || '/' in s[1..];
    }
  }

  lemma SlashesBetween(a: string, b: string, separator: string)
    ensures Slashes(a + separator + b) == Slashes(a) + Slashes(separator) + Slashes(b)
  {
    SlashesAdd(a + separator, b);
    SlashesAdd(a, separator);
  }

  lemma VersionTextHasNoSlash(e: Entity)
    requires e.VersionByIdentifier?
    ensures Slashes(VersionText(e)) == 0
  {
    DecimalHasNoSlash(e.major);
    DecimalHasNoSlash(e.minor);
    DecimalHasNoSlash(e.patch);
    SlashesBetween(Decimal(e.minor), Decimal(e.patch), ".");
    SlashesBetween(Decimal(e.major), Decimal(e.minor) + "." + Decimal(e.patch), ".");
    hide Decimal;
  }

  lemma DecimalHasNoSlash(n: nat)
    ensures Slashes(Decimal(n)) == 0
  {
    DecimalDigits(n);
    NoSlashes(Decimal(n));
  }

  // The number of slashes in the argument tells whether the slugs have any.
  lemma ArgumentSlashes(e: Entity)
    requires e.PackageByIdentifier? || e.VersionByIdentifier?
    ensures SlashFree(e) <==> Slashes(Argument(e)) == if e.PackageByIdentifier? then 1 else 2
  {
    NoSlashes(e.catalogSlug);
    NoSlashes(e.packageSlug);
    assert Slashes("/") == 1;
    if e.PackageByIdentifier? {
      SlashesBetween(e.catalogSlug, e.packageSlug, "/");
    } else {
      VersionTextHasNoSlash(e);
      VersionArgument(e);
      hide Slashes, Argument, VersionText;
      SlashesBetween(e.packageSlug, VersionText(e), "/");
      SlashesBetween(e.catalogSlug, e.packageSlug + "/" + VersionText(e), "/");
    }
  }

  lemma VersionArgument(e: Entity)
    requires e.VersionByIdentifier?
    ensures Argument(e) == e.catalogSlug + "/" + (e.packageSlug + "/" + VersionText(e))
  {
  }

  lemma SameIdentifier(a: Entity, b: Entity)
    requires SlashFree(a) && Argument(a) == Argument(b)
    requires (a.PackageByIdentifier? && b.PackageByIdentifier?) || (a.VersionByIdentifier? && b.VersionByIdentifier?)
    ensures a == b
  {
    ArgumentSlashes(a);
    ArgumentSlashes(b);
    if a.PackageByIdentifier? {
      SplitUnique(a.catalogSlug, a.packageSlug, b.catalogSlug, b.packageSlug, "/");
    } else {
      SameVersion(a, b);
    }
  }

  lemma SameVersion(a: Entity, b: Entity)
    requires a.VersionByIdentifier? && b.VersionByIdentifier?
    requires SlashFree(a) && SlashFree(b) && Argument(a) == Argument(b)
    ensures a == b
  {
    VersionArgument(a);
    VersionArgument(b);
    hide Argument, VersionText;
    var n, m := VersionText(a), VersionText(b);
    SplitUnique(a.catalogSlug, a.packageSlug + "/" + n, b.catalogSlug, b.packageSlug + "/" + m, "/");
    SplitUnique(a.packageSlug, n, b.packageSlug, m, "/");
    SameVersionText(a, b);
  }

  function VersionText(e: Entity): string
    requires e.VersionByIdentifier?
  {
    Decimal(e.major) + "." + (Decimal(e.minor) + "." + Decimal(e.patch))
  }

  lemma SameVersionText(a: Entity, b: Entity)
    requires a.VersionByIdentifier? && b.VersionByIdentifier? && VersionText(a) == VersionText(b)
    ensures a.major == b.major && a.minor == b.minor && a.patch == b.patch
  {
    DecimalDigits(a.major);
    DecimalDigits(b.major);
    SplitUnique(Decimal(a.major), Decimal(a.minor) + "." + Decimal(a.patch),
                Decimal(b.major), Decimal(b.minor) + "." + Decimal(b.patch), ".");
    DecimalDigits(a.minor);
    DecimalDigits(b.minor);
    SplitUnique(Decimal(a.minor), Decimal(a.patch), Decimal(b.minor), Decimal(b.patch), ".");
    DecimalInjective(a.major, b.major);
    DecimalInjective(a.minor, b.minor);
    DecimalInjective(a.patch, b.patch);
  }

  lemma SamePermission(a: Permission, b: Permission)
    requires PermissionName(a) == PermissionName(b)
    ensures a == b
  {
    assert PermissionName(a)[0] == PermissionName(b)[0];
  }

  lemma SameStatus(m: nat, a: Permission, n: nat, b: Permission)
    requires Decimal(m) + "_" + PermissionName(a) == Decimal(n) + "_" + PermissionName(b)
    ensures m == n && a == b
  {
    DecimalDigits(m);
    DecimalDigits(n);
    SplitUnique(Decimal(m), PermissionName(a), Decimal(n), PermissionName(b), "_");
    DecimalInjective(m, n);
    SamePermission(a, b);
  }

  // A bare number is not an argument of the builder that shares its label.
  lemma SharedLabelsDiffer(n: nat, other: string)
    requires '/' in other || '_' in other
    ensures Decimal(n) != other
  {
    DecimalDigits(n);
  }

  // A key of an entity without slashes in its slugs belongs to no other entity.
  lemma SlashFreeKeyIsOwn(a: Entity, b: Entity)
    requires SlashFree(a) && Key(a) == Key(b)
    ensures a == b
  {
    LabelHasNoDash(a);
    LabelHasNoDash(b);
    LabelFingerprint(a);
    LabelFingerprint(b);
    hide Label, Fingerprint, Argument, SlashFree;
    if a.AllGroups? || b.AllGroups? {
      assert '-' in "-";
      assert '-' in Key(a) <==> !a.AllGroups?;
      assert '-' in Key(b) <==> !b.AllGroups?;
    } else {
      SplitUnique(Label(a), Argument(a), Label(b), Argument(b), "-");
      SameArgument(a, b);
    }
  }

  lemma SameArgument(a: Entity, b: Entity)
    requires SlashFree(a) && Argument(a) == Argument(b) && Fingerprint(a) == Fingerprint(b)
    ensures a == b
  {
    match a
    case PackageById(id) =>
      if b.PackageByIdentifier? {
        assert '/' in "/" && '/' in Argument(b);
        SharedLabelsDiffer(id, Argument(b));
      } else {
        DecimalInjective(id, b.id);
      }
    case PackageByIdentifier(_, _) =>
      if b.PackageById? {
        assert '/' in "/" && '/' in Argument(a);
        SharedLabelsDiffer(b.id, Argument(a));
      } else {
        SameIdentifier(a, b);
      }
    case CollectionPermissions(id) =>
      if b.CollectionPermissionStatus? {
        assert '_' in "_" && '_' in Argument(b);
        SharedLabelsDiffer(id, Argument(b));
      } else {
        DecimalInjective(id, b.id);
      }
    case CollectionPermissionStatus(id, permission) =>
      if b.CollectionPermissions? {
        assert '_' in "_" && '_' in Argument(a);
        SharedLabelsDiffer(b.id, Argument(a));
      } else {
        SameStatus(id, permission, b.id, b.permission);
      }
    case PackagePermissionStatus(id, permission) => SameStatus(id, permission, b.id, b.permission);
    case VersionByIdentifier(_, _, _, _, _) => SameIdentifier(a, b);
    case AllGroups =>
    case UserByUsername(_) =>
    case CatalogBySlug(_) =>
    case CollectionBySlug(_) =>
    case GroupBySlug(_) =>
    case _ => DecimalInjective(a.id, b.id);
  }

  // Equal keys come from the same builder with the same arguments.
  lemma KeysDoNotCollide(a: Entity, b: Entity)
    requires ValidEntity(a) && ValidEntity(b) && Key(a) == Key(b)
    ensures a == b
  {
    if a.PackageByIdentifier? || a.VersionByIdentifier? {
      ValidSlugHasNoSlash(a.catalogSlug);
      ValidSlugHasNoSlash(a.packageSlug);
    }
    SlashFreeKeyIsOwn(a, b);
  }

  // The slugs of an identifier with the slash between them in another place.
  lemma OtherSplit(catalogSlug: string, packageSlug: string) returns (catalogSlug': string, packageSlug': string)
    requires '/' in catalogSlug || '/' in packageSlug
    ensures catalogSlug' != catalogSlug
    ensures catalogSlug' + "/" + packageSlug' == catalogSlug + "/" + packageSlug
  {
    if i :| 0 <= i < |catalogSlug| && catalogSlug[i] == '/' {
      catalogSlug', packageSlug' := catalogSlug[..i], catalogSlug[i + 1..] + "/" + packageSlug;
      assert catalogSlug == catalogSlug[..i] + "/" + catalogSlug[i + 1..];
    } else {
      var i :| 0 <= i < |packageSlug| && packageSlug[i] == '/';
      catalogSlug', packageSlug' := catalogSlug + "/" + packageSlug[..i], packageSlug[i + 1..];
      assert packageSlug == packageSlug[..i] + "/" + packageSlug[i + 1..];
    }
  }

  // An entity shares its key with another one exactly when it is a package or version identifier with a slash in one
  // of its slugs.
  lemma KeyIsSharedExactly(e: Entity)
    ensures (exists other :: other != e && Key(other) == Key(e)) <==> !SlashFree(e)
  {
    if SlashFree(e) {
      forall other | Key(other) == Key(e) ensures other == e {
        SlashFreeKeyIsOwn(e, other);
      }
    } else {
      var catalogSlug, packageSlug := OtherSplit(e.catalogSlug, e.packageSlug);
      var other := e.(catalogSlug := catalogSlug, packageSlug := packageSlug);
      assert other != e;
      SameSplitSameKey(e, other);
    }
  }

  lemma SameSplitSameKey(a: Entity, b: Entity)
    requires (a.PackageByIdentifier? && b.PackageByIdentifier?)
             || (a.VersionByIdentifier? && b.VersionByIdentifier? && VersionText(a) == VersionText(b))
    requires a.catalogSlug + "/" + a.packageSlug == b.catalogSlug + "/" + b.packageSlug
    ensures Key(a) == Key(b)
  {
    if a.VersionByIdentifier? {
      assert Argument(a) == a.catalogSlug + "/" + a.packageSlug + "/" + VersionText(a);
      assert Argument(b) == b.catalogSlug + "/" + b.packageSlug + "/" + VersionText(b);
    }
  }
}
