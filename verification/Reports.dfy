/**
 What a comparison reports, said on the two files themselves: which difference stands at which path, and when the
 comparison throws instead. The functions that follow a path and write it as a pointer belong to these statements
 alone.
 */
module Reports {
  import opened Sequences
  import opened PackageFiles
  import opened Comparison
  import opened ComparisonLaws

  // ---------- Paths ----------

  // The properties that the path leads to, through properties of object type.
  function Below(properties: Properties, path: seq<string>): Option<Properties>
    decreases |path|
  {
    if path == [] then Some(properties)
    else if path[0] !in properties.at then None
    else
      var property := properties.at[path[0]];
      if ObjectType in property.typeNames && property.objectProperties.Some?
      then Below(property.objectProperties.value, path[1..])
      else None
  }

  function Place(path: seq<string>): string {
    if path == [] then "" else "/properties/" + path[0] + Place(path[1..])
  }

  // What the two sides make of one key.
  predicate Differs(prior: Properties, next: Properties, key: string, kind: DifferenceType) {
    if key !in prior.at then key in next.at && kind == AddProperty
    else if key !in next.at then
      kind == if prior.at[key].hidden == Some(true) then RemoveHiddenProperty else RemoveProperty
    else
      var was, now := prior.at[key], next.at[key];
      match kind
      case ChangePropertyDescription => was.description != now.description
      case ChangePropertyType => was.typeNames != now.typeNames
      case HideProperty => was.hidden != Some(true) && now.hidden == Some(true)
      case UnhideProperty => was.hidden == Some(true) && now.hidden != Some(true)
      case ChangePropertyUnit => was.unit != now.unit
      case _ => false
  }

  // The way to the last key leads through object properties on both sides, and there they differ.
  ghost predicate DiffersAt(prior: Properties, next: Properties, path: seq<string>, kind: DifferenceType) {
    path != []
    && var n := |path| - 1;
       Below(prior, path[..n]).Some? && Below(next, path[..n]).Some?
       && Differs(Below(prior, path[..n]).value, Below(next, path[..n]).value, path[n], kind)
  }

  // There the prior side has object properties, and the new side is an object without any.
  ghost predicate ThrowsAt(prior: Properties, next: Properties, path: seq<string>) {
    path != []
    && var n := |path| - 1;
       Below(prior, path).Some? && Below(next, path[..n]).Some?
       && var properties := Below(next, path[..n]).value;
          path[n] in properties.at && ObjectType in properties.at[path[n]].typeNames
          && properties.at[path[n]].objectProperties.None?
  }

  lemma BelowFirst(properties: Properties, key: string, rest: seq<string>)
    ensures Below(properties, [key] + rest)
         == if key in properties.at && ObjectType in properties.at[key].typeNames
               && properties.at[key].objectProperties.Some?
            then Below(properties.at[key].objectProperties.value, rest) else None
  {
    assert ([key] + rest)[1..] == rest;
  }

  // Both sides have object properties at the key.
  predicate OpenAt(prior: Properties, next: Properties, key: string) {
    key in prior.at && prior.at[key].Children().Some? && key in next.at && next.at[key].Children().Some?
  }

  lemma DiffersDeeper(prior: Properties, next: Properties, key: string, rest: seq<string>, kind: DifferenceType)
    requires rest != []
    ensures DiffersAt(prior, next, [key] + rest, kind)
       <==> OpenAt(prior, next, key)
            && DiffersAt(prior.at[key].Children().value, next.at[key].Children().value, rest, kind)
  {
    var n := |rest| - 1;
    assert ([key] + rest)[..n + 1] == [key] + rest[..n] && ([key] + rest)[n + 1] == rest[n];
    BelowFirst(prior, key, rest[..n]);
    BelowFirst(next, key, rest[..n]);
  }

  // ---------- Where a difference is reported ----------

  ghost predicate ReportedFrom(prior: Properties, next: Properties, pointer: string, key: string, d: Difference) {
    exists rest :: DiffersAt(prior, next, [key] + rest, d.kind) && d.pointer == pointer + Place([key] + rest)
  }

  lemma PlaceFirst(pointer: string, key: string, rest: seq<string>)
    ensures pointer + Place([key] + rest) == PropertyPointer(pointer, key) + Place(rest)
  {
    assert ([key] + rest)[1..] == rest;
    assert pointer + ("/properties/" + key + Place(rest)) == pointer + "/properties/" + key + Place(rest);
  }

  lemma DiffersHere(prior: Properties, next: Properties, key: string, kind: DifferenceType)
    ensures DiffersAt(prior, next, [key] + [], kind) <==> Differs(prior, next, key, kind)
  {
    assert ([key] + [])[..0] == [];
  }

  // The difference at the key itself.
  lemma ReportedHere(prior: Properties, next: Properties, pointer: string, key: string, d: Difference)
    requires key in prior.at || key in next.at
    ensures (d in ForwardDiffs(prior, next, pointer, key)
             || (key !in prior.at && d in ReverseDiffs(prior, next, pointer, key)))
       <==> d.pointer == PropertyPointer(pointer, key) && Differs(prior, next, key, d.kind)
  {
    if key in prior.at && key in next.at {
      ChangeMember(prior.at[key], next.at[key], PropertyPointer(pointer, key), d);
    }
  }

  // The difference below the key.
  lemma ReportedDeeper(prior: Properties, next: Properties, pointer: string, key: string, d: Difference)
    requires OpenAt(prior, next, key)
    requires var below := prior.at[key].Children().value;
      d in PropertyDiffs(below, next.at[key].Children().value, PropertyPointer(pointer, key)) <==>
        exists rest :: DiffersAt(below, next.at[key].Children().value, rest, d.kind)
                       && d.pointer == PropertyPointer(pointer, key) + Place(rest)
    ensures d in ReverseDiffs(prior, next, pointer, key) <==>
      exists rest :: rest != [] && DiffersAt(prior, next, [key] + rest, d.kind)
                     && d.pointer == pointer + Place([key] + rest)
  {
    hide Differs, Place, PropertyPointer, PropertyDiffs;
    var was, now := prior.at[key].Children().value, next.at[key].Children().value;
    forall rest | rest != []
      ensures DiffersAt(prior, next, [key] + rest, d.kind) <==> DiffersAt(was, now, rest, d.kind)
      ensures pointer + Place([key] + rest) == PropertyPointer(pointer, key) + Place(rest)
    {
      DiffersDeeper(prior, next, key, rest, d.kind);
      PlaceFirst(pointer, key, rest);
    }
  }

  // All that one key contributes.
  lemma {:induction false} KeyReports(prior: Properties, next: Properties, pointer: string, key: string, d: Difference)
    requires WellFormed(prior) && WellFormed(next) && (key in prior.at || key in next.at)
    ensures (key in prior.at && d in ForwardDiffs(prior, next, pointer, key))
            || (key in next.at && d in ReverseDiffs(prior, next, pointer, key))
       <==> ReportedFrom(prior, next, pointer, key, d)
    decreases prior, 0
  {
    hide Differs, Place, DiffersAt;
    ReportedHere(prior, next, pointer, key, d);
    DiffersHere(prior, next, key, d.kind);
    PlaceFirst(pointer, key, []);
    assert Place([]) == "" by { PlaceOfNothing(); }
    if OpenAt(prior, next, key) {
      ChildrenWellFormed(prior);
      ChildrenWellFormed(next);
      PropertyDiffsExactly(prior.at[key].Children().value, next.at[key].Children().value,
                           PropertyPointer(pointer, key), d);
      ReportedDeeper(prior, next, pointer, key, d);
    } else {
      forall rest | rest != [] ensures !DiffersAt(prior, next, [key] + rest, d.kind) {
        DiffersDeeper(prior, next, key, rest, d.kind);
      }
    }
  }

  lemma PlaceOfNothing()
    ensures Place([]) == ""
  {
  }

  lemma FirstKey(prior: Properties, next: Properties, path: seq<string>, kind: DifferenceType)
    requires DiffersAt(prior, next, path, kind)
    ensures path == [path[0]] + path[1..] && (path[0] in prior.at || path[0] in next.at)
  {
    var n := |path| - 1;
    if n == 0 {
      assert path[..0] == [];
    } else {
      assert path[..n][0] == path[0];
    }
  }

  // The comparison of two property trees reports a difference exactly where a path leads to it, at every depth and
  // under the pointer that the path spells.
  lemma {:induction false} PropertyDiffsExactly(prior: Properties, next: Properties, pointer: string, d: Difference)
    requires WellFormed(prior) && WellFormed(next)
    ensures d in PropertyDiffs(prior, next, pointer) <==>
      exists path :: DiffersAt(prior, next, path, d.kind) && d.pointer == pointer + Place(path)
    decreases prior, 1
  {
    hide PropertyDiffs, DiffersAt, Place, WellFormed;
    ReportedAt(prior, next, pointer, d);
    forall key | key in prior.at || key in next.at
      ensures (key in prior.at && d in ForwardDiffs(prior, next, pointer, key))
              || (key in next.at && d in ReverseDiffs(prior, next, pointer, key))
         <==> ReportedFrom(prior, next, pointer, key, d)
    {
      KeyReports(prior, next, pointer, key, d);
    }
    hide ForwardDiffs, ReverseDiffs;
    if path :| DiffersAt(prior, next, path, d.kind) && d.pointer == pointer + Place(path) {
      FirstKey(prior, next, path, d.kind);
      assert ReportedFrom(prior, next, pointer, path[0], d);
    }
  }

  // ---------- Each difference once ----------

  predicate PlainPath(path: seq<string>) {
    forall k :: 0 <= k < |path| ==> '/' !in path[k]
  }

  // No key has a slash, at any depth.
  predicate PlainKeys(properties: Properties) {
    forall key | key in properties.at ::
      '/' !in key
      && (properties.at[key].objectProperties.Some? ==> PlainKeys(properties.at[key].objectProperties.value))
  }

  function FirstSlash(s: string): nat {
    if s == [] || s[0] == '/' then 0 else 1 + FirstSlash(s[1..])
  }

  lemma {:induction false} FirstSlashAt(a: string, x: string)
    requires '/' !in a && (x == "" || x[0] == '/')
    ensures FirstSlash(a + x) == |a|
  {
    if a == [] {
      assert a + x == x;
    } else {
      assert (a + x)[0] == a[0] && (a + x)[1..] == a[1..] + x;
      FirstSlashAt(a[1..], x);
    }
  }

  lemma SplitAtSlash(a: string, x: string, b: string, y: string)
    requires '/' !in a && '/' !in b && (x == "" || x[0] == '/') && (y == "" || y[0] == '/')
    requires a + x == b + y
    ensures a == b && x == y
  {
    FirstSlashAt(a, x);
    FirstSlashAt(b, y);
    assert (a + x)[..|a|] == a && (b + y)[..|b|] == b;
    assert (a + x)[|a|..] == x && (b + y)[|b|..] == y;
  }

  lemma PlaceBegins(path: seq<string>)
    requires path != []
    ensures Place(path)[0] == '/' && |Place(path)| >= 12 && Place(path)[12..] == path[0] + Place(path[1..])
  {
    var s, rest := "/properties/", Place(path[1..]);
    assert |s| == 12 && s[0] == '/';
    assert Place(path) == s + path[0] + rest;
    hide Place;
    Associative(s, path[0], rest);
    assert (s + (path[0] + rest))[|s|..] == path[0] + rest;
  }

  // Without slashes in keys a pointer determines its path.
  lemma {:induction false} PlaceInjective(p: seq<string>, q: seq<string>)
    requires PlainPath(p) && PlainPath(q) && Place(p) == Place(q)
    ensures p == q
  {
    if p != [] && q != [] {
      PlaceBegins(p);
      PlaceBegins(q);
      if |p| > 1 { PlaceBegins(p[1..]); }
      if |q| > 1 { PlaceBegins(q[1..]); }
      SplitAtSlash(p[0], Place(p[1..]), q[0], Place(q[1..]));
      PlaceInjective(p[1..], q[1..]);
      assert p == [p[0]] + p[1..] && q == [q[0]] + q[1..];
    } else if p != [] {
      PlaceBegins(p);
    } else if q != [] {
      PlaceBegins(q);
    }
  }

  lemma {:induction false} BelowIsPlain(properties: Properties, path: seq<string>)
    requires PlainKeys(properties) && Below(properties, path).Some?
    ensures PlainPath(path) && PlainKeys(Below(properties, path).value)
    decreases |path|
  {
    if path != [] {
      BelowIsPlain(properties.at[path[0]].objectProperties.value, path[1..]);
      assert path == [path[0]] + path[1..];
    }
  }

  lemma DiffersOnPlainPath(prior: Properties, next: Properties, path: seq<string>, kind: DifferenceType)
    requires PlainKeys(prior) && PlainKeys(next) && DiffersAt(prior, next, path, kind)
    ensures PlainPath(path)
  {
    hide Below;
    var n := |path| - 1;
    BelowIsPlain(prior, path[..n]);
    BelowIsPlain(next, path[..n]);
    assert forall k :: 0 <= k < n ==> path[k] == path[..n][k];
  }

  // The path that a difference from this key stands at: forward at the key itself, in reverse there or further down.
  lemma PathOfForward(prior: Properties, next: Properties, pointer: string, key: string, d: Difference)
    requires key in prior.at && d in ForwardDiffs(prior, next, pointer, key)
    ensures d.pointer == pointer + Place([key]) && d.kind != AddProperty
  {
    ReportedHere(prior, next, pointer, key, d);
    PlaceFirst(pointer, key, []);
    assert [key] + [] == [key] && PropertyPointer(pointer, key) + Place([]) == PropertyPointer(pointer, key);
  }

  lemma PathOfReverse(prior: Properties, next: Properties, pointer: string, key: string, d: Difference)
    returns (path: seq<string>)
    requires WellFormed(prior) && WellFormed(next) && PlainKeys(prior) && PlainKeys(next)
    requires key in next.at && d in ReverseDiffs(prior, next, pointer, key)
    ensures path != [] && path[0] == key && PlainPath(path) && d.pointer == pointer + Place(path)
    ensures |path| == 1 ==> d.kind == AddProperty
  {
    hide PropertyDiffs, DiffersAt, Place, PropertyPointer;
    if key !in prior.at {
      path := [key];
      PlaceFirst(pointer, key, []);
      PlaceOfNothing();
      assert [key] + [] == [key] && PropertyPointer(pointer, key) + "" == PropertyPointer(pointer, key);
    } else {
      ChildrenWellFormed(prior);
      ChildrenWellFormed(next);
      var was, now := prior.at[key].Children().value, next.at[key].Children().value;
      PropertyDiffsExactly(was, now, PropertyPointer(pointer, key), d);
      var rest :| DiffersAt(was, now, rest, d.kind) && d.pointer == PropertyPointer(pointer, key) + Place(rest);
      DiffersOnPlainPath(was, now, rest, d.kind);
      FirstKey(was, now, rest, d.kind);
      PlaceFirst(pointer, key, rest);
      path := [key] + rest;
    }
  }

  lemma SamePath(pointer: string, p: seq<string>, q: seq<string>)
    requires PlainPath(p) && PlainPath(q) && pointer + Place(p) == pointer + Place(q)
    ensures p == q
  {
    assert (pointer + Place(p))[|pointer|..] == Place(p) && (pointer + Place(q))[|pointer|..] == Place(q);
    PlaceInjective(p, q);
  }

  // No difference twice, and only ones of these kinds.
  ghost predicate Once(diffs: seq<Difference>, kinds: set<DifferenceType>) {
    Distinct(diffs) && forall d :: d in diffs ==> d.kind in kinds
  }

  lemma WhenOnce(condition: bool, kind: DifferenceType, pointer: string)
    ensures Once(When(condition, kind, pointer), {kind})
  {
  }

  lemma PushOnce(start: seq<Difference>, condition: bool, kind: DifferenceType, pointer: string,
                 kinds: set<DifferenceType>) returns (r: seq<Difference>)
    requires Once(start, kinds) && kind !in kinds
    ensures r == start + When(condition, kind, pointer) && Once(r, kinds + {kind})
  {
    r := start + When(condition, kind, pointer);
    DistinctAppend(start, When(condition, kind, pointer));
  }

  lemma ForwardKeyOnce(prior: Properties, next: Properties, pointer: string, key: string)
    ensures Distinct(ForwardDiffs(prior, next, pointer, key))
  {
    if key in prior.at && key in next.at {
      ChangesOnce(prior.at[key], next.at[key], PropertyPointer(pointer, key));
    }
  }

  lemma ChangesOnce(was: Property, now: Property, pointer: string)
    ensures Distinct(PropertyChanges(was, now, pointer))
  {
    hide When, Once;
    var kinds := {ChangePropertyDescription};
    var r := When(was.description != now.description, ChangePropertyDescription, pointer);
    WhenOnce(was.description != now.description, ChangePropertyDescription, pointer);
    r := PushOnce(r, was.typeNames != now.typeNames, ChangePropertyType, pointer, kinds);
    kinds := kinds + {ChangePropertyType};
    r := PushOnce(r, !was.Hidden() && now.Hidden(), HideProperty, pointer, kinds);
    kinds := kinds + {HideProperty};
    r := PushOnce(r, was.Hidden() && !now.Hidden(), UnhideProperty, pointer, kinds);
    kinds := kinds + {UnhideProperty};
    r := PushOnce(r, was.unit != now.unit, ChangePropertyUnit, pointer, kinds);
    OnceIsDistinct(r, kinds + {ChangePropertyUnit});
  }

  lemma OnceIsDistinct(diffs: seq<Difference>, kinds: set<DifferenceType>)
    requires Once(diffs, kinds)
    ensures Distinct(diffs)
  {
  }

  lemma ForwardOnce(prior: Properties, next: Properties, pointer: string)
    requires WellFormed(prior) && PlainKeys(prior)
    ensures Distinct(FlatMap(prior.keys, ForwardAt(prior, next, pointer)))
  {
    hide ForwardDiffs, Place;
    var f := ForwardAt(prior, next, pointer);
    forall key | key in prior.keys ensures Distinct(f(key)) {
      ForwardKeyOnce(prior, next, pointer, key);
    }
    forall x, y | x in prior.keys && y in prior.keys && x != y
      ensures forall d :: !(d in f(x) && d in f(y))
    {
      forall d | d in f(x) && d in f(y) ensures false {
        PathOfForward(prior, next, pointer, x, d);
        PathOfForward(prior, next, pointer, y, d);
        SamePath(pointer, [x], [y]);
      }
    }
    FlatMapDistinct(prior.keys, f);
  }

  lemma {:induction false} ReverseKeyOnce(prior: Properties, next: Properties, pointer: string, key: string)
    requires WellFormed(prior) && WellFormed(next) && PlainKeys(prior) && PlainKeys(next) && key in next.at
    ensures Distinct(ReverseDiffs(prior, next, pointer, key))
    decreases prior, 0
  {
    if OpenAt(prior, next, key) {
      hide PropertyDiffs;
      ReportedOnce(prior.at[key].Children().value, next.at[key].Children().value, PropertyPointer(pointer, key));
    }
  }

  lemma {:induction false} ReverseOnce(prior: Properties, next: Properties, pointer: string)
    requires WellFormed(prior) && WellFormed(next) && PlainKeys(prior) && PlainKeys(next)
    ensures Distinct(FlatMap(next.keys, ReverseAt(prior, next, pointer)))
    decreases prior, 1
  {
    hide ReverseDiffs, Place;
    var f := ReverseAt(prior, next, pointer);
    forall key | key in next.keys ensures Distinct(f(key)) {
      ReverseKeyOnce(prior, next, pointer, key);
    }
    forall x, y | x in next.keys && y in next.keys && x != y
      ensures forall d :: !(d in f(x) && d in f(y))
    {
      forall d | d in f(x) && d in f(y) ensures false {
        var p := PathOfReverse(prior, next, pointer, x, d);
        var q := PathOfReverse(prior, next, pointer, y, d);
        SamePath(pointer, p, q);
      }
    }
    FlatMapDistinct(next.keys, f);
  }

  // In trees whose keys have no slash, no difference is reported twice.
  lemma {:induction false} ReportedOnce(prior: Properties, next: Properties, pointer: string)
    requires WellFormed(prior) && WellFormed(next) && PlainKeys(prior) && PlainKeys(next)
    ensures Distinct(PropertyDiffs(prior, next, pointer))
    decreases prior, 2
  {
    var f, g := ForwardAt(prior, next, pointer), ReverseAt(prior, next, pointer);
    ForwardOnce(prior, next, pointer);
    ReverseOnce(prior, next, pointer);
    forall d ensures !(d in FlatMap(prior.keys, f) && d in FlatMap(next.keys, g)) {
      FlatMapMember(prior.keys, f, d);
      FlatMapMember(next.keys, g, d);
      if x, y :| x in prior.keys && d in f(x) && y in next.keys && d in g(y) {
        PathOfForward(prior, next, pointer, x, d);
        var q := PathOfReverse(prior, next, pointer, y, d);
        SamePath(pointer, [x], q);
      }
    }
    DistinctAppend(FlatMap(prior.keys, f), FlatMap(next.keys, g));
  }

  // ---------- When the comparison throws ----------

  lemma ThrowsDeeper(prior: Properties, next: Properties, key: string, rest: seq<string>)
    requires rest != []
    ensures ThrowsAt(prior, next, [key] + rest)
       <==> OpenAt(prior, next, key)
            && ThrowsAt(prior.at[key].Children().value, next.at[key].Children().value, rest)
  {
    var n := |rest| - 1;
    assert ([key] + rest)[..n + 1] == [key] + rest[..n] && ([key] + rest)[n + 1] == rest[n];
    BelowFirst(prior, key, rest);
    BelowFirst(next, key, rest[..n]);
  }

  lemma ThrowsHere(prior: Properties, next: Properties, key: string)
    ensures ThrowsAt(prior, next, [key])
       <==> key in prior.at && prior.at[key].Children().Some? && key in next.at
            && ObjectType in next.at[key].typeNames && next.at[key].objectProperties.None?
  {
    assert [key][..0] == [] && [key] == [key] + [];
    BelowFirst(prior, key, []);
  }

  // The comparison goes through exactly when no path leads to a property that has object properties before and is an
  // object without any after.
  lemma {:induction false} ThrowsExactly(prior: Properties, next: Properties)
    ensures Comparable(prior, next) <==> !exists path :: ThrowsAt(prior, next, path)
    decreases prior
  {
    hide ThrowsAt;
    forall key | key in next.at
      ensures ComparableAt(prior, next, key) <==> !exists rest :: ThrowsAt(prior, next, [key] + rest)
    {
      ThrowsBelowKey(prior, next, key);
      if OpenAt(prior, next, key) {
        ThrowsExactly(prior.at[key].Children().value, next.at[key].Children().value);
      }
    }
    if path :| ThrowsAt(prior, next, path) {
      ThrowsFirstKey(prior, next, path);
      assert ThrowsAt(prior, next, [path[0]] + path[1..]);
    }
  }

  lemma ThrowsFirstKey(prior: Properties, next: Properties, path: seq<string>)
    requires ThrowsAt(prior, next, path)
    ensures path == [path[0]] + path[1..] && path[0] in next.at
  {
    var n := |path| - 1;
    if n == 0 {
      assert path[..0] == [];
    } else {
      assert path[..n][0] == path[0];
    }
  }

  lemma ThrowsBelowKey(prior: Properties, next: Properties, key: string)
    ensures (exists rest :: ThrowsAt(prior, next, [key] + rest)) <==>
      ThrowsAt(prior, next, [key])
      || (OpenAt(prior, next, key)
          && exists rest :: ThrowsAt(prior.at[key].Children().value, next.at[key].Children().value, rest))
    ensures ThrowsAt(prior, next, [key])
       <==> key in prior.at && prior.at[key].Children().Some? && key in next.at
            && ObjectType in next.at[key].typeNames && next.at[key].objectProperties.None?
  {
    ThrowsHere(prior, next, key);
    assert [key] + [] == [key];
    forall rest | rest != []
      ensures ThrowsAt(prior, next, [key] + rest)
         <==> OpenAt(prior, next, key)
              && ThrowsAt(prior.at[key].Children().value, next.at[key].Children().value, rest)
    {
      ThrowsDeeper(prior, next, key, rest);
    }
    if OpenAt(prior, next, key) {
      forall rest | ThrowsAt(prior.at[key].Children().value, next.at[key].Children().value, rest)
        ensures ThrowsAt(prior, next, [key] + rest)
      {
        assert rest != [];
      }
    }
    hide Below;
  }

  // Some prior schema and some new schema of its title lead to such a path.
  ghost predicate SchemasThrow(a: seq<Schema>, b: seq<Schema>) {
    exists was, now, path :: was in a && now in b && was.title == now.title
      && ThrowsAt(was.properties, now.properties, path)
  }

  lemma SchemasThrowExactly(a: seq<Schema>, b: seq<Schema>)
    ensures ComparableSchemas(a, b) <==> !SchemasThrow(a, b)
  {
    hide ThrowsAt, Comparable;
    forall was, now | was in a && now in b && was.title == now.title
      ensures Comparable(was.properties, now.properties)
         <==> !exists path :: ThrowsAt(was.properties, now.properties, path)
    {
      ThrowsExactly(was.properties, now.properties);
    }
  }

  // ---------- Schemas ----------

  // A prior schema without a namesake, or a path at which namesakes differ. A hidden schema's removal is reported too.
  ghost predicate SchemaReport(a: seq<Schema>, b: seq<Schema>, d: Difference) {
    (d.pointer == ""
     && exists was :: was in a && (forall now :: now in b ==> now.title != was.title)
                      && d.kind == if was.hidden == Some(true) then RemoveHiddenSchema else RemoveSchema)
    || exists was, now, path :: was in a && now in b && was.title == now.title
         && DiffersAt(was.properties, now.properties, path, d.kind)
         && d.pointer == "#/" + now.title + Place(path)
  }

  // What one prior schema contributes.
  ghost predicate SchemaReportOf(was: Schema, b: seq<Schema>, d: Difference) {
    (d.pointer == "" && (forall now :: now in b ==> now.title != was.title)
     && d.kind == if was.hidden == Some(true) then RemoveHiddenSchema else RemoveSchema)
    || exists now, path :: now in b && was.title == now.title
         && DiffersAt(was.properties, now.properties, path, d.kind)
         && d.pointer == "#/" + now.title + Place(path)
  }

  lemma OneSchemaReports(was: Schema, b: seq<Schema>, d: Difference)
    requires WellFormed(was.properties) && forall now | now in b :: WellFormed(now.properties)
    ensures d in SchemaAgainst(b)(was) <==> SchemaReportOf(was, b, d)
  {
    hide PropertyDiffs, DiffersAt, Place, WellFormed;
    FlatMapMember(b, MatchAgainst(was), d);
    forall now | now in b && was.title == now.title
      ensures d in MatchAgainst(was)(now) <==>
        exists path :: DiffersAt(was.properties, now.properties, path, d.kind)
                       && d.pointer == "#/" + now.title + Place(path)
    {
      PropertyDiffsExactly(was.properties, now.properties, "#" + "/" + now.title, d);
      assert "#" + "/" == "#/";
    }
    assert HasTitle(b, was.title) <==> exists now :: now in b && now.title == was.title;
  }

  lemma SchemasReportExactly(a: seq<Schema>, b: seq<Schema>, d: Difference)
    requires forall s | s in a :: WellFormed(s.properties)
    requires forall s | s in b :: WellFormed(s.properties)
    ensures d in SchemasDiffs(a, b) <==> SchemaReport(a, b, d)
  {
    hide DiffersAt, Place, WellFormed, SchemaAgainst;
    FlatMapMember(a, SchemaAgainst(b), d);
    forall was | was in a ensures d in SchemaAgainst(b)(was) <==> SchemaReportOf(was, b, d) {
      OneSchemaReports(was, b, d);
    }
  }

  // ---------- Sources ----------

  ghost predicate FirstOfSlug(streamSets: seq<StreamSet>, slug: string, j: nat) {
    j < |streamSets| && streamSets[j].slug == slug && forall i | 0 <= i < j :: streamSets[i].slug != slug
  }

  // How two sources of one slug differ. The finer differences count only where the type is the same; a stream set is
  // compared with the first of its slug, and a hash that is new is not a difference.
  ghost predicate SourcesDiffer(was: Source, now: Source, kind: DifferenceType) {
    match kind
    case ChangeSource => was.kind != now.kind
    case ChangeSourceConfiguration => was.kind == now.kind && was.configuration != now.configuration
    case ChangeSourceConnection =>
      was.kind == now.kind && was.connectionConfiguration != now.connectionConfiguration
    case ChangeSourceCredentials => was.kind == now.kind && was.credentialsIdentifier != now.credentialsIdentifier
    case RemoveStreamSet =>
      exists s :: s in was.streamSets && forall t :: t in now.streamSets ==> t.slug != s.slug
    case ChangeStreamUpdateMethod =>
      exists s, j: nat :: s in was.streamSets && FirstOfSlug(now.streamSets, s.slug, j)
        && s.updateMethods != now.streamSets[j].updateMethods
    case ChangeStreamStats =>
      exists s, j: nat :: s in was.streamSets && FirstOfSlug(now.streamSets, s.slug, j)
        && s.inspectedCount != now.streamSets[j].inspectedCount
    case ChangeStreamUpdateHash =>
      exists s, j: nat :: s in was.streamSets && FirstOfSlug(now.streamSets, s.slug, j)
        && s.lastUpdateHash.Some? && s.lastUpdateHash != now.streamSets[j].lastUpdateHash
    case _ => false
  }

  ghost predicate SourceReport(a: seq<Source>, b: seq<Source>, d: Difference) {
    (d == Difference(RemoveSource, "")
     && exists was :: was in a && forall now :: now in b ==> now.slug != was.slug)
    || (d.pointer == "#"
        && exists was, now :: was in a && now in b && was.slug == now.slug && SourcesDiffer(was, now, d.kind))
  }

  predicate HeadDiffers(was: Source, now: Source, kind: DifferenceType) {
    match kind
    case ChangeSource => was.kind != now.kind
    case ChangeSourceConfiguration => was.kind == now.kind && was.configuration != now.configuration
    case ChangeSourceConnection =>
      was.kind == now.kind && was.connectionConfiguration != now.connectionConfiguration
    case ChangeSourceCredentials => was.kind == now.kind && was.credentialsIdentifier != now.credentialsIdentifier
    case _ => false
  }

  lemma SourceHeadReports(was: Source, now: Source, pointer: string, d: Difference)
    ensures d in SourceHeadDiffs(was, now, pointer) <==> d.pointer == pointer && HeadDiffers(was, now, d.kind)
  {
  }

  // A prior stream set has no counterpart, or differs from the first of its slug in one of three ways.
  ghost predicate StreamDiffers(s: StreamSet, streamSets: seq<StreamSet>, kind: DifferenceType) {
    match kind
    case RemoveStreamSet => forall t :: t in streamSets ==> t.slug != s.slug
    case ChangeStreamUpdateMethod =>
      exists j: nat :: FirstOfSlug(streamSets, s.slug, j) && s.updateMethods != streamSets[j].updateMethods
    case ChangeStreamStats =>
      exists j: nat :: FirstOfSlug(streamSets, s.slug, j) && s.inspectedCount != streamSets[j].inspectedCount
    case ChangeStreamUpdateHash =>
      exists j: nat :: FirstOfSlug(streamSets, s.slug, j)
        && s.lastUpdateHash.Some? && s.lastUpdateHash != streamSets[j].lastUpdateHash
    case _ => false
  }

  lemma {:induction false} FoundIsFirst(streamSets: seq<StreamSet>, slug: string) returns (j: nat)
    requires FindStreamSet(streamSets, slug).Some?
    ensures FirstOfSlug(streamSets, slug, j) && FindStreamSet(streamSets, slug).value == streamSets[j]
    ensures forall i: nat :: FirstOfSlug(streamSets, slug, i) ==> i == j
  {
    if streamSets[0].slug == slug {
      j := 0;
    } else {
      j := FoundIsFirst(streamSets[1..], slug);
      assert forall i | 0 <= i < j :: streamSets[1..][i] == streamSets[i + 1];
      j := j + 1;
    }
  }

  lemma StreamPairReports(s: StreamSet, t: StreamSet, pointer: string, d: Difference)
    ensures d in When(t.updateMethods != s.updateMethods, ChangeStreamUpdateMethod, pointer)
                 + StreamDiffs(s, t, pointer) <==>
      d.pointer == pointer
      && match d.kind
         case ChangeStreamUpdateMethod => s.updateMethods != t.updateMethods
         case ChangeStreamStats => s.inspectedCount != t.inspectedCount
         case ChangeStreamUpdateHash => s.lastUpdateHash.Some? && s.lastUpdateHash != t.lastUpdateHash
         case _ => false
  {
  }

  lemma StreamReports(s: StreamSet, streamSets: seq<StreamSet>, pointer: string, d: Difference)
    ensures d in StreamAgainst(streamSets, pointer)(s) <==> d.pointer == pointer && StreamDiffers(s, streamSets, d.kind)
  {
    hide FindStreamSet, When, StreamDiffs;
    if FindStreamSet(streamSets, s.slug).Some? {
      var j := FoundIsFirst(streamSets, s.slug);
      StreamPairReports(s, streamSets[j], pointer, d);
    }
  }

  lemma DifferInHeadOrStreams(was: Source, now: Source, kind: DifferenceType)
    ensures SourcesDiffer(was, now, kind) <==>
      HeadDiffers(was, now, kind) || exists s :: s in was.streamSets && StreamDiffers(s, now.streamSets, kind)
  {
    hide FirstOfSlug;
    match kind
    case RemoveStreamSet =>
    case ChangeStreamUpdateMethod =>
    case ChangeStreamStats =>
    case ChangeStreamUpdateHash =>
    case _ =>
  }

  lemma SourcePairReports(was: Source, now: Source, pointer: string, d: Difference)
    ensures d in SourceDiffs(was, now, pointer) <==> d.pointer == pointer && SourcesDiffer(was, now, d.kind)
  {
    hide SourceHeadDiffs, StreamAgainst, FlatMap, StreamDiffers, SourcesDiffer, HeadDiffers;
    FlatMapMember(was.streamSets, StreamAgainst(now.streamSets, pointer), d);
    SourceHeadReports(was, now, pointer, d);
    forall s | s in was.streamSets
      ensures d in StreamAgainst(now.streamSets, pointer)(s)
         <==> d.pointer == pointer && StreamDiffers(s, now.streamSets, d.kind)
    {
      StreamReports(s, now.streamSets, pointer, d);
    }
    DifferInHeadOrStreams(was, now, d.kind);
  }

  lemma OneSourceReports(was: Source, b: seq<Source>, d: Difference)
    ensures d in SourceAgainst(b)(was) <==>
      (d == Difference(RemoveSource, "") && forall now :: now in b ==> now.slug != was.slug)
      || (d.pointer == "#" && exists now :: now in b && was.slug == now.slug && SourcesDiffer(was, now, d.kind))
  {
    hide SourceDiffs, SourcesDiffer;
    FlatMapMember(b, MatchSource(was), d);
    forall now | now in b && was.slug == now.slug
      ensures d in MatchSource(was)(now) <==> d.pointer == "#" && SourcesDiffer(was, now, d.kind)
    {
      SourcePairReports(was, now, "#", d);
    }
    assert HasSlug(b, was.slug) <==> exists now :: now in b && now.slug == was.slug;
  }

  // A difference between the sources is reported exactly for a prior source without a namesake, or for namesakes that
  // differ.
  lemma SourcesReportExactly(a: seq<Source>, b: seq<Source>, d: Difference)
    ensures d in SourcesDiffs(a, b) <==> SourceReport(a, b, d)
  {
    hide SourcesDiffer, SourceAgainst;
    FlatMapMember(a, SourceAgainst(b), d);
    forall was | was in a
      ensures d in SourceAgainst(b)(was) <==>
        (d == Difference(RemoveSource, "") && forall now :: now in b ==> now.slug != was.slug)
        || (d.pointer == "#" && exists now :: now in b && was.slug == now.slug && SourcesDiffer(was, now, d.kind))
    {
      OneSourceReports(was, b, d);
    }
  }

  // ---------- The package's own fields ----------

  predicate Is(d: Difference, kind: DifferenceType, pointer: string) {
    d == Difference(kind, pointer)
  }

  predicate Reports(diffs: seq<Difference>, d: Difference) {
    d in diffs
  }

  lemma WhenReports(condition: bool, kind: DifferenceType, pointer: string, d: Difference)
    ensures Reports(When(condition, kind, pointer), d) <==> condition && Is(d, kind, pointer)
  {
  }

  // One more conditional push, as it looks to one difference.
  lemma PushReports(start: seq<Difference>, condition: bool, kind: DifferenceType, pointer: string, d: Difference)
    returns (r: seq<Difference>)
    ensures r == start + When(condition, kind, pointer)
    ensures Reports(r, d) <==> Reports(start, d) || (condition && Is(d, kind, pointer))
  {
    r := start + When(condition, kind, pointer);
  }

  // A changed field of the package itself, under its own type.
  predicate HeaderReport(a: PackageFile, b: PackageFile, d: Difference) {
    (a.description != b.description && Is(d, ChangePackageDescription, "#"))
    || (a.displayName != b.displayName && Is(d, ChangePackageDisplayName, "#"))
    || (a.version != b.version && Is(d, ChangeVersion, "#"))
    || (a.readmeFile != b.readmeFile && Is(d, ChangeReadmeFile, "#"))
    || (a.website != b.website && Is(d, ChangeWebsite, "#"))
    || (a.contactEmail != b.contactEmail && Is(d, ChangeContactEmail, "#"))
    || (a.readmeMarkdown != b.readmeMarkdown && Is(d, ChangeReadmeMarkdown, "#"))
    || (a.licenseFile != b.licenseFile && Is(d, ChangeLicenseFile, "#"))
    || (a.licenseMarkdown != b.licenseMarkdown && Is(d, ChangeLicenseMarkdown, "#"))
    || (a.generatedBy != b.generatedBy && Is(d, ChangeGeneratedBy, "#"))
    || (a.updatedDate != b.updatedDate && Is(d, ChangeUpdatedDate, "#"))
  }

  lemma IsReported(diffs: seq<Difference>, d: Difference)
    ensures Reports(diffs, d) <==> d in diffs
  {
  }

  lemma HeaderReports(a: PackageFile, b: PackageFile, d: Difference)
    ensures d in HeaderDiffs(ChangedFields(a, b)) <==> HeaderReport(a, b, d)
  {
    hide HeaderDiffs, Reports, Is;
    HeaderMembers(ChangedFields(a, b), d);
    IsReported(HeaderDiffs(ChangedFields(a, b)), d);
  }

  lemma HeaderMembers(changed: HeaderChanges, d: Difference)
    ensures Reports(HeaderDiffs(changed), d) <==>
      (changed.description && Is(d, ChangePackageDescription, "#"))
      || (changed.displayName && Is(d, ChangePackageDisplayName, "#"))
      || (changed.version && Is(d, ChangeVersion, "#"))
      || (changed.readmeFile && Is(d, ChangeReadmeFile, "#"))
      || (changed.website && Is(d, ChangeWebsite, "#"))
      || (changed.contactEmail && Is(d, ChangeContactEmail, "#"))
      || (changed.readmeMarkdown && Is(d, ChangeReadmeMarkdown, "#"))
      || (changed.licenseFile && Is(d, ChangeLicenseFile, "#"))
      || (changed.licenseMarkdown && Is(d, ChangeLicenseMarkdown, "#"))
      || (changed.generatedBy && Is(d, ChangeGeneratedBy, "#"))
      || (changed.updatedDate && Is(d, ChangeUpdatedDate, "#"))
  {
    hide When, Reports, Is;
    var r := When(changed.description, ChangePackageDescription, "#");
    WhenReports(changed.description, ChangePackageDescription, "#", d);
    r := PushReports(r, changed.displayName, ChangePackageDisplayName, "#", d);
    r := PushReports(r, changed.version, ChangeVersion, "#", d);
    r := PushReports(r, changed.readmeFile, ChangeReadmeFile, "#", d);
    r := PushReports(r, changed.website, ChangeWebsite, "#", d);
    r := PushReports(r, changed.contactEmail, ChangeContactEmail, "#", d);
    r := PushReports(r, changed.readmeMarkdown, ChangeReadmeMarkdown, "#", d);
    r := PushReports(r, changed.licenseFile, ChangeLicenseFile, "#", d);
    r := PushReports(r, changed.licenseMarkdown, ChangeLicenseMarkdown, "#", d);
    r := PushReports(r, changed.generatedBy, ChangeGeneratedBy, "#", d);
    r := PushReports(r, changed.updatedDate, ChangeUpdatedDate, "#", d);
  }

  // ---------- Whole files ----------

  ghost predicate FileReport(a: PackageFile, b: PackageFile, d: Difference) {
    HeaderReport(a, b, d) || SchemaReport(a.schemas, b.schemas, d) || SourceReport(a.sources, b.sources, d)
  }

  // comparePackages reports a difference exactly where the two files differ.
  lemma PackageDiffsExactly(a: PackageFile, b: PackageFile, d: Difference)
    requires WellFormedFile(a) && WellFormedFile(b)
    ensures d in PackageDiffs(a, b) <==> FileReport(a, b, d)
  {
    hide HeaderReport, SchemaReport, SourceReport, SchemasDiffs, SourcesDiffs, HeaderDiffs;
    HeaderReports(a, b, d);
    SchemasReportExactly(a.schemas, b.schemas, d);
    SourcesReportExactly(a.sources, b.sources, d);
  }
}
