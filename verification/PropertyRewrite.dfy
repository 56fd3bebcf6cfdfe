/**
 The in-place rewrite of nested properties from schema version 0.9.0 to 0.31.5: the children of a property move from
 its own properties field into types.object.objectProperties. The tree of mutable property objects is proved to end
 up as a function of the tree it held before.
 */
module PropertyRewrite {
  import opened Sequences
  import opened PackageFiles

  type Statistics = map<string, Json>

  // The tree that a property object stands for. objectProperties is the field of types.object.
  datatype Tree = Tree(
    attributes: map<string, Json>,
    valueTypes: Option<map<string, Statistics>>,
    types: Option<map<TypeName, Statistics>>,
    properties: Option<Forest>,
    objectProperties: Option<Forest>)

  datatype Forest = Forest(entries: seq<Named>)

  datatype Named = Named(key: string, tree: Tree)

  // types is read wherever properties is set, and reading types.object of undefined throws.
  predicate Rewritable(tree: Tree)
    decreases tree, 0
  {
    tree.properties.Some? ==>
      tree.types.Some? && (ObjectType in tree.types.value ==> RewritableForest(tree.properties.value))
  }

  predicate RewritableForest(forest: Forest)
    decreases forest
  {
    forall i | 0 <= i < |forest.entries| :: Rewritable(forest.entries[i].tree)
  }

  function Rewrite(tree: Tree): Tree
    decreases tree, 0
  {
    if tree.properties.Some? && tree.types.Some? && ObjectType in tree.types.value then
      tree.(objectProperties := Some(RewriteForest(tree.properties.value)), properties := None)
    else tree
  }

  function RewriteForest(forest: Forest): (r: Forest)
    ensures |r.entries| == |forest.entries|
    ensures forall i | 0 <= i < |forest.entries| ::
      r.entries[i] == Named(forest.entries[i].key, Rewrite(forest.entries[i].tree))
    decreases forest
  {
    Forest(seq(|forest.entries|, i requires 0 <= i < |forest.entries| =>
      Named(forest.entries[i].key, Rewrite(forest.entries[i].tree))))
  }

  function TypeText(t: TypeName): string {
    match t
    case StringType => "string" case NumberType => "number" case IntegerType => "integer"
    case BooleanType => "boolean" case DateType => "date" case DateTimeType => "date-time"
    case ObjectType => "object" case ArrayType => "array" case NullType => "null"
  }

  // The chain of comparisons that files one entry of valueTypes; any other name is dropped.
  function KnownType(name: string): Option<TypeName> {
    if name == "integer" then Some(IntegerType)
    else if name == "number" then Some(NumberType)
    else if name == "string" then Some(StringType)
    else if name == "boolean" then Some(BooleanType)
    else if name == "date" then Some(DateType)
    else if name == "date-time" then Some(DateTimeType)
    else if name == "object" then Some(ObjectType)
    else if name == "array" then Some(ArrayType)
    else if name == "null" then Some(NullType)
    else None
  }

  lemma KnownTypeText(name: string, t: TypeName)
    ensures KnownType(name) == Some(t) <==> name == TypeText(t)
  {
    assert |"integer"| == 7 && |"number"| == 6 && |"string"| == 6 && |"boolean"| == 7 && |"date"| == 4
           && |"date-time"| == 9 && |"object"| == 6 && |"array"| == 5 && |"null"| == 4;
    assert "integer"[0] == 'i' && "number"[0] == 'n' && "string"[0] == 's' && "boolean"[0] == 'b' && "date"[0] == 'd'
           && "object"[0] == 'o' && "null"[0] == 'n';
  }

  // The entries of valueTypes whose name is a known type; the others are dropped.
  function KnownTypes(valueTypes: Option<map<string, Statistics>>): map<TypeName, Statistics> {
    map t: TypeName | TypeText(t) in valueTypes.GetOr(map[]) :: valueTypes.value[TypeText(t)]
  }

  // The step from 0.8.1 to 0.9.0 for one property; it is taken for the top level of each schema only.
  function Typed(tree: Tree): Tree {
    tree.(types := Some(KnownTypes(tree.valueTypes)), valueTypes := None)
  }

  function TypedForest(forest: Forest): (r: Forest)
    ensures |r.entries| == |forest.entries|
    ensures forall i | 0 <= i < |forest.entries| ::
      r.entries[i] == Named(forest.entries[i].key, Typed(forest.entries[i].tree))
  {
    Forest(seq(|forest.entries|, i requires 0 <= i < |forest.entries| =>
      Named(forest.entries[i].key, Typed(forest.entries[i].tree))))
  }

  // ---------- The objects ----------

  datatype Entry = Entry(key: string, node: PropertyNode)

  ghost predicate ValidTable(table: seq<Entry>, forest: Forest, footprint: set<object>)
    reads footprint
    decreases footprint, 1
  {
    |table| == |forest.entries|
    && (forall i | 0 <= i < |table| ::
          table[i].key == forest.entries[i].key && table[i].node in footprint && table[i].node.Repr <= footprint
          && table[i].node.tree == forest.entries[i].tree && table[i].node.Valid())
    && (forall i, j | 0 <= i < j < |table| :: table[i].node.Repr !! table[j].node.Repr)
  }

  class PropertyNode {
    const attributes: map<string, Json>
    var valueTypes: Option<map<string, Statistics>>
    var types: Option<map<TypeName, Statistics>>
    var properties: Option<seq<Entry>>
    var objectProperties: Option<seq<Entry>>
    ghost var tree: Tree  // what this object stands for
    ghost var Repr: set<object>  // this object and the objects below it

    ghost predicate Valid()
      reads this, Repr
      decreases Repr, 0
    {
      this in Repr
      && tree.attributes == attributes && tree.valueTypes == valueTypes && tree.types == types
      && (properties.Some? <==> tree.properties.Some?)
      && (properties.Some? ==> ValidTable(properties.value, tree.properties.value, Repr - {this}))
      && (objectProperties.Some? <==> tree.objectProperties.Some?)
      && (objectProperties.Some? ==> ValidTable(objectProperties.value, tree.objectProperties.value, Repr - {this}))
    }

    // The loop body of the step to 0.9.0.
    method TypeNode()
      requires Valid()
      modifies this`types, this`valueTypes, this`tree
      ensures Valid() && tree == Typed(old(tree))
    {
      hide KnownType, TypeText;
      var all: map<string, Statistics> := valueTypes.GetOr(map[]);
      var filed: map<TypeName, Statistics> := map[];
      var remaining := all.Keys;
      while remaining != {}
        invariant remaining <= all.Keys
        invariant forall t :: t in filed <==> TypeText(t) in all && TypeText(t) !in remaining
        invariant forall t | t in filed :: filed[t] == all[TypeText(t)]
        decreases |remaining|
      {
        var name :| name in remaining;
        forall t ensures KnownType(name) == Some(t) <==> name == TypeText(t) {
          KnownTypeText(name, t);
        }
        if KnownType(name).Some? {
          filed := filed[KnownType(name).value := all[name]];
        }
        remaining := remaining - {name};
      }
      assert filed == KnownTypes(valueTypes);
      types := Some(filed);
      valueTypes := None;
      tree := Typed(tree);
    }

    // The loop body of recurseProperties.
    method RewriteNode() returns (ok: bool)
      requires Valid()
      modifies Repr
      ensures ok == Rewritable(old(tree))
      ensures ok ==> Valid() && tree == Rewrite(old(tree)) && Repr == old(Repr)
      decreases Repr, 0
    {
      if properties.None? {
        return true;
      }
      if types.None? {
        return false;
      }
      if ObjectType !in types.value {
        return true;
      }
      objectProperties := properties;
      ok := RecurseProperties(properties.value, tree.properties.value, Repr - {this});
      if ok {
        properties := None;
        tree := Rewrite(tree);
      }
    }
  }

  method TypeProperties(table: seq<Entry>, ghost forest: Forest, ghost footprint: set<object>)
    requires ValidTable(table, forest, footprint)
    modifies footprint
    ensures ValidTable(table, TypedForest(forest), footprint)
  {
    for i := 0 to |table|
      invariant forall j | 0 <= j < |table| :: table[j].node.Valid() && table[j].node.Repr == old(table[j].node.Repr)
      invariant forall j | 0 <= j < i :: table[j].node.tree == Typed(forest.entries[j].tree)
      invariant forall j | i <= j < |table| :: table[j].node.tree == forest.entries[j].tree
    {
      table[i].node.TypeNode();
    }
  }

  method RecurseProperties(table: seq<Entry>, ghost forest: Forest, ghost footprint: set<object>)
    returns (ok: bool)
    requires ValidTable(table, forest, footprint)
    modifies footprint
    ensures ok == RewritableForest(forest)
    ensures ok ==> ValidTable(table, RewriteForest(forest), footprint)
    decreases footprint, 1
  {
    for i := 0 to |table|
      invariant forall j | 0 <= j < i :: Rewritable(forest.entries[j].tree)
      invariant forall j | 0 <= j < |table| :: table[j].node.Valid() && table[j].node.Repr == old(table[j].node.Repr)
      invariant forall j | 0 <= j < i :: table[j].node.tree == Rewrite(forest.entries[j].tree)
      invariant forall j | i <= j < |table| :: table[j].node.tree == forest.entries[j].tree
    {
      ok := table[i].node.RewriteNode();
      if !ok {
        return;
      }
    }
    ok := true;
  }

  // ---------- What the rewrite keeps ----------

  // The statistics of the property at the end of the path, read through the legacy field properties.
  function ReadLegacy(forest: Forest, path: seq<string>): Option<Tree>
    decreases |path|
  {
    if path == [] then None
    else
      var found := Lookup(forest.entries, path[0]);
      if found.None? || |path| == 1 then found
      else if found.value.properties.None? then None
      else ReadLegacy(found.value.properties.value, path[1..])
  }

  // The same through types.object.objectProperties.
  function ReadCurrent(forest: Forest, path: seq<string>): Option<Tree>
    decreases |path|
  {
    if path == [] then None
    else
      var found := Lookup(forest.entries, path[0]);
      if found.None? || |path| == 1 then found
      else if found.value.objectProperties.None? then None
      else ReadCurrent(found.value.objectProperties.value, path[1..])
  }

  function Lookup(entries: seq<Named>, key: string): (r: Option<Tree>)
    ensures r.Some? ==> exists i :: 0 <= i < |entries| && entries[i] == Named(key, r.value)
  {
    if entries == [] then None
    else if entries[0].key == key then Some(entries[0].tree)
    else Lookup(entries[1..], key)
  }

  lemma {:induction false} LookupRewritten(forest: Forest, key: string)
    ensures Lookup(RewriteForest(forest).entries, key)
         == if Lookup(forest.entries, key).Some? then Some(Rewrite(Lookup(forest.entries, key).value)) else None
    decreases |forest.entries|
  {
    if forest.entries != [] {
      LookupRewritten(Forest(forest.entries[1..]), key);
      assert RewriteForest(forest).entries[1..] == RewriteForest(Forest(forest.entries[1..])).entries;
    }
  }

  // A file of version 0.9.0: children only in properties, and only below properties of object type.
  predicate Legacy(tree: Tree)
    decreases tree, 0
  {
    tree.objectProperties.None? && tree.types.Some?
    && (tree.properties.Some? ==> ObjectType in tree.types.value && LegacyForest(tree.properties.value))
  }

  predicate LegacyForest(forest: Forest)
    decreases forest
  {
    forall i | 0 <= i < |forest.entries| :: Legacy(forest.entries[i].tree)
  }

  // Every path leads to a property afterwards exactly when it did before, with the same types and statistics.
  lemma {:induction false} PathsPreserved(forest: Forest, path: seq<string>)
    requires LegacyForest(forest)
    ensures RewritableForest(forest)
    ensures var before, after := ReadLegacy(forest, path), ReadCurrent(RewriteForest(forest), path);
            (before.Some? <==> after.Some?)
            && (before.Some? ==> after.value.types == before.value.types
                                 && after.value.attributes == before.value.attributes)
    decreases |path|
  {
    LegacyIsRewritable(forest);
    if path != [] {
      LookupRewritten(forest, path[0]);
      var found := Lookup(forest.entries, path[0]);
      if found.Some? && |path| > 1 && found.value.properties.Some? {
        PathsPreserved(found.value.properties.value, path[1..]);
      }
    }
  }

  lemma {:induction false} LegacyIsRewritable(forest: Forest)
    requires LegacyForest(forest)
    ensures RewritableForest(forest)
    decreases forest
  {
    forall i | 0 <= i < |forest.entries| ensures Rewritable(forest.entries[i].tree) {
      if forest.entries[i].tree.properties.Some? {
        LegacyIsRewritable(forest.entries[i].tree.properties.value);
      }
    }
  }

  // No legacy field is left anywhere in the tree.
  predicate Current(tree: Tree)
    decreases tree, 0
  {
    tree.properties.None? && (tree.objectProperties.Some? ==> CurrentForest(tree.objectProperties.value))
  }

  predicate CurrentForest(forest: Forest)
    decreases forest
  {
    forall i | 0 <= i < |forest.entries| :: Current(forest.entries[i].tree)
  }

  // Along the legacy fields, every property with children has an object type, and there is nothing else below.
  predicate ChildrenBelowObjects(tree: Tree)
    decreases tree, 0
  {
    if tree.properties.Some? then
      ObjectType in tree.types.GetOr(map[]) && ForestBelowObjects(tree.properties.value)
    else tree.objectProperties.Some? ==> CurrentForest(tree.objectProperties.value)
  }

  predicate ForestBelowObjects(forest: Forest)
    decreases forest
  {
    forall i | 0 <= i < |forest.entries| :: ChildrenBelowObjects(forest.entries[i].tree)
  }

  // The rewrite leaves no legacy field exactly when every property with children has an object type: below any other
  // property the children stay where they were.
  lemma {:induction false} RewriteIsCompleteExactly(forest: Forest)
    ensures CurrentForest(RewriteForest(forest)) <==> ForestBelowObjects(forest)
    decreases forest
  {
    forall i | 0 <= i < |forest.entries|
      ensures Current(Rewrite(forest.entries[i].tree)) <==> ChildrenBelowObjects(forest.entries[i].tree)
    {
      if forest.entries[i].tree.properties.Some? {
        RewriteIsCompleteExactly(forest.entries[i].tree.properties.value);
      }
    }
    assert forall i | 0 <= i < |forest.entries| ::
      RewriteForest(forest).entries[i].tree == Rewrite(forest.entries[i].tree);
  }

  lemma {:induction false} LegacyIsBelowObjects(forest: Forest)
    requires LegacyForest(forest)
    ensures ForestBelowObjects(forest)
    decreases forest
  {
    forall i | 0 <= i < |forest.entries| ensures ChildrenBelowObjects(forest.entries[i].tree) {
      if forest.entries[i].tree.properties.Some? {
        LegacyIsBelowObjects(forest.entries[i].tree.properties.value);
      }
    }
  }
}
