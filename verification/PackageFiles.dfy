/**
 The parts of a package file (schema version 0.32.1) that a comparison reads. A JavaScript object is kept as its
 keys in enumeration order together with the map from key to value.
 */
module PackageFiles {
  import opened Sequences

  datatype Json =
    | JsonNull
    | JsonBool(bool)
    | JsonNumber(real)
    | JsonString(string)
    | JsonArray(seq<Json>)
    | JsonObject(map<string, Json>)

  type Configuration = map<string, Json>

  datatype TypeName =
    | StringType | NumberType | IntegerType | BooleanType | DateType | DateTimeType | ObjectType | ArrayType | NullType

  datatype Properties = Properties(keys: seq<string>, at: map<string, Property>)

  datatype Property = Property(
    description: Option<string>,
    hidden: Option<bool>,
    unit: Option<string>,
    typeNames: set<TypeName>,
    objectProperties: Option<Properties>)
  {
    predicate Hidden() {
      hidden == Some(true)
    }

    // The value of types.object?.objectProperties.
    function Children(): Option<Properties> {
      if ObjectType in typeNames then objectProperties else None
    }
  }

  datatype Schema = Schema(title: string, hidden: Option<bool>, properties: Properties)
  {
    predicate Hidden() {
      hidden == Some(true)
    }
  }

  datatype UpdateMethod = BatchFullSet | AppendOnlyLog | Continuous

  datatype StreamSet = StreamSet(
    slug: string,
    lastUpdateHash: Option<string>,
    inspectedCount: int,
    updateMethods: Option<seq<UpdateMethod>>)

  datatype Source = Source(
    slug: string,
    kind: string,
    configuration: Option<Configuration>,
    connectionConfiguration: Option<Configuration>,
    credentialsIdentifier: Option<string>,
    streamSets: seq<StreamSet>)

  // A canonical version string: three numbers and no pre-release or build tag.
  datatype Version = Version(major: nat, minor: nat, patch: nat)
  {
    predicate Less(that: Version) {
      major < that.major
      || (major == that.major && (minor < that.minor || (minor == that.minor && patch < that.patch)))
    }

    predicate AtMost(that: Version) {
      this == that || Less(that)
    }
  }

  datatype PackageFile = PackageFile(
    version: Version,
    displayName: string,
    description: string,
    generatedBy: string,
    updatedDate: int,
    readmeFile: Option<string>,
    readmeMarkdown: Option<string>,
    licenseFile: Option<string>,
    licenseMarkdown: Option<string>,
    website: Option<string>,
    contactEmail: Option<string>,
    schemas: seq<Schema>,
    sources: seq<Source>)

  // What every JavaScript object guarantees, at every nesting depth: its enumeration lists each key once.
  ghost predicate WellFormed(properties: Properties) {
    Distinct(properties.keys)
    && (forall key :: key in properties.keys <==> key in properties.at)
    && (forall key | key in properties.at ::
          properties.at[key].objectProperties.Some? ==> WellFormed(properties.at[key].objectProperties.value))
  }

  ghost predicate WellFormedFile(file: PackageFile) {
    forall schema | schema in file.schemas :: WellFormed(schema.properties)
  }
}
