/** Relation index and projection definitions, and the version strings stored
    next to derived data (internal/domain/masterdata/index.go, projection.go). */
module DerivedVersions {
  import opened Text

  const LAYOUT_VERSION := "1"
  const INDEX_SEPARATOR: char := ';'
  const FIELD_SEPARATOR: char := ','

  /** One deployed version of the code: which indexes and which projection
      fields each entity has. */
  datatype Definitions = Definitions(indexes: map<string, seq<string>>, projections: map<string, seq<string>>) {
    function EntityIndexes(entity: string): seq<string> {
      if entity in indexes then indexes[entity] else []
    }

    function ProjectionFields(entity: string): seq<string> {
      if entity in projections then projections[entity] else []
    }

    predicate HasIndex(entity: string, index: string) {
      index in EntityIndexes(entity)
    }

    function IndexVersion(entity: string): string {
      Version(EntityIndexes(entity), INDEX_SEPARATOR)
    }

    function ProjectionVersion(entity: string): string {
      Version(ProjectionFields(entity), FIELD_SEPARATOR)
    }

    /** No index name holds a ';' and no projected field a ','. */
    predicate Valid() {
      && (forall entity :: entity in indexes ==> Separable(indexes[entity], INDEX_SEPARATOR))
      && (forall entity :: entity in projections ==> Separable(projections[entity], FIELD_SEPARATOR))
    }
  }

  predicate Separable(names: seq<string>, separator: char) {
    forall i :: 0 <= i < |names| ==> names[i] != "" && separator !in names[i]
  }

  function Version(names: seq<string>, separator: char): string {
    if names == [] then "" else LAYOUT_VERSION + ":" + Join(names, separator)
  }

  /** IndexNamesFromVersion: the text after the first ':', split. */
  function NamesFromVersion(version: string, separator: char): seq<string> {
    var cut := IndexByte(version, ':');
    if cut < 0 || version[cut + 1..] == "" then [] else Split(version[cut + 1..], separator)
  }

  lemma JoinedIsLong(names: seq<string>, separator: char)
    requires names != [] && Separable(names, separator)
    ensures Join(names, separator) != ""
  {
    assert names[0] != "";
  }

  /** A stored version tells exactly which definitions the derived data was
      built for, so comparing versions compares definitions. */
  lemma NamesRoundTrip(names: seq<string>, separator: char)
    requires Separable(names, separator)
    ensures NamesFromVersion(Version(names, separator), separator) == names
  {
    if names == [] {
      assert IndexByte("", ':') < 0;
    } else {
      var joined := Join(names, separator);
      JoinedIsLong(names, separator);
      IndexByteFirst(LAYOUT_VERSION, ':', joined);
      assert Version(names, separator) == LAYOUT_VERSION + [':'] + joined;
      assert Version(names, separator)[2..] == joined;
      SplitJoin(names, separator);
    }
  }

  lemma SeparableDefinitions(definitions: Definitions, entity: string)
    requires definitions.Valid()
    ensures NamesFromVersion(definitions.IndexVersion(entity), INDEX_SEPARATOR) == definitions.EntityIndexes(entity)
    ensures NamesFromVersion(definitions.ProjectionVersion(entity), FIELD_SEPARATOR) == definitions.ProjectionFields(entity)
  {
    NamesRoundTrip(definitions.EntityIndexes(entity), INDEX_SEPARATOR);
    NamesRoundTrip(definitions.ProjectionFields(entity), FIELD_SEPARATOR);
  }

  /** A text without a ':', or with nothing after its first one, names nothing. */
  lemma NothingNamed(text: string, separator: char)
    requires ':' !in text
    ensures NamesFromVersion(text, separator) == [] && NamesFromVersion(text + ":", separator) == []
  {
    IndexByteFirst(text, ':', "");
    assert text + [':'] + "" == text + ":";
  }

  /** A version is the layout's number and the names, as they are defined for the
      entity; an entity without any has none. */
  lemma VersionsExact(definitions: Definitions, entity: string, index: string)
    ensures definitions.HasIndex(entity, index) <==> entity in definitions.indexes && index in definitions.indexes[entity]
    ensures definitions.IndexVersion(entity)
         == if entity !in definitions.indexes || definitions.indexes[entity] == [] then ""
            else "1:" + Join(definitions.indexes[entity], ';')
    ensures definitions.ProjectionVersion(entity)
         == if entity !in definitions.projections || definitions.projections[entity] == [] then ""
            else "1:" + Join(definitions.projections[entity], ',')
  {
    assert LAYOUT_VERSION + ":" == "1:";
  }
}
