/** parseAnnotations and getAc: folding the Column annotations found on an entity's accessors into
    one ColumnSchema per column name, stored in a TreeMap keyed by the lower-cased name. */
module Annotations {
  import opened Wrappers
  import opened Jdbc
  import opened Errors
  import opened Strings
  import opened SortedMaps
  import opened Columns
  import opened Partitions

  /** The `@Column(name, pkOrdinal, isVersion, autoIncrement)` annotation. */
  datatype ColumnAnnotation = ColumnAnnotation(name: string, pkOrdinal: int32, isVersion: bool, autoIncrement: bool)

  /** One entry of `clazz.getMethods()`, with its Column annotation when it has one. */
  datatype MethodInfo = MethodInfo(accessor: Method, column: Option<ColumnAnnotation>)

  /** The per-name AnnotationCache record. */
  datatype AnnotationCache = AnnotationCache(
    name: string,
    getter: Option<Method>,
    setter: Option<Method>,
    pkOrdinal: int32,
    autoIncrement: bool)

  /** The state of the first loop: the HashMap of caches, the names in the order they were first
      added (standing for the HashMap's iteration order), and the last version column name. */
  datatype Collected = Collected(annos: map<string, AnnotationCache>, order: seq<string>, versionCol: Option<string>)

  /** Every cache sits under its own name, `order` lists each cached name once, and the version
      name is one of the cached names. */
  predicate Coherent(c: Collected)
  {
    && (forall n :: n in c.annos ==> c.annos[n].name == n)
    && (forall n :: n in c.order ==> n in c.annos)
    && (forall n :: n in c.annos ==> n in c.order)
    && (forall i, j :: 0 <= i < j < |c.order| ==> c.order[i] != c.order[j])
    && (c.versionCol.Some? ==> c.versionCol.value in c.annos)
  }

  /** `getAc`: the cache already held for `name`, or a new one that carries only the name. */
  function GetAc(annos: map<string, AnnotationCache>, name: string): (ac: AnnotationCache)
    ensures ac.name == name || (name in annos && ac == annos[name])
    ensures name in annos ==> ac == annos[name]
    ensures name !in annos ==> ac.name == name && ac.getter.None? && ac.setter.None?
  {
    if name in annos then annos[name] else AnnotationCache(name, None, None, 0, false)
  }

  /** One iteration of the first loop: an annotated accessor becomes the setter when it returns
      void and the getter otherwise; its pkOrdinal and autoIncrement replace the cached ones; a
      version annotation makes its name the version column. */
  function Step(c: Collected, m: MethodInfo): (r: Collected)
    requires Coherent(c)
    ensures Coherent(r)
  {
    match m.column
    case None => c
    case Some(ano) =>
      var ac := GetAc(c.annos, ano.name);
      var order := if ano.name in c.annos then c.order else c.order + [ano.name];
      var ac := if m.accessor.returnType == Void then ac.(setter := Some(m.accessor)) else ac.(getter := Some(m.accessor));
      var ac := ac.(autoIncrement := ano.autoIncrement);
      var ac := ac.(pkOrdinal := ano.pkOrdinal);
      var versionCol := if ano.isVersion then Some(ac.name) else c.versionCol;
      Collected(c.annos[ano.name := ac], order, versionCol)
  }

  /** The first loop run over all of `ms`. */
  function Collect(ms: seq<MethodInfo>): (c: Collected)
    ensures Coherent(c)
  {
    if ms == [] then Collected(map[], [], None) else Step(Collect(ms[..|ms| - 1]), ms[|ms| - 1])
  }

  /** The ColumnSchema the second loop builds from the cache held for `n`. */
  function ColumnOf(c: Collected, n: string): Result<ColumnSchema, Error>
    requires n in c.annos
  {
    var ac := c.annos[n];
    NewColumn(ac.name, ac.getter, ac.setter, ac.pkOrdinal, c.versionCol == Some(ac.name), ac.autoIncrement)
  }

  /** The second loop over the names still to visit: each cache becomes a column put into the
      TreeMap under its lower-cased name; a cache without a getter stops the loop with NoGetter. */
  function Translate(c: Collected, names: seq<string>, acc: ColumnMap): (r: Result<ColumnMap, Error>)
    requires Coherent(c)
    requires forall n :: n in names ==> n in c.annos
    requires WellKeyed(acc)
    ensures r.Success? ==> WellKeyed(r.value)
    ensures r.Failure? <==> exists n :: n in names && c.annos[n].getter.None?
    ensures r.Failure? ==> r.error.NoGetter? && r.error.column in names && c.annos[r.error.column].getter.None?
    ensures r.Success? ==> forall e :: e in r.value ==> e in acc || (e.value.name in names && ColumnOf(c, e.value.name) == Success(e.value))
    decreases |names|
  {
    if names == [] then Success(acc)
    else
      match ColumnOf(c, names[0])
      case Failure(e) => Failure(e)
      case Success(col) =>
        var acc' := Put(acc, Lower(names[0]), col);
        assert forall n :: n in names ==> n == names[0] || n in names[1..];
        Translate(c, names[1..], acc')
  }

  /** `parseAnnotations` as a value: both loops run to the end. */
  function Parse(ms: seq<MethodInfo>): Result<ColumnMap, Error>
  {
    var c := Collect(ms);
    Translate(c, c.order, [])
  }

  /** `parseAnnotations(clazz)`, given the class's methods in `getMethods()` order. */
  method ParseAnnotations(ms: seq<MethodInfo>) returns (r: Result<ColumnMap, Error>)
    ensures r == Parse(ms)
  {
    var c := CollectAccessors(ms);
    r := TranslateToColumns(c);
  }

  /** The first loop of `parseAnnotations`: collect accessors into caches. */
  method CollectAccessors(ms: seq<MethodInfo>) returns (c: Collected)
    ensures c == Collect(ms)
  {
    var annos: map<string, AnnotationCache> := map[];
    var order: seq<string> := [];
    var versionCol: Option<string> := None;
    for i := 0 to |ms|
      invariant Collected(annos, order, versionCol) == Collect(ms[..i])
    {
      assert ms[..i + 1][..i] == ms[..i];
      assert Collect(ms[..i + 1]) == Step(Collect(ms[..i]), ms[i]);
      var m := ms[i];
      if m.column.None? {
        continue;
      }
      var ano := m.column.value;
      var ac := GetAc(annos, ano.name);
      if ano.name !in annos {
        order := order + [ano.name];
      }
      if m.accessor.returnType == Void {
        ac := ac.(setter := Some(m.accessor));
      } else {
        ac := ac.(getter := Some(m.accessor));
      }
      ac := ac.(autoIncrement := ano.autoIncrement);
      ac := ac.(pkOrdinal := ano.pkOrdinal);
      if ano.isVersion {
        versionCol := Some(ac.name);
      }
      annos := annos[ano.name := ac];
    }
    assert ms[..|ms|] == ms;
    c := Collected(annos, order, versionCol);
  }

  /** The second loop of `parseAnnotations`: translate the caches to columns. */
  method TranslateToColumns(c: Collected) returns (r: Result<ColumnMap, Error>)
    requires Coherent(c)
    ensures r == Translate(c, c.order, [])
  {
    var columns: ColumnMap := [];
    for j := 0 to |c.order|
      invariant WellKeyed(columns)
      invariant Translate(c, c.order, []) == Translate(c, c.order[j..], columns)
    {
      TranslateStep(c, c.order[j..], columns);
      assert c.order[j..][1..] == c.order[j + 1..];
      var ac := c.annos[c.order[j]];
      var isVersion := c.versionCol == Some(ac.name);
      var col := NewColumn(ac.name, ac.getter, ac.setter, ac.pkOrdinal, isVersion, ac.autoIncrement);
      if col.Failure? {
        return Failure(col.error);
      }
      columns := Put(columns, Lower(ac.name), col.value);
    }
    assert c.order[|c.order|..] == [];
    return Success(columns);
  }

  /** Putting a column under its own lower-cased name keeps a column map well keyed. */
  lemma PutWellKeyed(m: ColumnMap, col: ColumnSchema)
    requires WellKeyed(m)
    ensures WellKeyed(Put(m, Lower(col.name), col))
  {
    var r := Put(m, Lower(col.name), col);
    forall i | 0 <= i < |r| ensures r[i].key == Lower(r[i].value.name) {
      assert r[i] in r;
    }
  }

  /** One step of the second loop. */
  lemma TranslateStep(c: Collected, names: seq<string>, acc: ColumnMap)
    requires Coherent(c)
    requires names != [] && forall n :: n in names ==> n in c.annos
    requires WellKeyed(acc)
    ensures ColumnOf(c, names[0]).Failure? ==> Translate(c, names, acc) == Failure(ColumnOf(c, names[0]).error)
    ensures ColumnOf(c, names[0]).Success? ==>
      && c.annos[names[0]].name == names[0]
      && ColumnOf(c, names[0]).value.name == names[0]
      && WellKeyed(Put(acc, Lower(names[0]), ColumnOf(c, names[0]).value))
      && Translate(c, names, acc) == Translate(c, names[1..], Put(acc, Lower(names[0]), ColumnOf(c, names[0]).value))
  {
    if ColumnOf(c, names[0]).Success? {
      PutWellKeyed(acc, ColumnOf(c, names[0]).value);
    }
  }
}
