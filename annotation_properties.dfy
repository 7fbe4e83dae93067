/** What parseAnnotations yields, stated against the annotated accessors it is given. */
module AnnotationProperties {
  import opened Wrappers
  import opened Strings
  import opened SortedMaps
  import opened Columns
  import opened Partitions
  import opened PartitionProperties
  import opened Annotations

  /** `m` carries a Column annotation naming `n`. */
  predicate Annotates(m: MethodInfo, n: string)
  {
    m.column.Some? && m.column.value.name == n
  }

  /** `m` carries a Column annotation naming `n` and is a setter (void) when `setter` holds, a
      getter (non-void) otherwise. */
  predicate Supplies(m: MethodInfo, n: string, setter: bool)
  {
    Annotates(m, n) && (m.accessor.returnType == Void) == setter
  }

  /** The setter or the getter slot of a cache. */
  function Slot(ac: AnnotationCache, setter: bool): Option<Method>
  {
    if setter then ac.setter else ac.getter
  }

  /** A cache exists for exactly the names some accessor is annotated with. */
  lemma {:induction false} AnnotatedNames(ms: seq<MethodInfo>, n: string)
    ensures n in Collect(ms).annos <==> exists i :: 0 <= i < |ms| && Annotates(ms[i], n)
  {
    if ms != [] {
      var init := ms[..|ms| - 1];
      AnnotatedNames(init, n);
      if exists i :: 0 <= i < |init| && Annotates(init[i], n) {
        var i :| 0 <= i < |init| && Annotates(init[i], n);
        assert ms[i] == init[i];
      }
      if exists i :: 0 <= i < |ms| && Annotates(ms[i], n) {
        var i :| 0 <= i < |ms| && Annotates(ms[i], n);
        if i < |init| {
          assert init[i] == ms[i];
        }
      }
    }
  }

  /** pkOrdinal and autoIncrement of a column come from the last annotation that names it. */
  lemma {:induction false} LastAnnotationWins(ms: seq<MethodInfo>, i: int)
    requires 0 <= i < |ms| && ms[i].column.Some?
    requires forall j :: i < j < |ms| ==> !Annotates(ms[j], ms[i].column.value.name)
    ensures var ano := ms[i].column.value;
            && ano.name in Collect(ms).annos
            && Collect(ms).annos[ano.name].pkOrdinal == ano.pkOrdinal
            && Collect(ms).annos[ano.name].autoIncrement == ano.autoIncrement
  {
    var init := ms[..|ms| - 1];
    if i < |ms| - 1 {
      assert init[i] == ms[i];
      LastAnnotationWins(init, i);
    }
  }

  /** The getter (setter) of a column is the last non-void (void) accessor annotated with its name. */
  lemma {:induction false} AccessorIsLast(ms: seq<MethodInfo>, i: int, setter: bool)
    requires 0 <= i < |ms| && ms[i].column.Some?
    requires Supplies(ms[i], ms[i].column.value.name, setter)
    requires forall j :: i < j < |ms| ==> !Supplies(ms[j], ms[i].column.value.name, setter)
    ensures ms[i].column.value.name in Collect(ms).annos
    ensures Slot(Collect(ms).annos[ms[i].column.value.name], setter) == Some(ms[i].accessor)
  {
    var init := ms[..|ms| - 1];
    if i < |ms| - 1 {
      assert init[i] == ms[i];
      AccessorIsLast(init, i, setter);
    }
  }

  /** A column has no getter (setter) exactly when no non-void (void) accessor is annotated with
      its name. */
  lemma {:induction false} AccessorAbsent(ms: seq<MethodInfo>, n: string, setter: bool)
    requires n in Collect(ms).annos
    ensures Slot(Collect(ms).annos[n], setter).None? <==> forall i :: 0 <= i < |ms| ==> !Supplies(ms[i], n, setter)
  {
    var init, m := ms[..|ms| - 1], ms[|ms| - 1];
    assert forall i :: 0 <= i < |init| ==> init[i] == ms[i];
    if !Annotates(m, n) {
      AccessorAbsent(init, n, setter);
    } else if !Supplies(m, n, setter) {
      if n in Collect(init).annos {
        AccessorAbsent(init, n, setter);
      } else {
        AnnotatedNames(init, n);
      }
    }
  }

  /** The version column name is the name on the last annotation flagged isVersion. */
  lemma {:induction false} VersionIsLast(ms: seq<MethodInfo>, i: int)
    requires 0 <= i < |ms| && ms[i].column.Some? && ms[i].column.value.isVersion
    requires forall j :: i < j < |ms| && ms[j].column.Some? ==> !ms[j].column.value.isVersion
    ensures Collect(ms).versionCol == Some(ms[i].column.value.name)
  {
    var init := ms[..|ms| - 1];
    if i < |ms| - 1 {
      assert init[i] == ms[i];
      VersionIsLast(init, i);
    }
  }

  /** There is no version column exactly when no annotation is flagged isVersion. */
  lemma {:induction false} NoVersion(ms: seq<MethodInfo>)
    ensures Collect(ms).versionCol.None? <==> forall i :: 0 <= i < |ms| && ms[i].column.Some? ==> !ms[i].column.value.isVersion
  {
    if ms != [] {
      var init := ms[..|ms| - 1];
      assert forall i :: 0 <= i < |init| ==> init[i] == ms[i];
      NoVersion(init);
    }
  }

  /** Every name the second loop visits ends up with a column under its lower-cased key, and no
      key already present is lost. */
  lemma {:induction false} TranslateKeepsKeys(c: Collected, names: seq<string>, acc: ColumnMap)
    requires Coherent(c)
    requires forall n :: n in names ==> n in c.annos
    requires WellKeyed(acc)
    requires Translate(c, names, acc).Success?
    ensures forall n :: n in names ==> Get(Translate(c, names, acc).value, Lower(n)).Some?
    ensures forall k :: Get(acc, k).Some? ==> Get(Translate(c, names, acc).value, k).Some?
  {
    if names != [] {
      TranslateStep(c, names, acc);
      var col := ColumnOf(c, names[0]).value;
      var acc' := Put(acc, Lower(names[0]), col);
      assert forall n :: n in names[1..] ==> n in names;
      TranslateKeepsKeys(c, names[1..], acc');
      forall k ensures Get(acc', k) == if k == Lower(names[0]) then Some(col) else Get(acc, k) {
        PutGet(acc, Lower(names[0]), col, k);
      }
      assert forall n :: n in names ==> n == names[0] || n in names[1..];
    }
  }

  /** parseAnnotations fails exactly when some annotated name has no non-void accessor, and then
      with NoGetter naming such a column. */
  lemma ParseFailsWithoutGetter(ms: seq<MethodInfo>)
    ensures Parse(ms).Failure? <==>
              exists i :: 0 <= i < |ms| && ms[i].column.Some? && NoGetterFor(ms, ms[i].column.value.name)
    ensures Parse(ms).Failure? ==>
              && Parse(ms).error.NoGetter?
              && (exists i :: 0 <= i < |ms| && Annotates(ms[i], Parse(ms).error.column))
              && NoGetterFor(ms, Parse(ms).error.column)
  {
    var c := Collect(ms);
    forall n | n in c.annos ensures c.annos[n].getter.None? <==> NoGetterFor(ms, n) {
      AccessorAbsent(ms, n, false);
    }
    forall i | 0 <= i < |ms| && ms[i].column.Some? ensures ms[i].column.value.name in c.annos {
      AnnotatedNames(ms, ms[i].column.value.name);
    }
    if Parse(ms).Failure? {
      AnnotatedNames(ms, Parse(ms).error.column);
      var i :| 0 <= i < |ms| && Annotates(ms[i], Parse(ms).error.column);
      assert ms[i].column.Some? && NoGetterFor(ms, ms[i].column.value.name);
    }
  }

  /** No non-void accessor is annotated with `n`. */
  predicate NoGetterFor(ms: seq<MethodInfo>, n: string)
  {
    forall j :: 0 <= j < |ms| ==> !Supplies(ms[j], n, false)
  }

  /** When parseAnnotations succeeds the map is sorted and keyed by the lower-cased names, and
      every annotated name is found under its lower-cased key. */
  lemma ParseFindsEveryName(ms: seq<MethodInfo>)
    requires Parse(ms).Success?
    ensures WellKeyed(Parse(ms).value)
    ensures forall i :: 0 <= i < |ms| && ms[i].column.Some? ==>
              Get(Parse(ms).value, Lower(ms[i].column.value.name)).Some?
  {
    var c := Collect(ms);
    forall i | 0 <= i < |ms| && ms[i].column.Some? ensures ms[i].column.value.name in c.order {
      AnnotatedNames(ms, ms[i].column.value.name);
    }
    TranslateKeepsKeys(c, c.order, []);
  }

  /** When parseAnnotations succeeds each column is the one built from its name's cache; only
      columns named after the version column are flagged isVersion, so at most one column is. */
  lemma ParseColumnsFromCaches(ms: seq<MethodInfo>)
    requires Parse(ms).Success?
    ensures forall e :: e in Parse(ms).value ==>
              e.value.name in Collect(ms).annos && ColumnOf(Collect(ms), e.value.name) == Success(e.value)
    ensures forall e :: e in Parse(ms).value && e.value.isVersion ==> Collect(ms).versionCol == Some(e.value.name)
    ensures forall p, q ::
              (0 <= p < |Parse(ms).value| && 0 <= q < |Parse(ms).value| &&
               Parse(ms).value[p].value.isVersion && Parse(ms).value[q].value.isVersion) ==> p == q
  {
    var r := Parse(ms).value;
    if exists e :: e in r && e.value.isVersion {
      var e :| e in r && e.value.isVersion;
      forall i | 0 <= i < |r| && r[i].value.isVersion ensures r[i].value.name == e.value.name {
        assert r[i] in r;
      }
      VersionColumnUnique(r, e.value.name);
    }
  }
}
