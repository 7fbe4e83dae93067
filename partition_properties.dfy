/** What the derived partitions of a column map are, stated against the column map itself. */
module PartitionProperties {
  import opened Wrappers
  import opened Jdbc
  import opened Strings
  import opened SortedMaps
  import opened Columns
  import opened Partitions

  lemma {:induction false} WithPkKeyColumns(s: seq<ColumnSchema>, k: int32)
    requires k >= 0
    ensures WithPk(KeyColumns(s), k) == WithPk(s, k)
  {
    if s != [] {
      var init, last := s[..|s| - 1], s[|s| - 1];
      WithPkKeyColumns(init, k);
      assert s == init + [last];
      WithPkSnoc(init, last, k);
      if last.pkOrdinal >= 0 {
        assert KeyColumns(s) == KeyColumns(init) + [last];
        WithPkSnoc(KeyColumns(init), last, k);
      } else {
        assert KeyColumns(s) == KeyColumns(init) + [];
        assert KeyColumns(init) + [] == KeyColumns(init);
      }
    }
  }

  /** idColumns (and the primary key list, which `findPk` builds equal to it) are exactly the
      columns with `pkOrdinal >= 0`, ascending by pkOrdinal, and columns sharing a pkOrdinal keep
      their key (name) order. */
  lemma IdColumnsByPk(m: ColumnMap)
    ensures SortedByPk(FindIdCols(m))
    ensures forall c :: c in FindIdCols(m) <==> c in Values(m) && c.pkOrdinal >= 0
    ensures multiset(FindIdCols(m)) == multiset(KeyColumns(Values(m)))
    ensures forall k :: k >= 0 ==> WithPk(FindIdCols(m), k) == WithPk(Values(m), k)
  {
    IdMembers(m);
    forall k | k >= 0 ensures WithPk(FindIdCols(m), k) == WithPk(Values(m), k) {
      WithPkKeyColumns(Values(m), k);
    }
  }

  /** The membership half of IdColumnsByPk. */
  lemma IdMembers(m: ColumnMap)
    ensures forall c :: c in FindIdCols(m) <==> c in Values(m) && c.pkOrdinal >= 0
  {
    var ids := FindIdCols(m);
    forall c ensures c in ids <==> c in Values(m) && c.pkOrdinal >= 0 {
      assert c in ids <==> c in multiset(ids);
      assert c in KeyColumns(Values(m)) <==> c in multiset(KeyColumns(Values(m)));
    }
  }

  /** Filtering one more column to the auto-increment columns appends it when it is flagged. */
  lemma AutoIncrementOnlySnoc(s: seq<ColumnSchema>, c: ColumnSchema)
    ensures AutoIncrementOnly(s + [c]) == AutoIncrementOnly(s) + (if c.autoIncrement then [c] else [])
  {
    assert (s + [c])[..|s|] == s;
  }

  /** Filtering to the auto-increment columns commutes with picking out one pkOrdinal. */
  lemma {:induction false} WithPkAutoIncrementOnly(s: seq<ColumnSchema>, k: int32)
    ensures WithPk(AutoIncrementOnly(s), k) == AutoIncrementOnly(WithPk(s, k))
  {
    if s != [] {
      var init, last := s[..|s| - 1], s[|s| - 1];
      assert s == init + [last];
      WithPkAutoIncrementOnly(init, k);
      var a, w := AutoIncrementOnly(init), WithPk(init, k);
      AutoIncrementOnlySnoc(init, last);
      WithPkSnoc(init, last, k);
      if last.autoIncrement {
        WithPkSnoc(a, last, k);
      } else {
        assert a + [] == a;
      }
      if last.pkOrdinal == k {
        AutoIncrementOnlySnoc(w, last);
      } else {
        assert w + [] == w;
      }
    }
  }

  /** autoIncrementColumns are exactly the flagged columns, ascending by pkOrdinal, and the flagged
      columns sharing a pkOrdinal keep their key (name) order. */
  lemma AutoIncrementColumnsByPk(m: ColumnMap)
    ensures SortedByPk(FindAutoIncrementColumns(m))
    ensures forall c :: c in FindAutoIncrementColumns(m) <==> c in Values(m) && c.autoIncrement
    ensures forall k :: WithPk(FindAutoIncrementColumns(m), k) == AutoIncrementOnly(WithPk(Values(m), k))
  {
    AutoIncrementMembers(m);
    forall k ensures WithPk(FindAutoIncrementColumns(m), k) == AutoIncrementOnly(WithPk(Values(m), k)) {
      WithPkAutoIncrementOnly(Values(m), k);
    }
  }

  /** The membership half of AutoIncrementColumnsByPk. */
  lemma AutoIncrementMembers(m: ColumnMap)
    ensures forall c :: c in FindAutoIncrementColumns(m) <==> c in Values(m) && c.autoIncrement
  {
    var ai := FindAutoIncrementColumns(m);
    forall c ensures c in ai <==> c in Values(m) && c.autoIncrement {
      assert c in ai <==> c in multiset(ai);
      assert c in AutoIncrementOnly(Values(m)) <==> c in multiset(AutoIncrementOnly(Values(m)));
    }
  }

  /** Removing columns by name (as insertColumns and updateColumns are built) keeps key order,
      answers nothing for a removed name and what the full map answers for every other key. */
  lemma RemovedByName(m: ColumnMap, cols: seq<ColumnSchema>)
    requires Sorted(m)
    ensures Sorted(WithoutKeys(m, NameSet(cols)))
    ensures forall k :: Get(WithoutKeys(m, NameSet(cols)), k) == if k in NameSet(cols) then None else Get(m, k)
  {
    WithoutKeysSorted(m, NameSet(cols));
    forall k ensures Get(WithoutKeys(m, NameSet(cols)), k) == if k in NameSet(cols) then None else Get(m, k) {
      WithoutKeysGet(m, NameSet(cols), k);
    }
  }

  /** When every declared name is already lower-case (so it equals its key), removing columns of
      the map by name removes exactly those columns. */
  lemma RemoveByNameWhenLowerCase(m: ColumnMap, cols: seq<ColumnSchema>)
    requires WellKeyed(m)
    requires forall i :: 0 <= i < |m| ==> IsLower(m[i].value.name)
    requires forall c :: c in cols ==> c in Values(m)
    ensures forall e :: e in WithoutKeys(m, NameSet(cols)) <==> e in m && e.value !in cols
  {
    forall e | e in m ensures e.key in NameSet(cols) <==> e.value in cols {
      var i :| 0 <= i < |m| && m[i] == e;
      LowerOfLower(e.value.name);
      assert e.key == e.value.name;
      if e.key in NameSet(cols) {
        var c :| c in cols && c.name == e.key;
        var j :| 0 <= j < |Values(m)| && Values(m)[j] == c;
        LowerOfLower(m[j].value.name);
        assert m[j].key == c.name;
        if i != j {
          LessIrreflexive(e.key);
        }
      }
    }
  }

  /** The value of an entry of a map is among the map's values. */
  lemma ValueOfEntry(m: ColumnMap, e: Entry<ColumnSchema>)
    requires e in m
    ensures e.value in Values(m)
  {
    var i :| 0 <= i < |m| && m[i] == e;
    assert Values(m)[i] == e.value;
  }

  /** insertColumns is the column map minus the auto-increment columns, when names are lower-case. */
  lemma InsertColumnsWhenLowerCase(m: ColumnMap)
    requires WellKeyed(m)
    requires forall i :: 0 <= i < |m| ==> IsLower(m[i].value.name)
    ensures forall e :: e in WithoutKeys(m, NameSet(FindAutoIncrementColumns(m)))
                        <==> e in m && !e.value.autoIncrement
  {
    var removed := FindAutoIncrementColumns(m);
    AutoIncrementMembers(m);
    RemoveByNameWhenLowerCase(m, removed);
    var kept := WithoutKeys(m, NameSet(removed));
    forall e | e in m ensures e in kept <==> !e.value.autoIncrement {
      ValueOfEntry(m, e);
    }
  }

  /** updateColumns is the column map minus the id columns, when names are lower-case. */
  lemma UpdateColumnsWhenLowerCase(m: ColumnMap)
    requires WellKeyed(m)
    requires forall i :: 0 <= i < |m| ==> IsLower(m[i].value.name)
    ensures forall e :: e in WithoutKeys(m, NameSet(FindIdCols(m)))
                        <==> e in m && e.value.pkOrdinal < 0
  {
    var removed := FindIdCols(m);
    IdMembers(m);
    RemoveByNameWhenLowerCase(m, removed);
    var kept := WithoutKeys(m, NameSet(removed));
    forall e | e in m ensures e in kept <==> e.value.pkOrdinal < 0 {
      ValueOfEntry(m, e);
    }
  }

  /** A column declared "Id" is keyed "id"; removing by the declared name misses it, so an
      auto-increment column with a mixed-case name stays among the insert columns. */
  lemma MixedCaseAutoIncrementStaysInserted()
    ensures var col := ColumnSchema("Id", Method(0, Reference("int")), None, 0, false, true);
            var m := [Entry("id", col)];
            && WellKeyed(m)
            && FindAutoIncrementColumns(m) == [col]
            && WithoutKeys(m, NameSet(FindAutoIncrementColumns(m))) == m
  {
    var col := ColumnSchema("Id", Method(0, Reference("int")), None, 0, false, true);
    var m := [Entry("id", col)];
    assert Lower("Id") == "id";
    assert Values(m) == [col];
    assert AutoIncrementOnly([col]) == [col];
    assert NameSet([col]) == {"Id"};
  }

  /** In a well-keyed map whose version-flagged columns all carry the same name, at most one
      column is the version column. */
  lemma VersionColumnUnique(m: ColumnMap, vc: string)
    requires WellKeyed(m)
    requires forall i :: 0 <= i < |m| && m[i].value.isVersion ==> m[i].value.name == vc
    ensures forall i, j :: 0 <= i < |m| && 0 <= j < |m| && m[i].value.isVersion && m[j].value.isVersion ==> i == j
  {
    forall i, j | 0 <= i < |m| && 0 <= j < |m| && m[i].value.isVersion && m[j].value.isVersion
      ensures i == j
    {
      if i != j {
        LessIrreflexive(m[i].key);
      }
    }
  }
}
