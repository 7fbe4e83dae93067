/** The column partitions a TableSchema derives once from its column map: the auto-increment
    columns, the id (primary-key) columns, the insert and update column maps and the version column. */
module Partitions {
  import opened Wrappers
  import opened Jdbc
  import opened Strings
  import opened SortedMaps
  import opened Columns

  /** `SortedMap<String, ColumnSchema>`. */
  type ColumnMap = seq<Entry<ColumnSchema>>

  /** The column map as parseAnnotations builds it: a TreeMap keyed by the lower-cased column name. */
  predicate WellKeyed(m: ColumnMap)
  {
    Sorted(m) && forall i :: 0 <= i < |m| ==> m[i].key == Lower(m[i].value.name)
  }

  /** The columns with `pkOrdinal >= 0`, in their original order. */
  function KeyColumns(s: seq<ColumnSchema>): (r: seq<ColumnSchema>)
    ensures forall c :: c in r ==> c in s && c.pkOrdinal >= 0
    ensures forall c :: c in s && c.pkOrdinal >= 0 ==> c in r
  {
    if s == [] then []
    else KeyColumns(s[..|s| - 1]) + (if s[|s| - 1].pkOrdinal >= 0 then [s[|s| - 1]] else [])
  }

  /** The columns flagged `autoIncrement`, in their original order. */
  function AutoIncrementOnly(s: seq<ColumnSchema>): (r: seq<ColumnSchema>)
    ensures forall c :: c in r ==> c in s && c.autoIncrement
    ensures forall c :: c in s && c.autoIncrement ==> c in r
  {
    if s == [] then []
    else AutoIncrementOnly(s[..|s| - 1]) + (if s[|s| - 1].autoIncrement then [s[|s| - 1]] else [])
  }

  /** The columns whose pkOrdinal is `k`, in their original order: a sort is stable when it keeps
      this sequence unchanged for every `k`. */
  function WithPk(s: seq<ColumnSchema>, k: int32): seq<ColumnSchema>
  {
    if s == [] then []
    else WithPk(s[..|s| - 1], k) + (if s[|s| - 1].pkOrdinal == k then [s[|s| - 1]] else [])
  }

  /** Ascending pkOrdinal, the order of the comparator `a.getPkOrdinal() - b.getPkOrdinal()`. */
  predicate SortedByPk(s: seq<ColumnSchema>)
  {
    forall i, j :: 0 <= i < j < |s| ==> s[i].pkOrdinal <= s[j].pkOrdinal
  }

  /** Inserts `c` after every trailing element whose pkOrdinal is greater than its own. */
  function InsertByPk(s: seq<ColumnSchema>, c: ColumnSchema): (r: seq<ColumnSchema>)
    ensures multiset(r) == multiset(s) + multiset{c}
  {
    if s == [] || s[|s| - 1].pkOrdinal <= c.pkOrdinal then s + [c]
    else
      assert s == s[..|s| - 1] + [s[|s| - 1]];
      InsertByPk(s[..|s| - 1], c) + [s[|s| - 1]]
  }

  /** Inserting a column no greater than a bound into columns no greater than it keeps every
      column at or below the bound. */
  lemma {:induction false} InsertByPkBounded(s: seq<ColumnSchema>, c: ColumnSchema, b: int32)
    requires forall i :: 0 <= i < |s| ==> s[i].pkOrdinal <= b
    requires c.pkOrdinal <= b
    ensures forall i :: 0 <= i < |InsertByPk(s, c)| ==> InsertByPk(s, c)[i].pkOrdinal <= b
  {
    if s != [] && s[|s| - 1].pkOrdinal > c.pkOrdinal {
      var init := s[..|s| - 1];
      InsertByPkBounded(init, c, b);
      assert InsertByPk(s, c) == InsertByPk(init, c) + [s[|s| - 1]];
    }
  }

  lemma {:induction false} InsertByPkSorted(s: seq<ColumnSchema>, c: ColumnSchema)
    requires SortedByPk(s)
    ensures SortedByPk(InsertByPk(s, c))
  {
    if s != [] && s[|s| - 1].pkOrdinal > c.pkOrdinal {
      var init, last := s[..|s| - 1], s[|s| - 1];
      InsertByPkSorted(init, c);
      InsertByPkBounded(init, c, last.pkOrdinal);
      var r' := InsertByPk(init, c);
      var r := r' + [last];
      assert InsertByPk(s, c) == r;
      forall i, j | 0 <= i < j < |r| ensures r[i].pkOrdinal <= r[j].pkOrdinal {
        if j == |r| - 1 {
          assert r[i] == r'[i];
        } else {
          assert r[i] == r'[i] && r[j] == r'[j];
        }
      }
    }
  }

  /** Insertion keeps, for every pkOrdinal, the order of the columns that carry it: `c` lands
      after every element with its own pkOrdinal. */
  lemma WithPkSnoc(s: seq<ColumnSchema>, c: ColumnSchema, k: int32)
    ensures WithPk(s + [c], k) == WithPk(s, k) + (if c.pkOrdinal == k then [c] else [])
  {
    assert (s + [c])[..|s|] == s;
  }

  lemma {:induction false} InsertByPkStable(s: seq<ColumnSchema>, c: ColumnSchema, k: int32)
    ensures WithPk(InsertByPk(s, c), k) == WithPk(s + [c], k)
  {
    if s != [] && s[|s| - 1].pkOrdinal > c.pkOrdinal {
      var init, last := s[..|s| - 1], s[|s| - 1];
      InsertByPkStable(init, c, k);
      assert s == init + [last];
      assert InsertByPk(s, c) == InsertByPk(init, c) + [last];
      StableStep(init, InsertByPk(init, c), c, last, k);
    }
  }

  /** Moving `c` in front of a last element with a different pkOrdinal changes no WithPk view. */
  lemma StableStep(init: seq<ColumnSchema>, r: seq<ColumnSchema>, c: ColumnSchema, last: ColumnSchema, k: int32)
    requires c.pkOrdinal != last.pkOrdinal
    requires WithPk(r, k) == WithPk(init + [c], k)
    ensures WithPk(r + [last], k) == WithPk(init + [last] + [c], k)
  {
    var s := init + [last];
    WithPkSnoc(r, last, k);
    WithPkSnoc(init, c, k);
    WithPkSnoc(s, c, k);
    WithPkSnoc(init, last, k);
    var w := WithPk(init, k);
    var lhs, rhs := WithPk(r + [last], k), WithPk(s + [c], k);
    if c.pkOrdinal == k {
      assert WithPk(r, k) == w + [c];
      assert lhs == WithPk(r, k) + [];
      assert WithPk(s, k) == w + [];
      assert rhs == WithPk(s, k) + [c];
    } else if last.pkOrdinal == k {
      assert WithPk(r, k) == w + [];
      assert lhs == WithPk(r, k) + [last];
      assert WithPk(s, k) == w + [last];
      assert rhs == WithPk(s, k) + [];
    } else {
      assert WithPk(r, k) == w + [];
      assert lhs == WithPk(r, k) + [];
      assert WithPk(s, k) == w + [];
      assert rhs == WithPk(s, k) + [];
    }
  }

  /** `List.sort` with the pkOrdinal comparator: a stable insertion sort. */
  function SortByPk(s: seq<ColumnSchema>): (r: seq<ColumnSchema>)
    ensures SortedByPk(r)
    ensures multiset(r) == multiset(s)
    ensures forall k :: WithPk(r, k) == WithPk(s, k)
  {
    if s == [] then []
    else
      var init, last := s[..|s| - 1], s[|s| - 1];
      assert s == init + [last];
      var sorted := SortByPk(init);
      InsertByPkSorted(sorted, last);
      assert forall k :: WithPk(InsertByPk(sorted, last), k) == WithPk(s, k) by {
        forall k ensures WithPk(InsertByPk(sorted, last), k) == WithPk(s, k) {
          InsertByPkStable(sorted, last, k);
          WithPkSnoc(sorted, last, k);
          WithPkSnoc(init, last, k);
        }
      }
      InsertByPk(sorted, last)
  }

  /** `findAutoIncrementColumns`: the flagged columns of the map, sorted by pkOrdinal. */
  function FindAutoIncrementColumns(m: ColumnMap): seq<ColumnSchema>
  {
    SortByPk(AutoIncrementOnly(Values(m)))
  }

  /** `findIdCols`: the columns with `pkOrdinal >= 0`, sorted by pkOrdinal. */
  function FindIdCols(m: ColumnMap): seq<ColumnSchema>
  {
    SortByPk(KeyColumns(Values(m)))
  }

  /** `findPk`: the same list as `findIdCols`, collected with an explicit loop. */
  method FindPk(columns: ColumnMap) returns (pk: seq<ColumnSchema>)
    ensures pk == FindIdCols(columns)
  {
    var vals := Values(columns);
    pk := [];
    for i := 0 to |vals|
      invariant pk == KeyColumns(vals[..i])
    {
      assert vals[..i + 1][..i] == vals[..i];
      if vals[i].pkOrdinal >= 0 {
        pk := pk + [vals[i]];
      }
    }
    assert vals[..|vals|] == vals;
    pk := SortByPk(pk);
  }

  /** `r` is the first version column in key order, or None when no column is a version column. */
  predicate IsFirstVersion(m: ColumnMap, r: Option<ColumnSchema>)
  {
    match r
    case None => forall i :: 0 <= i < |m| ==> !m[i].value.isVersion
    case Some(c) =>
      exists i :: 0 <= i < |m| && m[i].value == c && c.isVersion
                  && forall j :: 0 <= j < i ==> !m[j].value.isVersion
  }

  /** `findVersionCol`: the first column in key order whose isVersion flag is set, or null. */
  method FindVersionCol(columns: ColumnMap) returns (r: Option<ColumnSchema>)
    ensures IsFirstVersion(columns, r)
  {
    for i := 0 to |columns|
      invariant forall j :: 0 <= j < i ==> !columns[j].value.isVersion
    {
      if columns[i].value.isVersion {
        return Some(columns[i].value);
      }
    }
    return None;
  }

  /** The declared names of some columns. */
  function NameSet(cols: seq<ColumnSchema>): set<string>
  {
    set c | c in cols :: c.name
  }

  /** `findInsertCols` / `findUpdateCols`: a copy of the column map with, for every given column,
      the entry keyed by that column's declared name removed. */
  method RemoveByName(columns: ColumnMap, cols: seq<ColumnSchema>) returns (r: ColumnMap)
    ensures r == WithoutKeys(columns, NameSet(cols))
  {
    WithoutNoKeys(columns);
    assert NameSet(cols[..0]) == {};
    r := columns;
    for i := 0 to |cols|
      invariant r == WithoutKeys(columns, NameSet(cols[..i]))
    {
      assert NameSet(cols[..i + 1]) == NameSet(cols[..i]) + {cols[i].name} by {
        assert cols[..i + 1] == cols[..i] + [cols[i]];
      }
      WithoutKeysAdd(columns, NameSet(cols[..i]), cols[i].name);
      r := WithoutKeys(r, {cols[i].name});
    }
    assert cols[..|cols|] == cols;
  }
}
