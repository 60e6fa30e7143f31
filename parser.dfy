/**
 * The earlier revision of the record-to-CQL translation (type Parser). Key
 * columns leave the payload because they are deleted from the caller's
 * after-image map in place; no statement carries an existence guard, and a
 * delete still asserts that the after-image is structured data.
 */
module Parser {
  import opened GoStrings
  import opened GoMaps
  import opened Cql

  const SetStatementSeparator := ","
  const WhereStatementSeparator := "AND"

  /** A record's structured data: a Go map the builders share with their caller. */
  class StructuredData<V> {
    var entries: Entries<V>

    ghost predicate Valid()
      reads this
    {
      DistinctNames(entries)
    }

    constructor (init: Entries<V>)
      requires DistinctNames(init)
      ensures Valid() && entries == init
    {
      entries := init;
    }

    /** `delete(m, name)`: the entry of that name goes, every other entry stays in place. */
    method Delete(name: string)
      requires Valid()
      modifies this
      ensures Valid()
      ensures entries == Exclude(old(entries), [name])
      ensures |entries| == if Has(old(entries), name) then |old(entries)| - 1 else |old(entries)|
    {
      ExcludeDistinct(entries, [name]);
      ExcludeOneSize(entries, name);
      entries := Exclude(entries, [name]);
    }
  }

  /** A record's key or after-image: structured data, raw bytes, or nil. */
  datatype Data<V> = Structured(fields: StructuredData<V>) | Raw(bytes: seq<bv8>) | Nil

  /** The parts of a record the builders read. */
  datatype Record<V> = Record(key: Data<V>, after: Data<V>)

  /** The objects a builder may change: the after-image's map, when it is one. */
  function Footprint<V>(d: Data<V>): set<object>
  {
    if d.Structured? then {d.fields} else {}
  }

  /** insertQuery filled in by fmt.Sprintf: it ends in the ")" closing the value list. */
  function InsertTemplate(table: string, columnList: string, valueList: string): (r: string)
    ensures HasSuffix(r, ")")
  {
    var front := "INSERT INTO " + table + " (" + columnList + ") VALUES (" + valueList;
    SuffixAppended(front, ")");
    front + ")"
  }

  /** updateQuery filled in by fmt.Sprintf: it ends in the WHERE clause. */
  function UpdateTemplate(table: string, setStatement: string, whereStatement: string): (r: string)
    ensures HasSuffix(r, " WHERE " + whereStatement)
  {
    var front := "UPDATE " + table + " SET " + setStatement;
    SuffixAppended(front, " WHERE " + whereStatement);
    front + " WHERE " + whereStatement
  }

  /** deleteQuery filled in by fmt.Sprintf: it ends in the WHERE clause. */
  function DeleteTemplate(table: string, whereStatement: string): (r: string)
    ensures HasSuffix(r, " WHERE " + whereStatement)
  {
    SuffixAppended("DELETE FROM " + table, " WHERE " + whereStatement);
    "DELETE FROM " + table + " WHERE " + whereStatement
  }

  /** The value list of an insert: `length` placeholders separated by ", ". */
  function GetPlaceholders(length: nat): (r: string)
    ensures r == Placeholders(length)
  {
    RepeatThenTrim(length);
    TrimSuffix(Repeat("?, ", length), ", ")
  }

  /** The text one loop step appends for column `c`. */
  function Step(c: string, sep: string): string
  {
    c + " = ? " + sep + " "
  }

  /** What the loop has built after the first columns: each as `col = ? SEP `. */
  ghost function Terminated(cols: seq<string>, sep: string): string
  {
    if cols == [] then "" else Terminated(cols[..|cols| - 1], sep) + Step(cols[|cols| - 1], sep)
  }

  /** One loop step's text is the column's pair followed by the glue the trim removes. */
  lemma StepText(c: string, sep: string)
    ensures Step(c, sep) == (c + " = ?") + (" " + sep + " ")
  {
    assert " = ? " == " = ?" + " ";
  }

  lemma Regroup(a: string, glue: string, pair: string)
    ensures a + glue + (pair + glue) == (a + glue + pair) + glue
  {
  }

  lemma {:induction false} TerminatedAssignments(cols: seq<string>, sep: string)
    requires cols != []
    ensures Terminated(cols, sep) == Assignments(cols, sep) + (" " + sep + " ")
  {
    var n := |cols|;
    var init, last := cols[..n - 1], cols[n - 1];
    var glue := " " + sep + " ";
    StepText(last, sep);
    if n == 1 {
      assert Assignments(cols, sep) == last + " = ?";
      assert Terminated(cols, sep) == "" + Step(last, sep);
    } else {
      TerminatedAssignments(init, sep);
      assert cols == init + [last];
      AssignmentsSnoc(init, last, sep);
      Regroup(Assignments(init, sep), glue, last + " = ?");
    }
  }

  /**
   * A SET or WHERE clause, built by appending `col = ? SEP ` per column and
   * trimming the last ` SEP `: the columns joined with their placeholders.
   */
  method PairValuesWithPlaceholder(cols: seq<string>, separator: string) returns (result: string)
    ensures result == Assignments(cols, separator)
  {
    result := "";
    for i := 0 to |cols|
      invariant result == Terminated(cols[..i], separator)
    {
      result := result + cols[i] + " = ? " + separator + " ";
      assert cols[..i + 1][..i] == cols[..i];
      assert result == Terminated(cols[..i], separator) + Step(cols[i], separator);
    }
    assert cols[..|cols|] == cols;
    if cols != [] {
      TerminatedAssignments(cols, separator);
      TrimAppended(Assignments(cols, separator), " " + separator + " ");
    }
    result := TrimSuffix(result, " " + separator + " ");
  }

  /**
   * Collects the key columns and values and deletes each key name from the
   * caller's payload map; the payload columns and values then enumerate what
   * is left of it. The key map is ranged over as it was on entry.
   */
  method GetColumnsAndValues<V>(key: StructuredData<V>, payload: StructuredData<V>)
    returns (keyColumns: seq<string>, keyValues: seq<V>, columns: seq<string>, values: seq<V>)
    requires payload.Valid()
    modifies payload
    ensures payload.Valid()
    ensures payload.entries == ValueEntries(old(key.entries), old(payload.entries))
    ensures forall i :: 0 <= i < |payload.entries| ==> !Has(old(key.entries), payload.entries[i].0)
    ensures forall j :: 0 <= j < |old(payload.entries)| && !Has(old(key.entries), old(payload.entries)[j].0) ==>
      old(payload.entries)[j] in payload.entries
    ensures keyColumns == Names(old(key.entries)) && keyValues == Values(old(key.entries))
    ensures columns == Names(payload.entries) && values == Values(payload.entries)
  {
    var keyEntries := key.entries;
    keyColumns, keyValues := [], [];
    ExcludeNone(payload.entries, []);
    for i := 0 to |keyEntries|
      invariant payload.Valid()
      invariant keyColumns == Names(keyEntries[..i]) && keyValues == Values(keyEntries[..i])
      invariant payload.entries == Exclude(old(payload.entries), Names(keyEntries[..i]))
    {
      var k, v := keyEntries[i].0, keyEntries[i].1;
      keyColumns := keyColumns + [k];
      keyValues := keyValues + [v];
      DeleteStep(old(payload.entries), keyEntries, i);
      payload.Delete(k);
    }
    assert keyEntries[..|keyEntries|] == keyEntries;
    columns, values := RangeEntries(payload.entries);
  }

  /** Deleting the next key name from what is left excludes one more key name. */
  lemma DeleteStep<V>(m: Entries<V>, keys: Entries<V>, i: nat)
    requires i < |keys|
    ensures Exclude(Exclude(m, Names(keys[..i])), [keys[i].0]) == Exclude(m, Names(keys[..i + 1]))
    ensures Names(keys[..i + 1]) == Names(keys[..i]) + [keys[i].0]
    ensures Values(keys[..i + 1]) == Values(keys[..i]) + [keys[i].1]
  {
    PrefixStep(keys, i);
    ExcludeTwice(m, Names(keys[..i]), [keys[i].0]);
  }

  /** `for k, v := range m`, appending each name and each value. */
  method RangeEntries<V>(m: Entries<V>) returns (names: seq<string>, values: seq<V>)
    ensures names == Names(m) && values == Values(m)
  {
    names, values := [], [];
    for j := 0 to |m|
      invariant names == Names(m[..j]) && values == Values(m[..j])
    {
      names := names + [m[j].0];
      values := values + [m[j].1];
      PrefixStep(m, j);
    }
    assert m[..|m|] == m;
  }

  /** What an insert sends: the written rows' names and placeholders, then their values. */
  function InsertStatement<V>(table: string, key: Entries<V>, after: Entries<V>): Statement<V>
  {
    var rows := WrittenRows(key, after);
    Statement(InsertTemplate(table, Join(Names(rows), ", "), Placeholders(|rows|)), Values(rows))
  }

  /** What an update sends: SET over the value columns, WHERE over the key columns. */
  function UpdateStatement<V>(table: string, key: Entries<V>, after: Entries<V>): Statement<V>
  {
    var rest := ValueEntries(key, after);
    Statement(
      UpdateTemplate(table,
        Assignments(Names(rest), SetStatementSeparator),
        Assignments(Names(key), WhereStatementSeparator)),
      Values(rest) + Values(key))
  }

  /** What a delete sends: WHERE over the key columns and the key values. */
  function DeleteStatement<V>(table: string, key: Entries<V>): Statement<V>
  {
    Statement(DeleteTemplate(table, Assignments(Names(key), WhereStatementSeparator)), Values(key))
  }

  /**
   * BuildInsertQuery panics when the key or the after-image is not structured
   * data, changing nothing; otherwise it strips the key names from the
   * after-image map and returns the insert of the written rows.
   */
  method BuildInsertQuery<V>(rec: Record<V>, table: string) returns (r: Outcome<Statement<V>>)
    requires rec.after.Structured? ==> rec.after.fields.Valid()
    modifies Footprint(rec.after)
    ensures !rec.key.Structured? ==> r == Panicked(KeyNotStructured) && unchanged(Footprint(rec.after))
    ensures rec.key.Structured? && !rec.after.Structured? ==> r == Panicked(AfterNotStructured)
    ensures rec.key.Structured? && rec.after.Structured? ==>
      && r == Built(InsertStatement(table, old(rec.key.fields.entries), old(rec.after.fields.entries)))
      && rec.after.fields.entries == ValueEntries(old(rec.key.fields.entries), old(rec.after.fields.entries))
      && rec.after.fields.Valid()
  {
    if !rec.key.Structured? {
      return Panicked(KeyNotStructured);
    }
    if !rec.after.Structured? {
      return Panicked(AfterNotStructured);
    }
    var keyCols, keyVals, cols, vals := GetColumnsAndValues(rec.key.fields, rec.after.fields);
    cols := cols + keyCols;
    vals := vals + keyVals;
    NamesAppend(rec.after.fields.entries, old(rec.key.fields.entries));
    var query := InsertTemplate(table, Join(cols, ", "), GetPlaceholders(|cols|));
    r := Built(Statement(query, vals));
  }

  /**
   * BuildUpdateQuery panics when the key or the after-image is not structured
   * data, changing nothing; otherwise it strips the key names from the
   * after-image map and returns the update of the value columns by the key columns.
   */
  method BuildUpdateQuery<V>(rec: Record<V>, table: string) returns (r: Outcome<Statement<V>>)
    requires rec.after.Structured? ==> rec.after.fields.Valid()
    modifies Footprint(rec.after)
    ensures !rec.key.Structured? ==> r == Panicked(KeyNotStructured) && unchanged(Footprint(rec.after))
    ensures rec.key.Structured? && !rec.after.Structured? ==> r == Panicked(AfterNotStructured)
    ensures rec.key.Structured? && rec.after.Structured? ==>
      && r == Built(UpdateStatement(table, old(rec.key.fields.entries), old(rec.after.fields.entries)))
      && rec.after.fields.entries == ValueEntries(old(rec.key.fields.entries), old(rec.after.fields.entries))
      && rec.after.fields.Valid()
  {
    if !rec.key.Structured? {
      return Panicked(KeyNotStructured);
    }
    if !rec.after.Structured? {
      return Panicked(AfterNotStructured);
    }
    var keyCols, keyVals, cols, vals := GetColumnsAndValues(rec.key.fields, rec.after.fields);
    var setStatement := PairValuesWithPlaceholder(cols, SetStatementSeparator);
    var whereStatement := PairValuesWithPlaceholder(keyCols, WhereStatementSeparator);
    vals := vals + keyVals;
    var query := UpdateTemplate(table, setStatement, whereStatement);
    r := Built(Statement(query, vals));
  }

  /**
   * BuildDeleteQuery, too, panics unless both the key and the after-image are
   * structured data; otherwise it strips the key names from the after-image
   * map and returns the delete by the key columns.
   */
  method BuildDeleteQuery<V>(rec: Record<V>, table: string) returns (r: Outcome<Statement<V>>)
    requires rec.after.Structured? ==> rec.after.fields.Valid()
    modifies Footprint(rec.after)
    ensures !rec.key.Structured? ==> r == Panicked(KeyNotStructured) && unchanged(Footprint(rec.after))
    ensures rec.key.Structured? && !rec.after.Structured? ==> r == Panicked(AfterNotStructured)
    ensures rec.key.Structured? && rec.after.Structured? ==>
      && r == Built(DeleteStatement(table, old(rec.key.fields.entries)))
      && rec.after.fields.entries == ValueEntries(old(rec.key.fields.entries), old(rec.after.fields.entries))
      && rec.after.fields.Valid()
  {
    if !rec.key.Structured? {
      return Panicked(KeyNotStructured);
    }
    if !rec.after.Structured? {
      return Panicked(AfterNotStructured);
    }
    var keyCols, keyVals, _, _ := GetColumnsAndValues(rec.key.fields, rec.after.fields);
    var whereStatement := PairValuesWithPlaceholder(keyCols, WhereStatementSeparator);
    var query := DeleteTemplate(table, whereStatement);
    r := Built(Statement(query, keyVals));
  }

  /**
   * Building again from a record whose after-image an earlier build already
   * stripped sends the same insert and the same update.
   */
  lemma RebuildSame<V>(table: string, key: Entries<V>, after: Entries<V>)
    ensures InsertStatement(table, key, ValueEntries(key, after)) == InsertStatement(table, key, after)
    ensures UpdateStatement(table, key, ValueEntries(key, after)) == UpdateStatement(table, key, after)
  {
    ValueEntriesIdempotent(key, after);
  }
}
