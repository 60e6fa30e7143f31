/**
 * The current revision of the record-to-CQL translation (type QueryBuilder).
 * Key columns are left out of the payload by exact lookup in the key map, the
 * caller's maps are only read, inserts carry `IF NOT EXISTS`, updates carry
 * `IF EXISTS`, and a delete never looks at the after-image.
 */
module QueryBuilder {
  import opened GoStrings
  import opened GoMaps
  import opened Cql

  const SetStatementSeparator := ","
  const WhereStatementSeparator := "AND"

  /** A record's key or after-image: structured data (a map), raw bytes, or nil. */
  datatype Data<V> = Structured(entries: Entries<V>) | Raw(bytes: seq<bv8>) | Nil

  /** The parts of an OpenCDC record the builders read. */
  datatype Record<V> = Record(key: Data<V>, after: Data<V>)

  /** insertQuery filled in by fmt.Sprintf: it ends in its existence guard. */
  function InsertTemplate(table: string, columnList: string, valueList: string): (r: string)
    ensures HasSuffix(r, " IF NOT EXISTS")
  {
    var front := "INSERT INTO " + table + " (" + columnList + ") VALUES (" + valueList + ")";
    SuffixAppended(front, " IF NOT EXISTS");
    front + " IF NOT EXISTS"
  }

  /** updateQuery filled in by fmt.Sprintf: it ends in its existence guard. */
  function UpdateTemplate(table: string, setStatement: string, whereStatement: string): (r: string)
    ensures HasSuffix(r, " IF EXISTS")
  {
    var front := "UPDATE " + table + " SET " + setStatement + " WHERE " + whereStatement;
    SuffixAppended(front, " IF EXISTS");
    front + " IF EXISTS"
  }

  /** deleteQuery filled in by fmt.Sprintf: it ends in the WHERE clause. */
  function DeleteTemplate(table: string, whereStatement: string): (r: string)
    ensures HasSuffix(r, " WHERE " + whereStatement)
  {
    SuffixAppended("DELETE FROM " + table, " WHERE " + whereStatement);
    "DELETE FROM " + table + " WHERE " + whereStatement
  }

  /** The value list of an insert: `length` placeholders separated by ", ". */
  function GetPlaceholders(length: nat): (r: string)
    ensures r == Placeholders(length)
  {
    RepeatThenTrim(length);
    TrimSuffix(Repeat("?, ", length), ", ")
  }

  /** The test vectors of getPlaceholders. */
  lemma PlaceholderExamples()
    ensures GetPlaceholders(0) == ""
    ensures GetPlaceholders(1) == "?"
    ensures GetPlaceholders(3) == "?, ?, ?"
  {
    assert seq(3, _ => "?")[..2] == seq(2, _ => "?");
    assert seq(2, _ => "?")[..1] == seq(1, _ => "?");
  }

  /**
   * A SET or WHERE clause: every column followed by " = ?", joined by the
   * separator with a space on each side; empty for no columns.
   */
  function PairValuesWithPlaceholder(cols: seq<string>, separator: string): (r: string)
    ensures r == Assignments(cols, separator)
  {
    if |cols| == 0 then ""
    else
      JoinedAssignments(cols, separator);
      Join(cols, " = ? " + separator + " ") + " = ?"
  }

  lemma {:induction false} JoinedAssignments(cols: seq<string>, sep: string)
    requires cols != []
    ensures Join(cols, " = ? " + sep + " ") + " = ?" == Assignments(cols, sep)
  {
    var n := |cols|;
    if n == 1 {
      assert Assignments(cols, sep) == Pairs(cols)[0];
    } else {
      var init := cols[..n - 1];
      JoinedAssignments(init, sep);
      assert cols == init + [cols[n - 1]];
      AssignmentsSnoc(init, cols[n - 1], sep);
      var glue := " = ? " + sep + " ";
      assert glue == " = ?" + (" " + sep + " ");
      calc {
        Join(cols, glue) + " = ?";
        Join(init, glue) + glue + cols[n - 1] + " = ?";
        Join(init, glue) + " = ?" + " " + sep + " " + cols[n - 1] + " = ?";
        Assignments(init, sep) + " " + sep + " " + cols[n - 1] + " = ?";
      }
    }
  }

  /** The test vectors of pairValuesWithPlaceholder, with the WHERE separator and none. */
  lemma PairValuesWhereExample()
    ensures PairValuesWithPlaceholder(["one", "two", "three"], WhereStatementSeparator) == "one = ? AND two = ? AND three = ?"
    ensures PairValuesWithPlaceholder([], WhereStatementSeparator) == ""
  {
    PairValuesOfThree(WhereStatementSeparator);
    assert "one" + " = ? " + WhereStatementSeparator + " " + "two" + " = ? " + WhereStatementSeparator + " " + "three" + " = ?"
      == "one = ? AND two = ? AND three = ?";
  }

  /** The test vector of pairValuesWithPlaceholder with the SET separator. */
  lemma PairValuesSetExample()
    ensures PairValuesWithPlaceholder(["one", "two", "three"], SetStatementSeparator) == "one = ? , two = ? , three = ?"
  {
    PairValuesOfThree(SetStatementSeparator);
    assert "one" + " = ? " + SetStatementSeparator + " " + "two" + " = ? " + SetStatementSeparator + " " + "three" + " = ?"
      == "one = ? , two = ? , three = ?";
  }

  lemma PairValuesOfThree(sep: string)
    ensures PairValuesWithPlaceholder(["one", "two", "three"], sep) ==
      "one" + " = ? " + sep + " " + "two" + " = ? " + sep + " " + "three" + " = ?"
  {
    var glue := " = ? " + sep + " ";
    JoinThree("one", "two", "three", glue);
  }

  lemma JoinThree(a: string, b: string, c: string, sep: string)
    ensures Join([a, b, c], sep) == a + sep + b + sep + c
  {
    assert [a, b, c][..2] == [a, b] && [a, b][..1] == [a];
    assert Join([a, b], sep) == a + sep + b;
  }

  /**
   * Splits a record into its key columns and values, which enumerate the key
   * map, and its payload columns and values, which enumerate the payload
   * entries whose name is not a key of the key map. Neither map is changed.
   */
  method GetColumnsAndValues<V>(key: Entries<V>, payload: Entries<V>)
    returns (keyColumns: seq<string>, keyValues: seq<V>, columns: seq<string>, values: seq<V>)
    ensures keyColumns == Names(key) && keyValues == Values(key)
    ensures columns == Names(ValueEntries(key, payload))
    ensures values == Values(ValueEntries(key, payload))
  {
    keyColumns, keyValues, columns, values := [], [], [], [];
    for i := 0 to |key|
      invariant keyColumns == Names(key[..i]) && keyValues == Values(key[..i])
    {
      var k, v := key[i].0, key[i].1;
      keyColumns := keyColumns + [k];
      keyValues := keyValues + [v];
      PrefixStep(key, i);
    }
    assert key[..|key|] == key;
    for j := 0 to |payload|
      invariant columns == Names(Exclude(payload[..j], Names(key)))
      invariant values == Values(Exclude(payload[..j], Names(key)))
    {
      var k, v := payload[j].0, payload[j].1;
      ExcludeStep(payload, Names(key), j);
      if Has(key, k) {
        continue;
      }
      columns := columns + [k];
      values := values + [v];
    }
    assert payload[..|payload|] == payload;
  }

  /** The payload columns never repeat a key column and never lose a non-key one. */
  lemma PayloadColumnsDisjoint<V>(key: Entries<V>, payload: Entries<V>)
    ensures forall c :: c in Names(ValueEntries(key, payload)) ==> c !in Names(key)
    ensures forall j :: 0 <= j < |payload| && payload[j].0 !in Names(key) ==>
      payload[j].0 in Names(ValueEntries(key, payload))
  {
    forall c | c in Names(ValueEntries(key, payload))
      ensures c !in Names(key)
    {
      ValueColumnsExact(key, payload, c);
    }
    forall j | 0 <= j < |payload| && payload[j].0 !in Names(key)
      ensures payload[j].0 in Names(ValueEntries(key, payload))
    {
      assert Names(payload)[j] == payload[j].0;
      ValueColumnsExact(key, payload, payload[j].0);
    }
  }

  /** A column named `id2value` is kept when the key map has `id` and `id2`. */
  lemma SubstringSafety<V>(x: V, y: V, z: V)
    ensures "id2value" in Names(ValueEntries([("id", x), ("id2", y)], [("id2value", z)]))
  {
    var key := [("id", x), ("id2", y)];
    assert Names(key) == ["id", "id2"];
    ValueColumnsExact(key, [("id2value", z)], "id2value");
    assert Names([("id2value", z)])[0] == "id2value";
  }

  /** What an insert sends: the written rows' names and placeholders, then their values. */
  function InsertStatement<V>(table: string, key: Entries<V>, after: Entries<V>): Statement<V>
  {
    var rows := WrittenRows(key, after);
    Statement(InsertTemplate(table, Join(Names(rows), ", "), Placeholders(|rows|)), Values(rows))
  }

  /** What an update sends: SET over the value columns, WHERE over the key columns. */
  function UpdateStatement<V>(table: string, key: Entries<V>, after: Entries<V>): Statement<V>
  {
    var rest := ValueEntries(key, after);
    Statement(
      UpdateTemplate(table,
        Assignments(Names(rest), SetStatementSeparator),
        Assignments(Names(key), WhereStatementSeparator)),
      Values(rest) + Values(key))
  }

  /** What a delete sends: WHERE over the key columns and the key values. */
  function DeleteStatement<V>(table: string, key: Entries<V>): Statement<V>
  {
    Statement(DeleteTemplate(table, Assignments(Names(key), WhereStatementSeparator)), Values(key))
  }

  /**
   * BuildInsertQuery panics when the key or the after-image is not structured
   * data; otherwise it returns the insert of the written rows.
   */
  method BuildInsertQuery<V>(rec: Record<V>, table: string) returns (r: Outcome<Statement<V>>)
    ensures !rec.key.Structured? ==> r == Panicked(KeyNotStructured)
    ensures rec.key.Structured? && !rec.after.Structured? ==> r == Panicked(AfterNotStructured)
    ensures rec.key.Structured? && rec.after.Structured? ==>
      r == Built(InsertStatement(table, rec.key.entries, rec.after.entries))
  {
    if !rec.key.Structured? {
      return Panicked(KeyNotStructured);
    }
    if !rec.after.Structured? {
      return Panicked(AfterNotStructured);
    }
    var keyCols, keyVals, cols, vals := GetColumnsAndValues(rec.key.entries, rec.after.entries);
    cols := cols + keyCols;
    vals := vals + keyVals;
    NamesAppend(ValueEntries(rec.key.entries, rec.after.entries), rec.key.entries);
    var query := InsertTemplate(table, Join(cols, ", "), GetPlaceholders(|cols|));
    r := Built(Statement(query, vals));
  }

  /**
   * BuildUpdateQuery panics when the key or the after-image is not structured
   * data; otherwise it returns the update of the value columns by the key columns.
   */
  method BuildUpdateQuery<V>(rec: Record<V>, table: string) returns (r: Outcome<Statement<V>>)
    ensures !rec.key.Structured? ==> r == Panicked(KeyNotStructured)
    ensures rec.key.Structured? && !rec.after.Structured? ==> r == Panicked(AfterNotStructured)
    ensures rec.key.Structured? && rec.after.Structured? ==>
      r == Built(UpdateStatement(table, rec.key.entries, rec.after.entries))
  {
    if !rec.key.Structured? {
      return Panicked(KeyNotStructured);
    }
    if !rec.after.Structured? {
      return Panicked(AfterNotStructured);
    }
    var keyCols, keyVals, cols, vals := GetColumnsAndValues(rec.key.entries, rec.after.entries);
    var setStatement := PairValuesWithPlaceholder(cols, SetStatementSeparator);
    var whereStatement := PairValuesWithPlaceholder(keyCols, WhereStatementSeparator);
    vals := vals + keyVals;
    var query := UpdateTemplate(table, setStatement, whereStatement);
    r := Built(Statement(query, vals));
  }

  /**
   * BuildDeleteQuery panics only when the key is not structured data; the
   * after-image does not enter its result at all.
   */
  method BuildDeleteQuery<V>(rec: Record<V>, table: string) returns (r: Outcome<Statement<V>>)
    ensures !rec.key.Structured? ==> r == Panicked(KeyNotStructured)
    ensures rec.key.Structured? ==> r == Built(DeleteStatement(table, rec.key.entries))
  {
    if !rec.key.Structured? {
      return Panicked(KeyNotStructured);
    }
    var keyCols, keyVals, _, _ := GetColumnsAndValues(rec.key.entries, []);
    var whereStatement := PairValuesWithPlaceholder(keyCols, WhereStatementSeparator);
    var query := DeleteTemplate(table, whereStatement);
    r := Built(Statement(query, keyVals));
  }

  /**
   * An insert binds every written row in order, holds one placeholder per
   * parameter and ends in its existence guard.
   */
  lemma InsertAligned<V>(table: string, key: Entries<V>, after: Entries<V>)
    requires Plain(table) && AllPlain(Names(key)) && AllPlain(Names(after))
    ensures QuestionMarks(InsertStatement(table, key, after).template) == |InsertStatement(table, key, after).params|
    ensures HasSuffix(InsertStatement(table, key, after).template, " IF NOT EXISTS")
    ensures InsertStatement(table, key, after).params == Values(ValueEntries(key, after)) + Values(key)
  {
    var rows := WrittenRows(key, after);
    NamesAppend(ValueEntries(key, after), key);
    WrittenNamesPlain(key, after);
    InsertTemplateCount(table, Names(rows));
  }

  lemma WrittenNamesPlain<V>(key: Entries<V>, after: Entries<V>)
    requires AllPlain(Names(key)) && AllPlain(Names(after))
    ensures AllPlain(Names(WrittenRows(key, after)))
  {
    var rest := ValueEntries(key, after);
    var cols := Names(WrittenRows(key, after));
    forall i | 0 <= i < |cols|
      ensures Plain(cols[i])
    {
      if i < |rest| {
        var j :| 0 <= j < |after| && after[j] == rest[i];
        assert Names(after)[j] == cols[i];
      } else {
        assert Names(key)[i - |rest|] == cols[i];
      }
    }
  }

  lemma InsertTemplateCount(table: string, cols: seq<string>)
    requires Plain(table) && AllPlain(cols)
    ensures QuestionMarks(InsertTemplate(table, Join(cols, ", "), Placeholders(|cols|))) == |cols|
  {
    var list, marks := Join(cols, ", "), Placeholders(|cols|);
    assert QuestionMarks(list) == 0 by {
      JoinPlain(cols, ", ");
    }
    assert QuestionMarks(marks) == |cols| by {
      PlaceholdersCount(|cols|);
    }
    SurroundedCount(table, list, marks);
  }

  lemma SurroundedCount(table: string, list: string, marks: string)
    requires Plain(table) && QuestionMarks(list) == 0
    ensures QuestionMarks(InsertTemplate(table, list, marks)) == QuestionMarks(marks)
  {
    var head, middle, tail := "INSERT INTO " + table + " (", ") VALUES (", ") IF NOT EXISTS";
    assert InsertTemplate(table, list, marks) == head + list + middle + marks + tail;
    CountAbsent(head, '?');
    CountAbsent(middle, '?');
    CountAbsent(tail, '?');
    CountConcat(head, list, '?');
    CountConcat(head + list, middle, '?');
    CountConcat(head + list + middle, marks, '?');
    CountConcat(head + list + middle + marks, tail, '?');
  }

  /**
   * An update holds one placeholder per parameter, binds the same rows in the
   * same order as an insert of the record (SET pairs first, then WHERE pairs),
   * and ends in its existence guard.
   */
  lemma UpdateAligned<V>(table: string, key: Entries<V>, after: Entries<V>)
    requires Plain(table) && AllPlain(Names(key)) && AllPlain(Names(after))
    ensures QuestionMarks(UpdateStatement(table, key, after).template) == |UpdateStatement(table, key, after).params|
    ensures HasSuffix(UpdateStatement(table, key, after).template, " IF EXISTS")
    ensures UpdateStatement(table, key, after).params == Values(WrittenRows(key, after))
  {
    var rest := ValueEntries(key, after);
    var setClause, whereClause := Assignments(Names(rest), SetStatementSeparator), Assignments(Names(key), WhereStatementSeparator);
    assert UpdateStatement(table, key, after) == Statement(UpdateTemplate(table, setClause, whereClause), Values(rest) + Values(key));
    assert Values(rest) + Values(key) == Values(WrittenRows(key, after)) by {
      NamesAppend(rest, key);
    }
    assert QuestionMarks(setClause) == |Values(rest)| by {
      ValueNamesPlain(key, after);
      AssignmentsCount(Names(rest), SetStatementSeparator);
    }
    assert QuestionMarks(whereClause) == |Values(key)| by {
      AssignmentsCount(Names(key), WhereStatementSeparator);
    }
    UpdateTemplateCount(table, setClause, whereClause);
  }

  /** The payload columns are after-image names, so they hold no `?` when those do not. */
  lemma ValueNamesPlain<V>(key: Entries<V>, after: Entries<V>)
    requires AllPlain(Names(after))
    ensures AllPlain(Names(ValueEntries(key, after)))
  {
    var rest := ValueEntries(key, after);
    forall i | 0 <= i < |rest|
      ensures Plain(Names(rest)[i])
    {
      var j :| 0 <= j < |after| && after[j] == rest[i];
      assert Names(after)[j] == rest[i].0;
    }
  }

  lemma UpdateTemplateCount(table: string, setClause: string, whereClause: string)
    requires Plain(table)
    ensures QuestionMarks(UpdateTemplate(table, setClause, whereClause)) == QuestionMarks(setClause) + QuestionMarks(whereClause)
  {
    var head, middle, tail := "UPDATE " + table + " SET ", " WHERE ", " IF EXISTS";
    CountAbsent(head, '?');
    CountAbsent(middle, '?');
    CountAbsent(tail, '?');
    CountConcat(head, setClause, '?');
    CountConcat(head + setClause, middle, '?');
    CountConcat(head + setClause + middle, whereClause, '?');
    CountConcat(head + setClause + middle + whereClause, tail, '?');
  }

  /**
   * A delete holds one placeholder per key value, binds the key pairs in
   * WHERE order and, for a non-empty key, ends in the last key's placeholder:
   * it carries no existence guard.
   */
  lemma DeleteAligned<V>(table: string, key: Entries<V>)
    requires Plain(table) && AllPlain(Names(key))
    ensures QuestionMarks(DeleteStatement(table, key).template) == |DeleteStatement(table, key).params|
    ensures DeleteStatement(table, key).params == Values(key)
    ensures key != [] ==> HasSuffix(DeleteStatement(table, key).template, " = ?")
  {
    var whereClause := Assignments(Names(key), WhereStatementSeparator);
    AssignmentsCount(Names(key), WhereStatementSeparator);
    var head := "DELETE FROM " + table + " WHERE ";
    CountAbsent(head, '?');
    CountConcat(head, whereClause, '?');
    if key != [] {
      AssignmentsEndInPlaceholder(Names(key), WhereStatementSeparator);
      SuffixOfConcat(head, whereClause, " = ?");
    }
  }

  /**
   * A key column repeated in the after-image never reaches the SET clause or
   * the insert's column list: the statements are those of the after-image without it.
   */
  lemma KeyEchoNeverWritten<V>(table: string, key: Entries<V>, after: Entries<V>, c: string)
    requires Has(key, c)
    ensures UpdateStatement(table, key, after) == UpdateStatement(table, key, Exclude(after, [c]))
    ensures InsertStatement(table, key, after) == InsertStatement(table, key, Exclude(after, [c]))
  {
    KeyEchoIgnored(key, after, c);
  }

  /**
   * No builder rejects an empty key or an empty payload: the WHERE or SET
   * clause is then simply empty.
   */
  lemma EmptyClauses<V>(table: string)
    ensures DeleteStatement<V>(table, []) == Statement("DELETE FROM " + table + " WHERE ", [])
    ensures UpdateStatement<V>(table, [], []) == Statement("UPDATE " + table + " SET " + " WHERE " + " IF EXISTS", [])
  {
  }

  /** The insert test vector: key {id: "6"}, after-image {age: 22}. */
  lemma InsertExample<V>(six: V, twentyTwo: V)
    ensures InsertStatement("my_table", [("id", six)], [("age", twentyTwo)])
      == Statement("INSERT INTO my_table (age, id) VALUES (?, ?) IF NOT EXISTS", [twentyTwo, six])
  {
    InsertExampleRows(six, twentyTwo);
    assert Join(["age", "id"], ", ") == "age, id" by {
      assert ["age", "id"][..1] == ["age"];
    }
    assert Placeholders(2) == "?, ?" by {
      assert seq(2, _ => "?") == ["?", "?"];
      assert ["?", "?"][..1] == ["?"];
    }
    InsertExampleText();
  }

  lemma InsertExampleText()
    ensures InsertTemplate("my_table", "age, id", "?, ?") == "INSERT INTO my_table (age, id) VALUES (?, ?) IF NOT EXISTS"
  {
    assert "INSERT INTO " + "my_table" + " (" + "age, id" == "INSERT INTO my_table (age, id";
    assert "INSERT INTO my_table (age, id" + ") VALUES (" + "?, ?" == "INSERT INTO my_table (age, id) VALUES (?, ?";
    assert "INSERT INTO my_table (age, id) VALUES (?, ?" + ")" == "INSERT INTO my_table (age, id) VALUES (?, ?)";
    assert "INSERT INTO my_table (age, id) VALUES (?, ?)" + " IF NOT EXISTS"
      == "INSERT INTO my_table (age, id) VALUES (?, ?) IF NOT EXISTS";
  }

  lemma InsertExampleRows<V>(six: V, twentyTwo: V)
    ensures Names(WrittenRows([("id", six)], [("age", twentyTwo)])) == ["age", "id"]
    ensures Values(WrittenRows([("id", six)], [("age", twentyTwo)])) == [twentyTwo, six]
  {
    var key, after := [("id", six)], [("age", twentyTwo)];
    assert Names(key) == ["id"];
    ExcludeNone(after, Names(key));
    assert WrittenRows(key, after) == [("age", twentyTwo), ("id", six)];
  }

  /** The update test vector: key {id: "6"}, after-image {age: 33, id: "6"}. */
  lemma UpdateExample<V>(six: V, thirtyThree: V)
    ensures UpdateStatement("my_table", [("id", six)], [("age", thirtyThree), ("id", six)])
      == Statement("UPDATE my_table SET age = ? WHERE id = ? IF EXISTS", [thirtyThree, six])
  {
    var key, after := [("id", six)], [("age", thirtyThree), ("id", six)];
    UpdateExampleValues(six, thirtyThree);
    assert Names(key) == ["id"] && Values(key) == [six];
    assert Assignments(["age"], SetStatementSeparator) == "age = ?";
    assert Assignments(["id"], WhereStatementSeparator) == "id = ?";
    UpdateExampleText();
  }

  lemma UpdateExampleText()
    ensures UpdateTemplate("my_table", "age = ?", "id = ?") == "UPDATE my_table SET age = ? WHERE id = ? IF EXISTS"
  {
    assert "UPDATE " + "my_table" + " SET " + "age = ?" == "UPDATE my_table SET age = ?";
    assert "UPDATE my_table SET age = ?" + " WHERE " + "id = ?" + " IF EXISTS"
      == "UPDATE my_table SET age = ? WHERE id = ? IF EXISTS";
  }

  /** The same test vector, with the after-image enumerated id first. */
  lemma UpdateExampleSwapped<V>(six: V, thirtyThree: V)
    ensures UpdateStatement("my_table", [("id", six)], [("id", six), ("age", thirtyThree)])
      == Statement("UPDATE my_table SET age = ? WHERE id = ? IF EXISTS", [thirtyThree, six])
  {
    var key, age := [("id", six)], [("age", thirtyThree)];
    var idFirst, ageFirst := [("id", six), ("age", thirtyThree)], [("age", thirtyThree), ("id", six)];
    calc {
      UpdateStatement("my_table", key, idFirst);
      { KeyEchoNeverWritten("my_table", key, idFirst, "id"); EchoDropped(six, thirtyThree); }
      UpdateStatement("my_table", key, age);
      { KeyEchoNeverWritten("my_table", key, ageFirst, "id"); EchoDropped(six, thirtyThree); }
      UpdateStatement("my_table", key, ageFirst);
      { UpdateExample(six, thirtyThree); }
      Statement("UPDATE my_table SET age = ? WHERE id = ? IF EXISTS", [thirtyThree, six]);
    }
  }

  /** Dropping the echoed `id` from either order of `{age, id}` leaves `{age}`. */
  lemma EchoDropped<V>(six: V, thirtyThree: V)
    ensures Has([("id", six)], "id")
    ensures Exclude([("id", six), ("age", thirtyThree)], ["id"]) == [("age", thirtyThree)]
    ensures Exclude([("age", thirtyThree), ("id", six)], ["id"]) == [("age", thirtyThree)]
  {
    var idFirst, ageFirst := [("id", six), ("age", thirtyThree)], [("age", thirtyThree), ("id", six)];
    assert Names([("id", six)]) == ["id"];
    assert idFirst[..1] == [("id", six)] && ageFirst[..1] == [("age", thirtyThree)];
    assert Exclude(idFirst[..1], ["id"]) == [];
    assert Exclude(ageFirst[..1], ["id"]) == [("age", thirtyThree)];
  }

  lemma UpdateExampleValues<V>(six: V, thirtyThree: V)
    ensures ValueEntries([("id", six)], [("age", thirtyThree), ("id", six)]) == [("age", thirtyThree)]
    ensures Names([("age", thirtyThree)]) == ["age"] && Values([("age", thirtyThree)]) == [thirtyThree]
  {
    var key, after := [("id", six)], [("age", thirtyThree), ("id", six)];
    assert Names(key) == ["id"];
    var front := after[..1];
    ExcludeNone(front, Names(key));
    assert Exclude(after, Names(key)) == Exclude(front, Names(key));
  }

  /** The delete test vector: key {id: "6", id2: "6"}, in one enumeration order. */
  lemma DeleteExample<V>(a: V, b: V)
    ensures DeleteStatement("my_table", [("id", a), ("id2", b)])
      == Statement("DELETE FROM my_table WHERE id = ? AND id2 = ?", [a, b])
  {
    DeleteWhereOfTwo("id", "id2", a, b);
    assert "DELETE FROM my_table WHERE " + "id" + " = ? AND " == "DELETE FROM my_table WHERE id = ? AND ";
    assert "DELETE FROM my_table WHERE id = ? AND " + "id2" + " = ?" == "DELETE FROM my_table WHERE id = ? AND id2 = ?";
  }

  /** The same test vector, with the key map enumerated the other way round. */
  lemma DeleteExampleSwapped<V>(a: V, b: V)
    ensures DeleteStatement("my_table", [("id2", b), ("id", a)])
      == Statement("DELETE FROM my_table WHERE id2 = ? AND id = ?", [b, a])
  {
    DeleteWhereOfTwo("id2", "id", b, a);
    assert "DELETE FROM my_table WHERE " + "id2" + " = ? AND " == "DELETE FROM my_table WHERE id2 = ? AND ";
    assert "DELETE FROM my_table WHERE id2 = ? AND " + "id" + " = ?" == "DELETE FROM my_table WHERE id2 = ? AND id = ?";
  }

  lemma DeleteWhereOfTwo<V>(c1: string, c2: string, a: V, b: V)
    ensures DeleteStatement("my_table", [(c1, a), (c2, b)])
      == Statement("DELETE FROM my_table WHERE " + c1 + " = ? AND " + c2 + " = ?", [a, b])
  {
    var key := [(c1, a), (c2, b)];
    assert Names(key) == [c1, c2] && Values(key) == [a, b] by {
      PrefixStep(key, 1);
      assert key[..1] == [(c1, a)] && key[..2] == key;
    }
    WhereOfTwo(c1, c2);
    assert "DELETE FROM " + "my_table" + " WHERE " == "DELETE FROM my_table WHERE ";
  }

  lemma WhereOfTwo(c1: string, c2: string)
    ensures Assignments([c1, c2], WhereStatementSeparator) == c1 + " = ? AND " + c2 + " = ?"
  {
    AssignmentsSnoc([c1], c2, WhereStatementSeparator);
    assert [c1] + [c2] == [c1, c2];
    assert Assignments([c1], WhereStatementSeparator) == c1 + " = ?";
    assert " = ?" + " " + "AND" + " " == " = ? AND ";
  }

  /** Joining plain names with a plain separator adds no placeholder. */
  lemma {:induction false} JoinPlain(parts: seq<string>, sep: string)
    requires AllPlain(parts) && Plain(sep)
    ensures QuestionMarks(Join(parts, sep)) == 0
  {
    var n := |parts|;
    if n == 1 {
      CountAbsent(parts[0], '?');
    } else if n >= 2 {
      JoinPlain(parts[..n - 1], sep);
      CountAbsent(sep, '?');
      CountAbsent(parts[n - 1], '?');
      CountConcat(Join(parts[..n - 1], sep), sep, '?');
      CountConcat(Join(parts[..n - 1], sep) + sep, parts[n - 1], '?');
    }
  }
}
