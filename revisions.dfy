/**
 * How the two revisions of the translation relate: the current one only adds
 * the existence guards, so the earlier one's alignment properties and test
 * vectors follow from those of the current one.
 */
module Revisions {
  import opened GoStrings
  import opened GoMaps
  import opened Cql
  import QueryBuilder
  import Parser

  /** Two texts that agree once the same suffix is appended agree. */
  lemma CancelSuffix(a: string, b: string, s: string)
    requires a + s == b + s
    ensures a == b
  {
    assert a == (a + s)[..|a|];
    assert b == (b + s)[..|b|];
  }

  /** The current insert is the earlier one followed by its guard, with the same parameters. */
  lemma InsertGuardAdded<V>(table: string, key: Entries<V>, after: Entries<V>)
    ensures QueryBuilder.InsertStatement(table, key, after).template
      == Parser.InsertStatement(table, key, after).template + " IF NOT EXISTS"
    ensures QueryBuilder.InsertStatement(table, key, after).params == Parser.InsertStatement(table, key, after).params
  {
    assert ") IF NOT EXISTS" == ")" + " IF NOT EXISTS";
  }

  /** The current update is the earlier one followed by its guard, with the same parameters. */
  lemma UpdateGuardAdded<V>(table: string, key: Entries<V>, after: Entries<V>)
    ensures QueryBuilder.UpdateStatement(table, key, after).template
      == Parser.UpdateStatement(table, key, after).template + " IF EXISTS"
    ensures QueryBuilder.UpdateStatement(table, key, after).params == Parser.UpdateStatement(table, key, after).params
  {
  }

  /** Both revisions send the same delete for the same key map. */
  lemma DeleteUnchanged<V>(table: string, key: Entries<V>)
    ensures QueryBuilder.DeleteStatement(table, key) == Parser.DeleteStatement(table, key)
  {
  }

  /** A guard without placeholders adds none. */
  /** Neither existence guard holds a placeholder. */
  lemma GuardsPlain()
    ensures Plain(" IF NOT EXISTS") && Plain(" IF EXISTS")
  {
  }

  lemma GuardCount(earlier: string, guard: string)
    requires Plain(guard)
    ensures QuestionMarks(earlier + guard) == QuestionMarks(earlier)
  {
    CountConcat(earlier, guard, '?');
    CountAbsent(guard, '?');
  }

  /**
   * The earlier insert holds one placeholder per parameter, binds the value
   * entries then the key entries, and ends in its value list's ")", with no guard.
   */
  lemma ParserInsertAligned<V>(table: string, key: Entries<V>, after: Entries<V>)
    requires Plain(table) && AllPlain(Names(key)) && AllPlain(Names(after))
    ensures QuestionMarks(Parser.InsertStatement(table, key, after).template) == |Parser.InsertStatement(table, key, after).params|
    ensures Parser.InsertStatement(table, key, after).params == Values(ValueEntries(key, after)) + Values(key)
    ensures HasSuffix(Parser.InsertStatement(table, key, after).template, ")")
  {
    var earlier := Parser.InsertStatement(table, key, after);
    var current := QueryBuilder.InsertStatement(table, key, after);
    assert current.template == earlier.template + " IF NOT EXISTS" && current.params == earlier.params by {
      InsertGuardAdded(table, key, after);
    }
    assert QuestionMarks(current.template) == |current.params| && current.params == Values(ValueEntries(key, after)) + Values(key) by {
      QueryBuilder.InsertAligned(table, key, after);
    }
    assert QuestionMarks(earlier.template) == QuestionMarks(current.template) by {
      GuardsPlain();
      GuardCount(earlier.template, " IF NOT EXISTS");
    }
    assert HasSuffix(earlier.template, ")") by {
      var rows := WrittenRows(key, after);
      assert earlier.template == Parser.InsertTemplate(table, Join(Names(rows), ", "), Placeholders(|rows|));
    }
  }

  /**
   * The earlier update holds one placeholder per parameter, binds the value
   * entries then the key entries, and for a non-empty key ends in the WHERE
   * clause's last placeholder, with no guard.
   */
  lemma ParserUpdateAligned<V>(table: string, key: Entries<V>, after: Entries<V>)
    requires Plain(table) && AllPlain(Names(key)) && AllPlain(Names(after))
    ensures QuestionMarks(Parser.UpdateStatement(table, key, after).template) == |Parser.UpdateStatement(table, key, after).params|
    ensures Parser.UpdateStatement(table, key, after).params == Values(WrittenRows(key, after))
    ensures key != [] ==> HasSuffix(Parser.UpdateStatement(table, key, after).template, " = ?")
  {
    var earlier := Parser.UpdateStatement(table, key, after);
    var current := QueryBuilder.UpdateStatement(table, key, after);
    assert current.template == earlier.template + " IF EXISTS" && current.params == earlier.params by {
      UpdateGuardAdded(table, key, after);
    }
    assert QuestionMarks(current.template) == |current.params| && current.params == Values(WrittenRows(key, after)) by {
      QueryBuilder.UpdateAligned(table, key, after);
    }
    assert QuestionMarks(earlier.template) == QuestionMarks(current.template) by {
      GuardsPlain();
      GuardCount(earlier.template, " IF EXISTS");
    }
    assert key != [] ==> HasSuffix(earlier.template, " = ?") by {
      if key != [] {
        UpdateEndsInWhere(table, key, after);
      }
    }
  }

  lemma UpdateEndsInWhere<V>(table: string, key: Entries<V>, after: Entries<V>)
    requires key != []
    ensures HasSuffix(Parser.UpdateStatement(table, key, after).template, " = ?")
  {
    var setClause := Assignments(Names(ValueEntries(key, after)), Parser.SetStatementSeparator);
    var whereClause := Assignments(Names(key), Parser.WhereStatementSeparator);
    assert Parser.UpdateStatement(table, key, after).template == Parser.UpdateTemplate(table, setClause, whereClause);
    AssignmentsEndInPlaceholder(Names(key), Parser.WhereStatementSeparator);
    UpdateTemplateEndsInWhere(table, setClause, whereClause);
  }

  lemma UpdateTemplateEndsInWhere(table: string, setClause: string, whereClause: string)
    requires HasSuffix(whereClause, " = ?")
    ensures HasSuffix(Parser.UpdateTemplate(table, setClause, whereClause), " = ?")
  {
    SuffixOfConcat("UPDATE " + table + " SET " + setClause + " WHERE ", whereClause, " = ?");
  }

  /** The earlier delete holds one placeholder per key value and binds the key values in WHERE order. */
  lemma ParserDeleteAligned<V>(table: string, key: Entries<V>)
    requires Plain(table) && AllPlain(Names(key))
    ensures QuestionMarks(Parser.DeleteStatement(table, key).template) == |Parser.DeleteStatement(table, key).params|
    ensures Parser.DeleteStatement(table, key).params == Values(key)
    ensures key != [] ==> HasSuffix(Parser.DeleteStatement(table, key).template, " = ?")
  {
    QueryBuilder.DeleteAligned(table, key);
  }

  /** The earlier getPlaceholders test vectors. */
  lemma ParserPlaceholderExamples()
    ensures Parser.GetPlaceholders(1) == "?"
    ensures Parser.GetPlaceholders(3) == "?, ?, ?"
  {
    QueryBuilder.PlaceholderExamples();
  }

  /** The earlier pairValuesWithPlaceholder test vectors, on the clause it is proved to build. */
  lemma ParserPairValuesExamples()
    ensures Assignments(["one", "two", "three"], Parser.WhereStatementSeparator) == "one = ? AND two = ? AND three = ?"
    ensures Assignments(["one", "two", "three"], Parser.SetStatementSeparator) == "one = ? , two = ? , three = ?"
  {
    QueryBuilder.PairValuesWhereExample();
    QueryBuilder.PairValuesSetExample();
  }

  /** The earlier insert test vector: key {id: "6"}, after-image {age: 22}. */
  lemma ParserInsertExample<V>(six: V, twentyTwo: V)
    ensures Parser.InsertStatement("my_table", [("id", six)], [("age", twentyTwo)])
      == Statement("INSERT INTO my_table (age, id) VALUES (?, ?)", [twentyTwo, six])
  {
    var key, after := [("id", six)], [("age", twentyTwo)];
    QueryBuilder.InsertExample(six, twentyTwo);
    InsertGuardAdded("my_table", key, after);
    var short := "INSERT INTO my_table (age, id) VALUES (?, ?)";
    assert "INSERT INTO my_table (age, id) VALUES (?, ?) IF NOT EXISTS" == short + " IF NOT EXISTS";
    CancelSuffix(Parser.InsertStatement("my_table", key, after).template, short, " IF NOT EXISTS");
  }

  /** The earlier update test vector: key {id: "6"}, after-image {age: 33}. */
  lemma ParserUpdateExample<V>(six: V, thirtyThree: V)
    ensures Parser.UpdateStatement("my_table", [("id", six)], [("age", thirtyThree)])
      == Statement("UPDATE my_table SET age = ? WHERE id = ?", [thirtyThree, six])
  {
    var key, after := [("id", six)], [("age", thirtyThree)];
    var current := QueryBuilder.UpdateStatement("my_table", key, after);
    var earlier := Parser.UpdateStatement("my_table", key, after);
    assert current == Statement("UPDATE my_table SET age = ? WHERE id = ? IF EXISTS", [thirtyThree, six]) by {
      var echoed := [("age", thirtyThree), ("id", six)];
      QueryBuilder.EchoDropped(six, thirtyThree);
      QueryBuilder.KeyEchoNeverWritten("my_table", key, echoed, "id");
      QueryBuilder.UpdateExample(six, thirtyThree);
    }
    assert current.template == earlier.template + " IF EXISTS" && current.params == earlier.params by {
      UpdateGuardAdded("my_table", key, after);
    }
    var short := "UPDATE my_table SET age = ? WHERE id = ?";
    assert "UPDATE my_table SET age = ? WHERE id = ? IF EXISTS" == short + " IF EXISTS";
    CancelSuffix(earlier.template, short, " IF EXISTS");
  }

  /** The earlier delete test vector: key {id: "6", id2: "6"}, in either enumeration order. */
  lemma ParserDeleteExample<V>(a: V, b: V)
    ensures Parser.DeleteStatement("my_table", [("id", a), ("id2", b)])
      == Statement("DELETE FROM my_table WHERE id = ? AND id2 = ?", [a, b])
    ensures Parser.DeleteStatement("my_table", [("id2", b), ("id", a)])
      == Statement("DELETE FROM my_table WHERE id2 = ? AND id = ?", [b, a])
  {
    QueryBuilder.DeleteExample(a, b);
    QueryBuilder.DeleteExampleSwapped(a, b);
  }
}
