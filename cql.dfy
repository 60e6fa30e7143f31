/**
 * What a CQL statement built from a record is: a template with positional `?`
 * placeholders and the parameters bound to them, left to right. Also the
 * reference forms of the two clause shapes both builder revisions produce.
 */
module Cql {
  import opened GoStrings
  import opened GoMaps

  /** A statement template and its positional parameters. */
  datatype Statement<V> = Statement(template: string, params: seq<V>)

  /** The type assertion that failed: `rec.Key.(StructuredData)` or `rec.Payload.After.(StructuredData)`. */
  datatype Assertion = KeyNotStructured | AfterNotStructured

  /** A builder either returns its statement or panics on a failed type assertion. */
  datatype Outcome<T> = Built(value: T) | Panicked(cause: Assertion)

  /** How many placeholders a piece of template text holds. */
  function QuestionMarks(s: string): nat
  {
    Count(s, '?')
  }

  /** Text that cannot be mistaken for a placeholder: identifiers and table names. */
  predicate Plain(s: string)
  {
    '?' !in s
  }

  predicate AllPlain(names: seq<string>)
  {
    forall i :: 0 <= i < |names| ==> Plain(names[i])
  }

  /** Reference form of a value list: `n` placeholders separated by ", ". */
  function Placeholders(n: nat): string
  {
    Join(seq(n, _ => "?"), ", ")
  }

  /** Each column paired with a placeholder, `col = ?`. */
  function Pairs(cols: seq<string>): (r: seq<string>)
    ensures |r| == |cols|
  {
    seq(|cols|, i requires 0 <= i < |cols| => cols[i] + " = ?")
  }

  /**
   * Reference form of a SET or WHERE clause: the `col = ?` pairs joined by the
   * separator with a space on each side. It is empty exactly when there are no columns.
   */
  function Assignments(cols: seq<string>, sep: string): (r: string)
    ensures r == "" <==> cols == []
  {
    Join(Pairs(cols), " " + sep + " ")
  }

  lemma PairsPrefix(cols: seq<string>, k: nat)
    requires k <= |cols|
    ensures Pairs(cols)[..k] == Pairs(cols[..k])
  {
  }

  /** Go's value-list idiom: Repeat "?, " and trim the last ", ". */
  lemma {:induction false} RepeatedPlaceholders(n: nat)
    requires n >= 1
    ensures Repeat("?, ", n) == Placeholders(n) + ", "
  {
    if n == 1 {
      assert Placeholders(1) == "?";
    } else {
      RepeatedPlaceholders(n - 1);
      assert seq(n, _ => "?")[..n - 1] == seq(n - 1, _ => "?");
      assert Placeholders(n) == Placeholders(n - 1) + ", " + "?";
    }
  }

  lemma RepeatThenTrim(n: nat)
    ensures TrimSuffix(Repeat("?, ", n), ", ") == Placeholders(n)
  {
    if n >= 1 {
      RepeatedPlaceholders(n);
      TrimAppended(Placeholders(n), ", ");
    }
  }

  /** A value list of `n` placeholders holds `n` of them. */
  lemma {:induction false} PlaceholdersCount(n: nat)
    ensures QuestionMarks(Placeholders(n)) == n
  {
    if n >= 2 {
      PlaceholdersCount(n - 1);
      assert seq(n, _ => "?")[..n - 1] == seq(n - 1, _ => "?");
      CountConcat(Placeholders(n - 1), ", ", '?');
      CountConcat(Placeholders(n - 1) + ", ", "?", '?');
      CountAbsent(", ", '?');
    } else if n == 1 {
      assert Placeholders(1) == "?";
    }
  }

  /** A clause over plain column names holds one placeholder per column. */
  lemma {:induction false} AssignmentsCount(cols: seq<string>, sep: string)
    requires AllPlain(cols) && Plain(sep)
    ensures QuestionMarks(Assignments(cols, sep)) == |cols|
  {
    var n := |cols|;
    if n >= 1 {
      var pair := cols[n - 1] + " = ?";
      CountAbsent(cols[n - 1], '?');
      CountAbsent(" = ", '?');
      assert pair == cols[n - 1] + " = " + "?";
      CountConcat(cols[n - 1], " = ", '?');
      CountConcat(cols[n - 1] + " = ", "?", '?');
      assert QuestionMarks(pair) == 1;
      if n == 1 {
        assert Assignments(cols, sep) == pair;
      } else {
        var init := cols[..n - 1];
        AssignmentsCount(init, sep);
        PairsPrefix(cols, n - 1);
        var glue := " " + sep + " ";
        assert Assignments(cols, sep) == Assignments(init, sep) + glue + pair;
        assert ' ' != '?';
        CountAbsent(glue, '?');
        CountConcat(Assignments(init, sep), glue, '?');
        CountConcat(Assignments(init, sep) + glue, pair, '?');
      }
    }
  }

  /** A non-empty clause ends in its last column's placeholder. */
  lemma AssignmentsEndInPlaceholder(cols: seq<string>, sep: string)
    requires cols != []
    ensures HasSuffix(Assignments(cols, sep), " = ?")
  {
    var last := Pairs(cols)[|cols| - 1];
    JoinEndsWithLast(Pairs(cols), " " + sep + " ");
    SuffixAppended(cols[|cols| - 1], " = ?");
    var a := Assignments(cols, sep);
    assert a[|a| - |last|..][|last| - 4..] == a[|a| - 4..];
  }

  /**
   * Appending one column adds one pair at the end of a clause, after the separator.
   */
  lemma AssignmentsSnoc(cols: seq<string>, c: string, sep: string)
    requires cols != []
    ensures Assignments(cols + [c], sep) == Assignments(cols, sep) + " " + sep + " " + c + " = ?"
  {
    PairsPrefix(cols + [c], |cols|);
    assert (cols + [c])[..|cols|] == cols;
  }

  /**
   * The record normalizer's value side: the after-image entries whose name is
   * not, as a whole string, a name of the key map.
   */
  function ValueEntries<V>(key: Entries<V>, after: Entries<V>): (r: Entries<V>)
    ensures |r| <= |after|
    ensures forall i :: 0 <= i < |r| ==> r[i] in after && r[i].0 !in Names(key)
    ensures forall j :: 0 <= j < |after| && after[j].0 !in Names(key) ==> after[j] in r
  {
    Exclude(after, Names(key))
  }

  /** The rows an insert writes: the value entries, then the key entries. */
  function WrittenRows<V>(key: Entries<V>, after: Entries<V>): Entries<V>
  {
    ValueEntries(key, after) + key
  }

  /**
   * Binding `params[i]` to `cols[i]` gives back a pair of the record: the key
   * map's pair when the column is a key column, the after-image's otherwise.
   */
  ghost predicate BindsRecord<V>(cols: seq<string>, params: seq<V>, key: Entries<V>, after: Entries<V>)
  {
    |cols| == |params| &&
    forall i :: 0 <= i < |cols| ==>
      if Has(key, cols[i]) then (cols[i], params[i]) in key else (cols[i], params[i]) in after
  }

  /**
   * A column is a value column exactly when the after-image has it and the key
   * map has no entry of that exact name: `id` does not hide `id2` or `id2value`.
   */
  lemma ValueColumnsExact<V>(key: Entries<V>, after: Entries<V>, c: string)
    ensures c in Names(ValueEntries(key, after)) <==> Has(after, c) && !Has(key, c)
  {
    var rest := ValueEntries(key, after);
    if c in Names(rest) {
      var i :| 0 <= i < |rest| && Names(rest)[i] == c;
      assert rest[i].0 == c && c !in Names(key);
      var j :| 0 <= j < |after| && after[j] == rest[i];
      assert Names(after)[j] == c;
    }
    if c in Names(after) && c !in Names(key) {
      var j :| 0 <= j < |after| && Names(after)[j] == c;
      assert after[j] in rest;
      var i :| 0 <= i < |rest| && rest[i] == after[j];
      assert Names(rest)[i] == c;
    }
  }

  /**
   * Every written row binds a pair of the record, key pairs taking precedence,
   * and every key pair and every after-image pair not named by the key is written.
   */
  lemma WrittenRowsBind<V>(key: Entries<V>, after: Entries<V>)
    ensures BindsRecord(Names(WrittenRows(key, after)), Values(WrittenRows(key, after)), key, after)
    ensures forall j :: 0 <= j < |key| ==> key[j] in WrittenRows(key, after)
    ensures forall j :: 0 <= j < |after| && !Has(key, after[j].0) ==> after[j] in WrittenRows(key, after)
  {
    var rest, rows := ValueEntries(key, after), WrittenRows(key, after);
    var cols, params := Names(rows), Values(rows);
    forall i | 0 <= i < |cols|
      ensures if Has(key, cols[i]) then (cols[i], params[i]) in key else (cols[i], params[i]) in after
    {
      assert (cols[i], params[i]) == rows[i];
      if i < |rest| {
        assert rows[i] == rest[i] && rest[i] in after && rest[i].0 !in Names(key);
      } else {
        assert rows[i] == key[i - |rest|];
      }
    }
    forall j | 0 <= j < |key|
      ensures key[j] in rows
    {
      assert rows[|rest| + j] == key[j];
    }
    forall j | 0 <= j < |after| && !Has(key, after[j].0)
      ensures after[j] in rows
    {
      assert after[j].0 !in Names(key);
      assert after[j] in rest;
    }
  }

  /**
   * A key column repeated in the after-image changes nothing: dropping it from
   * the after-image leaves the value entries as they were.
   */
  lemma KeyEchoIgnored<V>(key: Entries<V>, after: Entries<V>, c: string)
    requires Has(key, c)
    ensures ValueEntries(key, Exclude(after, [c])) == ValueEntries(key, after)
  {
    ExcludeTwice(after, [c], Names(key));
    ExcludeSameNames(after, [c] + Names(key), Names(key));
  }

  /** Stripping the key names a second time changes nothing. */
  lemma ValueEntriesIdempotent<V>(key: Entries<V>, after: Entries<V>)
    ensures ValueEntries(key, ValueEntries(key, after)) == ValueEntries(key, after)
  {
    ExcludeTwice(after, Names(key), Names(key));
    ExcludeSameNames(after, Names(key) + Names(key), Names(key));
  }
}
