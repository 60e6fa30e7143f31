/**
 * A Go `map[string]V` (the connector's StructuredData), seen as the sequence of
 * its entries in the order one `range` loop visits them. Go fixes no such
 * order, so every property below holds for whichever order the sequence has.
 */
module GoMaps {

  type Entries<V> = seq<(string, V)>

  /** A Go map holds each name at most once. */
  predicate DistinctNames<V>(m: Entries<V>)
  {
    forall i, j :: 0 <= i < j < |m| ==> m[i].0 != m[j].0
  }

  /** The names of the entries, in enumeration order. */
  function Names<V>(m: Entries<V>): (r: seq<string>)
    ensures |r| == |m|
    ensures forall i :: 0 <= i < |m| ==> r[i] == m[i].0
  {
    if m == [] then [] else Names(m[..|m| - 1]) + [m[|m| - 1].0]
  }

  /** The values of the entries, in the same order as Names. */
  function Values<V>(m: Entries<V>): (r: seq<V>)
    ensures |r| == |m|
    ensures forall i :: 0 <= i < |m| ==> r[i] == m[i].1
  {
    if m == [] then [] else Values(m[..|m| - 1]) + [m[|m| - 1].1]
  }

  /** The lookup `_, ok := m[name]`: exact comparison of whole names. */
  function Has<V>(m: Entries<V>, name: string): (ok: bool)
    ensures ok <==> exists i :: 0 <= i < |m| && m[i].0 == name
  {
    name in Names(m)
  }

  /** The entries whose name is none of `names`, in their original order. */
  function Exclude<V>(m: Entries<V>, names: seq<string>): (r: Entries<V>)
    ensures |r| <= |m|
    ensures forall i :: 0 <= i < |r| ==> r[i] in m && r[i].0 !in names
    ensures forall j :: 0 <= j < |m| && m[j].0 !in names ==> m[j] in r
  {
    if m == [] then []
    else
      assert m == m[..|m| - 1] + [m[|m| - 1]];
      Exclude(m[..|m| - 1], names) + (if m[|m| - 1].0 in names then [] else [m[|m| - 1]])
  }

  lemma NamesAppend<V>(a: Entries<V>, b: Entries<V>)
    ensures Names(a + b) == Names(a) + Names(b)
    ensures Values(a + b) == Values(a) + Values(b)
  {
  }

  /** Excluding one list of names and then another excludes both at once. */
  lemma {:induction false} ExcludeTwice<V>(m: Entries<V>, a: seq<string>, b: seq<string>)
    ensures Exclude(Exclude(m, a), b) == Exclude(m, a + b)
  {
    if m != [] {
      var init, last := m[..|m| - 1], m[|m| - 1];
      ExcludeTwice(init, a, b);
      var once := if last.0 in a then [] else [last];
      assert Exclude(m, a) == Exclude(init, a) + once;
      ExcludeAppend(Exclude(init, a), once, b);
    }
  }

  lemma ExcludeAppend<V>(m: Entries<V>, tail: Entries<V>, names: seq<string>)
    requires |tail| <= 1
    ensures Exclude(m + tail, names) == Exclude(m, names) + Exclude(tail, names)
  {
    if tail != [] {
      assert (m + tail)[..|m + tail| - 1] == m;
    } else {
      assert m + tail == m;
    }
  }

  /** When no entry is named in `names`, nothing is excluded. */
  lemma {:induction false} ExcludeNone<V>(m: Entries<V>, names: seq<string>)
    requires forall i :: 0 <= i < |m| ==> m[i].0 !in names
    ensures Exclude(m, names) == m
  {
    if m != [] {
      ExcludeNone(m[..|m| - 1], names);
      assert m[..|m| - 1] + [m[|m| - 1]] == m;
    }
  }

  /** Excluding names keeps a map a map. */
  lemma {:induction false} ExcludeDistinct<V>(m: Entries<V>, names: seq<string>)
    requires DistinctNames(m)
    ensures DistinctNames(Exclude(m, names))
  {
    if m != [] {
      var init, last := m[..|m| - 1], m[|m| - 1];
      ExcludeDistinct(init, names);
      var rest := Exclude(init, names);
      forall i | 0 <= i < |rest|
        ensures rest[i].0 != last.0
      {
        assert rest[i] in init;
      }
    }
  }

  /** Removing one name from a map removes exactly its entry, when present. */
  lemma {:induction false} ExcludeOneSize<V>(m: Entries<V>, name: string)
    requires DistinctNames(m)
    ensures |Exclude(m, [name])| == if Has(m, name) then |m| - 1 else |m|
  {
    if m != [] {
      var init, last := m[..|m| - 1], m[|m| - 1];
      ExcludeOneSize(init, name);
      assert Has(m, name) <==> Has(init, name) || last.0 == name;
      if last.0 == name {
        assert !Has(init, name);
      }
    }
  }

  /** Only which names are excluded matters, not how they are listed. */
  lemma {:induction false} ExcludeSameNames<V>(m: Entries<V>, a: seq<string>, b: seq<string>)
    requires forall n :: n in a <==> n in b
    ensures Exclude(m, a) == Exclude(m, b)
  {
    if m != [] {
      ExcludeSameNames(m[..|m| - 1], a, b);
    }
  }

  /** One more entry of a range loop adds its name and its value at the end. */
  lemma PrefixStep<V>(m: Entries<V>, i: nat)
    requires i < |m|
    ensures Names(m[..i + 1]) == Names(m[..i]) + [m[i].0]
    ensures Values(m[..i + 1]) == Values(m[..i]) + [m[i].1]
  {
    assert m[..i + 1][..i] == m[..i];
  }

  /** One more entry of a range loop with a skip test is kept exactly when its name is not skipped. */
  lemma ExcludeStep<V>(m: Entries<V>, names: seq<string>, j: nat)
    requires j < |m|
    ensures m[j].0 in names ==> Exclude(m[..j + 1], names) == Exclude(m[..j], names)
    ensures m[j].0 !in names ==> Names(Exclude(m[..j + 1], names)) == Names(Exclude(m[..j], names)) + [m[j].0]
    ensures m[j].0 !in names ==> Values(Exclude(m[..j + 1], names)) == Values(Exclude(m[..j], names)) + [m[j].1]
  {
    assert m[..j + 1][..j] == m[..j];
    if m[j].0 !in names {
      NamesAppend(Exclude(m[..j], names), [m[j]]);
    }
  }

  /**
   * `r` lists the entries of `m` at the strictly increasing positions `f`, and
   * those positions are all the entries whose name is not in `names`.
   */
  ghost predicate Positions<V>(m: Entries<V>, r: Entries<V>, f: seq<nat>, names: seq<string>)
  {
    && |f| == |r|
    && (forall i :: 0 <= i < |f| ==> f[i] < |m| && r[i] == m[f[i]])
    && (forall i, j :: 0 <= i < j < |f| ==> f[i] < f[j])
    && (forall k :: 0 <= k < |m| && m[k].0 !in names ==> k in f)
  }

  /**
   * Excluding keeps the map's order and each entry once: the kept entries sit
   * at strictly increasing positions of the map, and those positions are all
   * the entries whose name is not excluded.
   */
  lemma {:induction false} ExcludePositions<V>(m: Entries<V>, names: seq<string>) returns (f: seq<nat>)
    ensures Positions(m, Exclude(m, names), f, names)
  {
    if m == [] {
      return [];
    }
    var init, last := m[..|m| - 1], m[|m| - 1];
    var g := ExcludePositions(init, names);
    assert m == init + [last];
    if last.0 in names {
      assert Exclude(m, names) == Exclude(init, names);
      f := g;
    } else {
      assert Exclude(m, names) == Exclude(init, names) + [last];
      f := g + [|init|];
    }
    PositionsSnoc(init, last, Exclude(init, names), g, names);
  }

  lemma PositionsSnoc<V>(init: Entries<V>, last: (string, V), r: Entries<V>, g: seq<nat>, names: seq<string>)
    requires Positions(init, r, g, names)
    ensures last.0 in names ==> Positions(init + [last], r, g, names)
    ensures last.0 !in names ==> Positions(init + [last], r + [last], g + [|init|], names)
  {
    var m := init + [last];
    if last.0 in names {
      forall k | 0 <= k < |m| && m[k].0 !in names
        ensures k in g
      {
        assert k < |init| && init[k] == m[k];
      }
    } else {
      var f := g + [|init|];
      forall i | 0 <= i < |f|
        ensures f[i] < |m| && (r + [last])[i] == m[f[i]]
      {
      }
      forall k | 0 <= k < |m| && m[k].0 !in names
        ensures k in f
      {
        if k < |init| {
          assert init[k] == m[k] && k in g;
        } else {
          assert f[|g|] == k;
        }
      }
    }
  }
}
