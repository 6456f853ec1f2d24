/**
 * The data-frame operations the two dashboards apply to their rows, with a
 * row type `R` and a column given as a projection `R -> string`:
 * `df[df[col].isin(sel)]`, `len(df[df[col] == v])` and `df[col].value_counts()`.
 */
module Tables {

  /** The distinct values a column takes, i.e. `set(df[col])`. */
  function Values<R(==)>(rows: seq<R>, col: R -> string): set<string>
  {
    set x | x in rows :: col(x)
  }

  /**
   * `df[df[col].isin(sel)]`: the rows whose value in the column is one of
   * `sel`, in their original order. An empty `sel` keeps nothing.
   */
  function Keep<R(==)>(rows: seq<R>, col: R -> string, sel: set<string>): (kept: seq<R>)
    ensures |kept| <= |rows|
    ensures forall i :: 0 <= i < |kept| ==> kept[i] in rows && col(kept[i]) in sel
    ensures forall i :: 0 <= i < |rows| && col(rows[i]) in sel ==> rows[i] in kept
  {
    if rows == [] then []
    else (if col(rows[0]) in sel then [rows[0]] else []) + Keep(rows[1..], col, sel)
  }

  /** Keeping rows is an order-preserving selection: it distributes over concatenation. */
  lemma {:induction false} KeepAppend<R>(xs: seq<R>, ys: seq<R>, col: R -> string, sel: set<string>)
    ensures Keep(xs + ys, col, sel) == Keep(xs, col, sel) + Keep(ys, col, sel)
  {
    if xs != [] {
      assert (xs + ys)[0] == xs[0] && (xs + ys)[1..] == xs[1..] + ys;
      KeepAppend(xs[1..], ys, col, sel);
      var head := if col(xs[0]) in sel then [xs[0]] else [];
      calc {
        Keep(xs + ys, col, sel);
        head + Keep(xs[1..] + ys, col, sel);
        head + (Keep(xs[1..], col, sel) + Keep(ys, col, sel));
        (head + Keep(xs[1..], col, sel)) + Keep(ys, col, sel);
        Keep(xs, col, sel) + Keep(ys, col, sel);
      }
    } else {
      assert xs + ys == ys;
    }
  }

  /** A selection that no row matches leaves no row; one every row matches leaves all of them. */
  lemma {:induction false} KeepNoneOrAll<R>(rows: seq<R>, col: R -> string, sel: set<string>)
    ensures Values(rows, col) !! sel ==> Keep(rows, col, sel) == []
    ensures Values(rows, col) <= sel ==> Keep(rows, col, sel) == rows
  {
    if rows != [] {
      assert Values(rows[1..], col) <= Values(rows, col) by {
        forall v | v in Values(rows[1..], col) ensures v in Values(rows, col) {
          var x :| x in rows[1..] && col(x) == v;
          assert x in rows;
        }
      }
      assert col(rows[0]) in Values(rows, col);
      KeepNoneOrAll(rows[1..], col, sel);
    }
  }

  /** `len(df[df[col] == v])`. */
  function Count<R(==)>(rows: seq<R>, col: R -> string, v: string): nat
  {
    |Keep(rows, col, {v})|
  }

  /** Counting the first row, then the rest. */
  lemma CountCons<R>(rows: seq<R>, col: R -> string, v: string)
    requires rows != []
    ensures Count(rows, col, v) == (if col(rows[0]) == v then 1 else 0) + Count(rows[1..], col, v)
  {
    assert Keep(rows, col, {v}) == (if col(rows[0]) in {v} then [rows[0]] else []) + Keep(rows[1..], col, {v});
  }

  /** Counting is additive over concatenation. */
  lemma CountAppend<R>(xs: seq<R>, ys: seq<R>, col: R -> string, v: string)
    ensures Count(xs + ys, col, v) == Count(xs, col, v) + Count(ys, col, v)
  {
    KeepAppend(xs, ys, col, {v});
  }

  /** A value that occurs is counted at least once; one that does not is counted zero times. */
  lemma CountPositive<R>(rows: seq<R>, col: R -> string, v: string)
    ensures Count(rows, col, v) > 0 <==> v in Values(rows, col)
  {
    var kept := Keep(rows, col, {v});
    if kept != [] {
      assert kept[0] in rows && col(kept[0]) == v;
    }
    if v in Values(rows, col) {
      var x :| x in rows && col(x) == v;
      assert x in kept;
    }
  }

  /** Rows with two different values in one column are disjoint, so their counts add up to at most the total. */
  lemma {:induction false} DisjointCounts<R>(rows: seq<R>, col: R -> string, a: string, b: string)
    requires a != b
    ensures Count(rows, col, a) + Count(rows, col, b) <= |rows|
  {
    if rows != [] {
      DisjointCounts(rows[1..], col, a, b);
    }
  }

  /**
   * `df[col].value_counts()` as a table from value to frequency: the values
   * that occur, each with the number of rows holding it.
   */
  function ValueCounts<R(==)>(rows: seq<R>, col: R -> string): (freq: map<string, nat>)
    ensures freq.Keys == Values(rows, col)
    ensures forall v :: v in freq ==> freq[v] == Count(rows, col, v) && freq[v] > 0
  {
    if rows == [] then map[]
    else
      var rest := ValueCounts(rows[1..], col);
      BumpStep(rows, col, rest);
      Bump(rest, col(rows[0]))
  }

  /** One more occurrence of `v`: its frequency goes up by one, from zero if absent. */
  function Bump(freq: map<string, nat>, v: string): map<string, nat>
  {
    freq[v := (if v in freq then freq[v] else 0) + 1]
  }

  /** Counting the first row's value in the table of the remaining rows gives the table of all rows. */
  lemma BumpStep<R>(rows: seq<R>, col: R -> string, rest: map<string, nat>)
    requires rows != []
    requires rest.Keys == Values(rows[1..], col)
    requires forall v :: v in rest ==> rest[v] == Count(rows[1..], col, v) && rest[v] > 0
    ensures Bump(rest, col(rows[0])).Keys == Values(rows, col)
    ensures forall v :: v in Bump(rest, col(rows[0])) ==>
              Bump(rest, col(rows[0]))[v] == Count(rows, col, v) && Bump(rest, col(rows[0]))[v] > 0
  {
    var h := col(rows[0]);
    ValuesCons(rows, col);
    if h !in rest {
      CountPositive(rows[1..], col, h);
    }
    forall v | v in Bump(rest, h)
      ensures Bump(rest, h)[v] == Count(rows, col, v)
    {
      CountCons(rows, col, v);
    }
  }

  /** Sum of the frequencies in a table. */
  ghost function Total(freq: map<string, nat>): nat
    decreases |freq|
  {
    if freq == map[] then 0
    else
      var v :| v in freq;
      freq[v] + Total(freq - {v})
  }

  /** `Total` may take out any one entry first. */
  lemma {:induction false} TotalRemove(freq: map<string, nat>, v: string)
    requires v in freq
    ensures Total(freq) == freq[v] + Total(freq - {v})
    decreases |freq|
  {
    var u :| u in freq && Total(freq) == freq[u] + Total(freq - {u});
    if u != v {
      var rest := freq - {u};
      TotalRemove(rest, v);
      TotalRemove(freq - {v}, u);
      assert rest - {v} == freq - {v} - {u};
    }
  }

  /** Adding one to the frequency of `v` (a new entry if absent) adds one to the total. */
  lemma TotalIncrement(freq: map<string, nat>, v: string)
    ensures Total(Bump(freq, v)) == Total(freq) + 1
  {
    var n := if v in freq then freq[v] else 0;
    var bumped := Bump(freq, v);
    TotalRemove(bumped, v);
    assert bumped - {v} == freq - {v};
    if v in freq {
      TotalRemove(freq, v);
    } else {
      assert freq - {v} == freq;
    }
  }

  /** The frequencies of a column account for every row exactly once. */
  lemma {:induction false} ValueCountsTotal<R>(rows: seq<R>, col: R -> string)
    ensures Total(ValueCounts(rows, col)) == |rows|
  {
    if rows != [] {
      var rest := ValueCounts(rows[1..], col);
      assert ValueCounts(rows, col) == Bump(rest, col(rows[0]));
      ValueCountsTotal(rows[1..], col);
      TotalIncrement(rest, col(rows[0]));
    }
  }
  /** The column as a list, `list(df[col])`. */
  function Column<R>(rows: seq<R>, col: R -> string): (column: seq<string>)
    ensures |column| == |rows|
    ensures forall i :: 0 <= i < |rows| ==> column[i] == col(rows[i])
  {
    if rows == [] then [] else [col(rows[0])] + Column(rows[1..], col)
  }

  /** A count is the multiplicity of the value in the column. */
  lemma {:induction false} CountIsMultiplicity<R>(rows: seq<R>, col: R -> string, v: string)
    ensures Count(rows, col, v) == multiset(Column(rows, col))[v]
  {
    if rows != [] {
      CountIsMultiplicity(rows[1..], col, v);
      assert Column(rows, col) == [col(rows[0])] + Column(rows[1..], col);
      assert Keep(rows, col, {v}) == (if col(rows[0]) in {v} then [rows[0]] else []) + Keep(rows[1..], col, {v});
    }
  }

  /** Each frequency of `value_counts` is the multiplicity of its value, and together they cover every row. */
  lemma ValueCountsMultiplicity<R>(rows: seq<R>, col: R -> string)
    ensures forall v :: v in ValueCounts(rows, col) ==> ValueCounts(rows, col)[v] == multiset(Column(rows, col))[v]
    ensures Total(ValueCounts(rows, col)) == |rows|
  {
    forall v | v in ValueCounts(rows, col)
      ensures ValueCounts(rows, col)[v] == multiset(Column(rows, col))[v]
    {
      CountIsMultiplicity(rows, col, v);
    }
    ValueCountsTotal(rows, col);
  }

  /** The first row's value joins the values of the remaining rows. */
  lemma ValuesCons<R>(rows: seq<R>, col: R -> string)
    requires rows != []
    ensures Values(rows, col) == Values(rows[1..], col) + {col(rows[0])}
  {
    forall u | u in Values(rows, col) ensures u in Values(rows[1..], col) + {col(rows[0])} {
      var x :| x in rows && col(x) == u;
      if x != rows[0] {
        assert x in rows[1..];
      }
    }
    forall u | u in Values(rows[1..], col) ensures u in Values(rows, col) {
      var x :| x in rows[1..] && col(x) == u;
      assert x in rows;
    }
  }

  /** One sidebar multiselect: a column and the values picked in it. */
  datatype Criterion<!R> = Criterion(col: R -> string, sel: set<string>)

  /** An empty selection places no restriction on its column. */
  predicate Allows(sel: set<string>, v: string)
  {
    sel == {} || v in sel
  }

  /** A row passes every selection in the chain. */
  predicate Meets<R>(criteria: seq<Criterion<R>>, r: R)
  {
    forall i :: 0 <= i < |criteria| ==> Allows(criteria[i].sel, criteria[i].col(r))
  }

  /**
   * What a chain of `if sel: df = df[df[col].isin(sel)]` steps should leave:
   * the rows that pass every selection, in their original order.
   */
  function Narrow<R(==,!new)>(rows: seq<R>, criteria: seq<Criterion<R>>): (kept: seq<R>)
    ensures |kept| <= |rows|
    ensures forall r :: r in kept <==> r in rows && Meets(criteria, r)
  {
    if rows == [] then []
    else (if Meets(criteria, rows[0]) then [rows[0]] else []) + Narrow(rows[1..], criteria)
  }

  /** With no selection made, every row is kept. */
  lemma {:induction false} NarrowUnrestricted<R(!new)>(rows: seq<R>, criteria: seq<Criterion<R>>)
    requires forall i :: 0 <= i < |criteria| ==> criteria[i].sel == {}
    ensures Narrow(rows, criteria) == rows
  {
    if rows != [] {
      NarrowUnrestricted(rows[1..], criteria);
      assert Meets(criteria, rows[0]);
    }
  }

  /** A non-empty selection that no row's value matches leaves no row. */
  lemma {:induction false} NarrowExcludes<R(!new)>(rows: seq<R>, criteria: seq<Criterion<R>>, i: nat)
    requires i < |criteria| && criteria[i].sel != {} && criteria[i].sel !! Values(rows, criteria[i].col)
    ensures Narrow(rows, criteria) == []
  {
    if rows != [] {
      ValuesCons(rows, criteria[i].col);
      assert !Allows(criteria[i].sel, criteria[i].col(rows[0]));
      NarrowExcludes(rows[1..], criteria, i);
    }
  }

  /** Narrowing is an order-preserving selection: it distributes over concatenation. */
  lemma {:induction false} NarrowAppend<R(!new)>(xs: seq<R>, ys: seq<R>, criteria: seq<Criterion<R>>)
    ensures Narrow(xs + ys, criteria) == Narrow(xs, criteria) + Narrow(ys, criteria)
  {
    if xs != [] {
      var head := if Meets(criteria, xs[0]) then [xs[0]] else [];
      assert Narrow(xs + ys, criteria) == head + Narrow(xs[1..] + ys, criteria) by {
        assert (xs + ys)[0] == xs[0] && (xs + ys)[1..] == xs[1..] + ys;
      }
      assert Narrow(xs, criteria) == head + Narrow(xs[1..], criteria);
      NarrowAppend(xs[1..], ys, criteria);
      assert head + (Narrow(xs[1..], criteria) + Narrow(ys, criteria))
          == (head + Narrow(xs[1..], criteria)) + Narrow(ys, criteria);
    } else {
      assert xs + ys == ys;
    }
  }

  /**
   * One step of the chain: applying the next selection with `isin` when it is
   * non-empty, or skipping it when it is empty, extends the chain by it.
   */
  lemma {:induction false} NarrowStep<R(!new)>(rows: seq<R>, criteria: seq<Criterion<R>>, c: Criterion<R>)
    ensures c.sel != {} ==> Keep(Narrow(rows, criteria), c.col, c.sel) == Narrow(rows, criteria + [c])
    ensures c.sel == {} ==> Narrow(rows, criteria + [c]) == Narrow(rows, criteria)
  {
    if rows != [] {
      NarrowStep(rows[1..], criteria, c);
      var r := rows[0];
      assert Meets(criteria + [c], r) <==> Meets(criteria, r) && Allows(c.sel, c.col(r)) by {
        assert forall i :: 0 <= i < |criteria| ==> (criteria + [c])[i] == criteria[i];
        assert (criteria + [c])[|criteria|] == c;
      }
      var head := if Meets(criteria, r) then [r] else [];
      assert Narrow(rows, criteria) == head + Narrow(rows[1..], criteria);
      KeepAppend(head, Narrow(rows[1..], criteria), c.col, c.sel);
    }
  }
}
