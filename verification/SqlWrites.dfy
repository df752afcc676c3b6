/** What INSERT, UPDATE and DELETE leave in a table, row by row and column by column. */
module SqlWrites {
  import opened Decimals
  import opened ItemLists
  import opened Json
  import opened Ordering
  import opened SqlModel
  import opened SqlQueries
  import opened SqlChanges
  import opened SqlMeaning

  // ---- one value into one column ----

  /** x is v as the column's type takes it: unchanged, or read out of a text. */
  ghost predicate TakenAs(loc: Locale, kind: Kind, v: Value, x: Value) {
    match kind
    case AnyKind => x == v && Clones(v, CLONE_BYTES)
    case StringKind => x == v && v.Text?
    case NumberKind => x.Num? && (x == v || (v.Text? && loc.toNumber(v.s) == Some(x.n)))
    case BooleanKind => x.Bool? && (x == v || (v.Text? && loc.lower(v.s) == if x.b then TRUE else FALSE))
  }

  /** Column c of a table stores v as x. Null goes into nullable columns that are not the key. */
  ghost predicate StoredAs(loc: Locale, s: Schema, c: Column, v: Value, x: Value) {
    if v.Null? then x.Null? && c.nullable && s.primaryKey != Some(c.name)
    else TakenAs(loc, c.kind, v, x)
  }

  lemma TextsDiffer()
    ensures TRUE != FALSE
  {
    assert TRUE[0] != FALSE[0];
  }

  /** A value is accepted exactly when some stored form exists, which is then the only one; the refusal
      says whether the key, a required column or the type is at fault. */
  lemma CoerceMeans(loc: Locale, s: Schema, c: Column, v: Value)
    ensures forall x :: Coerce(loc, s, c, v) == Good(x) <==> StoredAs(loc, s, c, v, x)
    ensures Coerce(loc, s, c, v).Bad? && v.Null? ==>
      Coerce(loc, s, c, v).fault == if s.primaryKey == Some(c.name) then PrimaryKeyConstraint else NotNullConstraint
    ensures Coerce(loc, s, c, v).Bad? && !v.Null? ==>
      Coerce(loc, s, c, v).fault == if c.kind.AnyKind? then BadValue else TypeConstraint
  {
    hide Clones;
    TextsDiffer();
  }

  // ---- one row ----

  function NamesOf(cs: seq<Column>): seq<Str> { seq(|cs|, i requires 0 <= i < |cs| => cs[i].name) }

  /** No column after position i has its name. */
  ghost predicate LastNamed(cs: seq<Column>, i: nat)
    requires i < |cs|
  {
    forall j :: i < j < |cs| ==> cs[j].name != cs[i].name
  }

  /** No column from position i up to j has the name of column j. */
  ghost predicate FirstFrom(cs: seq<Column>, i: nat, j: nat)
    requires j < |cs|
  {
    forall l :: i <= l < j ==> cs[l].name != cs[j].name
  }

  function DefaultOf(c: Column): Value { if c.default.Some? then c.default.value else Null }

  /** The row an INSERT of the values vs into the columns cs makes: each target column holds its value,
      every other column its default or null, and there is nothing else in it. */
  ghost predicate RowMade(loc: Locale, s: Schema, cs: seq<Column>, vs: seq<Value>, row: Row) {
    && |vs| == |cs|
    && (forall c :: c in row <==> c in NamesOf(cs) || c in NamesOf(s.columns))
    && (forall i :: 0 <= i < |cs| && LastNamed(cs, i) ==>
          cs[i].name in row && StoredAs(loc, s, cs[i], vs[i], row[cs[i].name]))
    && forall i :: 0 <= i < |s.columns| && FirstFrom(s.columns, 0, i) && s.columns[i].name !in NamesOf(cs) ==>
         s.columns[i].name in row
         && StoredAs(loc, s, s.columns[i], DefaultOf(s.columns[i]), row[s.columns[i].name])
  }

  /** r is row with the columns cs from i on given the values vs, the last of each name. */
  ghost predicate Given(loc: Locale, s: Schema, cs: seq<Column>, vs: seq<Value>, i: nat, row: Row, r: Row)
    requires i <= |cs| == |vs|
  {
    && (forall c :: c in r <==> c in row || c in NamesOf(cs)[i..])
    && (forall c :: c in row && c !in NamesOf(cs)[i..] ==> r[c] == row[c])
    && forall j :: i <= j < |cs| && LastNamed(cs, j) ==>
         cs[j].name in r && Coerce(loc, s, cs[j], vs[j]) == Good(r[cs[j].name])
  }

  lemma GivenOne(loc: Locale, s: Schema, cs: seq<Column>, vs: seq<Value>, i: nat, row: Row, v: Value, r: Row)
    requires i < |cs| == |vs| && Coerce(loc, s, cs[i], vs[i]) == Good(v)
    requires Given(loc, s, cs, vs, i + 1, row[cs[i].name := v], r)
    ensures Given(loc, s, cs, vs, i, row, r)
  {
    hide Coerce;
    assert NamesOf(cs)[i..] == [cs[i].name] + NamesOf(cs)[i + 1..];
    if LastNamed(cs, i) { assert cs[i].name !in NamesOf(cs)[i + 1..]; }
  }

  lemma {:induction false} GivenMeans(loc: Locale, s: Schema, cs: seq<Column>, vs: seq<Value>, i: nat, row: Row)
    requires i <= |cs| == |vs|
    ensures var r := FillGiven(loc, s, cs, vs, i, row);
      && (r.Good? <==> forall j :: i <= j < |cs| ==> Coerce(loc, s, cs[j], vs[j]).Good?)
      && (r.Good? ==> Given(loc, s, cs, vs, i, row, r.value))
    decreases |cs| - i
  {
    hide Coerce, Given;
    if i == |cs| {
      NothingGiven(loc, s, cs, vs, row);
    } else if Coerce(loc, s, cs[i], vs[i]).Good? {
      var v := Coerce(loc, s, cs[i], vs[i]).value;
      GivenMeans(loc, s, cs, vs, i + 1, row[cs[i].name := v]);
      var r := FillGiven(loc, s, cs, vs, i, row);
      if r.Good? { GivenOne(loc, s, cs, vs, i, row, v, r.value); }
    }
  }

  lemma NothingGiven(loc: Locale, s: Schema, cs: seq<Column>, vs: seq<Value>, row: Row)
    requires |cs| == |vs|
    ensures Given(loc, s, cs, vs, |cs|, row, row)
  {
  }

  lemma {:induction false} DefaultsMean(loc: Locale, s: Schema, i: nat, row: Row)
    requires i <= |s.columns|
    ensures var cs, r := s.columns, FillDefaults(loc, s, i, row);
      && (r.Good? ==>
            && (forall c :: c in r.value <==> c in row || c in NamesOf(cs)[i..])
            && (forall c :: c in row ==> r.value[c] == row[c])
            && forall j :: i <= j < |cs| && FirstFrom(cs, i, j) && cs[j].name !in row ==>
                 cs[j].name in r.value && Coerce(loc, s, cs[j], DefaultOf(cs[j])) == Good(r.value[cs[j].name]))
      && (r.Bad? ==> exists j ::
            && i <= j < |cs| && FirstFrom(cs, i, j)
            && cs[j].name !in row && Coerce(loc, s, cs[j], DefaultOf(cs[j])).Bad?)
    decreases |s.columns| - i
  {
    hide Coerce;
    var cs := s.columns;
    if i < |cs| {
      assert NamesOf(cs)[i..] == [cs[i].name] + NamesOf(cs)[i + 1..];
      if cs[i].name in row {
        DefaultsMean(loc, s, i + 1, row);
        if FillDefaults(loc, s, i, row).Bad? { LaterDefault(loc, s, i, row, row); }
      } else if Coerce(loc, s, cs[i], DefaultOf(cs[i])).Good? {
        var next := row[cs[i].name := Coerce(loc, s, cs[i], DefaultOf(cs[i])).value];
        DefaultsMean(loc, s, i + 1, next);
        if FillDefaults(loc, s, i, row).Bad? { LaterDefault(loc, s, i, row, next); }
      }
    }
  }

  /** A default refused further on is refused seen from here. */
  lemma LaterDefault(loc: Locale, s: Schema, i: nat, row: Row, next: Row)
    requires i < |s.columns| && s.columns[i].name in next
    requires forall c :: c in next <==> c in row || c == s.columns[i].name
    requires var cs := s.columns; exists j ::
      && i + 1 <= j < |cs| && FirstFrom(cs, i + 1, j)
      && cs[j].name !in next && Coerce(loc, s, cs[j], DefaultOf(cs[j])).Bad?
    ensures var cs := s.columns; exists j ::
      && i <= j < |cs| && FirstFrom(cs, i, j)
      && cs[j].name !in row && Coerce(loc, s, cs[j], DefaultOf(cs[j])).Bad?
  {
    hide Coerce;
    var cs := s.columns;
    var j :| i + 1 <= j < |cs| && FirstFrom(cs, i + 1, j)
      && cs[j].name !in next && Coerce(loc, s, cs[j], DefaultOf(cs[j])).Bad?;
    assert FirstFrom(cs, i, j);
  }

  /** A row is made, and made as it should be, exactly when it has a value for each target column, every
      value can be stored, and so can the default of every column without one. */
  lemma PreparedRow(loc: Locale, s: Schema, cs: seq<Column>, vs: seq<Value>)
    ensures var r := PrepareRow(loc, s, cs, vs);
      && (r.Good? ==> RowMade(loc, s, cs, vs, r.value))
      && (r.Bad? ==>
            || (|vs| != |cs| && r.fault == RowArity)
            || (exists i :: 0 <= i < |cs| == |vs| && Coerce(loc, s, cs[i], vs[i]).Bad?)
            || (exists i :: 0 <= i < |s.columns| && FirstFrom(s.columns, 0, i) && s.columns[i].name !in NamesOf(cs)
                  && Coerce(loc, s, s.columns[i], DefaultOf(s.columns[i])).Bad?))
  {
    hide Coerce, StoredAs, FillGiven, FillDefaults;
    if |vs| == |cs| {
      GivenMeans(loc, s, cs, vs, 0, map[]);
      assert NamesOf(cs)[0..] == NamesOf(cs) && NamesOf(s.columns)[0..] == NamesOf(s.columns);
      var given := FillGiven(loc, s, cs, vs, 0, map[]);
      if given.Good? {
        DefaultsMean(loc, s, 0, given.value);
        forall c, v ensures forall x :: Coerce(loc, s, c, v) == Good(x) <==> StoredAs(loc, s, c, v, x) {
          CoerceMeans(loc, s, c, v);
        }
      }
    }
  }

  // ---- INSERT ----

  lemma {:induction false} PreparedRows(loc: Locale, s: Schema, cs: seq<Column>, values: seq<seq<Value>>, i: nat)
    requires i <= |values|
    ensures var r := PrepareRows(loc, s, cs, values, i);
      && (r.Good? ==>
            && |r.value| == |values| - i
            && forall j :: 0 <= j < |r.value| ==> RowMade(loc, s, cs, values[i + j], r.value[j]))
      && (r.Bad? ==> exists j :: i <= j < |values| && PrepareRow(loc, s, cs, values[j]) == Bad(r.fault))
    decreases |values| - i
  {
    hide PrepareRow, RowMade;
    if i < |values| {
      PreparedRow(loc, s, cs, values[i]);
      PreparedRows(loc, s, cs, values, i + 1);
    }
  }

  /** c is the column of the schema a statement means by a name. */
  ghost predicate Named(s: Schema, name: Str, c: Column) {
    exists i :: 0 <= i < |s.columns| && s.columns[i] == c && c.name == name && FirstFrom(s.columns, 0, i)
  }

  lemma {:induction false} ColumnOfMeans(s: Schema, name: Str, i: nat)
    requires i <= |s.columns| && forall l :: 0 <= l < i ==> s.columns[l].name != name
    ensures var r := ColumnOf(s, name, i);
      && (r.Some? ==> Named(s, name, r.value))
      && (r.None? <==> name !in NamesOf(s.columns))
    decreases |s.columns| - i
  {
    if i < |s.columns| {
      if s.columns[i].name != name {
        ColumnOfMeans(s, name, i + 1);
      } else {
        assert FirstFrom(s.columns, 0, i) && NamesOf(s.columns)[i] == name;
      }
    }
  }

  /** Target columns, in the order named; all of the table, in its order, when none is named. */
  ghost predicate TargetsAre(s: Schema, into: seq<Str>, cs: seq<Column>) {
    if into == [] then cs == s.columns
    else
      && |cs| == |into| && (forall i :: 0 <= i < |into| ==> Named(s, into[i], cs[i]))
      && forall i, j :: 0 <= i < j < |into| ==> into[i] != into[j]
  }

  /** The name at j is why the target columns are refused. */
  predicate Misnamed(s: Schema, into: seq<Str>, j: nat, fault: Fault)
    requires j < |into|
  {
    if fault == DuplicateColumn then into[j] in into[..j] else fault == ColumnNotFound && into[j] !in NamesOf(s.columns)
  }

  lemma {:induction false} TargetsFrom(s: Schema, into: seq<Str>, i: nat)
    requires i <= |into| && into != []
    ensures var r := Targets(s, into, i);
      && (r.Good? ==>
            && |r.value| == |into| - i
            && (forall j :: i <= j < |into| ==> Named(s, into[j], r.value[j - i]) && into[j] !in into[..j]))
      && (r.Bad? ==> exists j :: i <= j < |into| && Misnamed(s, into, j, r.fault))
    decreases |into| - i
  {
    hide Named, ColumnOf;
    if i < |into| {
      ColumnOfMeans(s, into[i], 0);
      TargetsFrom(s, into, i + 1);
      if into[i] in into[..i] {
        assert Misnamed(s, into, i, DuplicateColumn);
      } else if ColumnOf(s, into[i], 0).None? {
        assert Misnamed(s, into, i, ColumnNotFound);
      }
    }
  }

  lemma TargetsMean(s: Schema, into: seq<Str>)
    ensures var r := Targets(s, into, 0);
      && (r.Good? ==> TargetsAre(s, into, r.value))
      && (r.Bad? ==> exists j :: 0 <= j < |into| && Misnamed(s, into, j, r.fault))
  {
    hide Named, ColumnOf;
    if into != [] {
      TargetsFrom(s, into, 0);
      forall i, j | 0 <= i < j < |into| && Targets(s, into, 0).Good? ensures into[i] != into[j] {
        assert into[j] !in into[..j] && into[..j][i] == into[i];
      }
    }
  }

  /** rows are those of t and, after them under the next ids, one made of each list of values. */
  ghost predicate RowsAdded(loc: Locale, t: Table, cs: seq<Column>, values: seq<seq<Value>>, rows: Rows) {
    && |rows| == |t.rows| + |values| && rows[..|t.rows|] == t.rows
    && forall i :: 0 <= i < |values| ==>
         && rows[|t.rows| + i].0 == t.nextRowId + i
         && RowMade(loc, t.schema, cs, values[i], rows[|t.rows| + i].1)
  }

  /** Why rows cannot take the place of those of the table. */
  predicate Unstorable(limits: Limits, before: Effect, rows: Rows, fault: Fault) {
    var s := before.table.schema;
    || (fault == PrimaryKeyConstraint && !UniqueKeys(s, rows))
    || (fault == LimitExceeded &&
        (|| before.storedRows - |before.table.rows| + |rows| > limits.maxRows
         || before.storedBytes - TotalBytes(s, before.table.rows) + TotalBytes(s, rows) > limits.maxBytes))
  }

  /** Why an INSERT is refused: a target column, a value, the rows that would result, or the ids run out. */
  ghost predicate InsertRefused(limits: Limits, loc: Locale, before: Effect, into: seq<Str>, values: seq<seq<Value>>,
                                fault: Fault) {
    var t := before.table;
    || (exists j :: 0 <= j < |into| && Misnamed(t.schema, into, j, fault))
    || (exists cs, j :: TargetsAre(t.schema, into, cs) && 0 <= j < |values|
          && PrepareRow(loc, t.schema, cs, values[j]) == Bad(fault))
    || (exists cs, rows :: TargetsAre(t.schema, into, cs) && RowsAdded(loc, t, cs, values, rows)
          && Unstorable(limits, before, rows, fault))
    || (fault == LimitExceeded && t.nextRowId + |values| > MAX_SAFE)
  }

  /** INSERT puts all its rows after those of the table, in order, under the next ids; or it is refused for
      cause and changes nothing. */
  ghost predicate InsertDoes(limits: Limits, loc: Locale, before: Effect, into: seq<Str>, values: seq<seq<Value>>,
                             e: Effect) {
    var t, u := before.table, e.table;
    if e.outcome.Failed? then
      e == before.(outcome := e.outcome) && InsertRefused(limits, loc, before, into, values, e.outcome.fault)
    else
      && e.outcome == Done(|values|) && u.schema == t.schema && u.nextRowId == t.nextRowId + |values|
      && exists cs :: TargetsAre(t.schema, into, cs) && RowsAdded(loc, t, cs, values, u.rows)
  }

  lemma InsertMeans(limits: Limits, loc: Locale, before: Effect, into: seq<Str>, values: seq<seq<Value>>)
    ensures InsertDoes(limits, loc, before, into, values, InsertInto(limits, loc, before, into, values))
  {
    hide Targets, PrepareRows, PrepareRow, RowMade, TargetsAre, UniqueKeys, TotalBytes, Misnamed;
    var t := before.table;
    TargetsMean(t.schema, into);
    var r := Targets(t.schema, into, 0);
    if r.Good? {
      PreparedRows(loc, t.schema, r.value, values, 0);
      var added := PrepareRows(loc, t.schema, r.value, values, 0);
      if added.Good? { assert RowsAdded(loc, t, r.value, values, Appended(t.rows, t.nextRowId, added.value)); }
    }
  }

  // ---- UPDATE ----

  /** b is assignment a with the value its column stores for it. */
  ghost predicate SetTaken(loc: Locale, s: Schema, a: Assignment, b: Assignment) {
    b.column == a.column && exists c :: Named(s, a.column, c) && StoredAs(loc, s, c, a.value, b.value)
  }

  ghost predicate SetsTaken(loc: Locale, s: Schema, given: seq<Assignment>, sets: seq<Assignment>) {
    && |sets| == |given|
    && (forall i, j :: 0 <= i < j < |given| ==> given[i].column != given[j].column)
    && forall i :: 0 <= i < |given| ==> SetTaken(loc, s, given[i], sets[i])
  }

  lemma OneTaken(loc: Locale, s: Schema, a: Assignment, c: Column, v: Value)
    requires ColumnOf(s, a.column, 0) == Some(c) && Coerce(loc, s, c, a.value) == Good(v)
    ensures SetTaken(loc, s, a, Assignment(a.column, v))
  {
    hide Named, ColumnOf, Coerce, StoredAs;
    ColumnOfMeans(s, a.column, 0);
    CoerceMeans(loc, s, c, a.value);
  }

  lemma {:induction false} SetFrom(loc: Locale, s: Schema, given: seq<Assignment>, i: nat)
    requires i <= |given| && PrepareSet(loc, s, given, i).Good?
    ensures var sets := PrepareSet(loc, s, given, i).value;
      && |sets| == |given| - i
      && (forall j, k :: 0 <= j < k < |given| && i <= k ==> given[j].column != given[k].column)
      && forall j :: i <= j < |given| ==> SetTaken(loc, s, given[j], sets[j - i])
    decreases |given| - i
  {
    hide ColumnOf, Coerce, SetTaken;
    if i < |given| {
      var c := ColumnOf(s, given[i].column, 0).value;
      OneTaken(loc, s, given[i], c, Coerce(loc, s, c, given[i].value).value);
      SetFrom(loc, s, given, i + 1);
    }
  }

  lemma TakenColumns(loc: Locale, s: Schema, given: seq<Assignment>, sets: seq<Assignment>)
    requires SetsTaken(loc, s, given, sets)
    ensures forall i, j :: 0 <= i < j < |sets| ==> sets[i].column != sets[j].column
  {
    hide Named, StoredAs;
    assert forall i :: 0 <= i < |sets| ==> sets[i].column == given[i].column;
  }

  /** Assignment j is why an UPDATE is refused. */
  ghost predicate Unassignable(loc: Locale, s: Schema, given: seq<Assignment>, j: nat, fault: Fault)
    requires j < |given|
  {
    || (fault == DuplicateColumn && exists l :: 0 <= l < j && given[l].column == given[j].column)
    || (fault == ColumnNotFound && given[j].column !in NamesOf(s.columns))
    || exists c :: Named(s, given[j].column, c) && Coerce(loc, s, c, given[j].value) == Bad(fault)
  }

  lemma {:induction false} SetRefused(loc: Locale, s: Schema, given: seq<Assignment>, i: nat)
    requires i <= |given| && PrepareSet(loc, s, given, i).Bad?
    ensures exists j :: i <= j < |given| && Unassignable(loc, s, given, j, PrepareSet(loc, s, given, i).fault)
    decreases |given| - i
  {
    hide Named, ColumnOf, Coerce;
    if i < |given| {
      ColumnOfMeans(s, given[i].column, 0);
      var fault := PrepareSet(loc, s, given, i).fault;
      if PrepareSet(loc, s, given, i + 1).Bad? { SetRefused(loc, s, given, i + 1); }
      if !Unassignable(loc, s, given, i, fault) {
        assert PrepareSet(loc, s, given, i + 1) == Bad(fault);
      }
    }
  }

  /** The row with the assigned columns changed to the assigned values, and nothing else. */
  ghost predicate RowChanged(row: Row, sets: seq<Assignment>, next: Row) {
    && (forall i :: 0 <= i < |sets| ==> sets[i].column in next && next[sets[i].column] == sets[i].value)
    && forall c :: Unassigned(sets, c) ==> (c in next <==> c in row) && (c in row ==> next[c] == row[c])
  }

  ghost predicate Unassigned(sets: seq<Assignment>, c: Str) { forall i :: 0 <= i < |sets| ==> sets[i].column != c }

  lemma {:induction false} AssignMeans(row: Row, sets: seq<Assignment>)
    requires forall i, j :: 0 <= i < j < |sets| ==> sets[i].column != sets[j].column
    ensures RowChanged(row, sets, Assign(row, sets))
  {
    if sets != [] {
      var n := |sets| - 1;
      AssignMeans(row, sets[..n]);
      AssignLast(row, sets[..n], sets[n], Assign(row, sets[..n]));
      assert sets == sets[..n] + [sets[n]];
    }
  }

  lemma AssignLast(row: Row, sets: seq<Assignment>, a: Assignment, next: Row)
    requires RowChanged(row, sets, next) && forall i :: 0 <= i < |sets| ==> sets[i].column != a.column
    ensures RowChanged(row, sets + [a], next[a.column := a.value])
  {
    var all := sets + [a];
    forall c | Unassigned(all, c) ensures Unassigned(sets, c) && c != a.column {
      assert all[|sets|] == a && forall i :: 0 <= i < |sets| ==> all[i] == sets[i];
    }
  }

  /** How many rows a WHERE clause makes true. */
  function Matching(loc: Locale, rows: Rows, w: Option<Where>): set<nat> {
    set i | 0 <= i < |rows| && (w.Some? ==> IsTrue(loc, rows[i].1, w.value))
  }

  lemma MatchingLast(loc: Locale, rows: Rows, w: Option<Where>)
    requires rows != []
    ensures var n := |rows| - 1;
      var rest := Matching(loc, rows[..n], w);
      n !in rest && Matching(loc, rows, w) == if Keeps(loc, rows[n].1, w) then rest + {n} else rest
  {
    hide Keeps, IsTrue;
    var n := |rows| - 1;
    KeepsMeans(loc, rows[n].1, w);
    assert forall i :: 0 <= i < n ==> rows[..n][i] == rows[i];
  }

  lemma {:induction false} KeptCount(loc: Locale, rows: Rows, w: Option<Where>)
    ensures |Kept(loc, rows, w)| == |Matching(loc, rows, w)|
    ensures |Kept(loc, rows, w)| + |Unmatched(loc, rows, w)| == |rows|
  {
    hide Keeps, Matching;
    if rows != [] {
      KeptCount(loc, rows[..|rows| - 1], w);
      MatchingLast(loc, rows, w);
    } else {
      NoneMatch(loc, rows, w);
    }
  }

  lemma NoneMatch(loc: Locale, rows: Rows, w: Option<Where>)
    requires rows == []
    ensures Matching(loc, rows, w) == {}
  {
  }

  /** rows are those of t, in the rows WHERE makes true exactly the assigned columns changed. */
  ghost predicate RowsChanged(loc: Locale, t: Table, sets: seq<Assignment>, w: Option<Where>, rows: Rows) {
    && |rows| == |t.rows|
    && forall i :: 0 <= i < |t.rows| ==>
         && rows[i].0 == t.rows[i].0
         && (if i in Matching(loc, t.rows, w) then RowChanged(t.rows[i].1, sets, rows[i].1)
             else rows[i].1 == t.rows[i].1)
  }

  /** Why an UPDATE is refused: a column of its WHERE, an assignment, or the rows that would result. */
  ghost predicate UpdateRefused(limits: Limits, loc: Locale, before: Effect, given: seq<Assignment>, w: Option<Where>,
                                fault: Fault) {
    var t := before.table;
    || (fault == ColumnNotFound && !KnownFilter(t.schema, w))
    || (exists j :: 0 <= j < |given| && Unassignable(loc, t.schema, given, j, fault))
    || exists sets, rows :: SetsTaken(loc, t.schema, given, sets) && RowsChanged(loc, t, sets, w, rows)
         && Unstorable(limits, before, rows, fault)
  }

  /** UPDATE changes exactly the rows its WHERE makes true, in them exactly the assigned columns, and counts
      them; or it is refused for cause and changes nothing. */
  ghost predicate UpdateDoes(limits: Limits, loc: Locale, before: Effect, given: seq<Assignment>, w: Option<Where>,
                             e: Effect) {
    var t, u := before.table, e.table;
    if e.outcome.Failed? then
      e == before.(outcome := e.outcome) && UpdateRefused(limits, loc, before, given, w, e.outcome.fault)
    else
      && e.outcome == Done(|Matching(loc, t.rows, w)|) && u == t.(rows := u.rows)
      && exists sets :: SetsTaken(loc, t.schema, given, sets) && RowsChanged(loc, t, sets, w, u.rows)
  }

  lemma UpdateMeans(limits: Limits, loc: Locale, before: Effect, given: seq<Assignment>, w: Option<Where>)
    ensures UpdateDoes(limits, loc, before, given, w, UpdateIn(limits, loc, before, given, w))
  {
    hide Keeps, IsTrue, Assign, RowChanged, UniqueKeys, TotalBytes, SetTaken, Kept, KnownFilter, Unassignable;
    var t := before.table;
    KeptCount(loc, t.rows, w);
    var r := PrepareSet(loc, t.schema, given, 0);
    if r.Good? {
      var sets, rows := r.value, Updated(loc, t.rows, w, r.value);
      SetFrom(loc, t.schema, given, 0);
      assert SetsTaken(loc, t.schema, given, sets);
      TakenColumns(loc, t.schema, given, sets);
      forall i | 0 <= i < |t.rows|
        ensures if i in Matching(loc, t.rows, w) then RowChanged(t.rows[i].1, sets, rows[i].1)
                else rows[i].1 == t.rows[i].1 {
        KeepsMeans(loc, t.rows[i].1, w);
        AssignMeans(t.rows[i].1, sets);
      }
      assert RowsChanged(loc, t, sets, w, rows);
    } else {
      SetRefused(loc, t.schema, given, 0);
    }
  }

  // ---- DELETE ----

  /** DELETE takes out exactly the rows its WHERE makes true, keeps the order of the rest, and counts them. */
  ghost predicate DeleteDoes(loc: Locale, before: Effect, w: Option<Where>, e: Effect) {
    var t, u := before.table, e.table;
    if !KnownFilter(t.schema, w) then e == before.(outcome := Failed(ColumnNotFound))
    else
      && e.outcome == Done(|Matching(loc, t.rows, w)|)
      && u == t.(rows := u.rows) && |u.rows| == |t.rows| - |Matching(loc, t.rows, w)| && IdsAscend(u.rows)
      && forall p :: p in u.rows <==> p in t.rows && !(w.Some? ==> IsTrue(loc, p.1, w.value))
  }

  lemma DeleteMeans(loc: Locale, before: Effect, w: Option<Where>)
    requires IdsAscend(before.table.rows)
    ensures DeleteDoes(loc, before, w, DeleteFrom(loc, before, w))
  {
    hide Keeps, IsTrue, Unmatched, Kept, TotalBytes, KnownFilter;
    var rows := before.table.rows;
    KeptCount(loc, rows, w);
    UnmatchedAscends(loc, rows, w);
    forall p ensures p in Unmatched(loc, rows, w) <==> p in rows && !(w.Some? ==> IsTrue(loc, p.1, w.value)) {
      UnmatchedHas(loc, rows, w, p);
      KeepsMeans(loc, p.1, w);
    }
  }

  // ---- statements ----

  /** A statement on an existing table does there what its kind does, and touches no other table. */
  lemma StatementMeans(limits: Limits, loc: Locale, db: Db, q: Statement)
    requires TotalPreorder(loc.collate)
    requires q.table in db.tables && IdsAscend(db.tables[q.table].rows) && !q.Create? && !q.Drop?
    ensures var (next, o) := Execute(limits, loc, db, q);
      && (forall name :: name in next.tables <==> name in db.tables)
      && (forall name :: name in db.tables && name != q.table ==> next.tables[name] == db.tables[name])
      && var before := Effect(db.tables[q.table], db.storedRows, db.storedBytes, Done(0));
         var e := Effect(next.tables[q.table], next.storedRows, next.storedBytes, o);
         match q
         case Insert(_, into, values) => InsertDoes(limits, loc, before, into, values, e)
         case Update(_, sets, w) => UpdateDoes(limits, loc, before, sets, w, e)
         case Delete(_, w) => DeleteDoes(loc, before, w, e)
         case Select(_, _, _, _, _, _) => e == before.(outcome := o) && SelectDoes(limits, loc, before.table, q, o)
  {
    hide InsertInto, UpdateIn, DeleteFrom, DoSelect, InsertDoes, UpdateDoes, DeleteDoes, SelectDoes, TotalPreorder;
    var before := Effect(db.tables[q.table], db.storedRows, db.storedBytes, Done(0));
    match q
    case Insert(_, into, values) => InsertMeans(limits, loc, before, into, values);
    case Update(_, sets, w) => UpdateMeans(limits, loc, before, sets, w);
    case Delete(_, w) => DeleteMeans(loc, before, w);
    case Select(_, _, _, _, _, _) => SelectMeans(limits, loc, before.table, q);
  }

  /** CREATE TABLE adds one empty table with the columns and key asked for, DROP TABLE takes out one table
      with all it counted; every other statement needs its table to exist. What is refused changes nothing. */
  lemma TablesMean(limits: Limits, loc: Locale, db: Db, q: Statement)
    ensures var (next, o) := Execute(limits, loc, db, q);
      && (q.Create? ==>
            if q.table in db.tables then next == db && o == Failed(TableExists)
            else if |db.tables| < limits.maxTables && DefaultsClone(q.columns) then
              && o == Done(0) && next.storedRows == db.storedRows && next.storedBytes == db.storedBytes
              && (forall n :: n in next.tables <==> n in db.tables || n == q.table)
              && (forall n :: n in db.tables ==> next.tables[n] == db.tables[n])
              && next.tables[q.table] == Table(Schema(q.columns, q.primaryKey), [], 0)
            else next == db && o.Failed?)
      && (q.Drop? && q.table in db.tables ==>
            && o == Done(0) && (forall n :: n in next.tables <==> n in db.tables && n != q.table)
            && (forall n :: n in next.tables ==> next.tables[n] == db.tables[n]))
      && (!q.Create? && q.table !in db.tables ==> next == db && o == Failed(TableNotFound))
  {
    hide OnTable, TotalBytes;
  }
}
