/** Statement values on their way into a table: what preparing them guarantees. */
module SqlPrepare {
  import opened ItemLists
  import opened Json
  import opened SqlModel
  import opened SqlStores

  /** JSON objects have distinct keys; so do all a statement or a schema brings. */
  ghost predicate SchemaProper(s: Schema) {
    forall i :: 0 <= i < |s.columns| && s.columns[i].default.Some? ==> Proper(s.columns[i].default.value)
  }

  ghost predicate ProperAll(vs: seq<Value>) { forall i :: 0 <= i < |vs| ==> Proper(vs[i]) }

  ghost predicate StatementProper(q: Statement) {
    match q
    case Create(_, columns, pk) => SchemaProper(Schema(columns, pk))
    case Insert(_, _, values) => forall i :: 0 <= i < |values| ==> ProperAll(values[i])
    case Update(_, sets, _) => forall i :: 0 <= i < |sets| ==> Proper(sets[i].value)
    case _ => true
  }

  lemma CoerceProper(loc: Locale, s: Schema, c: Column, v: Value)
    requires Proper(v) && Coerce(loc, s, c, v).Good?
    ensures Proper(Coerce(loc, s, c, v).value)
  {
  }

  lemma {:induction false} GivenProper(loc: Locale, s: Schema, cs: seq<Column>, vs: seq<Value>, i: nat, row: Row)
    requires i <= |cs| == |vs| && ProperAll(vs) && RowProper(row) && FillGiven(loc, s, cs, vs, i, row).Good?
    ensures RowProper(FillGiven(loc, s, cs, vs, i, row).value)
    decreases |cs| - i
  {
    if i < |cs| {
      CoerceProper(loc, s, cs[i], vs[i]);
      GivenProper(loc, s, cs, vs, i + 1, row[cs[i].name := Coerce(loc, s, cs[i], vs[i]).value]);
    }
  }

  lemma {:induction false} DefaultsProper(loc: Locale, s: Schema, i: nat, row: Row)
    requires i <= |s.columns| && SchemaProper(s) && RowProper(row) && FillDefaults(loc, s, i, row).Good?
    ensures RowProper(FillDefaults(loc, s, i, row).value)
    decreases |s.columns| - i
  {
    if i < |s.columns| {
      var c := s.columns[i];
      if c.name in row {
        DefaultsProper(loc, s, i + 1, row);
      } else {
        var d := if c.default.Some? then c.default.value else Null;
        CoerceProper(loc, s, c, d);
        DefaultsProper(loc, s, i + 1, row[c.name := Coerce(loc, s, c, d).value]);
      }
    }
  }

  lemma {:induction false} RowsPrepared(loc: Locale, s: Schema, cs: seq<Column>, values: seq<seq<Value>>, i: nat)
    requires i <= |values| && SchemaProper(s) && PrepareRows(loc, s, cs, values, i).Good?
    requires forall j :: 0 <= j < |values| ==> ProperAll(values[j])
    ensures var rows := PrepareRows(loc, s, cs, values, i).value; forall j :: 0 <= j < |rows| ==> RowProper(rows[j])
    decreases |values| - i
  {
    hide FillGiven, FillDefaults, RowProper;
    if i < |values| {
      RowsPrepared(loc, s, cs, values, i + 1);
      EmptyProper();
      GivenProper(loc, s, cs, values[i], 0, map[]);
      DefaultsProper(loc, s, 0, FillGiven(loc, s, cs, values[i], 0, map[]).value);
    }
  }

  lemma EmptyProper()
    ensures RowProper(map[])
  {
  }

  /** Assignments to different columns, in order, with storable values. */
  ghost predicate SetsReady(sets: seq<Assignment>) {
    && (forall i :: 0 <= i < |sets| ==> Proper(sets[i].value))
    && forall i, j :: 0 <= i < j < |sets| ==> sets[i].column != sets[j].column
  }

  lemma {:induction false} SetsPrepared(loc: Locale, s: Schema, sets: seq<Assignment>, i: nat)
    requires i <= |sets| && PrepareSet(loc, s, sets, i).Good?
    requires forall j :: 0 <= j < |sets| ==> Proper(sets[j].value)
    ensures var r := PrepareSet(loc, s, sets, i).value;
      SetsReady(r) && |r| == |sets| - i && forall j :: 0 <= j < |r| ==> r[j].column == sets[i + j].column
    ensures forall j, k :: 0 <= j < k && i <= k < |sets| ==> sets[j].column != sets[k].column
    decreases |sets| - i
  {
    if i < |sets| {
      CoerceProper(loc, s, ColumnOf(s, sets[i].column, 0).value, sets[i].value);
      SetsPrepared(loc, s, sets, i + 1);
    }
  }

  lemma {:induction false} AssignProper(row: Row, sets: seq<Assignment>)
    requires RowProper(row) && SetsReady(sets)
    ensures RowProper(Assign(row, sets))
  {
    if sets != [] {
      AssignProper(row, sets[..|sets| - 1]);
    }
  }
}
