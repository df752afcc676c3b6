/** SQL statements and their meaning on tables without any index. */
module SqlModel {
  import opened Decimals
  import opened ItemLists
  import opened Json
  import opened Ordering
  import Like

  datatype Kind = AnyKind | StringKind | NumberKind | BooleanKind
  datatype Column = Column(name: Str, kind: Kind, nullable: bool, default: Option<Value>)
  datatype Schema = Schema(columns: seq<Column>, primaryKey: Option<Str>)

  type Row = map<Str, Value>
  type Rows = Items<nat, Row>
  datatype Table = Table(schema: Schema, rows: Rows, nextRowId: nat)
  datatype Db = Db(tables: map<Str, Table>, storedRows: int, storedBytes: int)

  datatype Expr = Literal(v: Value) | ColumnRef(name: Str)
  datatype Op = Eq | Ne | Gt | Ge | Lt | Le | LikeOp | In | Between
  datatype Operand = One(e: Expr) | Many(es: seq<Expr>)
  datatype Where =
    | And(left: Where, right: Where)
    | Or(left: Where, right: Where)
    | Not(clause: Where)
    | IsNull(e: Expr)
    | IsNotNull(e: Expr)
    | Compare(lhs: Expr, op: Op, rhs: Operand)

  datatype OrderBy = OrderBy(column: Str, descending: bool)
  datatype Assignment = Assignment(column: Str, value: Value)

  datatype Statement =
    | Create(table: Str, columns: seq<Column>, primaryKey: Option<Str>)
    | Insert(table: Str, into: seq<Str>, values: seq<seq<Value>>)
    | Select(table: Str, fields: Option<seq<Str>>, where: Option<Where>, orderBy: Option<OrderBy>,
             limit: Option<nat>, offset: Option<nat>)
    | Update(table: Str, sets: seq<Assignment>, where: Option<Where>)
    | Delete(table: Str, where: Option<Where>)
    | Drop(table: Str)

  datatype Fault =
    | TableNotFound | TableExists | ColumnNotFound | DuplicateColumn | RowArity | PrimaryKeyConstraint
    | NotNullConstraint | TypeConstraint | BadValue | LimitExceeded

  datatype Outcome = Done(affected: nat) | Result(fields: seq<Str>, rows: seq<Row>) | Failed(fault: Fault)

  datatype OrFault<+T> = Good(value: T) | Bad(fault: Fault)

  datatype Limits = Limits(maxRows: nat, maxBytes: nat, maxResultRows: nat, maxResultBytes: nat, maxTables: nat)

  /** What the host supplies: lower-casing, localeCompare, and Number() of a text when it is finite
      and the text is not blank. */
  datatype Locale = Locale(lower: Str -> Str, collate: (Str, Str) -> int, toNumber: Str -> Option<int>)

  function Field(row: Row, c: Str): Value { if c in row then row[c] else Null }

  // ---- three-valued WHERE ----

  function Eval(row: Row, e: Expr): Value {
    match e case Literal(v) => v case ColumnRef(n) => Field(row, n)
  }

  function EvalAll(row: Row, es: seq<Expr>, i: nat): Elems
    requires i <= |es|
    decreases |es| - i
  {
    if i == |es| then NoElems else Elem(Eval(row, es[i]), EvalAll(row, es, i + 1))
  }

  /** A list of expressions becomes an array, as does one expression whose value is an array. */
  function EvalOperand(row: Row, o: Operand): Value {
    match o case One(e) => Eval(row, e) case Many(es) => Arr(EvalAll(row, es, 0))
  }

  const OBJECT: Str := [91, 111, 98, 106, 101, 99, 116, 32, 79, 98, 106, 101, 99, 116, 93]

  /** String(v). */
  function ToText(v: Value): Str
    decreases v, 1
  {
    match v
    case Null => NULL
    case Bool(b) => if b then TRUE else FALSE
    case Num(n) => Decimal(n)
    case Text(s) => s
    case Arr(xs) => JoinText(xs)
    case Obj(_) => OBJECT
  }

  function JoinText(xs: Elems): Str
    decreases xs, 0
  {
    match xs
    case NoElems => []
    case Elem(h, t) => (if h.Null? then [] else ToText(h)) + (if t.NoElems? then [] else [44] + JoinText(t))
  }

  /** Element i, Null when there is none. */
  function Nth(xs: Elems, i: nat): Value {
    match xs case NoElems => Null case Elem(h, t) => if i == 0 then h else Nth(t, i - 1)
  }

  function CompareValues(loc: Locale, a: Value, b: Value): int {
    var c := if b.Arr? then Nth(b.elems, 0) else b;
    if a.Null? then -1
    else if c.Null? then 1
    else if a.Num? && c.Num? then a.n - c.n
    else loc.collate(ToText(a), ToText(c))
  }

  /** a IN xs. */
  function OneOf(a: Value, xs: Elems): Option<bool> {
    match xs
    case NoElems => Some(false)
    case Elem(h, t) =>
      if !h.Null? && Same(a, h) then Some(true)
      else if h.Null? && OneOf(a, t) == Some(false) then None
      else OneOf(a, t)
  }

  function Both(a: Option<bool>, b: Option<bool>): Option<bool> {
    if a == Some(false) || b == Some(false) then Some(false) else if a.None? || b.None? then None else Some(true)
  }

  function Inside(loc: Locale, a: Value, low: Value, high: Value): Option<bool> {
    Both(if low.Null? then None else Some(CompareValues(loc, a, low) >= 0),
         if high.Null? then None else Some(CompareValues(loc, a, high) <= 0))
  }

  function Comparison(loc: Locale, a: Value, op: Op, b: Value): Option<bool> {
    if a.Null? then None
    else if b == Arr(NoElems) then Some(false)
    else if b.Arr? && op == In then OneOf(a, b.elems)
    else if b.Arr? && op == Between then Inside(loc, a, Nth(b.elems, 0), Nth(b.elems, 1))
    else if b.Null? then None
    else match op
      case Eq => Some(!b.Arr? && Same(a, b))
      case Ne => Some(!b.Arr? && !Same(a, b))
      case Gt => Some(CompareValues(loc, a, b) > 0)
      case Ge => Some(CompareValues(loc, a, b) >= 0)
      case Lt => Some(CompareValues(loc, a, b) < 0)
      case Le => Some(CompareValues(loc, a, b) <= 0)
      case LikeOp => Some(Like.Taken(loc.lower(ToText(a)), loc.lower(ToText(b)), 0, 0))
      case _ => Some(false)
  }

  function Truth(loc: Locale, row: Row, w: Where): Option<bool> {
    match w
    case And(l, r) => Both(Truth(loc, row, l), Truth(loc, row, r))
    case Or(l, r) =>
      var a, b := Truth(loc, row, l), Truth(loc, row, r);
      if a == Some(true) || b == Some(true) then Some(true) else if a.None? || b.None? then None else Some(false)
    case Not(c) => (match Truth(loc, row, c) case None => None case Some(b) => Some(!b))
    case IsNull(e) => Some(Eval(row, e).Null?)
    case IsNotNull(e) => Some(!Eval(row, e).Null?)
    case Compare(l, op, r) => Comparison(loc, Eval(row, l), op, EvalOperand(row, r))
  }

  /** The row is kept: no WHERE, or one that is TRUE. */
  predicate Keeps(loc: Locale, row: Row, w: Option<Where>) { w.None? || Truth(loc, row, w.value) == Some(true) }

  // ---- ORDER BY ----

  function Rank(v: Value): int {
    match v case Num(_) => 0 case Text(_) => 1 case Bool(_) => 2 case Arr(_) => 3 case _ => 4
  }

  /** Nulls last, then by type, then by value. */
  function CompareOrder(loc: Locale, a: Value, b: Value): int {
    if a.Null? || b.Null? then if a.Null? && b.Null? then 0 else if a.Null? then 1 else -1
    else if Rank(a) != Rank(b) then Rank(a) - Rank(b)
    else match a
      case Num(n) => if n < b.n then -1 else if n > b.n then 1 else 0
      case Text(s) => loc.collate(s, b.s)
      case Bool(x) => if x == b.b then 0 else if x then 1 else -1
      case _ => loc.collate(Stringify(a), Stringify(b))
  }

  function CompareRows(loc: Locale, o: OrderBy, a: (nat, Row), b: (nat, Row)): int {
    var x, y := Field(a.1, o.column), Field(b.1, o.column);
    var c := CompareOrder(loc, x, y);
    var d := if c != 0 && !x.Null? && !y.Null? && o.descending then -c else c;
    if d != 0 then d else a.0 - b.0
  }

  function RowOrder(loc: Locale, o: OrderBy): ((nat, Row), (nat, Row)) -> int {
    (a, b) => CompareRows(loc, o, a, b)
  }

  // ---- the naive query ----

  function Kept(loc: Locale, rows: Rows, w: Option<Where>): Rows {
    if rows == [] then []
    else
      var last := rows[|rows| - 1];
      Kept(loc, rows[..|rows| - 1], w) + if Keeps(loc, last.1, w) then [last] else []
  }

  function Window<T>(s: seq<T>, skip: nat, take: nat): seq<T> {
    var from := if skip < |s| then skip else |s|;
    var upto := if skip + take < |s| then skip + take else |s|;
    s[from..upto]
  }

  /** Filter in row-id order, sort, drop OFFSET, take LIMIT. */
  function Query(loc: Locale, rows: Rows, q: Statement, take: nat): Rows
    requires q.Select?
  {
    var kept := Kept(loc, rows, q.where);
    var sorted := if q.orderBy.Some? then Sort(RowOrder(loc, q.orderBy.value), kept) else kept;
    Window(sorted, if q.offset.Some? then q.offset.value else 0, take)
  }

  function Project(row: Row, fields: seq<Str>): Row { map c | c in fields :: Field(row, c) }

  function ProjectAll(rows: Rows, fields: seq<Str>): seq<Row> {
    seq(|rows|, i requires 0 <= i < |rows| => Project(rows[i].1, fields))
  }

  /** The result bytes of one row. */
  function FieldBytes(row: Row, fields: seq<Str>, i: nat): nat
    requires i <= |fields|
    decreases |fields| - i
  {
    if i == |fields| then 3
    else
      Utf8Length(Quote(fields[i])) + Utf8Length(Stringify(Field(row, fields[i]))) + 2 + FieldBytes(row, fields, i + 1)
  }

  function ResultBytes(rows: Rows, fields: seq<Str>, i: nat): nat
    requires i <= |rows|
    decreases |rows| - i
  {
    if i == |rows| then 0 else FieldBytes(rows[i].1, fields, 0) + ResultBytes(rows, fields, i + 1)
  }

  predicate RowClones(row: Row, fields: seq<Str>) {
    forall i :: 0 <= i < |fields| ==> Clones(Field(row, fields[i]), CLONE_BYTES)
  }

  predicate ResultFits(limits: Limits, rows: Rows, fields: seq<Str>) {
    && (rows == [] || 2 + ResultBytes(rows, fields, 0) <= limits.maxResultBytes)
    && forall i :: 0 <= i < |rows| ==> RowClones(rows[i].1, fields)
  }

  function Names(s: Schema): seq<Str> { seq(|s.columns|, i requires 0 <= i < |s.columns| => s.columns[i].name) }

  predicate Known(s: Schema, c: Str) { c in Names(s) }

  predicate KnownExpr(s: Schema, e: Expr) { e.Literal? || Known(s, e.name) }

  predicate KnownWhere(s: Schema, w: Where) {
    match w
    case And(l, r) => KnownWhere(s, l) && KnownWhere(s, r)
    case Or(l, r) => KnownWhere(s, l) && KnownWhere(s, r)
    case Not(c) => KnownWhere(s, c)
    case IsNull(e) => KnownExpr(s, e)
    case IsNotNull(e) => KnownExpr(s, e)
    case Compare(l, _, One(e)) => KnownExpr(s, l) && KnownExpr(s, e)
    case Compare(l, _, Many(es)) => KnownExpr(s, l) && forall i :: 0 <= i < |es| ==> KnownExpr(s, es[i])
  }

  predicate KnownFilter(s: Schema, w: Option<Where>) { w.None? || KnownWhere(s, w.value) }

  predicate KnownQuery(s: Schema, q: Statement)
    requires q.Select?
  {
    && (q.fields.Some? ==> forall i :: 0 <= i < |q.fields.value| ==> Known(s, q.fields.value[i]))
    && (q.orderBy.Some? ==> Known(s, q.orderBy.value.column))
    && KnownFilter(s, q.where)
  }

  function Take(limits: Limits, q: Statement): nat
    requires q.Select?
  {
    if q.limit.Some? then q.limit.value else limits.maxResultRows + 1
  }

  function Fields(s: Schema, q: Statement): seq<Str>
    requires q.Select?
  {
    if q.fields.Some? then q.fields.value else Names(s)
  }

  function DoSelect(limits: Limits, loc: Locale, t: Table, q: Statement): Outcome
    requires q.Select?
  {
    if !KnownQuery(t.schema, q) then Failed(ColumnNotFound)
    else
      var rows := Query(loc, t.rows, q, Take(limits, q));
      var fields := Fields(t.schema, q);
      if |rows| > limits.maxResultRows || !ResultFits(limits, rows, fields) then Failed(LimitExceeded)
      else Result(fields, ProjectAll(rows, fields))
  }

  // ---- values on their way into a table ----

  function Coerce(loc: Locale, s: Schema, c: Column, v: Value): OrFault<Value> {
    if v.Null? then
      if s.primaryKey == Some(c.name) then Bad(PrimaryKeyConstraint)
      else if !c.nullable then Bad(NotNullConstraint)
      else Good(Null)
    else match c.kind
      case AnyKind => if Clones(v, CLONE_BYTES) then Good(v) else Bad(BadValue)
      case StringKind => if v.Text? then Good(v) else Bad(TypeConstraint)
      case NumberKind =>
        if v.Num? then Good(v)
        else if v.Text? && loc.toNumber(v.s).Some? then Good(Num(loc.toNumber(v.s).value))
        else Bad(TypeConstraint)
      case BooleanKind =>
        if v.Bool? then Good(v)
        else if v.Text? && loc.lower(v.s) == TRUE then Good(Bool(true))
        else if v.Text? && loc.lower(v.s) == FALSE then Good(Bool(false))
        else Bad(TypeConstraint)
  }

  function ColumnOf(s: Schema, name: Str, i: nat): Option<Column>
    requires i <= |s.columns|
    decreases |s.columns| - i
  {
    if i == |s.columns| then None
    else if s.columns[i].name == name then Some(s.columns[i])
    else ColumnOf(s, name, i + 1)
  }

  /** The named columns in order; all of them when none is named. */
  function Targets(s: Schema, into: seq<Str>, i: nat): OrFault<seq<Column>>
    requires i <= |into|
    decreases |into| - i
  {
    if i == |into| then Good(if into == [] then s.columns else [])
    else if into[i] in into[..i] then Bad(DuplicateColumn)
    else match ColumnOf(s, into[i], 0)
      case None => Bad(ColumnNotFound)
      case Some(c) =>
        match Targets(s, into, i + 1) case Bad(f) => Bad(f) case Good(cs) => Good([c] + cs)
  }

  function FillGiven(loc: Locale, s: Schema, cs: seq<Column>, vs: seq<Value>, i: nat, row: Row): OrFault<Row>
    requires i <= |cs| == |vs|
    decreases |cs| - i
  {
    if i == |cs| then Good(row)
    else match Coerce(loc, s, cs[i], vs[i])
      case Bad(f) => Bad(f)
      case Good(v) => FillGiven(loc, s, cs, vs, i + 1, row[cs[i].name := v])
  }

  function FillDefaults(loc: Locale, s: Schema, i: nat, row: Row): OrFault<Row>
    requires i <= |s.columns|
    decreases |s.columns| - i
  {
    if i == |s.columns| then Good(row)
    else
      var c := s.columns[i];
      if c.name in row then FillDefaults(loc, s, i + 1, row)
      else match Coerce(loc, s, c, if c.default.Some? then c.default.value else Null)
        case Bad(f) => Bad(f)
        case Good(v) => FillDefaults(loc, s, i + 1, row[c.name := v])
  }

  function PrepareRow(loc: Locale, s: Schema, cs: seq<Column>, vs: seq<Value>): OrFault<Row> {
    if |vs| != |cs| then Bad(RowArity)
    else match FillGiven(loc, s, cs, vs, 0, map[])
      case Bad(f) => Bad(f)
      case Good(row) => FillDefaults(loc, s, 0, row)
  }

  function PrepareRows(loc: Locale, s: Schema, cs: seq<Column>, values: seq<seq<Value>>, i: nat): OrFault<seq<Row>>
    requires i <= |values|
    decreases |values| - i
  {
    if i == |values| then Good([])
    else match PrepareRow(loc, s, cs, values[i])
      case Bad(f) => Bad(f)
      case Good(row) =>
        match PrepareRows(loc, s, cs, values, i + 1) case Bad(f) => Bad(f) case Good(rows) => Good([row] + rows)
  }

  function PrepareSet(loc: Locale, s: Schema, sets: seq<Assignment>, i: nat): OrFault<seq<Assignment>>
    requires i <= |sets|
    decreases |sets| - i
  {
    if i == |sets| then Good([])
    else if exists j :: 0 <= j < i && sets[j].column == sets[i].column then Bad(DuplicateColumn)
    else match ColumnOf(s, sets[i].column, 0)
      case None => Bad(ColumnNotFound)
      case Some(c) =>
        match Coerce(loc, s, c, sets[i].value)
        case Bad(f) => Bad(f)
        case Good(v) =>
          match PrepareSet(loc, s, sets, i + 1)
          case Bad(f) => Bad(f)
          case Good(rest) => Good([Assignment(sets[i].column, v)] + rest)
  }

  function Assign(row: Row, sets: seq<Assignment>): Row {
    if sets == [] then row else Assign(row, sets[..|sets| - 1])[sets[|sets| - 1].column := sets[|sets| - 1].value]
  }

  // ---- row sizes and keys ----

  function RowMembers(s: Schema, row: Row, i: nat): Members
    requires i <= |s.columns|
    decreases |s.columns| - i
  {
    if i == |s.columns| then NoMembers
    else Member(s.columns[i].name, Field(row, s.columns[i].name), RowMembers(s, row, i + 1))
  }

  function RowBytes(s: Schema, row: Row): nat { Utf8Length(Stringify(Obj(RowMembers(s, row, 0)))) }

  function TotalBytes(s: Schema, rows: Rows): nat {
    if rows == [] then 0 else TotalBytes(s, rows[..|rows| - 1]) + RowBytes(s, rows[|rows| - 1].1)
  }

  /** No two rows have structurally equal primary keys. */
  predicate UniqueKeys(s: Schema, rows: Rows) {
    s.primaryKey.Some? ==> forall i, j :: 0 <= i < j < |rows| ==>
      !Same(Field(rows[i].1, s.primaryKey.value), Field(rows[j].1, s.primaryKey.value))
  }

  // ---- statements that change a table ----

  function Appended(rows: Rows, id: nat, added: seq<Row>): Rows {
    rows + seq(|added|, i requires 0 <= i < |added| => (id + i, added[i]))
  }

  function Updated(loc: Locale, rows: Rows, w: Option<Where>, sets: seq<Assignment>): Rows {
    seq(|rows|, i requires 0 <= i < |rows| =>
      (rows[i].0, if Keeps(loc, rows[i].1, w) then Assign(rows[i].1, sets) else rows[i].1))
  }

  function Unmatched(loc: Locale, rows: Rows, w: Option<Where>): Rows {
    if rows == [] then []
    else
      var last := rows[|rows| - 1];
      Unmatched(loc, rows[..|rows| - 1], w) + if Keeps(loc, last.1, w) then [] else [last]
  }

  /** A table with the database's totals, and what the statement answers. */
  datatype Effect = Effect(table: Table, storedRows: int, storedBytes: int, outcome: Outcome)

  /** The new rows of a table are put in place, if they fit. */
  function Stored(limits: Limits, before: Effect, t: Table, affected: nat): Effect {
    var s := t.schema;
    var rows := before.storedRows - |before.table.rows| + |t.rows|;
    var bytes := before.storedBytes - TotalBytes(s, before.table.rows) + TotalBytes(s, t.rows);
    if rows > limits.maxRows || bytes > limits.maxBytes then before.(outcome := Failed(LimitExceeded))
    else Effect(t, rows, bytes, Done(affected))
  }

  function InsertInto(limits: Limits, loc: Locale, before: Effect, into: seq<Str>, values: seq<seq<Value>>): Effect {
    var t := before.table;
    match Targets(t.schema, into, 0)
    case Bad(f) => before.(outcome := Failed(f))
    case Good(cs) =>
      match PrepareRows(loc, t.schema, cs, values, 0)
      case Bad(f) => before.(outcome := Failed(f))
      case Good(added) =>
        var rows := Appended(t.rows, t.nextRowId, added);
        if !UniqueKeys(t.schema, rows) then before.(outcome := Failed(PrimaryKeyConstraint))
        else if t.nextRowId + |added| > MAX_SAFE then before.(outcome := Failed(LimitExceeded))
        else Stored(limits, before, t.(rows := rows, nextRowId := t.nextRowId + |added|), |added|)
  }

  function UpdateIn(limits: Limits, loc: Locale, before: Effect, assignments: seq<Assignment>, w: Option<Where>)
    : Effect
  {
    var t := before.table;
    if !KnownFilter(t.schema, w) then before.(outcome := Failed(ColumnNotFound))
    else match PrepareSet(loc, t.schema, assignments, 0)
      case Bad(f) => before.(outcome := Failed(f))
      case Good(sets) =>
        var rows := Updated(loc, t.rows, w, sets);
        if !UniqueKeys(t.schema, rows) then before.(outcome := Failed(PrimaryKeyConstraint))
        else Stored(limits, before, t.(rows := rows), |Kept(loc, t.rows, w)|)
  }

  function DeleteFrom(loc: Locale, before: Effect, w: Option<Where>): Effect {
    var t := before.table;
    if !KnownFilter(t.schema, w) then before.(outcome := Failed(ColumnNotFound))
    else
      var rows := Unmatched(loc, t.rows, w);
      Effect(t.(rows := rows), before.storedRows - |t.rows| + |rows|,
             before.storedBytes - TotalBytes(t.schema, t.rows) + TotalBytes(t.schema, rows),
             Done(|Kept(loc, t.rows, w)|))
  }

  predicate DefaultsClone(columns: seq<Column>) {
    forall i :: 0 <= i < |columns| && columns[i].default.Some? ==> Clones(columns[i].default.value, CLONE_BYTES)
  }

  function DoCreate(limits: Limits, db: Db, q: Statement): (Db, Outcome)
    requires q.Create?
  {
    if q.table in db.tables then (db, Failed(TableExists))
    else if |db.tables| >= limits.maxTables then (db, Failed(LimitExceeded))
    else if !DefaultsClone(q.columns) then (db, Failed(BadValue))
    else (db.(tables := db.tables[q.table := Table(Schema(q.columns, q.primaryKey), [], 0)]), Done(0))
  }

  function DoDrop(db: Db, q: Statement): (Db, Outcome)
    requires q.Drop? && q.table in db.tables
  {
    var t := db.tables[q.table];
    (Db(db.tables - {q.table}, db.storedRows - |t.rows|, db.storedBytes - TotalBytes(t.schema, t.rows)), Done(0))
  }

  /** A statement on one existing table. */
  function OnTable(limits: Limits, loc: Locale, before: Effect, q: Statement): Effect
    requires !q.Create? && !q.Drop?
  {
    match q
    case Insert(_, into, values) => InsertInto(limits, loc, before, into, values)
    case Update(_, sets, w) => UpdateIn(limits, loc, before, sets, w)
    case Delete(_, w) => DeleteFrom(loc, before, w)
    case Select(_, _, _, _, _, _) => before.(outcome := DoSelect(limits, loc, before.table, q))
  }

  function Execute(limits: Limits, loc: Locale, db: Db, q: Statement): (Db, Outcome) {
    if q.Create? then DoCreate(limits, db, q)
    else if q.table !in db.tables then (db, Failed(TableNotFound))
    else if q.Drop? then DoDrop(db, q)
    else
      var e := OnTable(limits, loc, Effect(db.tables[q.table], db.storedRows, db.storedBytes, Done(0)), q);
      (Db(db.tables[q.table := e.table], e.storedRows, e.storedBytes), e.outcome)
  }
}
