/** JSON values, their text as JSON.stringify writes it, and UTF-8 sizes of UTF-16 strings. */
module Json {
  import opened Decimals

  /** One UTF-16 code unit. */
  type CodeUnit = x: int | 0 <= x < 0x10000 witness 0
  type Str = seq<CodeUnit>

  datatype Value =
    | Null
    | Bool(b: bool)
    | Num(n: int)
    | Text(s: Str)
    | Arr(elems: Elems)
    | Obj(members: Members)

  datatype Elems = NoElems | Elem(head: Value, tail: Elems)

  /** Object members in insertion order. */
  datatype Members = NoMembers | Member(key: Str, value: Value, tail: Members)

  predicate High(c: CodeUnit) { 0xD800 <= c <= 0xDBFF }
  predicate Low(c: CodeUnit) { 0xDC00 <= c <= 0xDFFF }

  /** A surrogate pair stands at position i. */
  predicate PairAt(s: Str, i: nat)
    requires i < |s|
  {
    High(s[i]) && i + 1 < |s| && Low(s[i + 1])
  }

  /** UTF-8 bytes of s[i..]; a lone surrogate is written as U+FFFD. */
  function Utf8From(s: Str, i: nat): nat
    requires i <= |s|
    decreases |s| - i
  {
    if i == |s| then 0
    else if PairAt(s, i) then 4 + Utf8From(s, i + 2)
    else (if s[i] < 0x80 then 1 else if s[i] < 0x800 then 2 else 3) + Utf8From(s, i + 1)
  }

  function Utf8Length(s: Str): nat { Utf8From(s, 0) }

  function HexDigit(d: int): CodeUnit
    requires 0 <= d < 16
  {
    if d < 10 then 48 + d else 87 + d
  }

  /** One code unit outside a surrogate pair inside a JSON string literal. */
  function EscapeUnit(c: CodeUnit): Str {
    if c == 34 then [92, 34]
    else if c == 92 then [92, 92]
    else if c == 8 then [92, 98]
    else if c == 9 then [92, 116]
    else if c == 10 then [92, 110]
    else if c == 12 then [92, 102]
    else if c == 13 then [92, 114]
    else if c < 32 || High(c) || Low(c) then
      [92, 117, HexDigit(c / 4096), HexDigit(c / 256 % 16), HexDigit(c / 16 % 16), HexDigit(c % 16)]
    else [c]
  }

  function EscapeFrom(s: Str, i: nat): Str
    requires i <= |s|
    decreases |s| - i
  {
    if i == |s| then []
    else if PairAt(s, i) then [s[i], s[i + 1]] + EscapeFrom(s, i + 2)
    else EscapeUnit(s[i]) + EscapeFrom(s, i + 1)
  }

  function Quote(s: Str): Str { [34] + EscapeFrom(s, 0) + [34] }

  const NULL: Str := [110, 117, 108, 108]
  const TRUE: Str := [116, 114, 117, 101]
  const FALSE: Str := [102, 97, 108, 115, 101]

  function Stringify(v: Value): Str
    decreases v, 1
  {
    match v
    case Null => NULL
    case Bool(b) => if b then TRUE else FALSE
    case Num(n) => Decimal(n)
    case Text(s) => Quote(s)
    case Arr(xs) => [91] + StringifyElems(xs) + [93]
    case Obj(ms) => [123] + StringifyMembers(ms) + [125]
  }

  function StringifyElems(xs: Elems): Str
    decreases xs, 0
  {
    match xs
    case NoElems => []
    case Elem(h, t) => Stringify(h) + (if t.NoElems? then [] else [44] + StringifyElems(t))
  }

  function StringifyMembers(ms: Members): Str
    decreases ms, 0
  {
    match ms
    case NoMembers => []
    case Member(k, v, t) =>
      Quote(k) + [58] + Stringify(v) + (if t.NoMembers? then [] else [44] + StringifyMembers(t))
  }

  /** Nesting below the root: a scalar has depth 0. */
  function Depth(v: Value): nat
    decreases v, 1
  {
    match v
    case Arr(xs) => ElemsDepth(xs)
    case Obj(ms) => MembersDepth(ms)
    case _ => 0
  }

  function ElemsDepth(xs: Elems): nat
    decreases xs, 0
  {
    match xs case NoElems => 0 case Elem(h, t) => Max(1 + Depth(h), ElemsDepth(t))
  }

  function MembersDepth(ms: Members): nat
    decreases ms, 0
  {
    match ms case NoMembers => 0 case Member(_, v, t) => Max(1 + Depth(v), MembersDepth(t))
  }

  function Nodes(v: Value): nat
    decreases v, 1
  {
    match v
    case Arr(xs) => 1 + ElemsNodes(xs)
    case Obj(ms) => 1 + MembersNodes(ms)
    case _ => 1
  }

  function ElemsNodes(xs: Elems): nat
    decreases xs, 0
  {
    match xs case NoElems => 0 case Elem(h, t) => Nodes(h) + ElemsNodes(t)
  }

  function MembersNodes(ms: Members): nat
    decreases ms, 0
  {
    match ms case NoMembers => 0 case Member(_, v, t) => Nodes(v) + MembersNodes(t)
  }

  const MAX_JSON_DEPTH := 128
  const MAX_JSON_NODES := 1_000_000
  const CLONE_BYTES := 64 * 1024 * 1024

  /** The values cloneJsonValue accepts under a byte budget; JsonBudget proves that it does. */
  predicate Clones(v: Value, maxBytes: nat) {
    Depth(v) <= MAX_JSON_DEPTH && Nodes(v) <= MAX_JSON_NODES && Utf8Length(Stringify(v)) <= maxBytes
  }

  /** Structural equality: object member order does not matter. */
  predicate Same(a: Value, b: Value)
    decreases a, 1
  {
    match (a, b)
    case (Arr(xs), Arr(ys)) => SameElems(xs, ys)
    case (Obj(ms), Obj(ns)) => Keys(ms) == Keys(ns) && SameMembers(ms, ns)
    case _ => a == b
  }

  predicate SameElems(xs: Elems, ys: Elems)
    decreases xs, 0
  {
    match (xs, ys)
    case (NoElems, NoElems) => true
    case (Elem(x, xt), Elem(y, yt)) => Same(x, y) && SameElems(xt, yt)
    case _ => false
  }

  /** Every member of ms has an equal counterpart in ns. */
  predicate SameMembers(ms: Members, ns: Members)
    decreases ms, 0
  {
    match ms
    case NoMembers => true
    case Member(k, v, t) => k in Keys(ns) && Same(v, At(ns, k)) && SameMembers(t, ns)
  }

  function Keys(ms: Members): set<Str> {
    match ms case NoMembers => {} case Member(k, _, t) => {k} + Keys(t)
  }

  function At(ms: Members, k: Str): Value
    requires k in Keys(ms)
  {
    match ms case Member(key, v, t) => if key == k then v else At(t, k)
  }

  /** Objects have distinct keys at every level. */
  predicate Proper(v: Value)
    decreases v, 1
  {
    match v case Arr(xs) => ProperElems(xs) case Obj(ms) => ProperMembers(ms) case _ => true
  }

  predicate ProperElems(xs: Elems)
    decreases xs, 0
  {
    match xs case NoElems => true case Elem(h, t) => Proper(h) && ProperElems(t)
  }

  predicate ProperMembers(ms: Members)
    decreases ms, 0
  {
    match ms case NoMembers => true case Member(k, v, t) => k !in Keys(t) && Proper(v) && ProperMembers(t)
  }
}
