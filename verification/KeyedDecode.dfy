/**
What the decoder builds from a document: src/pxf/decode_fast.cc, the meaning of message
bodies, lists and keyed blocks. Scalars and message literals are read by functions that may be
anything.
 */
module KeyedDecode {
  import opened Options
  import opened KeyedAst

  /** A bound field: null, a scalar, a string, a message, an Any of a named type, a list or a map. */
  datatype Bound =
    | NullB
    | ScalarB(x: string)
    | StrB(s: string)
    | MsgB(fields: map<string, Bound>)
    | AnyB(url: string, fields: map<string, Bound>)
    | LiteralB(x: string)
    | ListB(xs: seq<Bound>)
    | MapB(entries: map<string, Bound>)

  type Msg = map<string, Bound>

  /** How scalars, literals and map keys read, which type a URL names, which fields take null, and the limits. */
  datatype Rules = Rules(
    scalar: (string, Value) -> Option<string>,
    literal: (string, Value) -> Option<string>,
    mapKey: (string, bool, string) -> Option<string>,
    resolve: string -> Option<string>,
    nullable: FieldDesc -> bool,
    utf8: string -> bool,
    discardUnknown: bool,
    maxDepth: nat,
    maxRepeated: nat)

  datatype Ctx = Ctx(schema: Schema, rules: Rules)

  /** The body of an element of a keyed field: its key field, and its name in the block form. */
  datatype KeyedElem = NoElem | Elem(key: FieldDesc, name: Option<string>)

  /** A body so far: what it bound, the oneofs it set, and the singular fields it bound. */
  datatype Body = Body(msg: Msg, oneofs: set<string>, scope: set<string>)

  // ---- Checks on one binding ----

  /** A binding that would undo an entry's name: null on the key, or another member of its oneof. */
  predicate KeyConflict(ke: KeyedElem, fd: FieldDesc, isNull: bool) {
    ke.Elem? && ke.name.Some?
    && if fd.name == ke.key.name then isNull else fd.oneof.Some? && fd.oneof == ke.key.oneof
  }

  /** An explicit key that is empty, or that disagrees with the entry's name. */
  predicate BadKey(ke: KeyedElem, fd: FieldDesc, v: Value) {
    ke.Elem? && fd.name == ke.key.name && v.StrVal?
    && (v.s == "" || (ke.name.Some? && v.s != ke.name.value))
  }

  /** Each oneof is set once, and each singular field bound once. */
  function Claim(b: Body, fd: FieldDesc): Option<Body> {
    if fd.oneof.Some? && fd.oneof.value in b.oneofs then None
    else if !IsRepeated(fd.kind) && fd.name in b.scope then None
    else Some(b.(oneofs := if fd.oneof.Some? then b.oneofs + {fd.oneof.value} else b.oneofs,
                 scope := if IsRepeated(fd.kind) then b.scope else b.scope + {fd.name}))
  }

  function Set(b: Body, name: string, x: Bound): Body {
    b.(msg := b.msg[name := x])
  }

  function Items(had: Option<Bound>): seq<Bound> {
    if had.Some? && had.value.ListB? then had.value.xs else []
  }

  function Pairs(had: Option<Bound>): map<string, Bound> {
    if had.Some? && had.value.MapB? then had.value.entries else map[]
  }

  function Get(msg: Msg, name: string): Option<Bound> {
    if name in msg then Some(msg[name]) else None
  }

  // ---- Bodies ----

  /** A message body: its entries in order. */
  function Run(c: Ctx, m: string, es: seq<Entry>, ke: KeyedElem, b: Body, depth: nat): Option<Body>
    decreases es, 0
  {
    if es == [] then Some(b)
    else
      match Step(c, m, es[0], ke, b, depth)
      case None => None
      case Some(next) => Run(c, m, es[1..], ke, next, depth)
  }

  /** A block one level down, from the fields already set. */
  function SubBody(c: Ctx, m: string, es: seq<Entry>, ke: KeyedElem, start: Msg, depth: nat): Option<Bound>
    decreases es, 1
  {
    if depth >= c.rules.maxDepth then None
    else
      match Run(c, m, es, ke, Body(start, {}, {}), depth + 1)
      case None => None
      case Some(b) => Some(MsgB(b.msg))
  }

  predicate IsTyped(m: string, es: seq<Entry>) {
    m == ANY && es != [] && es[0].TypeEntry?
  }

  /** The body of a message; that of an Any which opens with its type holds a message of that type. */
  function MessageBody(c: Ctx, m: string, es: seq<Entry>, ke: KeyedElem, depth: nat): Option<Bound>
    decreases es, 2
  {
    if !IsTyped(m, es) then SubBody(c, m, es, ke, map[], depth)
    else
      match c.rules.resolve(es[0].url)
      case None => None
      case Some(t) =>
        match SubBody(c, t, es[1..], if t == ANY then ke else NoElem, map[], depth)
        case Some(MsgB(fields)) => Some(AnyB(es[0].url, fields))
        case _ => None
  }

  function Step(c: Ctx, m: string, e: Entry, ke: KeyedElem, b: Body, depth: nat): Option<Body>
    decreases e
  {
    match e
    case MapEntry(_, _, _) => None
    case TypeEntry(_) => None
    case Assign(key, quoted, value) =>
      if quoted then None
      else
        (match FindField(c.schema, m, key)
         case None => if c.rules.discardUnknown then Some(b) else None
         case Some(fd) =>
           if KeyConflict(ke, fd, value.NullVal?) then None
           else
             match Claim(b, fd)
             case None => None
             case Some(b1) =>
               if value.NullVal? then
                 if !IsRepeated(fd.kind) && c.rules.nullable(fd) then Some(Set(b1, fd.name, NullB)) else None
               else if BadKey(ke, fd, value) then None
               else
                 match Bind(c, fd, value, Get(b1.msg, fd.name), depth)
                 case None => None
                 case Some(x) => Some(Set(b1, fd.name, x)))
    case Block(name, quoted, entries) =>
      if quoted then None
      else
        (match FindField(c.schema, m, name)
         case None => if c.rules.discardUnknown then Some(b) else None
         case Some(fd) =>
           match fd.kind
           case RepeatedMessage(_, _) =>
             (match KeyField(c.schema, fd)
              case None => None
              case Some(key) =>
                match KeyedBlock(c, fd, key, entries, Items(Get(b.msg, fd.name)), depth)
                case None => None
                case Some(x) => Some(Set(b, fd.name, x)))
           case Message(sub) =>
             if KeyConflict(ke, fd, false) then None
             else
               (match Claim(b, fd)
                case None => None
                case Some(b1) =>
                  match MessageBody(c, sub, entries, NoElem, depth)
                  case None => None
                  case Some(x) => Some(Set(b1, fd.name, x)))
           case _ => None)
  }

  // ---- Values ----

  function Bind(c: Ctx, fd: FieldDesc, v: Value, had: Option<Bound>, depth: nat): Option<Bound>
    decreases v
  {
    match fd.kind
    case Scalar(t) => ScalarOf(c, t, v)
    case Str => if v.StrVal? && c.rules.utf8(v.s) then Some(StrB(v.s)) else None
    case Message(m) => if v.BlockVal? then MessageBody(c, m, v.entries, NoElem, depth) else LiteralOf(c, m, v)
    case RepeatedScalar(t) =>
      if v.ListVal? && depth < c.rules.maxDepth then ListItems(c, fd, v.elements, Items(had), depth + 1) else None
    case RepeatedMessage(_, _) =>
      if v.BlockVal? && KeyField(c.schema, fd).Some? then
        KeyedBlock(c, fd, KeyField(c.schema, fd).value, v.entries, Items(had), depth)
      else if v.ListVal? && depth < c.rules.maxDepth then ListItems(c, fd, v.elements, Items(had), depth + 1)
      else None
    case MapOfScalar(_) =>
      if v.BlockVal? && depth < c.rules.maxDepth then MapItems(c, fd, v.entries, Pairs(had), depth + 1) else None
    case MapOfMessage(_) =>
      if v.BlockVal? && depth < c.rules.maxDepth then MapItems(c, fd, v.entries, Pairs(had), depth + 1) else None
  }

  function ScalarOf(c: Ctx, t: string, v: Value): Option<Bound> {
    match c.rules.scalar(t, v)
    case None => None
    case Some(x) => Some(ScalarB(x))
  }

  function LiteralOf(c: Ctx, m: string, v: Value): Option<Bound> {
    match c.rules.literal(m, v)
    case None => None
    case Some(x) => Some(LiteralB(x))
  }

  /** The elements of a list, appended to those already there. */
  function ListItems(c: Ctx, fd: FieldDesc, vs: seq<Value>, xs: seq<Bound>, depth: nat): Option<Bound>
    decreases vs
  {
    if vs == [] then Some(ListB(xs))
    else if |xs| >= c.rules.maxRepeated || vs[0].NullVal? then None
    else
      match ListItem(c, fd, vs[0], depth)
      case None => None
      case Some(x) => ListItems(c, fd, vs[1..], xs + [x], depth)
  }

  function ListItem(c: Ctx, fd: FieldDesc, v: Value, depth: nat): Option<Bound>
    decreases v
  {
    match fd.kind
    case RepeatedScalar(t) => ScalarOf(c, t, v)
    case RepeatedMessage(m, _) =>
      if v.BlockVal? then
        var key := KeyField(c.schema, fd);
        MessageBody(c, m, v.entries, if key.Some? then Elem(key.value, None) else NoElem, depth)
      else LiteralOf(c, m, v)
    case _ => None
  }

  /** A keyed field written as a block goes one level down. */
  function KeyedBlock(c: Ctx, fd: FieldDesc, key: FieldDesc, es: seq<Entry>, xs: seq<Bound>, depth: nat): Option<Bound>
    decreases es, 1
  {
    if depth >= c.rules.maxDepth then None else KeyedItems(c, fd, key, es, xs, {}, depth + 1)
  }

  /** The name and body of a keyed block's entry, in either spelling. */
  function NamedBody(e: Entry): Option<(string, seq<Entry>)> {
    match e
    case Block(name, _, es) => Some((name, es))
    case Assign(name, _, BlockVal(es)) => Some((name, es))
    case _ => None
  }

  /** Named entries: each name is the element's key, used once in the block. */
  function KeyedItems(c: Ctx, fd: FieldDesc, key: FieldDesc, es: seq<Entry>, xs: seq<Bound>, seen: set<string>,
                      depth: nat): Option<Bound>
    decreases es, 0
  {
    if es == [] then Some(ListB(xs))
    else
      match NamedBody(es[0])
      case None => None
      case Some((name, body)) =>
        if name in seen || |xs| >= c.rules.maxRepeated then None
        else
          match KeyedItem(c, fd, key, name, body, depth)
          case None => None
          case Some(x) => KeyedItems(c, fd, key, es[1..], xs + [x], seen + {name}, depth)
  }

  /** An element whose name binds its key field before its body is read; an Any here has its own fields only. */
  function KeyedItem(c: Ctx, fd: FieldDesc, key: FieldDesc, name: string, body: seq<Entry>, depth: nat): Option<Bound>
    decreases body, 2
  {
    if name == "" || !c.rules.utf8(name) || !fd.kind.RepeatedMessage? then None
    else SubBody(c, fd.kind.m, body, Elem(key, Some(name)), map[key.name := StrB(name)], depth)
  }

  function MapItems(c: Ctx, fd: FieldDesc, es: seq<Entry>, ps: map<string, Bound>, depth: nat): Option<Bound>
    decreases es
  {
    if es == [] then Some(MapB(ps))
    else if !es[0].MapEntry? || |ps| >= c.rules.maxRepeated then None
    else
      match c.rules.mapKey(fd.name, es[0].quoted, es[0].key)
      case None => None
      case Some(k) =>
        if k in ps || es[0].value.NullVal? then None
        else
          match MapItem(c, fd, es[0].value, depth)
          case None => None
          case Some(x) => MapItems(c, fd, es[1..], ps[k := x], depth)
  }

  function MapItem(c: Ctx, fd: FieldDesc, v: Value, depth: nat): Option<Bound>
    decreases v
  {
    match fd.kind
    case MapOfScalar(t) => ScalarOf(c, t, v)
    case MapOfMessage(m) => if v.BlockVal? then MessageBody(c, m, v.entries, NoElem, depth) else LiteralOf(c, m, v)
    case _ => None
  }

  /** A whole document. */
  function Decode(c: Ctx, m: string, es: seq<Entry>): Option<Msg> {
    match Run(c, m, es, NoElem, Body(map[], {}, {}), 0)
    case None => None
    case Some(b) => Some(b.msg)
  }
}
