/**
PXF documents and their schemas, as far as keyed repeated fields go: include/protowire/pxf/ast.h
and src/pxf/annotations.cc. Comments and positions are not part of the model.
 */
module KeyedAst {
  import opened Options

  datatype Value =
    | StrVal(s: string)
    | NullVal
    | Atom(text: string)
    | ListVal(elements: seq<Value>)
    | BlockVal(entries: seq<Entry>)

  /** `key = value`, `key: value`, `name { ... }` and `@type = "url"`. */
  datatype Entry =
    | Assign(key: string, quoted: bool, value: Value)
    | MapEntry(key: string, quoted: bool, value: Value)
    | Block(name: string, quoted: bool, entries: seq<Entry>)
    | TypeEntry(url: string)

  // ---- Schemas ----

  datatype Kind =
    | Scalar(t: string)
    | Str
    | Message(m: string)
    | RepeatedScalar(t: string)
    | RepeatedMessage(m: string, key: Option<string>)
    | MapOfScalar(t: string)
    | MapOfMessage(m: string)

  datatype FieldDesc = FieldDesc(name: string, kind: Kind, oneof: Option<string>)

  /** Message types by name; a message may contain itself. */
  type Schema = map<string, seq<FieldDesc>>

  function DescOf(s: Schema, m: string): seq<FieldDesc> {
    if m in s then s[m] else []
  }

  function Find(d: seq<FieldDesc>, name: string): (r: Option<FieldDesc>)
    ensures r.Some? ==> r.value.name == name && r.value in d
  {
    if d == [] then None else if d[0].name == name then Some(d[0]) else Find(d[1..], name)
  }

  function FindField(s: Schema, m: string, name: string): (r: Option<FieldDesc>)
    ensures r.Some? ==> r.value.name == name
  {
    Find(DescOf(s, m), name)
  }

  predicate IsRepeated(k: Kind) {
    k.RepeatedScalar? || k.RepeatedMessage? || k.MapOfScalar? || k.MapOfMessage?
  }

  /** The message that holds one of any type: two singular fields, a type URL and bytes. */
  const ANY := "google.protobuf.Any"

  predicate IsPlain(k: Kind) {
    k.Scalar? || k.Str?
  }

  /** What protobuf itself ensures: a repeated field is in no oneof, and Any holds no messages. */
  predicate ValidSchema(s: Schema) {
    && (forall m :: m in s ==> forall i :: 0 <= i < |s[m]| && IsRepeated(s[m][i].kind) ==> s[m][i].oneof == None)
    && (ANY in s ==> forall i :: 0 <= i < |s[ANY]| ==> IsPlain(s[ANY][i].kind))
  }

  lemma AnyPlain(s: Schema, name: string)
    requires ValidSchema(s) && FindField(s, ANY, name).Some?
    ensures IsPlain(FindField(s, ANY, name).value.kind)
  {
    var fd := FindField(s, ANY, name).value;
    assert fd in s[ANY];
    var i :| 0 <= i < |s[ANY]| && s[ANY][i] == fd;
  }

  lemma RepeatedAlone(s: Schema, m: string, name: string)
    requires ValidSchema(s) && FindField(s, m, name).Some? && IsRepeated(FindField(s, m, name).value.kind)
    ensures FindField(s, m, name).value.oneof == None
  {
    var fd := FindField(s, m, name).value;
    assert fd in s[m];
    var i :| 0 <= i < |s[m]| && s[m][i] == fd;
  }

  /** The key field of a keyed repeated field: a singular string of the element type. */
  function KeyField(s: Schema, fd: FieldDesc): (r: Option<FieldDesc>)
    ensures r.Some? ==> fd.kind.RepeatedMessage? && r.value.kind.Str? && FindField(s, fd.kind.m, r.value.name) == r
  {
    match fd.kind
    case RepeatedMessage(m, Some(name)) =>
      if name == "" then None
      else
        (match FindField(s, m, name)
         case None => None
         case Some(k) => if k.kind.Str? then Some(k) else None)
    case _ => None
  }

  lemma FoundName(s: Schema, m: string, name: string)
    requires FindField(s, m, name).Some?
    ensures FindField(s, m, name).value.name == name
  {
  }

  lemma KeyFieldIs(s: Schema, fd: FieldDesc)
    ensures KeyField(s, fd).Some? ==>
              && fd.kind.RepeatedMessage? && KeyField(s, fd).value.kind.Str?
              && FindField(s, fd.kind.m, KeyField(s, fd).value.name) == KeyField(s, fd)
  {
  }

  // ---- Size ----

  function VSize(v: Value): nat {
    match v
    case ListVal(els) => 1 + VsSize(els)
    case BlockVal(es) => 1 + EsSize(es)
    case _ => 1
  }

  function VsSize(vs: seq<Value>): nat {
    if vs == [] then 0 else VSize(vs[0]) + VsSize(vs[1..])
  }

  function ESize(e: Entry): nat {
    match e
    case Assign(_, _, v) => 1 + VSize(v)
    case MapEntry(_, _, v) => 1 + VSize(v)
    case Block(_, _, es) => 1 + EsSize(es)
    case TypeEntry(_) => 1
  }

  function EsSize(es: seq<Entry>): nat {
    if es == [] then 0 else ESize(es[0]) + EsSize(es[1..])
  }

  lemma EntrySize(e: Entry)
    ensures e.Assign? || e.MapEntry? ==>
              && (e.value.BlockVal? ==> ESize(e) == 2 + EsSize(e.value.entries))
              && (e.value.ListVal? ==> ESize(e) == 2 + VsSize(e.value.elements))
    ensures e.Block? ==> ESize(e) == 1 + EsSize(e.entries)
  {
  }

  lemma FirstEntrySize(es: seq<Entry>)
    requires es != []
    ensures EsSize(es) == ESize(es[0]) + EsSize(es[1..]) && ESize(es[0]) >= 1
  {
  }

  lemma FirstElementSize(vs: seq<Value>)
    requires vs != []
    ensures VsSize(vs) == VSize(vs[0]) + VsSize(vs[1..]) && VSize(vs[0]) >= 1
    ensures vs[0].BlockVal? ==> VSize(vs[0]) == 1 + EsSize(vs[0].entries)
  {
  }

  lemma BlockSize(v: Value)
    ensures v.BlockVal? ==> VSize(v) == 1 + EsSize(v.entries)
  {
  }

  /** Where a list is walked by position, what is left never grows. */
  lemma {:induction false} SuffixSize(es: seq<Entry>, i: nat)
    requires i < |es|
    ensures ESize(es[i]) <= EsSize(es)
    decreases |es|
  {
    if i > 0 {
      SuffixSize(es[1..], i - 1);
    }
  }

  lemma {:induction false} ElementSize(vs: seq<Value>, i: nat)
    requires i < |vs|
    ensures VSize(vs[i]) <= VsSize(vs)
    decreases |vs|
  {
    if i > 0 {
      ElementSize(vs[1..], i - 1);
    }
  }
}
