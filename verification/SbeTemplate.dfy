/**
Compiling a schema to offsets: src/sbe/template.cc and src/sbe/encoding_range.h. A block's
fields tile it from its first byte, in field-number order; section 3 (Message Structure) of
FIX Simple Binary Encoding.
 */
module SbeTemplate {
  import opened Options

  const MAX_U16: nat := 65535

  // ---- Schemas ----

  datatype IntKind = BoolKind | EnumKind | Int32Kind | Int64Kind | UInt32Kind | UInt64Kind

  datatype IntEncoding = Int8 | Int16 | Int32 | Int64 | Uint8 | Uint16 | Uint32 | Uint64

  /** An (sbe.encoding) annotation: a primitive, or a name that is none. */
  datatype Encoding = IntEnc(e: IntEncoding) | FloatEnc | DoubleEnc | UnknownEnc

  datatype DeclType =
    | IntType(kind: IntKind, encoding: Option<Encoding>)
    | FloatType(double: bool, encoding: Option<Encoding>)
    | CharType(isString: bool, encoding: Option<Encoding>, length: Option<nat>)
    | MessageType(fields: seq<Decl>)

  /** A field of a message, in field-number order, and the oneof it is a member of, a proto3 optional's aside. */
  datatype Decl = Decl(name: string, repeated: bool, isMap: bool, oneof: Option<string>, typ: DeclType)

  // ---- Templates ----

  datatype Form =
    | Integer(kind: IntKind, enc: IntEncoding)
    | Floating(double: bool)
    | Chars(isString: bool)
    | Composite(fields: seq<FieldTemplate>)

  datatype FieldTemplate = FieldTemplate(name: string, offset: nat, size: nat, form: Form, oneof: Option<string>)

  datatype GroupTemplate = GroupTemplate(name: string, blockLength: nat, fields: seq<FieldTemplate>)

  datatype MessageTemplate = MessageTemplate(templateId: nat, schemaId: nat, version: nat, blockLength: nat,
                                             fields: seq<FieldTemplate>, groups: seq<GroupTemplate>)

  // ---- Ranges ----

  function EncSize(e: IntEncoding): (n: nat)
    ensures n == 1 || n == 2 || n == 4 || n == 8
  {
    match e
    case Int8 => 1 case Uint8 => 1
    case Int16 => 2 case Uint16 => 2
    case Int32 => 4 case Uint32 => 4
    case Int64 => 8 case Uint64 => 8
  }

  predicate EncSigned(e: IntEncoding) {
    e.Int8? || e.Int16? || e.Int32? || e.Int64?
  }

  /** 2^(8n), for the widths a primitive has. */
  function WordSize(n: nat): (w: nat)
    ensures w > 0
  {
    if n == 1 then 0x100 else if n == 2 then 0x1_0000 else if n == 4 then 0x1_0000_0000 else 0x1_0000_0000_0000_0000
  }

  function EncLo(e: IntEncoding): int {
    if EncSigned(e) then -(WordSize(EncSize(e)) / 2) else 0
  }

  function EncHi(e: IntEncoding): int {
    if EncSigned(e) then WordSize(EncSize(e)) / 2 - 1 else WordSize(EncSize(e)) - 1
  }

  /** The least and greatest value of a kind; enums are open. */
  function KindLo(k: IntKind): int {
    match k
    case Int32Kind => -0x8000_0000 case EnumKind => -0x8000_0000
    case Int64Kind => -0x8000_0000_0000_0000
    case BoolKind => 0 case UInt32Kind => 0 case UInt64Kind => 0
  }

  function KindHi(k: IntKind): int {
    match k
    case Int32Kind => 0x7fff_ffff case EnumKind => 0x7fff_ffff
    case Int64Kind => 0x7fff_ffff_ffff_ffff
    case BoolKind => 1
    case UInt32Kind => 0xffff_ffff
    case UInt64Kind => 0xffff_ffff_ffff_ffff
  }

  // ---- Layout ----

  /** fields tile a block from byte at to byte end, with no gap and no overlap. */
  ghost predicate LaidOut(fields: seq<FieldTemplate>, at: nat, end: nat)
    decreases fields
  {
    if fields == [] then at == end
    else fields[0].offset == at && Sound(fields[0]) && LaidOut(fields[1..], at + fields[0].size, end)
  }

  /** No field is a member of a oneof, as in a root block or a composite. */
  predicate NoOneofs(fields: seq<FieldTemplate>) {
    forall i :: 0 <= i < |fields| ==> fields[i].oneof == None
  }

  /** A later field is a member of the first one's oneof, so that setting it clears the first. */
  predicate Superseded(fields: seq<FieldTemplate>) {
    && fields != [] && fields[0].oneof.Some?
    && exists j :: 0 < j < |fields| && fields[j].oneof == fields[0].oneof
  }

  /** A field's size is its form's; a composite has fields of its own, which tile it. */
  ghost predicate Sound(ft: FieldTemplate)
    decreases ft
  {
    match ft.form
    case Integer(_, enc) => ft.size == EncSize(enc)
    case Floating(double) => ft.size == if double then 8 else 4
    case Chars(_) => true
    case Composite(fs) => fs != [] && NoOneofs(fs) && LaidOut(fs, 0, ft.size)
  }

  lemma {:induction false} LaidOutEnd(fields: seq<FieldTemplate>, at: nat, end: nat)
    requires LaidOut(fields, at, end)
    ensures at <= end
    ensures forall i :: 0 <= i < |fields| ==> at <= fields[i].offset && fields[i].offset + fields[i].size <= end
    decreases |fields|
  {
    if fields != [] {
      LaidOutEnd(fields[1..], at + fields[0].size, end);
      forall i | 0 < i < |fields|
        ensures at <= fields[i].offset && fields[i].offset + fields[i].size <= end
      {
        assert fields[i] == fields[1..][i - 1];
      }
    }
  }

  // ---- Compiling ----

  /** The primitive and width of a scalar field, or None where the annotations do not allow one. */
  function FieldEncodingSize(t: DeclType): Option<(Form, nat)> {
    match t
    case IntType(kind, Some(IntEnc(e))) => Some((Integer(kind, e), EncSize(e)))
    case IntType(kind, Some(_)) => None
    case IntType(kind, None) =>
      var e := match kind
               case BoolKind => Uint8 case EnumKind => Uint8
               case Int32Kind => Int32 case Int64Kind => Int64
               case UInt32Kind => Uint32 case UInt64Kind => Uint64;
      Some((Integer(kind, e), EncSize(e)))
    // A float carried as a double, or a double as a float, is not part of this model.
    case FloatType(false, Some(FloatEnc)) => Some((Floating(false), 4))
    case FloatType(true, Some(DoubleEnc)) => Some((Floating(true), 8))
    case FloatType(_, Some(_)) => None
    case FloatType(double, None) => Some((Floating(double), if double then 8 else 4))
    case CharType(_, Some(_), _) => None
    case CharType(_, None, None) => None
    case CharType(isString, None, Some(n)) => if n > MAX_U16 then None else Some((Chars(isString), n))
    case MessageType(_) => None
  }

  /** The offset after a field, where a blockLength can still state it. */
  function EndOfField(offset: nat, size: nat): Option<nat> {
    if offset + size > MAX_U16 then None else Some(offset + size)
  }

  datatype Block = Block(fields: seq<FieldTemplate>, length: nat)

  /** A composite's fields: what compiling them one after another gives. */
  function CompositeBlock(decls: seq<Decl>, offset: nat): Option<Block>
    decreases decls
  {
    if decls == [] then Some(Block([], offset))
    else if decls[0].repeated || decls[0].isMap || decls[0].oneof.Some? then None
    else
      match FieldAt(decls[0], offset)
      case None => None
      case Some(ft) => After([ft], CompositeBlock(decls[1..], offset + ft.size))
  }

  /** A field placed at offset. */
  function FieldAt(d: Decl, offset: nat): Option<FieldTemplate>
    decreases d
  {
    var form: Option<(Form, nat)> :=
      if d.typ.MessageType? then
        match CompositeBlock(d.typ.fields, 0)
        case None => None
        case Some(b) => Some((Composite(b.fields), b.length))
      else FieldEncodingSize(d.typ);
    match form
    case None => None
    case Some((f, size)) =>
      match EndOfField(offset, size)
      case None => None
      case Some(_) => Some(FieldTemplate(d.name, offset, size, f, d.oneof))
  }

  method BuildCompositeFields(decls: seq<Decl>) returns (r: Option<Block>)
    ensures r == CompositeBlock(decls, 0)
    decreases decls
  {
    var out: seq<FieldTemplate> := [];
    var offset: nat := 0;
    var i := 0;
    assert decls[0..] == decls;
    AfterNone(CompositeBlock(decls, 0));
    while i < |decls|
      invariant 0 <= i <= |decls|
      invariant After(out, CompositeBlock(decls[i..], offset)) == CompositeBlock(decls, 0)
    {
      var d := decls[i];
      ghost var rest := decls[i..];
      assert rest[0] == d && rest[1..] == decls[i + 1..];
      if d.repeated || d.isMap || d.oneof.Some? {
        return None;
      }
      var ft := BuildField(d, offset);
      if ft.None? {
        return None;
      }
      AfterAfter(out, [ft.value], CompositeBlock(decls[i + 1..], offset + ft.value.size));
      out := out + [ft.value];
      offset := offset + ft.value.size;
      i := i + 1;
    }
    assert decls[i..] == [] && out + [] == out;
    r := Some(Block(out, offset));
  }

  /** A composite or scalar field placed at offset, as each of the builders places one. */
  method BuildField(d: Decl, offset: nat) returns (r: Option<FieldTemplate>)
    ensures r == FieldAt(d, offset)
    decreases d
  {
    var form, size;
    if d.typ.MessageType? {
      var sub := BuildCompositeFields(d.typ.fields);
      if sub.None? {
        return None;
      }
      form, size := Composite(sub.value.fields), sub.value.length;
    } else {
      var es := FieldEncodingSize(d.typ);
      if es.None? {
        return None;
      }
      form, size := es.value.0, es.value.1;
    }
    var end := EndOfField(offset, size);
    if end.None? {
      return None;
    }
    r := Some(FieldTemplate(d.name, offset, size, form, d.oneof));
  }

  /** The fields already placed, and then the rest of the block. */
  function After(done: seq<FieldTemplate>, rest: Option<Block>): Option<Block> {
    match rest
    case None => None
    case Some(b) => Some(Block(done + b.fields, b.length))
  }

  /** A group's block, where a oneof is not asked about. */
  function GroupBlock(decls: seq<Decl>, offset: nat): Option<Block>
    decreases |decls|
  {
    if decls == [] then Some(Block([], offset))
    else if decls[0].repeated || decls[0].isMap then None
    else
      match FieldAt(decls[0], offset)
      case None => None
      case Some(ft) => After([ft], GroupBlock(decls[1..], offset + ft.size))
  }

  function GroupOf(d: Decl): Option<GroupTemplate>
    requires d.typ.MessageType?
  {
    match GroupBlock(d.typ.fields, 0)
    case None => None
    case Some(b) => Some(GroupTemplate(d.name, b.length, b.fields))
  }

  method BuildGroupTemplate(d: Decl) returns (r: Option<GroupTemplate>)
    requires d.typ.MessageType?
    ensures r == GroupOf(d)
  {
    var decls := d.typ.fields;
    var fields: seq<FieldTemplate> := [];
    var offset: nat := 0;
    var i := 0;
    assert decls[0..] == decls;
    AfterNone(GroupBlock(decls, 0));
    while i < |decls|
      invariant 0 <= i <= |decls|
      invariant After(fields, GroupBlock(decls[i..], offset)) == GroupBlock(decls, 0)
    {
      var f := decls[i];
      ghost var rest := decls[i..];
      assert rest[0] == f && rest[1..] == decls[i + 1..];
      if f.isMap || f.repeated {
        return None;
      }
      var ft := BuildField(f, offset);
      if ft.None? {
        return None;
      }
      AfterAfter(fields, [ft.value], GroupBlock(decls[i + 1..], offset + ft.value.size));
      fields := fields + [ft.value];
      offset := offset + ft.value.size;
      i := i + 1;
    }
    assert decls[i..] == [] && fields + [] == fields;
    r := Some(GroupTemplate(d.name, offset, fields));
  }

  lemma AfterNone(b: Option<Block>)
    ensures After([], b) == b
  {
    if b.Some? {
      assert [] + b.value.fields == b.value.fields;
    }
  }

  lemma AfterAfter(a: seq<FieldTemplate>, c: seq<FieldTemplate>, b: Option<Block>)
    ensures After(a, After(c, b)) == After(a + c, b)
  {
    if b.Some? {
      assert a + (c + b.value.fields) == (a + c) + b.value.fields;
    }
  }

  /** A message's root block and groups. */
  datatype Parts = Parts(block: Block, groups: seq<GroupTemplate>)

  predicate IsGroup(d: Decl) {
    d.repeated && d.typ.MessageType?
  }

  function TemplateParts(decls: seq<Decl>, offset: nat): Option<Parts>
    decreases |decls|
  {
    if decls == [] then Some(Parts(Block([], offset), []))
    else
      var d := decls[0];
      if d.isMap || d.oneof.Some? then None
      else if IsGroup(d) then
        match GroupOf(d)
        case None => None
        case Some(g) => Joined([], [g], TemplateParts(decls[1..], offset))
      else if d.repeated then None
      else
        match FieldAt(d, offset)
        case None => None
        case Some(ft) => Joined([ft], [], TemplateParts(decls[1..], offset + ft.size))
  }

  function Joined(fields: seq<FieldTemplate>, groups: seq<GroupTemplate>, rest: Option<Parts>): Option<Parts> {
    match rest
    case None => None
    case Some(p) => Some(Parts(Block(fields + p.block.fields, p.block.length), groups + p.groups))
  }

  lemma JoinedJoined(f: seq<FieldTemplate>, g: seq<GroupTemplate>, f': seq<FieldTemplate>, g': seq<GroupTemplate>,
                     rest: Option<Parts>)
    ensures Joined(f, g, Joined(f', g', rest)) == Joined(f + f', g + g', rest)
    ensures Joined([], [], rest) == rest
  {
    if rest.Some? {
      var p := rest.value;
      assert f + (f' + p.block.fields) == (f + f') + p.block.fields;
      assert g + (g' + p.groups) == (g + g') + p.groups;
      assert [] + p.block.fields == p.block.fields && [] + p.groups == p.groups;
    }
  }

  /** A message with (sbe.template_id), compiled. */
  function TemplateOf(decls: seq<Decl>, tid: Option<nat>, schemaId: nat, version: nat): Option<MessageTemplate> {
    match tid
    case None => None
    case Some(id) =>
      if id > MAX_U16 then None
      else
        match TemplateParts(decls, 0)
        case None => None
        case Some(p) => Some(MessageTemplate(id, schemaId, version, p.block.length, p.block.fields, p.groups))
  }

  method BuildTemplate(decls: seq<Decl>, tid: Option<nat>, schemaId: nat, version: nat)
    returns (r: Option<MessageTemplate>)
    ensures r == TemplateOf(decls, tid, schemaId, version)
  {
    hide Joined;
    if tid.None? || tid.value > MAX_U16 {
      return None;
    }
    var fields: seq<FieldTemplate> := [];
    var groups: seq<GroupTemplate> := [];
    var offset: nat := 0;
    var i := 0;
    assert decls[0..] == decls;
    JoinedJoined([], [], [], [], TemplateParts(decls, 0));
    while i < |decls|
      invariant 0 <= i <= |decls|
      invariant Joined(fields, groups, TemplateParts(decls[i..], offset)) == TemplateParts(decls, 0)
    {
      var d := decls[i];
      ghost var rest := decls[i..];
      assert rest[0] == d && rest[1..] == decls[i + 1..];
      JoinedNone(fields, groups);
      if d.isMap || d.oneof.Some? {
        return None;
      }
      if d.repeated && d.typ.MessageType? {
        var gt := BuildGroupTemplate(d);
        if gt.None? {
          return None;
        }
        JoinedJoined(fields, groups, [], [gt.value], TemplateParts(decls[i + 1..], offset));
        assert fields + [] == fields;
        groups := groups + [gt.value];
        i := i + 1;
        continue;
      }
      if d.repeated {
        return None;
      }
      var ft := BuildField(d, offset);
      if ft.None? {
        return None;
      }
      JoinedJoined(fields, groups, [ft.value], [], TemplateParts(decls[i + 1..], offset + ft.value.size));
      assert groups + [] == groups;
      fields := fields + [ft.value];
      offset := offset + ft.value.size;
      i := i + 1;
    }
    assert decls[i..] == [];
    JoinedEnd(fields, groups, offset);
    r := Some(MessageTemplate(tid.value, schemaId, version, offset, fields, groups));
  }

  lemma JoinedNone(f: seq<FieldTemplate>, g: seq<GroupTemplate>)
    ensures Joined(f, g, None) == None
  {
  }

  lemma JoinedEnd(f: seq<FieldTemplate>, g: seq<GroupTemplate>, n: nat)
    ensures Joined(f, g, Some(Parts(Block([], n), []))) == Some(Parts(Block(f, n), g))
  {
    assert f + [] == f && g + [] == g;
  }

  // ---- What compiling promises ----

  /** A message type with no field, which a template cannot tell from a scalar. */
  predicate Populated(decls: seq<Decl>)
    decreases decls
  {
    decls == [] || (PopulatedField(decls[0]) && Populated(decls[1..]))
  }

  predicate PopulatedField(d: Decl)
    decreases d
  {
    d.typ.MessageType? ==> d.typ.fields != [] && Populated(d.typ.fields)
  }

  /** A compiled composite's fields tile it, and it ends where a blockLength can say. */
  lemma {:induction false} CompositeLaidOut(decls: seq<Decl>, offset: nat)
    requires CompositeBlock(decls, offset).Some? && Populated(decls) && offset <= MAX_U16
    ensures var b := CompositeBlock(decls, offset).value;
            && LaidOut(b.fields, offset, b.length) && b.length <= MAX_U16 && |b.fields| == |decls|
            && NoOneofs(b.fields)
    decreases decls
  {
    if decls != [] {
      var ft := FieldAt(decls[0], offset).value;
      var b := CompositeBlock(decls[1..], offset + ft.size).value;
      FieldSound(decls[0], offset);
      CompositeLaidOut(decls[1..], offset + ft.size);
      assert ([ft] + b.fields)[1..] == b.fields;
    }
  }

  lemma {:induction false} FieldSound(d: Decl, offset: nat)
    requires FieldAt(d, offset).Some? && PopulatedField(d)
    ensures var ft := FieldAt(d, offset).value;
            && ft.offset == offset && ft.offset + ft.size <= MAX_U16 && Sound(ft)
            && ft.name == d.name && ft.oneof == d.oneof
    decreases d
  {
    if d.typ.MessageType? {
      CompositeLaidOut(d.typ.fields, 0);
    }
  }

  lemma {:induction false} GroupLaidOut(decls: seq<Decl>, offset: nat)
    requires GroupBlock(decls, offset).Some? && Populated(decls) && offset <= MAX_U16
    ensures var b := GroupBlock(decls, offset).value;
            LaidOut(b.fields, offset, b.length) && b.length <= MAX_U16
    decreases |decls|
  {
    if decls != [] {
      var ft := FieldAt(decls[0], offset).value;
      var b := GroupBlock(decls[1..], offset + ft.size).value;
      FieldSound(decls[0], offset);
      GroupLaidOut(decls[1..], offset + ft.size);
      assert ([ft] + b.fields)[1..] == b.fields;
    }
  }

  ghost predicate SoundGroup(g: GroupTemplate) {
    LaidOut(g.fields, 0, g.blockLength) && g.blockLength <= MAX_U16
  }

  /** A template whose root block and groups are tiled by their fields, all of it stated in 16 bits. */
  ghost predicate SoundTemplate(t: MessageTemplate) {
    && LaidOut(t.fields, 0, t.blockLength) && t.blockLength <= MAX_U16 && NoOneofs(t.fields)
    && t.templateId <= MAX_U16 && t.schemaId <= MAX_U16 && t.version <= MAX_U16
    && forall i :: 0 <= i < |t.groups| ==> SoundGroup(t.groups[i])
  }

  lemma {:induction false} PartsLaidOut(decls: seq<Decl>, offset: nat)
    requires TemplateParts(decls, offset).Some? && Populated(decls) && offset <= MAX_U16
    ensures var p := TemplateParts(decls, offset).value;
            && LaidOut(p.block.fields, offset, p.block.length) && p.block.length <= MAX_U16 && NoOneofs(p.block.fields)
            && forall i :: 0 <= i < |p.groups| ==> SoundGroup(p.groups[i])
    decreases |decls|
  {
    if decls != [] {
      if IsGroup(decls[0]) {
        GroupLaidOut(decls[0].typ.fields, 0);
        PartsLaidOut(decls[1..], offset);
        var p := TemplateParts(decls[1..], offset).value;
        assert [] + p.block.fields == p.block.fields;
      } else {
        var ft := FieldAt(decls[0], offset).value;
        FieldSound(decls[0], offset);
        PartsLaidOut(decls[1..], offset + ft.size);
        var p := TemplateParts(decls[1..], offset + ft.size).value;
        assert ([ft] + p.block.fields)[1..] == p.block.fields;
      }
    }
  }

  lemma {:induction false} TemplateSound(decls: seq<Decl>, tid: Option<nat>, schemaId: nat, version: nat)
    requires TemplateOf(decls, tid, schemaId, version).Some? && Populated(decls)
    requires schemaId <= MAX_U16 && version <= MAX_U16
    ensures SoundTemplate(TemplateOf(decls, tid, schemaId, version).value)
  {
    PartsLaidOut(decls, 0);
  }

  // ---- Extending a schema ----

  ghost predicate GroupExtends(small: GroupTemplate, large: GroupTemplate) {
    small.name == large.name && small.fields <= large.fields
  }

  ghost predicate GroupsExtend(small: seq<GroupTemplate>, large: seq<GroupTemplate>) {
    |small| <= |large| && forall i :: 0 <= i < |small| ==> GroupExtends(small[i], large[i])
  }

  /** large has small's fields at the same offsets, and then its own. */
  ghost predicate Extends(small: MessageTemplate, large: MessageTemplate) {
    && small.templateId == large.templateId && small.schemaId == large.schemaId
    && small.fields <= large.fields && GroupsExtend(small.groups, large.groups)
  }

  /** Fields appended to a group. */
  ghost predicate DeclExtends(small: Decl, large: Decl) {
    small == large
    || (IsGroup(small) && IsGroup(large) && small == large.(typ := small.typ)
        && small.typ.fields <= large.typ.fields)
  }

  /** A schema changed only by appending root fields, groups, or fields of groups. */
  ghost predicate SchemaExtends(small: seq<Decl>, large: seq<Decl>) {
    |small| <= |large| && forall i :: 0 <= i < |small| ==> DeclExtends(small[i], large[i])
  }

  lemma {:induction false} GroupBlockExtends(small: seq<Decl>, large: seq<Decl>, offset: nat)
    requires small <= large && GroupBlock(large, offset).Some?
    ensures GroupBlock(small, offset).Some?
    ensures GroupBlock(small, offset).value.fields <= GroupBlock(large, offset).value.fields
    decreases |small|
  {
    if small != [] {
      var ft := FieldAt(small[0], offset).value;
      GroupBlockExtends(small[1..], large[1..], offset + ft.size);
    }
  }

  lemma {:induction false} PartsExtend(small: seq<Decl>, large: seq<Decl>, offset: nat)
    requires SchemaExtends(small, large) && TemplateParts(large, offset).Some?
    ensures TemplateParts(small, offset).Some?
    ensures var s, l := TemplateParts(small, offset).value, TemplateParts(large, offset).value;
            s.block.fields <= l.block.fields && GroupsExtend(s.groups, l.groups)
    decreases |small|
  {
    hide FieldAt, GroupBlock;
    if small != [] {
      var d, e := small[0], large[0];
      assert DeclExtends(d, e);
      assert SchemaExtends(small[1..], large[1..]) by {
        forall i | 0 <= i < |small| - 1
          ensures DeclExtends(small[1..][i], large[1..][i])
        {
          assert DeclExtends(small[i + 1], large[i + 1]);
        }
      }
      if IsGroup(e) {
        GroupBlockExtends(d.typ.fields, e.typ.fields, 0);
        PartsExtend(small[1..], large[1..], offset);
      } else {
        PartsExtend(small[1..], large[1..], offset + FieldAt(d, offset).value.size);
      }
    }
  }

  /** Appending to a schema extends its template: no field that was there moves. */
  lemma {:induction false} SchemaExtensionExtends(small: seq<Decl>, large: seq<Decl>, tid: Option<nat>,
                                                  schemaId: nat, v: nat, w: nat)
    requires SchemaExtends(small, large) && TemplateOf(large, tid, schemaId, w).Some?
    ensures TemplateOf(small, tid, schemaId, v).Some?
    ensures Extends(TemplateOf(small, tid, schemaId, v).value, TemplateOf(large, tid, schemaId, w).value)
  {
    PartsExtend(small, large, 0);
  }
}
