/**
Which template a schema has, said of the template and not of how it is built: src/sbe/template.cc. Every
field has the primitive its declaration asks for and starts where the sizes before it end.
 */
module SbeSchema {
  import opened Options
  import opened SbeTemplate

  // ---- Primitives ----

  /** The number in a primitive's name. */
  function Bits(e: IntEncoding): nat {
    match e
    case Int8 => 8 case Int16 => 16 case Int32 => 32 case Int64 => 64
    case Uint8 => 8 case Uint16 => 16 case Uint32 => 32 case Uint64 => 64
  }

  predicate IsUnsigned(e: IntEncoding) {
    e.Uint8? || e.Uint16? || e.Uint32? || e.Uint64?
  }

  /** Without an annotation: a number has the primitive of exactly its range, a bool or an enum one byte. */
  predicate NaturalEncoding(kind: IntKind, e: IntEncoding) {
    if kind.BoolKind? || kind.EnumKind? then IsUnsigned(e) && Bits(e) == 8
    else EncLo(e) == KindLo(kind) && EncHi(e) == KindHi(kind)
  }

  // ---- Fields ----

  /** ft carries a value of type t. */
  ghost predicate Encodes(t: DeclType, ft: FieldTemplate)
    decreases t
  {
    match t
    case IntType(kind, annotation) =>
      && ft.form.Integer? && ft.form.kind == kind && 8 * ft.size == Bits(ft.form.enc)
      && if annotation.None? then NaturalEncoding(kind, ft.form.enc) else annotation.value == IntEnc(ft.form.enc)
    case FloatType(double, annotation) =>
      && ft.form == Floating(double) && 8 * ft.size == (if double then 64 else 32)
      && (annotation.Some? ==> annotation.value == if double then DoubleEnc else FloatEnc)
    case CharType(isString, annotation, length) =>
      ft.form == Chars(isString) && annotation == None && length == Some(ft.size) && ft.size <= MAX_U16
    case MessageType(fields) =>
      && ft.form.Composite? && Singular(fields) && NoMembers(fields)
      && Placed(fields, ft.form.fields, 0) && ft.size == Sizes(ft.form.fields)
  }

  predicate Singular(decls: seq<Decl>) {
    forall i :: 0 <= i < |decls| ==> !decls[i].repeated && !decls[i].isMap
  }

  predicate NoMembers(decls: seq<Decl>) {
    forall i :: 0 <= i < |decls| ==> decls[i].oneof == None
  }

  function Sizes(fields: seq<FieldTemplate>): nat {
    if fields == [] then 0 else Sizes(fields[..|fields| - 1]) + fields[|fields| - 1].size
  }

  /** A field for each declaration, from byte at on, each where the last one ended, all in 16 bits. */
  ghost predicate Placed(decls: seq<Decl>, fields: seq<FieldTemplate>, at: nat)
    decreases decls
  {
    if decls == [] then fields == []
    else
      && fields != [] && fields[0].name == decls[0].name && fields[0].oneof == decls[0].oneof
      && Encodes(decls[0].typ, fields[0])
      && fields[0].offset == at && at + fields[0].size <= MAX_U16
      && Placed(decls[1..], fields[1..], at + fields[0].size)
  }

  /** Field k has the size its declaration asks for, and starts at the sum of the sizes before it. */
  lemma {:induction false} PlacedAt(decls: seq<Decl>, fields: seq<FieldTemplate>, at: nat, k: nat)
    requires Placed(decls, fields, at) && k < |decls|
    ensures |fields| == |decls|
    ensures fields[k].name == decls[k].name && fields[k].oneof == decls[k].oneof
    ensures Encodes(decls[k].typ, fields[k]) && fields[k].offset == at + Sizes(fields[..k])
    decreases |decls|
  {
    PlacedCount(decls, fields, at);
    if k > 0 {
      PlacedAt(decls[1..], fields[1..], at + fields[0].size, k - 1);
      SizesCons(fields[..k]);
      assert fields[..k][1..] == fields[1..][..k - 1];
    }
  }

  lemma {:induction false} PlacedCount(decls: seq<Decl>, fields: seq<FieldTemplate>, at: nat)
    requires Placed(decls, fields, at)
    ensures |fields| == |decls|
    decreases |decls|
  {
    hide Encodes;
    if decls != [] {
      PlacedCount(decls[1..], fields[1..], at + fields[0].size);
    }
  }

  lemma {:induction false} SizesCons(fields: seq<FieldTemplate>)
    requires fields != []
    ensures Sizes(fields) == fields[0].size + Sizes(fields[1..])
    decreases |fields|
  {
    if |fields| > 1 {
      var init, last := fields[..|fields| - 1], fields[|fields| - 1];
      SizesCons(init);
      assert fields[1..][..|fields| - 2] == init[1..] && fields[1..][|fields| - 2] == last;
    }
  }

  // ---- Composites: what is built is placed, and nothing else is ----

  lemma {:induction false} FieldBuilt(d: Decl, at: nat, ft: FieldTemplate)
    ensures FieldAt(d, at) == Some(ft)
            <==> (&& ft.name == d.name && ft.oneof == d.oneof && Encodes(d.typ, ft)
                  && ft.offset == at && at + ft.size <= MAX_U16)
    decreases d, 1
  {
    if d.typ.MessageType? {
      if ft.form.Composite? {
        CompositeBuilt(d.typ.fields, 0, ft.form.fields, ft.size);
      }
      if FieldAt(d, at).Some? {
        var b := CompositeBlock(d.typ.fields, 0).value;
        CompositeBuilt(d.typ.fields, 0, b.fields, b.length);
      }
    } else {
      ScalarBuilt(d.typ, ft);
    }
  }

  lemma ScalarBuilt(t: DeclType, ft: FieldTemplate)
    requires !t.MessageType?
    ensures FieldEncodingSize(t) == Some((ft.form, ft.size)) <==> Encodes(t, ft)
  {
    if t.IntType? && ft.form.Integer? {
      PrimitiveSize(ft.form.enc);
      NaturalIs(t.kind, ft.form.enc);
    }
  }

  lemma PrimitiveSize(e: IntEncoding)
    ensures 8 * EncSize(e) == Bits(e)
  {
  }

  lemma NaturalIs(kind: IntKind, e: IntEncoding)
    ensures NaturalEncoding(kind, e) <==> FieldEncodingSize(IntType(kind, None)) == Some((Integer(kind, e), EncSize(e)))
  {
  }

  lemma {:induction false} CompositeBuilt(decls: seq<Decl>, at: nat, fields: seq<FieldTemplate>, end: nat)
    ensures CompositeBlock(decls, at) == Some(Block(fields, end))
            <==> (Singular(decls) && NoMembers(decls) && Placed(decls, fields, at) && end == at + Sizes(fields))
    decreases decls, 0
  {
    hide FieldAt, Encodes, Singular, NoMembers, Sizes;
    if decls == [] {
      NoDecls();
    } else {
      FirstAndRest(decls);
      if fields != [] {
        FieldBuilt(decls[0], at, fields[0]);
        CompositeBuilt(decls[1..], at + fields[0].size, fields[1..], end);
        SizesCons(fields);
        assert fields == [fields[0]] + fields[1..];
      }
      if CompositeBlock(decls, at).Some? {
        var ft := FieldAt(decls[0], at).value;
        Prepended(ft, CompositeBlock(decls[1..], at + ft.size).value);
      }
    }
  }

  lemma NoDecls()
    ensures Singular([]) && NoMembers([]) && Sizes([]) == 0
  {
  }

  lemma Prepended(ft: FieldTemplate, b: Block)
    ensures ([ft] + b.fields)[0] == ft && ([ft] + b.fields)[1..] == b.fields
  {
  }

  lemma FirstAndRest(decls: seq<Decl>)
    requires decls != []
    ensures Singular(decls) <==> !decls[0].repeated && !decls[0].isMap && Singular(decls[1..])
    ensures NoMembers(decls) <==> decls[0].oneof == None && NoMembers(decls[1..])
  {
    forall i | 0 < i < |decls| ensures decls[i] == decls[1..][i - 1] {}
  }

  // ---- Groups and messages ----

  ghost predicate GroupFor(d: Decl, g: GroupTemplate) {
    && d.typ.MessageType? && g.name == d.name && Singular(d.typ.fields)
    && Placed(d.typ.fields, g.fields, 0) && g.blockLength == Sizes(g.fields)
  }

  lemma {:induction false} GroupBuilt(decls: seq<Decl>, at: nat, fields: seq<FieldTemplate>, end: nat)
    ensures GroupBlock(decls, at) == Some(Block(fields, end))
            <==> (Singular(decls) && Placed(decls, fields, at) && end == at + Sizes(fields))
    decreases |decls|
  {
    hide FieldAt, Encodes, Singular, Sizes;
    if decls == [] {
      NoDecls();
    } else {
      FirstAndRest(decls);
      if fields != [] {
        FieldBuilt(decls[0], at, fields[0]);
        GroupBuilt(decls[1..], at + fields[0].size, fields[1..], end);
        SizesCons(fields);
        assert fields == [fields[0]] + fields[1..];
      }
      if GroupBlock(decls, at).Some? {
        var ft := FieldAt(decls[0], at).value;
        Prepended(ft, GroupBlock(decls[1..], at + ft.size).value);
      }
    }
  }

  /** The declarations of the root block, or of the groups, in order. */
  function Only(decls: seq<Decl>, repeated: bool): seq<Decl> {
    if decls == [] then []
    else if decls[0].repeated == repeated then [decls[0]] + Only(decls[1..], repeated)
    else Only(decls[1..], repeated)
  }

  /** Neither a map nor a oneof member, and repeated only as a message. */
  predicate Bindable(decls: seq<Decl>) {
    forall i :: 0 <= i < |decls| ==>
      !decls[i].isMap && decls[i].oneof == None && (decls[i].repeated ==> decls[i].typ.MessageType?)
  }

  ghost predicate GroupsFor(decls: seq<Decl>, groups: seq<GroupTemplate>) {
    |groups| == |decls| && forall i :: 0 <= i < |decls| ==> GroupFor(decls[i], groups[i])
  }

  ghost predicate PartsFor(decls: seq<Decl>, at: nat, p: SbeTemplate.Parts) {
    && Bindable(decls) && Placed(Only(decls, false), p.block.fields, at)
    && p.block.length == at + Sizes(p.block.fields) && GroupsFor(Only(decls, true), p.groups)
  }

  lemma {:induction false} PartsBuilt(decls: seq<Decl>, at: nat, p: SbeTemplate.Parts)
    ensures TemplateParts(decls, at) == Some(p) <==> PartsFor(decls, at, p)
    decreases |decls|
  {
    hide FieldAt, Encodes, GroupFor, GroupOf;
    if decls != [] {
      var d, rest := decls[0], decls[1..];
      BindableRest(decls);
      if d.isMap || d.oneof.Some? || (d.repeated && !d.typ.MessageType?) {
        assert !Bindable(decls);
      } else if d.repeated {
        GroupPart(decls, at, p);
      } else {
        FieldPart(decls, at, p);
      }
    }
  }

  lemma BindableRest(decls: seq<Decl>)
    requires decls != []
    ensures Bindable(decls) <==>
            && !decls[0].isMap && decls[0].oneof == None && (decls[0].repeated ==> decls[0].typ.MessageType?)
            && Bindable(decls[1..])
  {
    forall i | 0 < i < |decls| ensures decls[i] == decls[1..][i - 1] {}
  }

  lemma {:induction false} GroupIs(d: Decl, g: GroupTemplate)
    requires d.typ.MessageType?
    ensures GroupOf(d) == Some(g) <==> GroupFor(d, g)
  {
    hide GroupBlock, Placed;
    GroupBuilt(d.typ.fields, 0, g.fields, g.blockLength);
    if GroupOf(d).Some? {
      var b := GroupBlock(d.typ.fields, 0).value;
      GroupBuilt(d.typ.fields, 0, b.fields, b.length);
    }
  }

  lemma GroupsRest(decls: seq<Decl>, groups: seq<GroupTemplate>)
    requires decls != []
    ensures GroupsFor(decls, groups) <==>
            groups != [] && GroupFor(decls[0], groups[0]) && GroupsFor(decls[1..], groups[1..])
  {
    hide GroupFor;
    if groups != [] && GroupFor(decls[0], groups[0]) && GroupsFor(decls[1..], groups[1..]) {
      forall i | 0 < i < |decls|
        ensures GroupFor(decls[i], groups[i])
      {
        assert decls[i] == decls[1..][i - 1] && groups[i] == groups[1..][i - 1];
      }
    }
  }

  lemma {:induction false} GroupPart(decls: seq<Decl>, at: nat, p: SbeTemplate.Parts)
    requires decls != [] && decls[0].repeated && decls[0].typ.MessageType?
    requires !decls[0].isMap && decls[0].oneof == None
    ensures TemplateParts(decls, at) == Some(p) <==> PartsFor(decls, at, p)
    decreases |decls|, 0
  {
    hide FieldAt, Placed, GroupFor, GroupOf;
    var d, rest := decls[0], decls[1..];
    BindableRest(decls);
    var gs := Only(decls, true);
    assert gs[1..] == Only(rest, true);
    GroupsRest(gs, p.groups);
    if p.groups != [] {
      GroupIs(d, p.groups[0]);
      PartsBuilt(rest, at, SbeTemplate.Parts(p.block, p.groups[1..]));
      assert p.groups == [p.groups[0]] + p.groups[1..];
    }
    if TemplateParts(decls, at).Some? {
      var g, q := GroupOf(d).value, TemplateParts(rest, at).value;
      assert [] + q.block.fields == q.block.fields;
      assert ([g] + q.groups)[0] == g && ([g] + q.groups)[1..] == q.groups;
    }
    assert [] + p.block.fields == p.block.fields;
  }

  lemma {:induction false} FieldPart(decls: seq<Decl>, at: nat, p: SbeTemplate.Parts)
    requires decls != [] && !decls[0].repeated && !decls[0].isMap && decls[0].oneof == None
    ensures TemplateParts(decls, at) == Some(p) <==> PartsFor(decls, at, p)
    decreases |decls|, 0
  {
    hide FieldAt, Encodes, GroupsFor, GroupOf, Bindable, Sizes;
    var d, rest, fields := decls[0], decls[1..], p.block.fields;
    BindableRest(decls);
    var roots := Only(decls, false);
    assert roots[0] == d && roots[1..] == Only(rest, false) && Only(decls, true) == Only(rest, true);
    if fields != [] {
      FieldBuilt(d, at, fields[0]);
      PartsBuilt(rest, at + fields[0].size, SbeTemplate.Parts(Block(fields[1..], p.block.length), p.groups));
      SizesCons(fields);
      assert fields == [fields[0]] + fields[1..];
    }
    if TemplateParts(decls, at).Some? {
      var ft := FieldAt(d, at).value;
      var q := TemplateParts(rest, at + ft.size).value;
      Prepended(ft, q.block);
      assert [] + q.groups == q.groups;
    }
    assert [] + p.groups == p.groups;
  }

  /** t is the template of a message with these declarations. */
  ghost predicate TemplateFor(decls: seq<Decl>, tid: Option<nat>, schemaId: nat, version: nat, t: MessageTemplate) {
    && tid == Some(t.templateId) && t.templateId <= MAX_U16 && t.schemaId == schemaId && t.version == version
    && PartsFor(decls, 0, SbeTemplate.Parts(Block(t.fields, t.blockLength), t.groups))
  }

  /** A schema compiles to a template exactly when that is its template. */
  lemma {:induction false} TemplateIs(decls: seq<Decl>, tid: Option<nat>, schemaId: nat, version: nat,
                                      t: MessageTemplate)
    ensures TemplateOf(decls, tid, schemaId, version) == Some(t) <==> TemplateFor(decls, tid, schemaId, version, t)
  {
    hide TemplateParts, PartsFor;
    PartsBuilt(decls, 0, SbeTemplate.Parts(Block(t.fields, t.blockLength), t.groups));
    if TemplateOf(decls, tid, schemaId, version).Some? {
      PartsBuilt(decls, 0, TemplateParts(decls, 0).value);
    }
  }
}
