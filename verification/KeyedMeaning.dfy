/**
Canonicalising keyed fields preserves what a document decodes to, but for a list of a keyed field
whose elements are typed Any blocks.
 */
module KeyedMeaning {
  import opened Options
  import opened KeyedAst
  import opened KeyedDecode
  import opened KeyedCanon

  // ---- A body read with its entry's name instead of its key assignment ----

  /** The body b would be with the key bound by name, outside the bookkeeping of assignments. */
  ghost function With(b: Body, key: FieldDesc, n: string): Body {
    Body(b.msg[key.name := StrB(n)], b.oneofs - OneofOf(key), b.scope - {key.name})
  }

  ghost function OneofOf(fd: FieldDesc): set<string> {
    if fd.oneof.Some? then {fd.oneof.value} else {}
  }

  /** The body of an element of a keyed field, read either as a list element or under the name n. */
  ghost predicate ElemOf(ke: KeyedElem, key: FieldDesc, n: string) {
    ke == Elem(key, None) || ke == Elem(key, Some(n))
  }

  lemma ClaimOther(b: Body, fd: FieldDesc, key: FieldDesc, n: string)
    requires Claim(b, fd).Some? && fd.name != key.name
    requires fd.oneof.Some? ==> fd.oneof != key.oneof
    ensures Claim(With(b, key, n), fd) == Some(With(Claim(b, fd).value, key, n))
  {
    var b1 := Claim(b, fd).value;
    assert b1.msg == b.msg;
    assert Claim(With(b, key, n), fd).value.oneofs == b1.oneofs - OneofOf(key);
    assert Claim(With(b, key, n), fd).value.scope == b1.scope - {key.name};
  }

  lemma SetOther(b: Body, name: string, x: Bound, key: FieldDesc, n: string)
    requires name != key.name
    ensures Set(With(b, key, n), name, x) == With(Set(b, name, x), key, n)
    ensures Get(With(b, key, n).msg, name) == Get(b.msg, name)
  {
    assert b.msg[key.name := StrB(n)][name := x] == b.msg[name := x][key.name := StrB(n)];
  }

  /** What a step adds to the oneofs. */
  lemma {:induction false} StepGrows(c: Ctx, m: string, e: Entry, ke: KeyedElem, b: Body, depth: nat)
    requires Step(c, m, e, ke, b, depth).Some?
    ensures b.oneofs <= Step(c, m, e, ke, b, depth).value.oneofs
  {
    hide Bind, KeyedBlock, MessageBody;
  }

  /** The oneofs before and after a step that is not the key's own leave the key's oneof alone. */
  ghost predicate KeyAlone(key: FieldDesc, before: Body, after: Body) {
    key.oneof.Some? ==> key.oneof.value in before.oneofs || key.oneof.value !in after.oneofs
  }

  /** An entry that does not assign the key does the same under the entry's name. */
  lemma {:induction false} StepOther(c: Ctx, m: string, e: Entry, ke: KeyedElem, b: Body, key: FieldDesc, n: string,
                                     depth: nat)
    requires ElemOf(ke, key, n) && FindField(c.schema, m, key.name) == Some(key) && key.kind.Str?
    requires !(e.Assign? && e.key == key.name) && Step(c, m, e, ke, b, depth).Some?
    requires KeyAlone(key, b, Step(c, m, e, ke, b, depth).value)
    ensures Step(c, m, e, Elem(key, Some(n)), With(b, key, n), depth)
            == Some(With(Step(c, m, e, ke, b, depth).value, key, n))
    ensures Get(Step(c, m, e, ke, b, depth).value.msg, key.name) == Get(b.msg, key.name)
  {
    hide Bind, KeyedBlock, MessageBody, With, FindField, KeyField;
    var after := Step(c, m, e, ke, b, depth).value;
    var name := if e.Assign? then e.key else if e.Block? then e.name else "";
    if (e.Assign? || e.Block?) && FindField(c.schema, m, name).Some? {
      var fd := FindField(c.schema, m, name).value;
      FoundName(c.schema, m, name);
      if e.Block? && fd.kind.RepeatedMessage? {
        SetOther(b, fd.name, after.msg[fd.name], key, n);
        assert after == Set(b, fd.name, after.msg[fd.name]);
      } else {
        OneofApart(b, fd, after, ke, key, n, e.Assign? && e.value.NullVal?);
        ClaimOther(b, fd, key, n);
        SetOther(Claim(b, fd).value, fd.name, after.msg[fd.name], key, n);
        assert after == Set(Claim(b, fd).value, fd.name, after.msg[fd.name]);
      }
    }
  }

  /** No other member of the key's oneof was bound. */
  lemma OneofApart(b: Body, fd: FieldDesc, after: Body, ke: KeyedElem, key: FieldDesc, n: string, isNull: bool)
    requires ElemOf(ke, key, n) && fd.name != key.name && !KeyConflict(ke, fd, isNull)
    requires Claim(b, fd).Some? && after.oneofs == Claim(b, fd).value.oneofs && KeyAlone(key, b, after)
    ensures fd.oneof.Some? ==> fd.oneof != key.oneof
    ensures !KeyConflict(Elem(key, Some(n)), fd, isNull)
  {
  }

  /** Assigning the key is what the entry's name did. */
  lemma {:induction false} StepKey(c: Ctx, m: string, e: Entry, ke: KeyedElem, b: Body, key: FieldDesc, n: string,
                                   depth: nat)
    requires ElemOf(ke, key, n) && FindField(c.schema, m, key.name) == Some(key) && key.kind.Str?
    requires e.Assign? && e.key == key.name && Step(c, m, e, ke, b, depth).Some?
    requires ke.name.Some? || e.value == StrVal(n)
    ensures Redundant(e, key.name, n) && n != "" && c.rules.utf8(n)
    ensures var after := Step(c, m, e, ke, b, depth).value;
            && With(after, key, n) == With(b, key, n) && Get(after.msg, key.name) == Some(StrB(n))
            && (key.oneof.Some? ==> key.oneof.value !in b.oneofs && key.oneof.value in after.oneofs)
  {
    hide FindField;
    var after := Step(c, m, e, ke, b, depth).value;
    assert after == Set(Claim(b, key).value, key.name, StrB(n));
    assert b.msg[key.name := StrB(n)][key.name := StrB(n)] == b.msg[key.name := StrB(n)];
    assert after.scope - {key.name} == b.scope - {key.name};
    assert after.oneofs - OneofOf(key) == b.oneofs - OneofOf(key);
  }

  // ---- Dropping the assignment ----

  /** In a named entry: dropping the agreeing key assignments changes nothing it decodes to. */
  lemma {:induction false} DropNamed(c: Ctx, m: string, es: seq<Entry>, b: Body, key: FieldDesc, n: string, depth: nat)
    requires FindField(c.schema, m, key.name) == Some(key) && key.kind.Str?
    requires Run(c, m, es, Elem(key, Some(n)), b, depth).Some? && Get(b.msg, key.name) == Some(StrB(n))
    ensures Run(c, m, Drop(es, key.name, n), Elem(key, Some(n)), With(b, key, n), depth)
            == Some(With(Run(c, m, es, Elem(key, Some(n)), b, depth).value, key, n))
    ensures Get(Run(c, m, es, Elem(key, Some(n)), b, depth).value.msg, key.name) == Some(StrB(n))
    decreases |es|
  {
    hide Step, With, FindField, EsSize;
    if es != [] {
      var ke := Elem(key, Some(n));
      var next := Step(c, m, es[0], ke, b, depth).value;
      if es[0].Assign? && es[0].key == key.name {
        StepKey(c, m, es[0], ke, b, key, n, depth);
      } else {
        NamedAlone(c, m, es[0], b, key, n, depth);
        StepOther(c, m, es[0], ke, b, key, n, depth);
        RunFirst(c, m, es[0], Drop(es[1..], key.name, n), ke, With(b, key, n), depth);
      }
      DropNamed(c, m, es[1..], next, key, n, depth);
    }
  }

  lemma RunFirst(c: Ctx, m: string, e: Entry, es: seq<Entry>, ke: KeyedElem, b: Body, depth: nat)
    ensures Run(c, m, [e] + es, ke, b, depth)
            == match Step(c, m, e, ke, b, depth) case None => None case Some(x) => Run(c, m, es, ke, x, depth)
  {
    hide Step;
    assert ([e] + es)[0] == e && ([e] + es)[1..] == es;
  }

  /** Under a name the decoder itself keeps the key's oneof alone. */
  lemma {:induction false} NamedAlone(c: Ctx, m: string, e: Entry, b: Body, key: FieldDesc, n: string, depth: nat)
    requires FindField(c.schema, m, key.name) == Some(key) && key.kind.Str?
    requires !(e.Assign? && e.key == key.name) && Step(c, m, e, Elem(key, Some(n)), b, depth).Some?
    ensures KeyAlone(key, b, Step(c, m, e, Elem(key, Some(n)), b, depth).value)
  {
    hide Bind, KeyedBlock, MessageBody, KeyField, FindField;
    var name := if e.Assign? then e.key else if e.Block? then e.name else "";
    if (e.Assign? || e.Block?) && FindField(c.schema, m, name).Some? {
      FoundName(c.schema, m, name);
    }
  }

  /** After its key assignment, an element's entries do the same under the key as a name. */
  lemma {:induction false} AfterKey(c: Ctx, m: string, es: seq<Entry>, b: Body, key: FieldDesc, n: string, depth: nat)
    requires FindField(c.schema, m, key.name) == Some(key) && key.kind.Str?
    requires !Assigns(es, key.name) && (key.oneof.Some? ==> key.oneof.value in b.oneofs)
    requires Run(c, m, es, Elem(key, None), b, depth).Some?
    ensures Run(c, m, Drop(es, key.name, n), Elem(key, Some(n)), With(b, key, n), depth)
            == Some(With(Run(c, m, es, Elem(key, None), b, depth).value, key, n))
    ensures Get(Run(c, m, es, Elem(key, None), b, depth).value.msg, key.name) == Get(b.msg, key.name)
    decreases |es|
  {
    hide Step, With, FindField, EsSize;
    if es != [] {
      var next := Step(c, m, es[0], Elem(key, None), b, depth).value;
      AssignsCons(es, 0, key.name);
      assert es[0..] == es;
      StepGrows(c, m, es[0], Elem(key, None), b, depth);
      StepOther(c, m, es[0], Elem(key, None), b, key, n, depth);
      RunFirst(c, m, es[0], Drop(es[1..], key.name, n), Elem(key, Some(n)), With(b, key, n), depth);
      AfterKey(c, m, es[1..], next, key, n, depth);
    }
  }

  /** A list element with one explicit key decodes as the named entry without it. */
  lemma {:induction false} DropAnonymous(c: Ctx, m: string, es: seq<Entry>, b: Body, key: FieldDesc, n: string,
                                         depth: nat)
    requires FindField(c.schema, m, key.name) == Some(key) && key.kind.Str?
    requires KeyOf(es, key.name) == Some(n) && Run(c, m, es, Elem(key, None), b, depth).Some?
    ensures n != "" && c.rules.utf8(n) && (key.oneof.Some? ==> key.oneof.value !in b.oneofs)
    ensures Run(c, m, Drop(es, key.name, n), Elem(key, Some(n)), With(b, key, n), depth)
            == Some(With(Run(c, m, es, Elem(key, None), b, depth).value, key, n))
    ensures Get(Run(c, m, es, Elem(key, None), b, depth).value.msg, key.name) == Some(StrB(n))
    decreases |es|
  {
    hide Step, With, FindField, EsSize;
    var next := Step(c, m, es[0], Elem(key, None), b, depth).value;
    if es[0].Assign? && es[0].key == key.name {
      StepKey(c, m, es[0], Elem(key, None), b, key, n, depth);
      AfterKey(c, m, es[1..], next, key, n, depth);
    } else {
      DropAnonymous(c, m, es[1..], next, key, n, depth);
      StepGrows(c, m, es[0], Elem(key, None), b, depth);
      StepOther(c, m, es[0], Elem(key, None), b, key, n, depth);
      RunFirst(c, m, es[0], Drop(es[1..], key.name, n), Elem(key, Some(n)), With(b, key, n), depth);
    }
  }

  // ---- Documents that keep their meaning ----

  /** No list that becomes a keyed block has a typed Any for an element. */
  predicate Kept(s: Schema, m: string, es: seq<Entry>)
    decreases EsSize(es), 2
  {
    es == [] || (KeptEntry(s, m, es[0]) && Kept(s, m, es[1..]))
  }

  predicate KeptEntry(s: Schema, m: string, e: Entry)
    decreases ESize(e), 1
  {
    EntrySize(e);
    match e
    case Assign(key, quoted, _) =>
      quoted || (match FindField(s, m, key) case None => true case Some(fd) => KeptAssign(s, e, fd))
    case Block(name, quoted, entries) =>
      quoted
      || (match FindField(s, m, name)
          case None => true
          case Some(fd) =>
            match KeyField(s, fd)
            case Some(key) => KeptKeyed(s, fd, key, entries)
            case None => fd.kind.Message? ==> Kept(s, fd.kind.m, entries))
    case _ => true
  }

  predicate KeptAssign(s: Schema, e: Entry, fd: FieldDesc)
    requires e.Assign?
    decreases ESize(e), 0
  {
    EntrySize(e);
    match fd.kind
    case MapOfMessage(m) => e.value.BlockVal? ==> KeptMap(s, m, e.value.entries)
    case RepeatedMessage(m, _) =>
      var key := KeyField(s, fd);
      if e.value.ListVal? then
        if key.Some? && Eligible(e.value.elements, key.value.name, {}) then
          KeptNamed(s, m, key.value, e.value.elements)
        else KeptElements(s, m, e.value.elements)
      else e.value.BlockVal? && key.Some? ==> KeptKeyed(s, fd, key.value, e.value.entries)
    case Message(m) => e.value.BlockVal? ==> Kept(s, m, e.value.entries)
    case _ => true
  }

  predicate KeptMap(s: Schema, m: string, es: seq<Entry>)
    decreases EsSize(es), 2
  {
    es == []
    || (FirstEntrySize(es);
        EntrySize(es[0]);
        (es[0].MapEntry? && es[0].value.BlockVal? ==> Kept(s, m, es[0].value.entries)) && KeptMap(s, m, es[1..]))
  }

  predicate KeptElements(s: Schema, m: string, vs: seq<Value>)
    decreases VsSize(vs), 2
  {
    vs == []
    || (FirstElementSize(vs);
        (vs[0].BlockVal? ==> Kept(s, m, vs[0].entries)) && KeptElements(s, m, vs[1..]))
  }

  predicate KeptNamed(s: Schema, m: string, key: FieldDesc, vs: seq<Value>)
    decreases VsSize(vs), 2
  {
    vs == []
    || (FirstElementSize(vs);
        KeptNamedElement(s, m, key, vs[0]) && KeptNamed(s, m, key, vs[1..]))
  }

  predicate KeptNamedElement(s: Schema, m: string, key: FieldDesc, v: Value)
    decreases VSize(v), 1
  {
    BlockSize(v);
    v.BlockVal? && KeyOf(v.entries, key.name).Some?
    ==> !IsTyped(m, v.entries) && Kept(s, m, Drop(v.entries, key.name, KeyOf(v.entries, key.name).value))
  }

  predicate KeptKeyed(s: Schema, fd: FieldDesc, key: FieldDesc, es: seq<Entry>)
    requires fd.kind.RepeatedMessage?
    decreases EsSize(es), 2
  {
    es == []
    || (FirstEntrySize(es);
        EntrySize(es[0]);
        (NamedBody(es[0]).Some? ==>
           Kept(s, fd.kind.m, Drop(NamedBody(es[0]).value.1, key.name, NamedBody(es[0]).value.0)))
        && KeptKeyed(s, fd, key, es[1..]))
  }

  /** The body of an Any holds nothing to rewrite. */
  lemma {:induction false} AnyUnchanged(s: Schema, es: seq<Entry>)
    requires ValidSchema(s)
    ensures Canon(s, ANY, es) == es && Kept(s, ANY, es)
    decreases |es|
  {
    hide ValidSchema, CanonEntry, KeptEntry, EsSize;
    if es != [] {
      AnyEntry(s, es[0]);
      AnyUnchanged(s, es[1..]);
    }
  }

  lemma AnyEntry(s: Schema, e: Entry)
    requires ValidSchema(s)
    ensures CanonEntry(s, ANY, e) == e && KeptEntry(s, ANY, e)
  {
    hide ValidSchema, FindField;
    var name := if e.Assign? then e.key else if e.Block? then e.name else "";
    if FindField(s, ANY, name).Some? {
      AnyPlain(s, name);
      var fd := FindField(s, ANY, name).value;
      if e.Assign? {
        assert CanonAssign(s, e, fd) == e && KeptAssign(s, e, fd);
      }
    }
  }

  // ---- Canonical documents decode as they did ----

  /** A body decodes to the same fields, oneofs and scope, entry by entry. */
  lemma {:induction false} RunPreserved(c: Ctx, m: string, es: seq<Entry>, ke: KeyedElem, b: Body, depth: nat)
    requires ValidSchema(c.schema) && Run(c, m, es, ke, b, depth).Some?
    ensures Run(c, m, Canon(c.schema, m, es), ke, b, depth)
            == if Kept(c.schema, m, es) then Run(c, m, es, ke, b, depth) else None
    decreases EsSize(es), 2
  {
    hide Step, CanonEntry, KeptEntry, ValidSchema, EsSize, ESize;
    if es != [] {
      FirstEntrySize(es);
      StepPreserved(c, m, es[0], ke, b, depth);
      RunPreserved(c, m, es[1..], ke, Step(c, m, es[0], ke, b, depth).value, depth);
      RunFirst(c, m, CanonEntry(c.schema, m, es[0]), Canon(c.schema, m, es[1..]), ke, b, depth);
    }
  }

  lemma {:induction false} SubBodyPreserved(c: Ctx, m: string, es: seq<Entry>, ke: KeyedElem, start: Msg, depth: nat)
    requires ValidSchema(c.schema) && SubBody(c, m, es, ke, start, depth).Some?
    ensures SubBody(c, m, Canon(c.schema, m, es), ke, start, depth)
            == if Kept(c.schema, m, es) then SubBody(c, m, es, ke, start, depth) else None
    decreases EsSize(es), 3
  {
    hide Run, ValidSchema, EsSize, Canon, Kept;
    RunPreserved(c, m, es, ke, Body(start, {}, {}), depth + 1);
  }

  lemma {:induction false} MessagePreserved(c: Ctx, m: string, es: seq<Entry>, ke: KeyedElem, depth: nat)
    requires ValidSchema(c.schema) && MessageBody(c, m, es, ke, depth).Some?
    ensures MessageBody(c, m, Canon(c.schema, m, es), ke, depth)
            == if Kept(c.schema, m, es) then MessageBody(c, m, es, ke, depth) else None
    decreases EsSize(es), 4
  {
    hide SubBody, ValidSchema, EsSize, Canon, Kept;
    if m == ANY {
      AnyUnchanged(c.schema, es);
    } else {
      SubBodyPreserved(c, m, es, ke, map[], depth);
    }
  }

  lemma {:induction false} StepPreserved(c: Ctx, m: string, e: Entry, ke: KeyedElem, b: Body, depth: nat)
    requires ValidSchema(c.schema) && Step(c, m, e, ke, b, depth).Some?
    ensures Step(c, m, CanonEntry(c.schema, m, e), ke, b, depth)
            == if KeptEntry(c.schema, m, e) then Step(c, m, e, ke, b, depth) else None
    decreases ESize(e), 1
  {
    hide Bind, KeyedBlock, MessageBody, Canon, CanonKeyed, CanonAssign, KeyField, FindField, ValidSchema, EsSize, ESize;
    hide Kept, KeptKeyed, KeptAssign;
    EntrySize(e);
    if e.Assign? && FindField(c.schema, m, e.key).Some? {
      FoundName(c.schema, m, e.key);
      AssignPreserved(c, m, e, FindField(c.schema, m, e.key).value, ke, b, depth);
    } else if e.Block? && FindField(c.schema, m, e.name).Some? {
      var fd := FindField(c.schema, m, e.name).value;
      KeyFieldIs(c.schema, fd);
      if KeyField(c.schema, fd).Some? {
        KeyedBlockPreserved(c, fd, e.entries, Items(Get(b.msg, fd.name)), depth);
      } else if fd.kind.Message? {
        MessagePreserved(c, fd.kind.m, e.entries, NoElem, depth);
      }
    }
  }

  /** A value rewritten in place binds as it did. */
  lemma {:induction false} AssignPreserved(c: Ctx, m: string, e: Entry, fd: FieldDesc, ke: KeyedElem, b: Body,
                                           depth: nat)
    requires ValidSchema(c.schema) && e.Assign? && Step(c, m, e, ke, b, depth).Some?
    requires FindField(c.schema, m, e.key) == Some(fd) && fd.name == e.key
    ensures Step(c, m, CanonAssign(c.schema, e, fd), ke, b, depth)
            == if KeptAssign(c.schema, e, fd) then Step(c, m, e, ke, b, depth) else None
    decreases ESize(e), 0
  {
    hide KeyedBlock, MessageBody, ListItems, MapItems, Canon, CanonKeyed, CanonMap, CanonElements, Named, KeyField,
         FindField;
    hide ValidSchema, EsSize, ESize, VsSize, Eligible, Kept, KeptMap, KeptNamed, KeptElements, KeptKeyed;
    EntrySize(e);
    if Claim(b, fd).Some? {
      var had := Get(Claim(b, fd).value.msg, fd.name);
      match fd.kind {
        case Message(sub) =>
          if e.value.BlockVal? {
            MessagePreserved(c, sub, e.value.entries, NoElem, depth);
          }
        case MapOfMessage(sub) =>
          if e.value.BlockVal? {
            MapPreserved(c, fd, e.value.entries, Pairs(had), depth + 1);
          }
        case RepeatedMessage(sub, _) =>
          RepeatedPreserved(c, m, e, fd, ke, b, depth);
        case _ =>
      }
    }
  }

  /** A repeated message field: a list stays a list or becomes a keyed block, a keyed block stays one. */
  lemma {:induction false} RepeatedPreserved(c: Ctx, m: string, e: Entry, fd: FieldDesc, ke: KeyedElem, b: Body,
                                             depth: nat)
    requires ValidSchema(c.schema) && e.Assign? && Step(c, m, e, ke, b, depth).Some?
    requires FindField(c.schema, m, e.key) == Some(fd) && fd.name == e.key && fd.kind.RepeatedMessage?
    ensures Step(c, m, CanonAssign(c.schema, e, fd), ke, b, depth)
            == if KeptAssign(c.schema, e, fd) then Step(c, m, e, ke, b, depth) else None
    decreases ESize(e), 0, 0
  {
    hide MessageBody, ListItems, MapItems, KeyedItems, Canon, CanonKeyed, CanonMap, CanonElements, Named, KeyField,
         FindField;
    hide ValidSchema, EsSize, ESize, VsSize, Eligible, Kept, KeptMap, KeptNamed, KeptElements, KeptKeyed;
    EntrySize(e);
    KeyFieldIs(c.schema, fd);
    RepeatedAlone(c.schema, m, e.key);
    assert Claim(b, fd) == Some(b);
    var key := KeyField(c.schema, fd);
    var xs := Items(Get(b.msg, fd.name));
    if e.value.ListVal? {
      if key.Some? && Eligible(e.value.elements, key.value.name, {}) {
        NamedPreserved(c, fd, key.value, e.value.elements, xs, {}, depth + 1);
      } else {
        ElementsPreserved(c, fd, e.value.elements, xs, depth + 1);
      }
    } else if key.Some? && e.value.BlockVal? {
      KeyedBlockPreserved(c, fd, e.value.entries, xs, depth);
    }
  }

  lemma {:induction false} MapPreserved(c: Ctx, fd: FieldDesc, es: seq<Entry>, ps: map<string, Bound>, depth: nat)
    requires ValidSchema(c.schema) && fd.kind.MapOfMessage? && MapItems(c, fd, es, ps, depth).Some?
    ensures MapItems(c, fd, CanonMap(c.schema, fd.kind.m, es), ps, depth)
            == if KeptMap(c.schema, fd.kind.m, es) then MapItems(c, fd, es, ps, depth) else None
    decreases EsSize(es), 2
  {
    hide MessageBody, Canon, Kept, ValidSchema, EsSize, ESize;
    if es != [] {
      var e := es[0];
      FirstEntrySize(es);
      EntrySize(e);
      if e.value.BlockVal? {
        MessagePreserved(c, fd.kind.m, e.value.entries, NoElem, depth);
      }
      var k := c.rules.mapKey(fd.name, e.quoted, e.key).value;
      MapPreserved(c, fd, es[1..], ps[k := MapItem(c, fd, e.value, depth).value], depth);
      var r := CanonMap(c.schema, fd.kind.m, es);
      assert r[0] == CanonMapEntry(c.schema, fd.kind.m, e) && r[1..] == CanonMap(c.schema, fd.kind.m, es[1..]);
    }
  }

  lemma {:induction false} ElementsPreserved(c: Ctx, fd: FieldDesc, vs: seq<Value>, xs: seq<Bound>, depth: nat)
    requires ValidSchema(c.schema) && fd.kind.RepeatedMessage? && ListItems(c, fd, vs, xs, depth).Some?
    ensures ListItems(c, fd, CanonElements(c.schema, fd.kind.m, vs), xs, depth)
            == if KeptElements(c.schema, fd.kind.m, vs) then ListItems(c, fd, vs, xs, depth) else None
    decreases VsSize(vs), 2
  {
    hide MessageBody, Canon, Kept, ValidSchema, EsSize, VSize, VsSize, KeyField;
    if vs != [] {
      FirstElementSize(vs);
      if vs[0].BlockVal? {
        var key := KeyField(c.schema, fd);
        MessagePreserved(c, fd.kind.m, vs[0].entries, if key.Some? then Elem(key.value, None) else NoElem, depth);
      }
      ElementsPreserved(c, fd, vs[1..], xs + [ListItem(c, fd, vs[0], depth).value], depth);
      var r := CanonElements(c.schema, fd.kind.m, vs);
      assert r[0] == CanonElement(c.schema, fd.kind.m, vs[0]) && r[1..] == CanonElements(c.schema, fd.kind.m, vs[1..]);
    }
  }

  /** The body of a named entry, its redundant keys dropped and the rest rewritten. */
  lemma {:induction false} KeyedItemPreserved(c: Ctx, fd: FieldDesc, key: FieldDesc, n: string, body: seq<Entry>,
                                              depth: nat)
    requires ValidSchema(c.schema) && KeyField(c.schema, fd) == Some(key)
    requires KeyedItem(c, fd, key, n, body, depth).Some?
    ensures fd.kind.RepeatedMessage?
    ensures KeyedItem(c, fd, key, n, Canon(c.schema, fd.kind.m, Drop(body, key.name, n)), depth)
            == if Kept(c.schema, fd.kind.m, Drop(body, key.name, n)) then KeyedItem(c, fd, key, n, body, depth)
               else None
    decreases EsSize(body), 4
  {
    hide Run, Canon, Drop, Kept, ValidSchema, EsSize, FindField, KeyField;
    KeyFieldIs(c.schema, fd);
    var start := Body(map[key.name := StrB(n)], {}, {});
    DropNamed(c, fd.kind.m, body, start, key, n, depth + 1);
    WithStart(key, n);
    WithEnd(Run(c, fd.kind.m, body, Elem(key, Some(n)), start, depth + 1).value, key, n);
    DropSize(body, key.name, n);
    SubBodyPreserved(c, fd.kind.m, Drop(body, key.name, n), Elem(key, Some(n)), start.msg, depth);
  }

  lemma WithStart(key: FieldDesc, n: string)
    ensures With(Body(map[key.name := StrB(n)], {}, {}), key, n) == Body(map[key.name := StrB(n)], {}, {})
    ensures With(Body(map[], {}, {}), key, n) == Body(map[key.name := StrB(n)], {}, {})
  {
    assert map[key.name := StrB(n)][key.name := StrB(n)] == map[key.name := StrB(n)];
  }

  lemma WithEnd(b: Body, key: FieldDesc, n: string)
    requires Get(b.msg, key.name) == Some(StrB(n))
    ensures With(b, key, n).msg == b.msg
  {
  }

  /** A list element with one explicit key, as the entry of that name. */
  lemma {:induction false} ElementNamed(c: Ctx, fd: FieldDesc, key: FieldDesc, n: string, body: seq<Entry>, depth: nat)
    requires ValidSchema(c.schema) && KeyField(c.schema, fd) == Some(key) && KeyOf(body, key.name) == Some(n)
    requires ListItem(c, fd, BlockVal(body), depth).Some?
    ensures fd.kind.RepeatedMessage?
    ensures KeyedItem(c, fd, key, n, Canon(c.schema, fd.kind.m, Drop(body, key.name, n)), depth)
            == if KeptNamedElement(c.schema, fd.kind.m, key, BlockVal(body)) then ListItem(c, fd, BlockVal(body), depth)
               else None
    decreases EsSize(body), 4
  {
    hide Run, Canon, Drop, KeyOf, Kept, ValidSchema, EsSize, FindField, KeyField;
    KeyFieldIs(c.schema, fd);
    assert ListItem(c, fd, BlockVal(body), depth) == MessageBody(c, fd.kind.m, body, Elem(key, None), depth);
    if IsTyped(fd.kind.m, body) {
      TypedRefused(c, body, Elem(key, Some(n)), key, n, depth);
    } else {
      assert SubBody(c, fd.kind.m, body, Elem(key, None), map[], depth).Some?;
      var start := Body(map[], {}, {});
      DropAnonymous(c, fd.kind.m, body, start, key, n, depth + 1);
      WithStart(key, n);
      WithEnd(Run(c, fd.kind.m, body, Elem(key, None), start, depth + 1).value, key, n);
      DropSize(body, key.name, n);
      SubBodyPreserved(c, fd.kind.m, Drop(body, key.name, n), Elem(key, Some(n)), map[key.name := StrB(n)], depth);
    }
  }

  /** Under a name, a body that opens with a type is refused. */
  lemma TypedRefused(c: Ctx, body: seq<Entry>, ke: KeyedElem, key: FieldDesc, n: string, depth: nat)
    requires ValidSchema(c.schema) && IsTyped(ANY, body)
    ensures SubBody(c, ANY, Canon(c.schema, ANY, Drop(body, key.name, n)), ke, map[key.name := StrB(n)], depth).None?
  {
    hide ValidSchema, EsSize, Canon;
    var es := Drop(body, key.name, n);
    AnyUnchanged(c.schema, es);
    assert es[0] == body[0];
    assert Run(c, ANY, es, ke, Body(map[key.name := StrB(n)], {}, {}), depth + 1).None?;
  }

  lemma {:induction false} KeyedBlockPreserved(c: Ctx, fd: FieldDesc, es: seq<Entry>, xs: seq<Bound>, depth: nat)
    requires ValidSchema(c.schema) && KeyField(c.schema, fd).Some?
    requires KeyedBlock(c, fd, KeyField(c.schema, fd).value, es, xs, depth).Some?
    ensures fd.kind.RepeatedMessage?
    ensures var key := KeyField(c.schema, fd).value;
            KeyedBlock(c, fd, key, CanonKeyed(c.schema, fd, key, es), xs, depth)
            == if KeptKeyed(c.schema, fd, key, es) then KeyedBlock(c, fd, key, es, xs, depth) else None
    decreases EsSize(es), 3
  {
    hide KeyedItems, CanonKeyed, KeptKeyed, ValidSchema, EsSize, KeyField;
    KeyFieldIs(c.schema, fd);
    KeyedItemsPreserved(c, fd, KeyField(c.schema, fd).value, es, xs, {}, depth + 1);
  }

  lemma KeyedEntryBody(s: Schema, m: string, key: FieldDesc, e: Entry)
    requires NamedBody(e).Some?
    ensures var (name, body) := NamedBody(e).value;
            NamedBody(CanonKeyedEntry(s, m, key, e)) == Some((name, Canon(s, m, Drop(body, key.name, name))))
  {
    hide Canon, Drop;
  }

  lemma NamedElementBody(s: Schema, m: string, key: FieldDesc, v: Value, n: string)
    requires v.BlockVal? && KeyOf(v.entries, key.name) == Some(n)
    ensures NamedBody(NamedElement(s, m, key, v)) == Some((n, Canon(s, m, Drop(v.entries, key.name, n))))
  {
    hide Canon, Drop, KeyOf;
  }

  lemma KeyedFirst(c: Ctx, fd: FieldDesc, key: FieldDesc, e: Entry, es: seq<Entry>, xs: seq<Bound>, seen: set<string>,
                   depth: nat)
    requires NamedBody(e).Some? && NamedBody(e).value.0 !in seen && |xs| < c.rules.maxRepeated
    ensures KeyedItems(c, fd, key, [e] + es, xs, seen, depth)
            == var (name, body) := NamedBody(e).value;
               match KeyedItem(c, fd, key, name, body, depth)
               case None => None
               case Some(x) => KeyedItems(c, fd, key, es, xs + [x], seen + {name}, depth)
  {
    hide KeyedItem;
    assert ([e] + es)[0] == e && ([e] + es)[1..] == es;
  }

  lemma {:induction false} KeyedItemsPreserved(c: Ctx, fd: FieldDesc, key: FieldDesc, es: seq<Entry>, xs: seq<Bound>,
                                               seen: set<string>, depth: nat)
    requires ValidSchema(c.schema) && KeyField(c.schema, fd) == Some(key) && fd.kind.RepeatedMessage?
    requires KeyedItems(c, fd, key, es, xs, seen, depth).Some?
    ensures KeyedItems(c, fd, key, CanonKeyed(c.schema, fd, key, es), xs, seen, depth)
            == if KeptKeyed(c.schema, fd, key, es) then KeyedItems(c, fd, key, es, xs, seen, depth) else None
    decreases EsSize(es), 2
  {
    hide KeyedItem, Canon, Drop, Kept, ValidSchema, EsSize, ESize, KeyField, IdentifierSafe;
    if es != [] {
      FirstEntrySize(es);
      EntrySize(es[0]);
      var (name, body) := NamedBody(es[0]).value;
      KeyedItemPreserved(c, fd, key, name, body, depth);
      KeyedItemsPreserved(c, fd, key, es[1..], xs + [KeyedItem(c, fd, key, name, body, depth).value], seen + {name},
                          depth);
      var e := CanonKeyedEntry(c.schema, fd.kind.m, key, es[0]);
      KeyedEntryBody(c.schema, fd.kind.m, key, es[0]);
      KeyedFirst(c, fd, key, e, CanonKeyed(c.schema, fd, key, es[1..]), xs, seen, depth);
    }
  }

  /** An eligible list and the keyed block made of it hold the same elements in the same order, typed ones aside. */
  lemma {:induction false} NamedPreserved(c: Ctx, fd: FieldDesc, key: FieldDesc, vs: seq<Value>, xs: seq<Bound>,
                                          seen: set<string>, depth: nat)
    requires ValidSchema(c.schema) && KeyField(c.schema, fd) == Some(key) && fd.kind.RepeatedMessage?
    requires Eligible(vs, key.name, seen) && ListItems(c, fd, vs, xs, depth).Some?
    ensures KeyedItems(c, fd, key, Named(c.schema, fd.kind.m, key, vs), xs, seen, depth)
            == if KeptNamed(c.schema, fd.kind.m, key, vs) then ListItems(c, fd, vs, xs, depth) else None
    decreases VsSize(vs), 2
  {
    hide KeyedItem, ListItem, Canon, Drop, KeyOf, ValidSchema, EsSize, VSize, VsSize, KeyField, IdentifierSafe;
    hide KeptNamedElement;
    if vs != [] {
      FirstElementSize(vs);
      var n := KeyOf(vs[0].entries, key.name).value;
      ElementNamed(c, fd, key, n, vs[0].entries, depth);
      NamedPreserved(c, fd, key, vs[1..], xs + [ListItem(c, fd, vs[0], depth).value], seen + {n}, depth);
      var e := NamedElement(c.schema, fd.kind.m, key, vs[0]);
      NamedElementBody(c.schema, fd.kind.m, key, vs[0], n);
      KeyedFirst(c, fd, key, e, Named(c.schema, fd.kind.m, key, vs[1..]), xs, seen, depth);
    }
  }

  /**
   * A document that the decoder accepts decodes to the same message once canonical, exactly where no
   * list that becomes a keyed block has a typed Any for an element; with one it is refused.
   */
  lemma {:induction false} CanonPreservesMeaning(c: Ctx, m: string, es: seq<Entry>)
    requires ValidSchema(c.schema) && Decode(c, m, es).Some?
    ensures Decode(c, m, Canon(c.schema, m, es)) == Decode(c, m, es) <==> Kept(c.schema, m, es)
    ensures !Kept(c.schema, m, es) ==> Decode(c, m, Canon(c.schema, m, es)) == None
  {
    hide Run, Canon, ValidSchema, Kept;
    RunPreserved(c, m, es, NoElem, Body(map[], {}, {}), 0);
  }
}
