/**
Which schemas keep every document's meaning, and a document that loses it: src/pxf/keyed.cc rewrites
a list of a keyed field without a look at the types of its elements, and src/pxf/decode_fast.cc reads
the type of an Any in a list but not under a name.
 */
module KeyedAny {
  import opened Options
  import opened KeyedAst
  import opened KeyedDecode
  import opened KeyedCanon
  import opened KeyedMeaning

  /** No keyed field holds elements of type Any. */
  predicate NoKeyedAny(s: Schema) {
    forall m :: m in s ==> forall i :: 0 <= i < |s[m]| && KeyField(s, s[m][i]).Some? ==> s[m][i].kind.m != ANY
  }

  lemma NotAny(s: Schema, m: string, name: string)
    requires NoKeyedAny(s) && FindField(s, m, name).Some?
    ensures var fd := FindField(s, m, name).value; KeyField(s, fd).Some? ==> fd.kind.m != ANY
  {
    hide KeyField;
    var fd := FindField(s, m, name).value;
    assert fd in s[m];
    var i :| 0 <= i < |s[m]| && s[m][i] == fd;
  }

  // ---- Every document is kept ----

  lemma {:induction false} AllKept(s: Schema, m: string, es: seq<Entry>)
    requires NoKeyedAny(s)
    ensures Kept(s, m, es)
    decreases EsSize(es), 2
  {
    hide NoKeyedAny, KeptEntry, EsSize, ESize;
    if es != [] {
      FirstEntrySize(es);
      EntryKept(s, m, es[0]);
      AllKept(s, m, es[1..]);
    }
  }

  lemma {:induction false} EntryKept(s: Schema, m: string, e: Entry)
    requires NoKeyedAny(s)
    ensures KeptEntry(s, m, e)
    decreases ESize(e), 1
  {
    hide NoKeyedAny, Kept, KeptKeyed, KeptAssign, FindField, KeyField, EsSize, ESize;
    EntrySize(e);
    var name := if e.Assign? then e.key else if e.Block? then e.name else "";
    if FindField(s, m, name).Some? {
      var fd := FindField(s, m, name).value;
      NotAny(s, m, name);
      KeyFieldIs(s, fd);
      if e.Assign? {
        AssignKept(s, e, fd);
      } else if e.Block? && KeyField(s, fd).Some? {
        KeyedKept(s, fd, KeyField(s, fd).value, e.entries);
      } else if e.Block? && fd.kind.Message? {
        AllKept(s, fd.kind.m, e.entries);
      }
    }
  }

  lemma {:induction false} AssignKept(s: Schema, e: Entry, fd: FieldDesc)
    requires NoKeyedAny(s) && e.Assign? && (KeyField(s, fd).Some? ==> fd.kind.m != ANY)
    ensures KeptAssign(s, e, fd)
    decreases ESize(e), 0
  {
    hide NoKeyedAny, Kept, KeptMap, KeptNamed, KeptElements, KeptKeyed, Eligible, KeyField, EsSize, ESize, VsSize;
    EntrySize(e);
    KeyFieldIs(s, fd);
    var key := KeyField(s, fd);
    if e.value.BlockVal? {
      match fd.kind {
        case Message(m) => AllKept(s, m, e.value.entries);
        case MapOfMessage(m) => MapKept(s, m, e.value.entries);
        case RepeatedMessage(_, _) =>
          if key.Some? {
            KeyedKept(s, fd, key.value, e.value.entries);
          }
        case _ =>
      }
    } else if e.value.ListVal? && fd.kind.RepeatedMessage? {
      ElementsKept(s, fd.kind.m, e.value.elements);
      if key.Some? {
        NamedKept(s, fd.kind.m, key.value, e.value.elements);
      }
    }
  }

  lemma {:induction false} MapKept(s: Schema, m: string, es: seq<Entry>)
    requires NoKeyedAny(s)
    ensures KeptMap(s, m, es)
    decreases EsSize(es), 2
  {
    hide NoKeyedAny, Kept, EsSize, ESize;
    if es != [] {
      FirstEntrySize(es);
      EntrySize(es[0]);
      if es[0].MapEntry? && es[0].value.BlockVal? {
        AllKept(s, m, es[0].value.entries);
      }
      MapKept(s, m, es[1..]);
    }
  }

  lemma {:induction false} ElementsKept(s: Schema, m: string, vs: seq<Value>)
    requires NoKeyedAny(s)
    ensures KeptElements(s, m, vs)
    decreases VsSize(vs), 2
  {
    hide NoKeyedAny, Kept, VsSize, VSize, EsSize;
    if vs != [] {
      FirstElementSize(vs);
      if vs[0].BlockVal? {
        AllKept(s, m, vs[0].entries);
      }
      ElementsKept(s, m, vs[1..]);
    }
  }

  lemma {:induction false} NamedKept(s: Schema, m: string, key: FieldDesc, vs: seq<Value>)
    requires NoKeyedAny(s) && m != ANY
    ensures KeptNamed(s, m, key, vs)
    decreases VsSize(vs), 2
  {
    hide NoKeyedAny, Kept, Drop, KeyOf, VsSize, VSize, EsSize;
    if vs != [] {
      FirstElementSize(vs);
      if vs[0].BlockVal? && KeyOf(vs[0].entries, key.name).Some? {
        var n := KeyOf(vs[0].entries, key.name).value;
        DropSize(vs[0].entries, key.name, n);
        AllKept(s, m, Drop(vs[0].entries, key.name, n));
      }
      NamedKept(s, m, key, vs[1..]);
    }
  }

  lemma {:induction false} KeyedKept(s: Schema, fd: FieldDesc, key: FieldDesc, es: seq<Entry>)
    requires NoKeyedAny(s) && fd.kind.RepeatedMessage?
    ensures KeptKeyed(s, fd, key, es)
    decreases EsSize(es), 2
  {
    hide NoKeyedAny, Kept, Drop, EsSize, ESize;
    if es != [] {
      FirstEntrySize(es);
      EntrySize(es[0]);
      if NamedBody(es[0]).Some? {
        var (name, body) := NamedBody(es[0]).value;
        DropSize(body, key.name, name);
        AllKept(s, fd.kind.m, Drop(body, key.name, name));
      }
      KeyedKept(s, fd, key, es[1..]);
    }
  }

  // ---- A document that is refused once canonical ----

  function UrlField(): FieldDesc { FieldDesc("type_url", Str, None) }

  function ListField(): FieldDesc { FieldDesc("xs", RepeatedMessage(ANY, Some("type_url")), None) }

  /** M holds a list of Any keyed by their type URLs; T has a string field of that name too. */
  function KeyedAnySchema(): Schema {
    map["M" := [ListField()], "T" := [UrlField()], ANY := [UrlField(), FieldDesc("value", Scalar("bytes"), None)]]
  }

  function SomeRules(): Rules {
    Rules((_, _) => None, (_, _) => None, (_, _, _) => None, url => if url == "t" then Some("T") else None,
          _ => false, _ => true, false, 2, 1)
  }

  /** `@type = "t"  type_url = "k"`, in the only element of xs. */
  function TypedBody(): seq<Entry> {
    [TypeEntry("t"), Assign("type_url", false, StrVal("k"))]
  }

  function TypedList(): seq<Entry> {
    [Assign("xs", false, ListVal([BlockVal(TypedBody())]))]
  }

  function Parsed(): Msg {
    map["xs" := ListB([AnyB("t", map["type_url" := StrB("k")])])]
  }

  lemma TypedReads(c: Ctx, ke: KeyedElem)
    requires c == Ctx(KeyedAnySchema(), SomeRules())
    ensures MessageBody(c, ANY, TypedBody(), ke, 1) == Some(AnyB("t", map["type_url" := StrB("k")]))
  {
    var es := TypedBody()[1..];
    var start := Body(map[], {}, {});
    assert es == [Assign("type_url", false, StrVal("k"))] && es[1..] == [];
    assert FindField(c.schema, "T", "type_url") == Some(UrlField());
    var b := Body(map["type_url" := StrB("k")], {}, {"type_url"});
    assert start.scope + {"type_url"} == {"type_url"};
    assert Claim(start, UrlField()) == Some(Body(map[], {}, {"type_url"}));
    assert Bind(c, UrlField(), StrVal("k"), None, 2) == Some(StrB("k"));
    assert map[]["type_url" := StrB("k")] == b.msg;
    assert Step(c, "T", es[0], NoElem, start, 2) == Some(b);
    assert Run(c, "T", es, NoElem, start, 2) == Some(b);
    assert SubBody(c, "T", es, NoElem, map[], 1) == Some(MsgB(b.msg));
  }

  lemma TypedListReads(c: Ctx)
    requires c == Ctx(KeyedAnySchema(), SomeRules())
    ensures Decode(c, "M", TypedList()) == Some(Parsed())
  {
    hide MessageBody;
    var vs := [BlockVal(TypedBody())];
    var start := Body(map[], {}, {});
    var x := AnyB("t", map["type_url" := StrB("k")]);
    assert FindField(c.schema, "M", "xs") == Some(ListField());
    assert FindField(c.schema, ANY, "type_url") == Some(UrlField());
    assert KeyField(c.schema, ListField()) == Some(UrlField());
    TypedReads(c, Elem(UrlField(), None));
    assert ListItem(c, ListField(), vs[0], 1) == Some(x);
    assert vs[1..] == [] && [] + [x] == [x];
    assert ListItems(c, ListField(), vs, [], 1) == Some(ListB([x]));
    assert Bind(c, ListField(), ListVal(vs), None, 0) == Some(ListB([x]));
    assert Step(c, "M", TypedList()[0], NoElem, start, 0) == Some(Body(Parsed(), {}, {}));
    assert TypedList()[1..] == [];
  }

  /** Accepted, and refused once canonical. */
  lemma TypedKeyRefused(c: Ctx)
    requires c == Ctx(KeyedAnySchema(), SomeRules())
    ensures ValidSchema(c.schema) && !NoKeyedAny(c.schema)
    ensures Decode(c, "M", TypedList()) == Some(Parsed())
    ensures Decode(c, "M", Canon(c.schema, "M", TypedList())) == None
  {
    hide Decode, Canon;
    TypedListReads(c);
    TypedNotKept(c.schema);
    CanonPreservesMeaning(c, "M", TypedList());
  }

  lemma TypedNotKept(s: Schema)
    requires s == KeyedAnySchema()
    ensures ValidSchema(s) && !NoKeyedAny(s) && !Kept(s, "M", TypedList())
  {
    var fd, vs := ListField(), [BlockVal(TypedBody())];
    assert FindField(s, "M", "xs") == Some(fd);
    assert FindField(s, ANY, "type_url") == Some(UrlField());
    assert KeyField(s, fd) == Some(UrlField());
    assert s["M"][0] == fd;
    assert TypedBody()[1..] == [Assign("type_url", false, StrVal("k"))];
    assert KeyOf(TypedBody()[1..], "type_url") == Some("k");
    assert KeyOf(TypedBody(), "type_url") == Some("k");
    assert vs[1..] == [] && Eligible(vs, "type_url", {});
    assert !KeptNamed(s, ANY, UrlField(), vs);
    assert !KeptAssign(s, TypedList()[0], fd);
    assert !KeptEntry(s, "M", TypedList()[0]);
  }
}
