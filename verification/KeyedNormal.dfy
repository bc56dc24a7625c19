/**
The canonical form of keyed fields, said of the document and not of how src/pxf/keyed.cc rewrites it:
every rewritten document has the form, and one that has it is left as it is.
 */
module KeyedNormal {
  import opened Options
  import opened KeyedAst
  import opened KeyedCanon

  // ---- The form ----

  /** The body assigns the key field once, without quotes, to the string k. */
  ghost predicate HasKey(es: seq<Entry>, key: string, k: string) {
    exists i :: 0 <= i < |es| && es[i] == Assign(key, false, StrVal(k)) && NotElsewhere(es, key, i)
  }

  predicate NotElsewhere(es: seq<Entry>, key: string, i: int) {
    forall j :: 0 <= j < |es| && j != i ==> !(es[j].Assign? && es[j].key == key)
  }

  ghost predicate HaveKeys(vs: seq<Value>, key: string, ks: seq<string>) {
    |ks| == |vs| && forall i :: 0 <= i < |vs| ==> vs[i].BlockVal? && HasKey(vs[i].entries, key, ks[i])
  }

  predicate Distinct(ks: seq<string>, seen: set<string>) {
    forall i :: 0 <= i < |ks| ==> ks[i] != "" && ks[i] !in seen && ks[i] !in ks[..i]
  }

  /** A list that says nothing a keyed block could not: blocks, with keys that are not empty and not repeated. */
  ghost predicate Convertible(vs: seq<Value>, key: string) {
    exists ks :: HaveKeys(vs, key, ks) && Distinct(ks, {})
  }

  ghost predicate NormalBody(s: Schema, m: string, es: seq<Entry>)
    decreases EsSize(es), 2
  {
    es == [] || (FirstEntrySize(es); NormalEntry(s, m, es[0]) && NormalBody(s, m, es[1..]))
  }

  ghost predicate NormalEntry(s: Schema, m: string, e: Entry)
    decreases ESize(e), 1
  {
    EntrySize(e);
    match e
    case Assign(name, false, value) =>
      (match FindField(s, m, name)
       case None => true
       case Some(fd) =>
         match fd.kind
         case Message(sub) => value.BlockVal? ==> NormalBody(s, sub, value.entries)
         case MapOfMessage(sub) => value.BlockVal? ==> NormalMap(s, sub, value.entries)
         case RepeatedMessage(sub, _) =>
           && (value.BlockVal? ==> KeyField(s, fd) == None)
           && (value.ListVal? ==>
                 && NormalElements(s, sub, value.elements)
                 && (KeyField(s, fd).Some? ==> !Convertible(value.elements, KeyField(s, fd).value.name)))
         case _ => true)
    case Block(name, false, entries) =>
      (match FindField(s, m, name)
       case None => true
       case Some(fd) =>
         && (fd.kind.Message? ==> NormalBody(s, fd.kind.m, entries))
         && (KeyField(s, fd).Some? ==> NormalKeyed(s, fd.kind.m, KeyField(s, fd).value.name, entries)))
    case _ => true
  }

  ghost predicate NormalMap(s: Schema, m: string, es: seq<Entry>)
    decreases EsSize(es), 2
  {
    es == []
    || (FirstEntrySize(es);
        EntrySize(es[0]);
        && (es[0].MapEntry? && es[0].value.BlockVal? ==> NormalBody(s, m, es[0].value.entries))
        && NormalMap(s, m, es[1..]))
  }

  ghost predicate NormalElements(s: Schema, m: string, vs: seq<Value>)
    decreases VsSize(vs), 2
  {
    vs == []
    || (FirstElementSize(vs);
        (vs[0].BlockVal? ==> NormalBody(s, m, vs[0].entries)) && NormalElements(s, m, vs[1..]))
  }

  /** The entries of a keyed block: written as blocks, quoted only where they must be, their keys not said again. */
  ghost predicate NormalKeyed(s: Schema, m: string, key: string, es: seq<Entry>)
    decreases EsSize(es), 2
  {
    es == []
    || (FirstEntrySize(es);
        NormalNamed(s, m, key, es[0]) && NormalKeyed(s, m, key, es[1..]))
  }

  ghost predicate NormalNamed(s: Schema, m: string, key: string, e: Entry)
    decreases ESize(e), 1
  {
    EntrySize(e);
    && !(e.Assign? && e.value.BlockVal?)
    && (e.Block? ==>
          && !(e.quoted && IdentifierSafe(e.name))
          && Assign(key, false, StrVal(e.name)) !in e.entries
          && NormalBody(s, m, e.entries))
  }

  // ---- Explicit keys ----

  lemma {:induction false} KeyIs(es: seq<Entry>, key: string, k: string)
    ensures KeyOf(es, key) == Some(k) <==> HasKey(es, key, k)
    decreases |es|
  {
    if es != [] {
      var e, rest := es[0], es[1..];
      KeyIs(rest, key, k);
      if e.Assign? && e.key == key {
        FirstKey(es, key, k);
      } else {
        LaterKey(es, key, k);
      }
    }
  }

  lemma FirstKey(es: seq<Entry>, key: string, k: string)
    requires es != [] && es[0].Assign? && es[0].key == key
    ensures HasKey(es, key, k) <==> es[0] == Assign(key, false, StrVal(k)) && !Assigns(es[1..], key)
  {
    var rest := es[1..];
    if HasKey(es, key, k) {
      var i :| 0 <= i < |es| && es[i] == Assign(key, false, StrVal(k)) && NotElsewhere(es, key, i);
      assert i == 0;
      forall j | 0 <= j < |rest|
        ensures !(rest[j].Assign? && rest[j].key == key)
      {
        assert rest[j] == es[j + 1];
      }
    }
    if es[0] == Assign(key, false, StrVal(k)) && !Assigns(rest, key) {
      forall j | 0 < j < |es|
        ensures !(es[j].Assign? && es[j].key == key)
      {
        assert es[j] == rest[j - 1];
      }
      assert NotElsewhere(es, key, 0);
    }
  }

  lemma LaterKey(es: seq<Entry>, key: string, k: string)
    requires es != [] && !(es[0].Assign? && es[0].key == key)
    ensures HasKey(es, key, k) <==> HasKey(es[1..], key, k)
  {
    var rest := es[1..];
    if HasKey(es, key, k) {
      var i :| 0 <= i < |es| && es[i] == Assign(key, false, StrVal(k)) && NotElsewhere(es, key, i);
      assert rest[i - 1] == es[i];
      assert NotElsewhere(rest, key, i - 1) by {
        forall j | 0 <= j < |rest| && j != i - 1 ensures rest[j] == es[j + 1] {}
      }
    }
    if HasKey(rest, key, k) {
      var i :| 0 <= i < |rest| && rest[i] == Assign(key, false, StrVal(k)) && NotElsewhere(rest, key, i);
      assert es[i + 1] == rest[i];
      assert NotElsewhere(es, key, i + 1) by {
        forall j | 0 < j < |es| ensures es[j] == rest[j - 1] {}
      }
    }
  }

  /** The keys an eligible list has. */
  lemma {:induction false} EligibleKeys(vs: seq<Value>, key: string, seen: set<string>) returns (ks: seq<string>)
    requires Eligible(vs, key, seen)
    ensures HaveKeys(vs, key, ks) && Distinct(ks, seen)
    decreases |vs|
  {
    hide KeyOf, HasKey;
    if vs == [] {
      ks := [];
    } else {
      var k := KeyOf(vs[0].entries, key).value;
      var rest := EligibleKeys(vs[1..], key, seen + {k});
      KeyIs(vs[0].entries, key, k);
      ks := [k] + rest;
      forall i | 0 < i < |vs| ensures vs[i] == vs[1..][i - 1] && ks[i] == rest[i - 1] {}
      forall i | 0 < i < |ks|
        ensures ks[i] != "" && ks[i] !in seen && ks[i] !in ks[..i]
      {
        assert ks[..i] == [k] + rest[..i - 1];
      }
    }
  }

  lemma {:induction false} KeysEligible(vs: seq<Value>, key: string, seen: set<string>, ks: seq<string>)
    requires HaveKeys(vs, key, ks) && Distinct(ks, seen)
    ensures Eligible(vs, key, seen)
    decreases |vs|
  {
    hide KeyOf, HasKey;
    if vs != [] {
      KeyIs(vs[0].entries, key, ks[0]);
      var rest := ks[1..];
      forall i | 0 <= i < |rest|
        ensures rest[i] != "" && rest[i] !in seen + {ks[0]} && rest[i] !in rest[..i]
      {
        assert rest[i] == ks[i + 1] && ks[..i + 1] == [ks[0]] + rest[..i];
      }
      KeysEligible(vs[1..], key, seen + {ks[0]}, rest);
    }
  }

  lemma ConvertibleIs(vs: seq<Value>, key: string)
    ensures Convertible(vs, key) <==> Eligible(vs, key, {})
  {
    hide HaveKeys, Distinct, Eligible;
    if Convertible(vs, key) {
      var ks :| HaveKeys(vs, key, ks) && Distinct(ks, {});
      KeysEligible(vs, key, {}, ks);
    }
    if Eligible(vs, key, {}) {
      var ks := EligibleKeys(vs, key, {});
    }
  }

  // ---- What rewriting leaves alone ----

  /** Rewriting an entry never makes or unmakes an assignment of a string field. */
  lemma {:induction false} KeyEntryKept(s: Schema, m: string, e: Entry, key: FieldDesc)
    requires FindField(s, m, key.name) == Some(key) && key.kind.Str?
    ensures var r := CanonEntry(s, m, e);
            (r.Assign? && r.key == key.name <==> e.Assign? && e.key == key.name)
            && (e.Assign? && e.key == key.name ==> r == e)
  {
    hide Canon, CanonMap, CanonElements, CanonKeyed, Named, FindField, KeyField, EsSize, ESize, Eligible;
    if e.Assign? && FindField(s, m, e.key).Some? {
      FoundName(s, m, e.key);
    }
  }

  ghost predicate NoneRedundant(es: seq<Entry>, key: string, n: string) {
    forall i :: 0 <= i < |es| ==> !Redundant(es[i], key, n)
  }

  lemma {:induction false} DropLeavesNone(es: seq<Entry>, key: string, n: string)
    ensures NoneRedundant(Drop(es, key, n), key, n)
    decreases |es|
  {
    hide EsSize;
    if es != [] {
      DropLeavesNone(es[1..], key, n);
    }
  }

  lemma {:induction false} DropNothing(es: seq<Entry>, key: string, n: string)
    requires NoneRedundant(es, key, n)
    ensures Drop(es, key, n) == es
    decreases |es|
  {
    hide EsSize;
    if es != [] {
      assert !Redundant(es[0], key, n);
      assert NoneRedundant(es[1..], key, n);
      DropNothing(es[1..], key, n);
    }
  }

  lemma {:induction false} CanonKeepsNone(s: Schema, m: string, es: seq<Entry>, key: FieldDesc, n: string)
    requires FindField(s, m, key.name) == Some(key) && key.kind.Str? && NoneRedundant(es, key.name, n)
    ensures NoneRedundant(Canon(s, m, es), key.name, n)
  {
    hide Canon, CanonEntry, FindField;
    var r := Canon(s, m, es);
    forall i | 0 <= i < |es|
      ensures !Redundant(r[i], key.name, n)
    {
      CanonAt(s, m, es, i);
      KeyEntryKept(s, m, es[i], key);
      assert !Redundant(es[i], key.name, n);
    }
  }

  lemma {:induction false} AssignsKept(s: Schema, m: string, es: seq<Entry>, key: FieldDesc)
    requires FindField(s, m, key.name) == Some(key) && key.kind.Str?
    ensures Assigns(Canon(s, m, es), key.name) <==> Assigns(es, key.name)
  {
    hide Canon, CanonEntry, FindField;
    var r := Canon(s, m, es);
    forall i | 0 <= i < |es|
      ensures r[i].Assign? && r[i].key == key.name <==> es[i].Assign? && es[i].key == key.name
    {
      CanonAt(s, m, es, i);
      KeyEntryKept(s, m, es[i], key);
    }
    if Assigns(es, key.name) {
      var i :| 0 <= i < |es| && es[i].Assign? && es[i].key == key.name;
      assert r[i].Assign? && r[i].key == key.name;
    }
    if Assigns(r, key.name) {
      var i :| 0 <= i < |r| && r[i].Assign? && r[i].key == key.name;
      assert es[i].Assign? && es[i].key == key.name;
    }
  }

  lemma {:induction false} KeyKept(s: Schema, m: string, es: seq<Entry>, key: FieldDesc)
    requires FindField(s, m, key.name) == Some(key) && key.kind.Str?
    ensures KeyOf(Canon(s, m, es), key.name) == KeyOf(es, key.name)
    decreases |es|
  {
    hide CanonEntry, FindField, EsSize;
    if es != [] {
      KeyEntryKept(s, m, es[0], key);
      AssignsKept(s, m, es[1..], key);
      KeyKept(s, m, es[1..], key);
      var r := Canon(s, m, es);
      assert r[0] == CanonEntry(s, m, es[0]) && r[1..] == Canon(s, m, es[1..]);
    }
  }

  lemma {:induction false} EligibleKept(s: Schema, m: string, vs: seq<Value>, key: FieldDesc, seen: set<string>)
    requires FindField(s, m, key.name) == Some(key) && key.kind.Str?
    ensures Eligible(CanonElements(s, m, vs), key.name, seen) == Eligible(vs, key.name, seen)
    decreases |vs|
  {
    hide Canon, KeyOf, FindField, VsSize, EsSize;
    if vs != [] {
      var r := CanonElements(s, m, vs);
      assert r[0] == CanonElement(s, m, vs[0]) && r[1..] == CanonElements(s, m, vs[1..]);
      if vs[0].BlockVal? {
        KeyKept(s, m, vs[0].entries, key);
        var k := KeyOf(vs[0].entries, key.name);
        if k.Some? {
          EligibleKept(s, m, vs[1..], key, seen + {k.value});
        }
      }
    }
  }

  // ---- Every rewritten document has the form ----

  lemma {:induction false} CanonNormal(s: Schema, m: string, es: seq<Entry>)
    ensures NormalBody(s, m, Canon(s, m, es))
    decreases EsSize(es), 2
  {
    hide CanonEntry, NormalEntry, EsSize, ESize;
    if es != [] {
      FirstEntrySize(es);
      EntryNormal(s, m, es[0]);
      CanonNormal(s, m, es[1..]);
      var r := Canon(s, m, es);
      assert r[0] == CanonEntry(s, m, es[0]) && r[1..] == Canon(s, m, es[1..]);
    }
  }

  lemma {:induction false} EntryNormal(s: Schema, m: string, e: Entry)
    ensures NormalEntry(s, m, CanonEntry(s, m, e))
    decreases ESize(e), 1
  {
    hide Canon, CanonAssign, CanonKeyed, NormalBody, NormalKeyed, FindField, KeyField, EsSize, ESize;
    EntrySize(e);
    if e.Assign? && !e.quoted && FindField(s, m, e.key).Some? {
      AssignNormal(s, m, e, FindField(s, m, e.key).value);
    } else if e.Block? && !e.quoted && FindField(s, m, e.name).Some? {
      var fd := FindField(s, m, e.name).value;
      KeyFieldIs(s, fd);
      if KeyField(s, fd).Some? {
        KeyedNormal(s, fd, KeyField(s, fd).value, e.entries);
      } else if fd.kind.Message? {
        CanonNormal(s, fd.kind.m, e.entries);
      }
    }
  }

  lemma {:induction false} AssignNormal(s: Schema, m: string, e: Entry, fd: FieldDesc)
    requires e.Assign? && !e.quoted && FindField(s, m, e.key) == Some(fd)
    ensures NormalEntry(s, m, CanonAssign(s, e, fd))
    decreases ESize(e), 0
  {
    hide Canon, CanonMap, CanonElements, CanonKeyed, Named, FindField, KeyField, EsSize, ESize, VsSize, Eligible;
    hide NormalBody, NormalMap, NormalElements, NormalKeyed, Convertible;
    EntrySize(e);
    KeyFieldIs(s, fd);
    match fd.kind {
      case MapOfMessage(sub) =>
        if e.value.BlockVal? {
          MapNormal(s, sub, e.value.entries);
        }
      case Message(sub) =>
        if e.value.BlockVal? {
          CanonNormal(s, sub, e.value.entries);
        }
      case RepeatedMessage(sub, _) =>
        var key := KeyField(s, fd);
        if e.value.ListVal? {
          if key.Some? && Eligible(e.value.elements, key.value.name, {}) {
            NamedNormal(s, sub, key.value, e.value.elements, {});
          } else {
            ElementsNormal(s, sub, e.value.elements);
            if key.Some? {
              EligibleKept(s, sub, e.value.elements, key.value, {});
              ConvertibleIs(CanonElements(s, sub, e.value.elements), key.value.name);
            }
          }
        } else if e.value.BlockVal? && key.Some? {
          KeyedNormal(s, fd, key.value, e.value.entries);
        }
      case _ =>
    }
  }

  lemma {:induction false} MapNormal(s: Schema, m: string, es: seq<Entry>)
    ensures NormalMap(s, m, CanonMap(s, m, es))
    decreases EsSize(es), 2
  {
    hide Canon, NormalBody, EsSize, ESize;
    if es != [] {
      FirstEntrySize(es);
      EntrySize(es[0]);
      if es[0].MapEntry? && es[0].value.BlockVal? {
        CanonNormal(s, m, es[0].value.entries);
      }
      MapNormal(s, m, es[1..]);
      var r := CanonMap(s, m, es);
      assert r[0] == CanonMapEntry(s, m, es[0]) && r[1..] == CanonMap(s, m, es[1..]);
    }
  }

  lemma {:induction false} ElementsNormal(s: Schema, m: string, vs: seq<Value>)
    ensures NormalElements(s, m, CanonElements(s, m, vs))
    decreases VsSize(vs), 2
  {
    hide Canon, NormalBody, EsSize, VSize, VsSize;
    if vs != [] {
      FirstElementSize(vs);
      if vs[0].BlockVal? {
        CanonNormal(s, m, vs[0].entries);
      }
      ElementsNormal(s, m, vs[1..]);
      var r := CanonElements(s, m, vs);
      assert r[0] == CanonElement(s, m, vs[0]) && r[1..] == CanonElements(s, m, vs[1..]);
    }
  }

  lemma {:induction false} NamedEntryNormal(s: Schema, m: string, key: FieldDesc, n: string, quoted: bool,
                                            body: seq<Entry>)
    requires FindField(s, m, key.name) == Some(key) && key.kind.Str?
    ensures NormalNamed(s, m, key.name, NamedEntry(s, m, key, n, quoted, body))
    decreases EsSize(body), 3
  {
    hide Canon, Drop, NormalBody, FindField, EsSize, IdentifierSafe;
    var d := Drop(body, key.name, n);
    DropSize(body, key.name, n);
    CanonNormal(s, m, d);
    DropLeavesNone(body, key.name, n);
    CanonKeepsNone(s, m, d, key, n);
    NoneIn(Canon(s, m, d), key.name, n);
  }

  lemma NoneIn(es: seq<Entry>, key: string, n: string)
    ensures NoneRedundant(es, key, n) <==> Assign(key, false, StrVal(n)) !in es
  {
    if Assign(key, false, StrVal(n)) in es {
      var i :| 0 <= i < |es| && es[i] == Assign(key, false, StrVal(n));
      assert Redundant(es[i], key, n);
    }
  }

  lemma {:induction false} KeyedNormal(s: Schema, fd: FieldDesc, key: FieldDesc, es: seq<Entry>)
    requires fd.kind.RepeatedMessage? && FindField(s, fd.kind.m, key.name) == Some(key) && key.kind.Str?
    ensures NormalKeyed(s, fd.kind.m, key.name, CanonKeyed(s, fd, key, es))
    decreases EsSize(es), 2
  {
    hide NamedEntry, NormalNamed, EsSize, ESize, FindField;
    if es != [] {
      var m := fd.kind.m;
      FirstEntrySize(es);
      EntrySize(es[0]);
      match es[0] {
        case Block(name, quoted, body) => NamedEntryNormal(s, m, key, name, quoted, body);
        case Assign(name, quoted, BlockVal(body)) => NamedEntryNormal(s, m, key, name, quoted, body);
        case _ => OtherNormal(s, m, key.name, es[0]);
      }
      KeyedNormal(s, fd, key, es[1..]);
      var r := CanonKeyed(s, fd, key, es);
      assert r[0] == CanonKeyedEntry(s, m, key, es[0]) && r[1..] == CanonKeyed(s, fd, key, es[1..]);
    }
  }

  lemma OtherNormal(s: Schema, m: string, key: string, e: Entry)
    requires !e.Block? && !(e.Assign? && e.value.BlockVal?)
    ensures NormalNamed(s, m, key, e)
  {
  }

  lemma {:induction false} NamedNormal(s: Schema, m: string, key: FieldDesc, vs: seq<Value>, seen: set<string>)
    requires FindField(s, m, key.name) == Some(key) && key.kind.Str? && Eligible(vs, key.name, seen)
    ensures NormalKeyed(s, m, key.name, Named(s, m, key, vs))
    decreases VsSize(vs), 2
  {
    hide NamedEntry, NormalNamed, KeyOf, EsSize, VSize, VsSize, FindField;
    if vs != [] {
      FirstElementSize(vs);
      var n := KeyOf(vs[0].entries, key.name).value;
      NamedEntryNormal(s, m, key, n, true, vs[0].entries);
      NamedNormal(s, m, key, vs[1..], seen + {n});
      var r := Named(s, m, key, vs);
      assert r[0] == NamedElement(s, m, key, vs[0]) && r[1..] == Named(s, m, key, vs[1..]);
    }
  }

  // ---- A document that has the form is left as it is ----

  lemma {:induction false} NormalUnchanged(s: Schema, m: string, es: seq<Entry>)
    requires NormalBody(s, m, es)
    ensures Canon(s, m, es) == es
    decreases EsSize(es), 2
  {
    hide CanonEntry, NormalEntry, EsSize, ESize;
    if es != [] {
      FirstEntrySize(es);
      EntryUnchanged(s, m, es[0]);
      NormalUnchanged(s, m, es[1..]);
    }
  }

  lemma {:induction false} EntryUnchanged(s: Schema, m: string, e: Entry)
    requires NormalEntry(s, m, e)
    ensures CanonEntry(s, m, e) == e
    decreases ESize(e), 1
  {
    hide Canon, CanonAssign, CanonKeyed, NormalBody, NormalKeyed, FindField, KeyField, EsSize, ESize;
    EntrySize(e);
    if e.Assign? && !e.quoted && FindField(s, m, e.key).Some? {
      AssignUnchanged(s, m, e, FindField(s, m, e.key).value);
    } else if e.Block? && !e.quoted && FindField(s, m, e.name).Some? {
      var fd := FindField(s, m, e.name).value;
      KeyFieldIs(s, fd);
      if KeyField(s, fd).Some? {
        KeyedUnchanged(s, fd, KeyField(s, fd).value, e.entries);
      } else if fd.kind.Message? {
        NormalUnchanged(s, fd.kind.m, e.entries);
      }
    }
  }

  lemma {:induction false} AssignUnchanged(s: Schema, m: string, e: Entry, fd: FieldDesc)
    requires e.Assign? && !e.quoted && FindField(s, m, e.key) == Some(fd) && NormalEntry(s, m, e)
    ensures CanonAssign(s, e, fd) == e
    decreases ESize(e), 0
  {
    hide Canon, CanonMap, CanonElements, CanonKeyed, Named, FindField, KeyField, EsSize, ESize, VsSize, Eligible;
    hide NormalBody, NormalMap, NormalElements, NormalKeyed, Convertible;
    EntrySize(e);
    KeyFieldIs(s, fd);
    match fd.kind {
      case MapOfMessage(sub) =>
        if e.value.BlockVal? {
          MapUnchanged(s, sub, e.value.entries);
        }
      case Message(sub) =>
        if e.value.BlockVal? {
          NormalUnchanged(s, sub, e.value.entries);
        }
      case RepeatedMessage(sub, _) =>
        if e.value.ListVal? {
          ElementsUnchanged(s, sub, e.value.elements);
          if KeyField(s, fd).Some? {
            ConvertibleIs(e.value.elements, KeyField(s, fd).value.name);
          }
        }
      case _ =>
    }
  }

  lemma {:induction false} MapUnchanged(s: Schema, m: string, es: seq<Entry>)
    requires NormalMap(s, m, es)
    ensures CanonMap(s, m, es) == es
    decreases EsSize(es), 2
  {
    hide Canon, NormalBody, EsSize, ESize;
    if es != [] {
      FirstEntrySize(es);
      EntrySize(es[0]);
      if es[0].MapEntry? && es[0].value.BlockVal? {
        NormalUnchanged(s, m, es[0].value.entries);
      }
      MapUnchanged(s, m, es[1..]);
    }
  }

  lemma {:induction false} ElementsUnchanged(s: Schema, m: string, vs: seq<Value>)
    requires NormalElements(s, m, vs)
    ensures CanonElements(s, m, vs) == vs
    decreases VsSize(vs), 2
  {
    hide Canon, NormalBody, EsSize, VSize, VsSize;
    if vs != [] {
      FirstElementSize(vs);
      if vs[0].BlockVal? {
        NormalUnchanged(s, m, vs[0].entries);
      }
      ElementsUnchanged(s, m, vs[1..]);
    }
  }

  lemma {:induction false} KeyedUnchanged(s: Schema, fd: FieldDesc, key: FieldDesc, es: seq<Entry>)
    requires fd.kind.RepeatedMessage? && NormalKeyed(s, fd.kind.m, key.name, es)
    ensures CanonKeyed(s, fd, key, es) == es
    decreases EsSize(es), 2
  {
    hide NormalNamed, CanonKeyedEntry, EsSize, ESize;
    if es != [] {
      FirstEntrySize(es);
      NamedUnchanged(s, fd.kind.m, key, es[0]);
      KeyedUnchanged(s, fd, key, es[1..]);
    }
  }

  lemma {:induction false} NamedUnchanged(s: Schema, m: string, key: FieldDesc, e: Entry)
    requires NormalNamed(s, m, key.name, e)
    ensures CanonKeyedEntry(s, m, key, e) == e
    decreases ESize(e), 1
  {
    hide Canon, Drop, NormalBody, IdentifierSafe, EsSize, ESize;
    EntrySize(e);
    if e.Block? {
      NoneIn(e.entries, key.name, e.name);
      DropNothing(e.entries, key.name, e.name);
      NormalUnchanged(s, m, e.entries);
    }
  }

  // ---- So ----

  /** The rewritten documents are those that have the form, and rewriting twice is rewriting once. */
  lemma CanonTwice(s: Schema, m: string, es: seq<Entry>)
    ensures Canon(s, m, es) == es <==> NormalBody(s, m, es)
    ensures Canon(s, m, Canon(s, m, es)) == Canon(s, m, es)
  {
    hide Canon, NormalBody;
    CanonNormal(s, m, es);
    NormalUnchanged(s, m, Canon(s, m, es));
    if NormalBody(s, m, es) {
      NormalUnchanged(s, m, es);
    }
  }
}
