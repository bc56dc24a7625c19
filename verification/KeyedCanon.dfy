/**
Rewriting keyed repeated fields to their canonical form: src/pxf/keyed.cc. The functions say
what each rewrite leaves behind; the methods are the loops that rewrite entry lists.
 */
module KeyedCanon {
  import opened Options
  import opened KeyedAst

  predicate IdentStart(c: char) {
    'a' <= c <= 'z' || 'A' <= c <= 'Z' || c == '_'
  }

  predicate IdentPart(c: char) {
    IdentStart(c) || '0' <= c <= '9' || c == '.'
  }

  /** A name that can be written without quotes. */
  predicate IdentifierSafe(s: string) {
    && s != "" && s != "true" && s != "false" && s != "null"
    && IdentStart(s[0]) && forall i :: 0 < i < |s| ==> IdentPart(s[i])
  }

  method IsIdentifierSafeEntryName(s: string) returns (safe: bool)
    ensures safe == IdentifierSafe(s)
  {
    if s == "" || s == "true" || s == "false" || s == "null" {
      return false;
    }
    if !IdentStart(s[0]) {
      return false;
    }
    var i := 1;
    while i < |s|
      invariant 1 <= i <= |s| && forall k :: 0 < k < i ==> IdentPart(s[k])
    {
      if !IdentPart(s[i]) {
        return false;
      }
      i := i + 1;
    }
    return true;
  }

  // ---- Redundant keys ----

  /** `key = "name"`, in the body of the entry of that name. */
  predicate Redundant(e: Entry, key: string, name: string) {
    e.Assign? && !e.quoted && e.key == key && e.value == StrVal(name)
  }

  function Drop(es: seq<Entry>, key: string, name: string): (r: seq<Entry>)
    ensures EsSize(r) <= EsSize(es)
  {
    if es == [] then []
    else if Redundant(es[0], key, name) then Drop(es[1..], key, name)
    else
      var r := [es[0]] + Drop(es[1..], key, name);
      assert r[1..] == Drop(es[1..], key, name);
      r
  }

  method DropKeyAssignments(es: seq<Entry>, key: string, name: string) returns (out: seq<Entry>)
    ensures out == Drop(es, key, name)
  {
    hide EsSize;
    out := [];
    var i := 0;
    assert es[0..] == es;
    assert [] + Drop(es, key, name) == Drop(es, key, name);
    while i < |es|
      invariant 0 <= i <= |es| && out + Drop(es[i..], key, name) == Drop(es, key, name)
    {
      ghost var rest := Drop(es[i + 1..], key, name);
      assert es[i..][0] == es[i] && es[i..][1..] == es[i + 1..];
      assert out + ([es[i]] + rest) == (out + [es[i]]) + rest;
      if !Redundant(es[i], key, name) {
        out := out + [es[i]];
      }
      i := i + 1;
    }
    assert es[i..] == [] && out + [] == out;
  }

  /** The one explicit string key of a body; None where there is none, or more than one assignment. */
  function KeyOf(es: seq<Entry>, key: string): Option<string> {
    if es == [] then None
    else if !es[0].Assign? || es[0].key != key then KeyOf(es[1..], key)
    else if !es[0].value.StrVal? || es[0].quoted || Assigns(es[1..], key) then None
    else Some(es[0].value.s)
  }

  predicate Assigns(es: seq<Entry>, key: string) {
    exists i :: 0 <= i < |es| && es[i].Assign? && es[i].key == key
  }

  method ExplicitKeyOf(es: seq<Entry>, key: string) returns (r: Option<string>)
    ensures r == KeyOf(es, key)
  {
    r := None;
    var i := 0;
    assert es[0..] == es;
    while i < |es|
      invariant 0 <= i <= |es|
      invariant r.None? ==> KeyOf(es, key) == KeyOf(es[i..], key)
      invariant r.Some? ==> KeyOf(es, key) == if Assigns(es[i..], key) then None else r
    {
      var e := es[i];
      assert es[i..][0] == e && es[i..][1..] == es[i + 1..];
      AssignsCons(es, i, key);
      i := i + 1;
      if !e.Assign? || e.key != key {
        continue;
      }
      if !e.value.StrVal? || e.quoted || r.Some? {
        return None;
      }
      r := Some(e.value.s);
    }
    assert es[i..] == [];
  }

  lemma AssignsCons(es: seq<Entry>, i: nat, key: string)
    requires i < |es|
    ensures Assigns(es[i..], key) <==> (es[i].Assign? && es[i].key == key) || Assigns(es[i + 1..], key)
  {
    var all, rest := es[i..], es[i + 1..];
    assert all[0] == es[i];
    assert forall k :: 0 <= k < |rest| ==> rest[k] == all[k + 1];
    if Assigns(rest, key) {
      var k :| 0 <= k < |rest| && rest[k].Assign? && rest[k].key == key;
      assert all[k + 1].Assign?;
    }
    if Assigns(all, key) {
      var k :| 0 <= k < |all| && all[k].Assign? && all[k].key == key;
      if k > 0 {
        assert rest[k - 1].Assign?;
      }
    }
  }

  // ---- Canonical forms ----

  function Canon(s: Schema, m: string, es: seq<Entry>): (r: seq<Entry>)
    ensures |r| == |es|
    decreases EsSize(es), 2
  {
    if es == [] then [] else [CanonEntry(s, m, es[0])] + Canon(s, m, es[1..])
  }

  function CanonEntry(s: Schema, m: string, e: Entry): Entry
    decreases ESize(e), 1
  {
    EntrySize(e);
    match e
    case Assign(key, quoted, _) =>
      if quoted then e
      else (match FindField(s, m, key) case None => e case Some(fd) => CanonAssign(s, e, fd))
    case Block(name, quoted, entries) =>
      if quoted then e
      else
        (match FindField(s, m, name)
         case None => e
         case Some(fd) =>
           match KeyField(s, fd)
           case Some(key) => Block(name, quoted, CanonKeyed(s, fd, key, entries))
           case None => if fd.kind.Message? then Block(name, quoted, Canon(s, fd.kind.m, entries)) else e)
    case _ => e
  }

  function CanonAssign(s: Schema, e: Entry, fd: FieldDesc): Entry
    requires e.Assign?
    decreases ESize(e), 0
  {
    EntrySize(e);
    match fd.kind
    case MapOfMessage(m) =>
      if e.value.BlockVal? then Assign(e.key, e.quoted, BlockVal(CanonMap(s, m, e.value.entries))) else e
    case RepeatedMessage(m, _) =>
      var key := KeyField(s, fd);
      if e.value.ListVal? then
        if key.Some? && Eligible(e.value.elements, key.value.name, {}) then
          Block(e.key, false, Named(s, m, key.value, e.value.elements))
        else Assign(e.key, e.quoted, ListVal(CanonElements(s, m, e.value.elements)))
      else if e.value.BlockVal? && key.Some? then Block(e.key, false, CanonKeyed(s, fd, key.value, e.value.entries))
      else e
    case Message(m) =>
      if e.value.BlockVal? then Assign(e.key, e.quoted, BlockVal(Canon(s, m, e.value.entries))) else e
    case _ => e
  }

  /** The bodies of a map's message values. */
  function CanonMap(s: Schema, m: string, es: seq<Entry>): (r: seq<Entry>)
    ensures |r| == |es|
    decreases EsSize(es), 2
  {
    if es == [] then []
    else
      FirstEntrySize(es);
      [CanonMapEntry(s, m, es[0])] + CanonMap(s, m, es[1..])
  }

  function CanonMapEntry(s: Schema, m: string, e: Entry): Entry
    decreases ESize(e), 1
  {
    EntrySize(e);
    if e.MapEntry? && e.value.BlockVal? then MapEntry(e.key, e.quoted, BlockVal(Canon(s, m, e.value.entries))) else e
  }

  /** The bodies of a list's elements. */
  function CanonElements(s: Schema, m: string, vs: seq<Value>): (r: seq<Value>)
    ensures |r| == |vs|
    decreases VsSize(vs), 2
  {
    if vs == [] then []
    else
      FirstElementSize(vs);
      [CanonElement(s, m, vs[0])] + CanonElements(s, m, vs[1..])
  }

  function CanonElement(s: Schema, m: string, v: Value): Value
    decreases VSize(v), 1
  {
    BlockSize(v);
    if v.BlockVal? then BlockVal(Canon(s, m, v.entries)) else v
  }

  /** Every element is a block with an explicit key, not empty and not seen before. */
  predicate Eligible(vs: seq<Value>, key: string, seen: set<string>) {
    vs == []
    || (vs[0].BlockVal? && KeyOf(vs[0].entries, key).Some?
        && var k := KeyOf(vs[0].entries, key).value;
           k != "" && k !in seen && Eligible(vs[1..], key, seen + {k}))
  }

  /** A named entry: quoted only where it must be, its key not said twice, its body canonical. */
  function NamedEntry(s: Schema, m: string, key: FieldDesc, name: string, quoted: bool, body: seq<Entry>): Entry
    decreases EsSize(body), 3
  {
    Block(name, quoted && !IdentifierSafe(name), Canon(s, m, Drop(body, key.name, name)))
  }

  /** The elements of an eligible list as named entries. */
  function Named(s: Schema, m: string, key: FieldDesc, vs: seq<Value>): (r: seq<Entry>)
    ensures |r| == |vs|
    decreases VsSize(vs), 2
  {
    if vs == [] then []
    else
      FirstElementSize(vs);
      [NamedElement(s, m, key, vs[0])] + Named(s, m, key, vs[1..])
  }

  function NamedElement(s: Schema, m: string, key: FieldDesc, v: Value): Entry
    decreases VSize(v), 1
  {
    BlockSize(v);
    var k := if v.BlockVal? then KeyOf(v.entries, key.name) else None;
    if k.Some? then NamedEntry(s, m, key, k.value, true, v.entries) else TypeEntry("")
  }

  /** The entries of a keyed block; one of any other shape is left as it is. */
  function CanonKeyed(s: Schema, fd: FieldDesc, key: FieldDesc, es: seq<Entry>): (r: seq<Entry>)
    requires fd.kind.RepeatedMessage?
    ensures |r| == |es|
    decreases EsSize(es), 2
  {
    if es == [] then []
    else
      FirstEntrySize(es);
      [CanonKeyedEntry(s, fd.kind.m, key, es[0])] + CanonKeyed(s, fd, key, es[1..])
  }

  function CanonKeyedEntry(s: Schema, m: string, key: FieldDesc, e: Entry): Entry
    decreases ESize(e), 1
  {
    EntrySize(e);
    match e
    case Block(name, quoted, body) => NamedEntry(s, m, key, name, quoted, body)
    case Assign(name, quoted, BlockVal(body)) => NamedEntry(s, m, key, name, quoted, body)
    case _ => e
  }

  // ---- The rewriting loops ----

  method CanonEntries(s: Schema, m: string, es0: seq<Entry>) returns (es: seq<Entry>)
    ensures es == Canon(s, m, es0)
    decreases EsSize(es0), 2
  {
    es := es0;
    var i := 0;
    ghost var want := Canon(s, m, es0);
    while i < |es|
      invariant 0 <= i <= |es| == |es0|
      invariant es[..i] == want[..i] && es[i..] == es0[i..]
    {
      CanonAt(s, m, es0, i);
      assert es[i] == es[i..][0] == es0[i];
      var e := RewriteEntry(s, m, es0[i]);
      ghost var before := es;
      es := es[i := e];
      assert es[..i + 1] == before[..i] + [e] && want[..i + 1] == want[..i] + [want[i]];
      assert es[i + 1..] == es0[i..][1..];
      i := i + 1;
    }
    assert es[..i] == es && want[..i] == want;
  }

  lemma {:induction false} CanonAt(s: Schema, m: string, es: seq<Entry>, i: nat)
    requires i < |es|
    ensures Canon(s, m, es)[i] == CanonEntry(s, m, es[i]) && ESize(es[i]) <= EsSize(es)
    decreases |es|
  {
    if i > 0 {
      CanonAt(s, m, es[1..], i - 1);
    }
  }

  method RewriteEntry(s: Schema, m: string, e: Entry) returns (r: Entry)
    ensures r == CanonEntry(s, m, e)
    decreases ESize(e), 1
  {
    EntrySize(e);
    r := e;
    match e {
      case Assign(key, quoted, _) =>
        if !quoted {
          var fd := FindField(s, m, key);
          if fd.Some? {
            r := CanonAssignment(s, e, fd.value);
          }
        }
      case Block(name, quoted, entries) =>
        if !quoted {
          var fd := FindField(s, m, name);
          if fd.Some? {
            var key := KeyField(s, fd.value);
            if key.Some? {
              var es := CanonKeyedEntries(s, fd.value, key.value, entries);
              r := Block(name, quoted, es);
            } else if fd.value.kind.Message? {
              var es := CanonEntries(s, fd.value.kind.m, entries);
              r := Block(name, quoted, es);
            }
          }
        }
      case _ =>
    }
  }

  method CanonAssignment(s: Schema, e: Entry, fd: FieldDesc) returns (r: Entry)
    requires e.Assign?
    ensures r == CanonAssign(s, e, fd)
    decreases ESize(e), 0
  {
    EntrySize(e);
    r := e;
    match fd.kind {
      case MapOfMessage(m) =>
        if e.value.BlockVal? {
          var es := CanonMapEntries(s, m, e.value.entries);
          r := Assign(e.key, e.quoted, BlockVal(es));
        }
      case RepeatedMessage(m, _) =>
        var key := KeyField(s, fd);
        if e.value.ListVal? {
          if key.Some? {
            r := CanonAnonymousKeyed(s, e, m, key.value);
          } else {
            var vs := CanonListElements(s, m, e.value.elements);
            r := Assign(e.key, e.quoted, ListVal(vs));
          }
        } else if e.value.BlockVal? && key.Some? {
          var es := CanonKeyedEntries(s, fd, key.value, e.value.entries);
          r := Block(e.key, false, es);
        }
      case Message(m) =>
        if e.value.BlockVal? {
          var es := CanonEntries(s, m, e.value.entries);
          r := Assign(e.key, e.quoted, BlockVal(es));
        }
      case _ =>
    }
  }

  lemma Snoc<T>(out: seq<T>, x: T, rest: seq<T>)
    ensures out + ([x] + rest) == (out + [x]) + rest
  {
  }

  method CanonMapEntries(s: Schema, m: string, es: seq<Entry>) returns (out: seq<Entry>)
    ensures out == CanonMap(s, m, es)
    decreases EsSize(es), 2
  {
    hide EsSize, ESize, Canon, CanonMap;
    out := [];
    var i := 0;
    assert es[0..] == es;
    assert [] + CanonMap(s, m, es) == CanonMap(s, m, es);
    while i < |es|
      invariant 0 <= i <= |es| && out + CanonMap(s, m, es[i..]) == CanonMap(s, m, es)
    {
      var e := es[i];
      MapNext(s, m, es, i);
      SuffixSize(es, i);
      EntrySize(e);
      if e.MapEntry? && e.value.BlockVal? {
        var inner := CanonEntries(s, m, e.value.entries);
        e := MapEntry(e.key, e.quoted, BlockVal(inner));
      }
      Snoc(out, e, CanonMap(s, m, es[i + 1..]));
      out := out + [e];
      i := i + 1;
    }
    MapNone(s, m, es[i..]);
    assert out + [] == out;
  }

  lemma MapNext(s: Schema, m: string, es: seq<Entry>, i: nat)
    requires i < |es|
    ensures CanonMap(s, m, es[i..]) == [CanonMapEntry(s, m, es[i])] + CanonMap(s, m, es[i + 1..])
  {
    assert es[i..][0] == es[i] && es[i..][1..] == es[i + 1..];
  }

  lemma MapNone(s: Schema, m: string, es: seq<Entry>)
    requires es == []
    ensures CanonMap(s, m, es) == []
  {
  }

  method CanonListElements(s: Schema, m: string, vs: seq<Value>) returns (out: seq<Value>)
    ensures out == CanonElements(s, m, vs)
    decreases VsSize(vs), 2
  {
    hide EsSize, VSize, VsSize, Canon, CanonElements;
    out := [];
    var i := 0;
    assert vs[0..] == vs;
    assert [] + CanonElements(s, m, vs) == CanonElements(s, m, vs);
    while i < |vs|
      invariant 0 <= i <= |vs| && out + CanonElements(s, m, vs[i..]) == CanonElements(s, m, vs)
    {
      var v := vs[i];
      ElementsNext(s, m, vs, i);
      ElementSize(vs, i);
      BlockSize(v);
      if v.BlockVal? {
        var inner := CanonEntries(s, m, v.entries);
        v := BlockVal(inner);
      }
      Snoc(out, v, CanonElements(s, m, vs[i + 1..]));
      out := out + [v];
      i := i + 1;
    }
    ElementsNone(s, m, vs[i..]);
    assert out + [] == out;
  }

  lemma ElementsNext(s: Schema, m: string, vs: seq<Value>, i: nat)
    requires i < |vs|
    ensures CanonElements(s, m, vs[i..]) == [CanonElement(s, m, vs[i])] + CanonElements(s, m, vs[i + 1..])
  {
    assert vs[i..][0] == vs[i] && vs[i..][1..] == vs[i + 1..];
  }

  lemma ElementsNone(s: Schema, m: string, vs: seq<Value>)
    requires vs == []
    ensures CanonElements(s, m, vs) == []
  {
  }

  method CanonKeyedEntries(s: Schema, fd: FieldDesc, key: FieldDesc, es: seq<Entry>) returns (out: seq<Entry>)
    requires fd.kind.RepeatedMessage?
    ensures out == CanonKeyed(s, fd, key, es)
    decreases EsSize(es), 2
  {
    hide EsSize, ESize, Canon, CanonKeyed, Drop, IdentifierSafe;
    out := [];
    var i := 0;
    assert es[0..] == es;
    assert [] + CanonKeyed(s, fd, key, es) == CanonKeyed(s, fd, key, es);
    while i < |es|
      invariant 0 <= i <= |es| && out + CanonKeyed(s, fd, key, es[i..]) == CanonKeyed(s, fd, key, es)
    {
      var e := es[i];
      KeyedNext(s, fd, key, es, i);
      SuffixSize(es, i);
      EntrySize(e);
      if e.Assign? && e.value.BlockVal? {
        e := Block(e.key, e.quoted, e.value.entries);
      }
      if e.Block? {
        e := CanonNamed(s, fd.kind.m, key, e.name, e.quoted, e.entries);
      }
      Snoc(out, e, CanonKeyed(s, fd, key, es[i + 1..]));
      out := out + [e];
      i := i + 1;
    }
    KeyedNone(s, fd, key, es[i..]);
    assert out + [] == out;
  }

  /** One named entry: unquoted where it can be, its key assignments dropped, its body rewritten. */
  method CanonNamed(s: Schema, m: string, key: FieldDesc, name: string, quoted0: bool, body0: seq<Entry>)
    returns (e: Entry)
    ensures e == NamedEntry(s, m, key, name, quoted0, body0)
    decreases EsSize(body0), 3
  {
    hide EsSize, Canon, Drop, IdentifierSafe;
    var quoted := quoted0;
    var safe := IsIdentifierSafeEntryName(name);
    if quoted && safe {
      quoted := false;
    }
    var body := DropKeyAssignments(body0, key.name, name);
    DropSize(body0, key.name, name);
    body := CanonEntries(s, m, body);
    e := Block(name, quoted, body);
  }

  lemma DropSize(es: seq<Entry>, key: string, name: string)
    ensures EsSize(Drop(es, key, name)) <= EsSize(es)
  {
  }

  lemma KeyedNext(s: Schema, fd: FieldDesc, key: FieldDesc, es: seq<Entry>, i: nat)
    requires i < |es| && fd.kind.RepeatedMessage?
    ensures CanonKeyed(s, fd, key, es[i..])
            == [CanonKeyedEntry(s, fd.kind.m, key, es[i])] + CanonKeyed(s, fd, key, es[i + 1..])
  {
    assert es[i..][0] == es[i] && es[i..][1..] == es[i + 1..];
  }

  lemma KeyedNone(s: Schema, fd: FieldDesc, key: FieldDesc, es: seq<Entry>)
    requires es == [] && fd.kind.RepeatedMessage?
    ensures CanonKeyed(s, fd, key, es) == []
  {
  }

  /** Converts an eligible list to the block form; another keeps its form, its bodies rewritten. */
  method CanonAnonymousKeyed(s: Schema, e: Entry, m: string, key: FieldDesc) returns (r: Entry)
    requires e.Assign? && e.value.ListVal?
    ensures r == if Eligible(e.value.elements, key.name, {})
                 then Block(e.key, false, Named(s, m, key, e.value.elements))
                 else Assign(e.key, e.quoted, ListVal(CanonElements(s, m, e.value.elements)))
    decreases VsSize(e.value.elements), 3
  {
    hide EsSize, VSize, VsSize, Canon, Named, CanonElements, Drop, IdentifierSafe, Eligible, KeyOf;
    var vs := e.value.elements;
    var eligible, keys := CollectKeys(vs, key.name);
    if !eligible {
      var elements := CanonListElements(s, m, vs);
      return Assign(e.key, e.quoted, ListVal(elements));
    }
    var entries: seq<Entry> := [];
    var i := 0;
    assert vs[0..] == vs;
    assert [] + Named(s, m, key, vs) == Named(s, m, key, vs);
    while i < |vs|
      invariant 0 <= i <= |vs| == |keys| && entries + Named(s, m, key, vs[i..]) == Named(s, m, key, vs)
    {
      NamedNext(s, m, key, vs, i);
      ElementSize(vs, i);
      BlockSize(vs[i]);
      var entry := CanonNamed(s, m, key, keys[i], true, vs[i].entries);
      Snoc(entries, entry, Named(s, m, key, vs[i + 1..]));
      entries := entries + [entry];
      i := i + 1;
    }
    NamedNone(s, m, key, vs[i..]);
    assert entries + [] == entries;
    r := Block(e.key, false, entries);
  }

  lemma NamedNext(s: Schema, m: string, key: FieldDesc, vs: seq<Value>, i: nat)
    requires i < |vs|
    ensures Named(s, m, key, vs[i..]) == [NamedElement(s, m, key, vs[i])] + Named(s, m, key, vs[i + 1..])
  {
    assert vs[i..][0] == vs[i] && vs[i..][1..] == vs[i + 1..];
  }

  lemma NamedNone(s: Schema, m: string, key: FieldDesc, vs: seq<Value>)
    requires vs == []
    ensures Named(s, m, key, vs) == []
  {
  }

  method CollectKeys(vs: seq<Value>, key: string) returns (eligible: bool, keys: seq<string>)
    ensures eligible == Eligible(vs, key, {})
    ensures eligible ==> |keys| == |vs|
    ensures eligible ==> forall i :: 0 <= i < |vs| ==> vs[i].BlockVal? && KeyOf(vs[i].entries, key) == Some(keys[i])
  {
    keys := [];
    var seen: set<string> := {};
    var i := 0;
    assert vs[0..] == vs;
    while i < |vs|
      invariant 0 <= i <= |vs| && |keys| == i
      invariant Eligible(vs, key, {}) == Eligible(vs[i..], key, seen)
      invariant forall k :: 0 <= k < i ==> vs[k].BlockVal? && KeyOf(vs[k].entries, key) == Some(keys[k])
    {
      var v := vs[i];
      assert vs[i..][0] == v && vs[i..][1..] == vs[i + 1..];
      if !v.BlockVal? {
        return false, keys;
      }
      var k := ExplicitKeyOf(v.entries, key);
      if k.None? || k.value == "" || k.value in seen {
        return false, keys;
      }
      seen := seen + {k.value};
      keys := keys + [k.value];
      i := i + 1;
    }
    assert vs[i..] == [];
    eligible := true;
  }
}
