/**
The keys of what a keyed block is read as: src/pxf/decode_fast.cc. Each entry becomes one element, in order, whose key
field holds the entry's name whatever the body says; the names are not empty and no two are the same.
 */
module KeyedKeys {
  import opened Options
  import opened KeyedAst
  import opened KeyedDecode

  predicate Holds(msg: Msg, key: FieldDesc, name: string) {
    key.name in msg && msg[key.name] == StrB(name)
  }

  /** No entry of a body changes the key its element has been given. */
  lemma {:induction false} StepKeeps(c: Ctx, m: string, e: Entry, key: FieldDesc, name: string, b: Body, depth: nat)
    requires key.kind.Str? && FindField(c.schema, m, key.name) == Some(key) && Holds(b.msg, key, name)
    requires Step(c, m, e, Elem(key, Some(name)), b, depth).Some?
    ensures Holds(Step(c, m, e, Elem(key, Some(name)), b, depth).value.msg, key, name)
  {
    hide KeyedBlock, MessageBody, FindField, KeyField;
    var ke := Elem(key, Some(name));
    if e.Assign? && FindField(c.schema, m, e.key).Some? {
      var fd := FindField(c.schema, m, e.key).value;
      FoundName(c.schema, m, e.key);
      if fd.name != key.name {
        hide Bind;
      }
    } else if e.Block? && FindField(c.schema, m, e.name).Some? {
      FoundName(c.schema, m, e.name);
    }
  }

  lemma {:induction false} RunKeeps(
      c: Ctx, m: string, es: seq<Entry>, key: FieldDesc, name: string, b: Body, depth: nat)
    requires key.kind.Str? && FindField(c.schema, m, key.name) == Some(key) && Holds(b.msg, key, name)
    requires Run(c, m, es, Elem(key, Some(name)), b, depth).Some?
    ensures Holds(Run(c, m, es, Elem(key, Some(name)), b, depth).value.msg, key, name)
    decreases |es|
  {
    hide Step, Holds;
    if es != [] {
      StepKeeps(c, m, es[0], key, name, b, depth);
      RunKeeps(c, m, es[1..], key, name, Step(c, m, es[0], Elem(key, Some(name)), b, depth).value, depth);
    }
  }

  /** The element of an entry has its name for its key. */
  lemma ItemNamed(c: Ctx, fd: FieldDesc, key: FieldDesc, name: string, body: seq<Entry>, depth: nat)
    requires KeyField(c.schema, fd) == Some(key) && KeyedItem(c, fd, key, name, body, depth).Some?
    ensures name != "" && c.rules.utf8(name)
    ensures var x := KeyedItem(c, fd, key, name, body, depth).value; x.MsgB? && Holds(x.fields, key, name)
  {
    hide Run, KeyField;
    KeyFieldIs(c.schema, fd);
    RunKeeps(c, fd.kind.m, body, key, name, Body(map[key.name := StrB(name)], {}, {}), depth + 1);
  }

  /** The elements of a block by its entries: one each, named as they are. */
  ghost predicate Named(c: Ctx, key: FieldDesc, es: seq<Entry>, xs: seq<Bound>) {
    && |xs| == |es|
    && (forall i :: 0 <= i < |es| ==> NamedBody(es[i]).Some?)
    && (forall i :: 0 <= i < |es| ==>
          var name := NamedBody(es[i]).value.0;
          name != "" && c.rules.utf8(name) && xs[i].MsgB? && Holds(xs[i].fields, key, name))
    && forall i, j :: 0 <= i < j < |es| ==> NamedBody(es[i]).value.0 != NamedBody(es[j]).value.0
  }

  ghost predicate Unseen(es: seq<Entry>, seen: set<string>) {
    forall i :: 0 <= i < |es| && NamedBody(es[i]).Some? ==> NamedBody(es[i]).value.0 !in seen
  }

  lemma NamedCons(c: Ctx, key: FieldDesc, es: seq<Entry>, x: Bound, xs: seq<Bound>, name: string)
    requires es != [] && NamedBody(es[0]).Some? && NamedBody(es[0]).value.0 == name
    requires name != "" && c.rules.utf8(name) && x.MsgB? && Holds(x.fields, key, name)
    requires Named(c, key, es[1..], xs) && Unseen(es[1..], {name})
    ensures Named(c, key, es, [x] + xs)
  {
    hide NamedBody, Holds;
    var ys, rest := [x] + xs, es[1..];
    forall i | 0 < i < |es|
      ensures NamedBody(es[i]).Some? && NamedBody(es[i]).value.0 != name
      ensures var n := NamedBody(es[i]).value.0;
              n != "" && c.rules.utf8(n) && ys[i].MsgB? && Holds(ys[i].fields, key, n)
    {
      assert es[i] == rest[i - 1] && ys[i] == xs[i - 1];
    }
    forall i, j | 0 <= i < j < |es| ensures NamedBody(es[i]).value.0 != NamedBody(es[j]).value.0 {
      if i > 0 {
        assert es[i] == rest[i - 1] && es[j] == rest[j - 1];
      }
    }
  }

  lemma {:induction false} ItemsNamed(
      c: Ctx, fd: FieldDesc, key: FieldDesc, es: seq<Entry>, xs: seq<Bound>, seen: set<string>, depth: nat)
    returns (ys: seq<Bound>)
    requires KeyField(c.schema, fd) == Some(key) && KeyedItems(c, fd, key, es, xs, seen, depth).Some?
    ensures KeyedItems(c, fd, key, es, xs, seen, depth) == Some(ListB(xs + ys))
    ensures Named(c, key, es, ys) && Unseen(es, seen) && (es != [] ==> |xs + ys| <= c.rules.maxRepeated)
    decreases |es|
  {
    hide KeyedItem, KeyField, Holds;
    if es == [] {
      ys := [];
      assert xs + ys == xs;
    } else {
      var (name, body) := NamedBody(es[0]).value;
      ItemNamed(c, fd, key, name, body, depth);
      var x := KeyedItem(c, fd, key, name, body, depth).value;
      var zs := ItemsNamed(c, fd, key, es[1..], xs + [x], seen + {name}, depth);
      ys := [x] + zs;
      assert xs + [x] + zs == xs + ys;
      LessSeen(es, name, seen);
      NamedCons(c, key, es, x, zs, name);
    }
  }

  lemma LessSeen(es: seq<Entry>, name: string, seen: set<string>)
    requires es != [] && Unseen(es[1..], seen + {name})
    requires NamedBody(es[0]).Some? && NamedBody(es[0]).value.0 == name && name !in seen
    ensures Unseen(es[1..], {name}) && Unseen(es, seen)
  {
    hide NamedBody;
    forall i | 0 < i < |es| && NamedBody(es[i]).Some? ensures NamedBody(es[i]).value.0 !in seen {
      assert es[i] == es[1..][i - 1];
    }
  }

  /** A keyed block that is read adds an element for each entry, its key the entry's name, no name twice. */
  lemma BlockNamed(c: Ctx, fd: FieldDesc, key: FieldDesc, es: seq<Entry>, xs: seq<Bound>, depth: nat)
    returns (ys: seq<Bound>)
    requires KeyField(c.schema, fd) == Some(key) && KeyedBlock(c, fd, key, es, xs, depth).Some?
    ensures KeyedBlock(c, fd, key, es, xs, depth) == Some(ListB(xs + ys))
    ensures Named(c, key, es, ys) && depth < c.rules.maxDepth && (es != [] ==> |xs + ys| <= c.rules.maxRepeated)
  {
    hide KeyedItems, Named, KeyField;
    ys := ItemsNamed(c, fd, key, es, xs, {}, depth + 1);
  }
}
