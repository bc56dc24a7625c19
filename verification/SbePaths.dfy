/**
Reading through any chain of Composite, Group and Entry calls of src/sbe/view.cc, against what
src/sbe/unmarshal.cc built: the same place is reached, and every field there was decoded from the bytes the
view reads, unless a later member of a oneof cleared it.
 */
module SbePaths {
  import opened Options
  import opened BigEndian
  import Wire
  import opened SbeTemplate
  import opened SbeFields
  import opened SbeBlocks
  import opened SbeMessages
  import opened SbeCodec
  import opened SbeView

  /** Composite(name), or Group(group) and then Entry(i). */
  datatype Step = InComposite(name: string) | InEntry(group: string, i: nat)

  // ---- In the decoded message ----

  /** A place in a decoded message: a block's fields, how long they are, their values, and the groups of a root. */
  datatype Node = Node(fields: seq<FieldTemplate>, length: nat, values: seq<Value>,
                       groups: seq<GroupTemplate>, entries: seq<seq<seq<Value>>>)

  function Root(t: MessageTemplate, m: Message): Node {
    Node(t.fields, t.blockLength, m.fields, t.groups, m.groups)
  }

  /** Where the first field of that name is. */
  function IndexOf(fields: seq<FieldTemplate>, name: string): (r: Option<nat>)
    ensures r.Some? ==> r.value < |fields| && fields[r.value].name == name
  {
    if fields == [] then None
    else if fields[0].name == name then Some(0)
    else
      match IndexOf(fields[1..], name)
      case None => None
      case Some(k) => Some(k + 1)
  }

  lemma {:induction false} IndexFinds(fields: seq<FieldTemplate>, name: string)
    ensures match IndexOf(fields, name)
            case None => Find(fields, name) == None
            case Some(k) => Find(fields, name) == Some(fields[k]) && forall i :: 0 <= i < k ==> fields[i].name != name
  {
    if fields != [] {
      IndexFinds(fields[1..], name);
    }
  }

  function StepNode(n: Node, s: Step): Option<Node> {
    match s
    case InComposite(name) =>
      (match IndexOf(n.fields, name)
       case None => None
       case Some(k) =>
         var ft := n.fields[k];
         if ft.form.Composite? && k < |n.values| && n.values[k].MsgV? then
           Some(Node(ft.form.fields, ft.size, n.values[k].fields, [], []))
         else None)
    case InEntry(group, i) =>
      (match FindGroup(n.groups, group)
       case None => None
       case Some(k) =>
         if k < |n.entries| && i < |n.entries[k]| then
           Some(Node(n.groups[k].fields, n.groups[k].blockLength, n.entries[k][i], [], []))
         else None)
  }

  /** A later member of its oneof cleared the composite that the step goes into. */
  predicate StepCleared(n: Node, s: Step) {
    s.InComposite? && IndexOf(n.fields, s.name).Some? && Superseded(n.fields[IndexOf(n.fields, s.name).value..])
  }

  function NodeAt(n: Node, path: seq<Step>): Option<Node>
    decreases |path|
  {
    if path == [] then Some(n)
    else
      match StepNode(n, path[0])
      case None => None
      case Some(next) => NodeAt(next, path[1..])
  }

  predicate PathCleared(n: Node, path: seq<Step>)
    decreases |path|
  {
    path != [] && (StepCleared(n, path[0])
                   || (StepNode(n, path[0]).Some? && PathCleared(StepNode(n, path[0]).value, path[1..])))
  }

  // ---- Through the view ----

  function EntryView(g: GroupView, i: nat): View {
    if i < g.count
    then View(NOTHING, Window(g.data.start + EntryStart(i, g.blockLength), g.blockLength), g.fields, None)
    else NO_VIEW
  }

  ghost function StepView(buf: seq<Byte>, v: View, s: Step, maxRepeated: nat): View {
    match s
    case InComposite(name) => CompositeView(v, name)
    case InEntry(group, i) =>
      if v.groups.None? || 8 + v.block.len > |buf|
         || !GroupsValid(buf[8 + v.block.len..], v.groups.value, maxRepeated) then NO_VIEW
      else EntryView(NamedGroup(buf, 8 + v.block.len, v.groups.value, group, maxRepeated), i)
  }

  ghost function ViewAt(buf: seq<Byte>, v: View, path: seq<Step>, maxRepeated: nat): View
    decreases |path|
  {
    if path == [] then v else ViewAt(buf, StepView(buf, v, path[0], maxRepeated), path[1..], maxRepeated)
  }

  // ---- One step ----

  /** The view and the place agree: its values were decoded from the view's block, or were cleared. */
  ghost predicate Matches(buf: seq<Byte>, v: View, n: Node, cleared: bool, maxRepeated: nat) {
    && ValidView(buf, v) && v.fields == Some(n.fields) && LaidOut(n.fields, 0, n.length) && n.length <= v.block.len
    && DecodeBlock(At(buf, v.block), n.fields, 0, n.length).Some?
    && n.values == (if cleared then Defaults(n.fields) else DecodeBlock(At(buf, v.block), n.fields, 0, n.length).value)
    && GroupsMatch(buf, v, n, maxRepeated)
  }

  ghost predicate GroupsMatch(buf: seq<Byte>, v: View, n: Node, maxRepeated: nat) {
    if v.groups.None? then n.groups == [] && n.entries == []
    else
      && v.groups.value == n.groups && 8 + v.block.len <= |buf| && SoundGroups(n.groups)
      && GroupsValid(buf[8 + v.block.len..], n.groups, maxRepeated)
      && DecodeGroups(buf[8 + v.block.len..], n.groups, maxRepeated) == Some(n.entries)
  }

  lemma {:induction false} DefaultsAt(fields: seq<FieldTemplate>, k: nat)
    requires k < |fields|
    ensures Defaults(fields)[k] == Default(fields[k])
    decreases k
  {
    if k > 0 {
      DefaultsAt(fields[1..], k - 1);
    }
  }

  /** Field k of a place, and what the view reads for it. */
  ghost predicate FieldMatches(buf: seq<Byte>, v: View, n: Node, cleared: bool, k: nat)
    requires ValidView(buf, v) && k < |n.fields| == |n.values|
  {
    var ft := n.fields[k];
    var w := Read(buf, v, ft.name);
    && Sound(ft) && w.Some? && |w.value| == ft.size && DecodeField(ft, w.value).Some?
    && n.values[k] == if cleared || Superseded(n.fields[k..]) then Default(ft) else DecodeField(ft, w.value).value
  }

  lemma FieldMatchesAt(buf: seq<Byte>, v: View, n: Node, cleared: bool, maxRepeated: nat, k: nat)
    requires Matches(buf, v, n, cleared, maxRepeated) && k < |n.fields|
    requires forall i :: 0 <= i < k ==> n.fields[i].name != n.fields[k].name
    ensures |n.values| == |n.fields| && FieldMatches(buf, v, n, cleared, k)
  {
    hide LaidOut, DecodeBlock, DecodeField, Sound, Find, Superseded, ValidView, GroupsMatch, Default;
    ViewReadsField(buf, v, k, n.length);
    DefaultsAt(n.fields, k);
  }

  lemma CompositeStep(buf: seq<Byte>, v: View, n: Node, cleared: bool, maxRepeated: nat, name: string)
    requires Matches(buf, v, n, cleared, maxRepeated)
    ensures var next := StepNode(n, InComposite(name));
            var w := CompositeView(v, name);
            if next.None? then w == NO_VIEW
            else Matches(buf, w, next.value, cleared || StepCleared(n, InComposite(name)), maxRepeated)
  {
    hide LaidOut, DecodeBlock, Find, Superseded, GroupsMatch;
    IndexFinds(n.fields, name);
    var at := IndexOf(n.fields, name);
    if at.Some? {
      var k := at.value;
      var ft := n.fields[k];
      FieldMatchesAt(buf, v, n, cleared, maxRepeated, k);
      if ft.form.Composite? {
        WindowInside(buf, v, name);
        SoundComposite(ft);
        CompositeDecodes(ft, At(buf, FieldWindow(v, ft)));
        NoGroupsMatch(buf, CompositeView(v, name), StepNode(n, InComposite(name)).value, maxRepeated);
      }
    }
  }

  lemma CompositeDecodes(ft: FieldTemplate, w: seq<Byte>)
    requires Sound(ft) && ft.form.Composite? && |w| == ft.size && DecodeField(ft, w).Some?
    ensures LaidOut(ft.form.fields, 0, ft.size)
    ensures var r := DecodeBlock(w, ft.form.fields, 0, ft.size);
            r.Some? && DecodeField(ft, w).value == MsgV(r.value) && Default(ft) == MsgV(Defaults(ft.form.fields))
  {
  }

  lemma NoGroupsMatch(buf: seq<Byte>, v: View, n: Node, maxRepeated: nat)
    requires v.groups.None? && n.groups == [] && n.entries == []
    ensures GroupsMatch(buf, v, n, maxRepeated)
  {
  }

  lemma EntryStep(buf: seq<Byte>, v: View, n: Node, cleared: bool, maxRepeated: nat, group: string, i: nat)
    requires Matches(buf, v, n, cleared, maxRepeated)
    ensures var next := StepNode(n, InEntry(group, i));
            var w := StepView(buf, v, InEntry(group, i), maxRepeated);
            if next.None? then w == NO_VIEW else Matches(buf, w, next.value, false, maxRepeated)
  {
    hide LaidOut, DecodeBlock, DecodeGroups, GroupsValid, SoundGroup, DecodeEntries, GroupViewAt, EntryStart, Defaults;
    if v.groups.Some? && FindGroup(n.groups, group).Some? {
      var k := FindGroup(n.groups, group).value;
      var pos := 8 + v.block.len;
      var g := n.groups[k];
      var gv := GroupViewAt(buf, pos, n.groups, k, maxRepeated);
      GroupAgrees(buf, pos, n.groups, maxRepeated, k);
      EntryCount(At(buf, gv.data), gv.blockLength, gv.count, g);
      if i < gv.count {
        EntryWindow(buf, gv, g, n.entries[k], i);
        GroupLength(g);
        var w := EntryView(gv, i);
        assert FieldsFit(g.fields, gv.blockLength);
        NoGroupsMatch(buf, w, StepNode(n, InEntry(group, i)).value, maxRepeated);
      }
    }
  }

  lemma GroupLength(g: GroupTemplate)
    requires SoundGroup(g)
    ensures LaidOut(g.fields, 0, g.blockLength)
  {
  }

  lemma {:induction false} EntryCount(data: seq<Byte>, block: nat, count: nat, g: GroupTemplate)
    requires SoundGroup(g) && g.blockLength <= block && 0 <= block * count <= |data|
    requires DecodeEntries(data, block, count, g).Some?
    ensures |DecodeEntries(data, block, count, g).value| == count
  {
    hide SoundGroup, DecodeEntries;
    if count == 0 {
      NoDecodedEntries(data, block, g);
    } else {
      EntryAgrees(data, block, count, g, 0);
    }
  }

  // ---- Any path ----

  lemma {:induction false} NoViewStays(buf: seq<Byte>, path: seq<Step>, maxRepeated: nat)
    ensures ViewAt(buf, NO_VIEW, path, maxRepeated) == NO_VIEW
    decreases |path|
  {
    if path != [] {
      assert StepView(buf, NO_VIEW, path[0], maxRepeated) == NO_VIEW;
      NoViewStays(buf, path[1..], maxRepeated);
    }
  }

  lemma {:induction false} PathMatches(buf: seq<Byte>, v: View, n: Node, cleared: bool, path: seq<Step>,
                                       maxRepeated: nat)
    requires Matches(buf, v, n, cleared, maxRepeated)
    requires v.groups.Some? ==> !cleared
    ensures var end, w := NodeAt(n, path), ViewAt(buf, v, path, maxRepeated);
            if end.None? then w == NO_VIEW
            else Matches(buf, w, end.value, cleared || PathCleared(n, path), maxRepeated)
    decreases |path|
  {
    hide Matches, StepNode, StepCleared, StepView;
    if path != [] {
      var s := path[0];
      var next, w := StepNode(n, s), StepView(buf, v, s, maxRepeated);
      StepMatches(buf, v, n, cleared, maxRepeated, s);
      if next.None? {
        NoViewStays(buf, path[1..], maxRepeated);
      } else {
        PathMatches(buf, w, next.value, cleared || StepCleared(n, s), path[1..], maxRepeated);
      }
    }
  }

  lemma StepMatches(buf: seq<Byte>, v: View, n: Node, cleared: bool, maxRepeated: nat, s: Step)
    requires Matches(buf, v, n, cleared, maxRepeated) && (v.groups.Some? ==> !cleared)
    ensures var next, w := StepNode(n, s), StepView(buf, v, s, maxRepeated);
            && w.groups.None?
            && if next.None? then w == NO_VIEW
               else Matches(buf, w, next.value, cleared || StepCleared(n, s), maxRepeated)
  {
    hide Matches, NamedGroup;
    match s {
      case InComposite(name) =>
        CompositeStep(buf, v, n, cleared, maxRepeated, name);
      case InEntry(group, i) =>
        EntryStep(buf, v, n, cleared, maxRepeated, group, i);
        NoGroupsBelow(buf, v, n, cleared, maxRepeated, group);
    }
  }

  /** Only the root has groups to step into. */
  lemma NoGroupsBelow(buf: seq<Byte>, v: View, n: Node, cleared: bool, maxRepeated: nat, group: string)
    requires Matches(buf, v, n, cleared, maxRepeated) && (v.groups.Some? ==> !cleared)
    ensures cleared ==> FindGroup(n.groups, group).None?
  {
  }

  /** The place a path leads to, in a message that was decoded. */
  ghost predicate PathAgrees(buf: seq<Byte>, t: MessageTemplate, m: Message, path: seq<Step>, maxRepeated: nat)
    requires |buf| >= 8
  {
    var n, v := NodeAt(Root(t, m), path), ViewAt(buf, ViewOf(buf, t), path, maxRepeated);
    match n
    case None => v == NO_VIEW
    case Some(n) =>
      && ValidView(buf, v) && v.fields == Some(n.fields) && |n.values| == |n.fields|
      && forall k :: 0 <= k < |n.fields| && IndexOf(n.fields, n.fields[k].name) == Some(k)
           ==> FieldMatches(buf, v, n, PathCleared(Root(t, m), path), k)
  }

  /**
  For every message the decoder accepts and every path: the view gets to a place exactly when the message
  has it, and a field there has the value its bytes decode to, or its default where it, or a composite on
  the way to it, was cleared.
   */
  lemma ViewAgreesOnPaths(buf: seq<Byte>, t: MessageTemplate, path: seq<Step>, maxRepeated: nat)
    requires SoundTemplate(t) && DecodeMessage(buf, t, maxRepeated).Some?
    ensures PathAgrees(buf, t, DecodeMessage(buf, t, maxRepeated).value, path, maxRepeated)
  {
    hide LaidOut, DecodeBlock, DecodeGroups, GroupsValid, SoundGroup, FieldMatches, NodeAt, ViewAt, PathCleared;
    var m := DecodeMessage(buf, t, maxRepeated).value;
    var v, root := ViewOf(buf, t), Root(t, m);
    ViewAgreesWithDecoder(buf, t, maxRepeated);
    assert Matches(buf, v, root, false, maxRepeated);
    PathMatches(buf, v, root, false, path, maxRepeated);
    if NodeAt(root, path).Some? {
      var n, w := NodeAt(root, path).value, ViewAt(buf, v, path, maxRepeated);
      var cleared := PathCleared(root, path);
      MatchesLength(buf, w, n, cleared, maxRepeated);
      forall k | 0 <= k < |n.fields| && IndexOf(n.fields, n.fields[k].name) == Some(k)
        ensures FieldMatches(buf, w, n, cleared, k)
      {
        IndexFinds(n.fields, n.fields[k].name);
        FieldMatchesAt(buf, w, n, cleared, maxRepeated, k);
      }
    }
  }

  lemma MatchesLength(buf: seq<Byte>, v: View, n: Node, cleared: bool, maxRepeated: nat)
    requires Matches(buf, v, n, cleared, maxRepeated)
    ensures ValidView(buf, v) && v.fields == Some(n.fields) && |n.values| == |n.fields|
  {
    hide LaidOut, ValidView, GroupsMatch;
  }

  // ---- The accessors ----

  /** A field of a place, once decoded, is what the accessor of its form makes of the view's bytes. */
  lemma AccessorsAgree(buf: seq<Byte>, v: View, n: Node, cleared: bool, k: nat)
    requires ValidView(buf, v) && k < |n.fields| == |n.values| && FieldMatches(buf, v, n, cleared, k)
    requires !cleared && !Superseded(n.fields[k..])
    ensures Read(buf, v, n.fields[k].name).Some?
    ensures var w := Read(buf, v, n.fields[k].name).value;
            match n.fields[k].form
            case Integer(kind, e) =>
              !kind.BoolKind? ==> n.values[k] == IntV(if EncSigned(e) then SignedOf(w) else UnsignedOf(w))
            case Floating(_) => n.values[k] == FloatV(Wire.FixedValue(w))
            case Chars(isString) => n.values[k] == StrV(if isString then DropNuls(w) else w)
            case Composite(fs) => n.values[k].MsgV?
  {
    hide DecodeInt, Wire.FixedValue, SignedOf, UnsignedOf, LaidOut, DecodeBlock, ValidView;
    var ft := n.fields[k];
    var w := Read(buf, v, ft.name).value;
    if ft.form.Integer? && !ft.form.kind.BoolKind? {
      IntAgrees(ft.form.kind, ft.form.enc, w);
    }
  }

  /** Of a field that was cleared they make its default only where its bytes decode to it. */
  lemma ClearedAgrees(buf: seq<Byte>, v: View, n: Node, cleared: bool, k: nat)
    requires ValidView(buf, v) && k < |n.fields| == |n.values| && FieldMatches(buf, v, n, cleared, k)
    ensures var r := DecodeField(n.fields[k], Read(buf, v, n.fields[k].name).value);
            r == Some(n.values[k]) <==> (cleared || Superseded(n.fields[k..]) ==> r == Some(Default(n.fields[k])))
  {
    hide DecodeField, ValidView;
  }
}
