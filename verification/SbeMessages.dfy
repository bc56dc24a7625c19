/**
A whole SBE message: the header, the root block and the repeating groups. Bytes written under
one template are read under any template it extends; section 5 (Schema Extension Mechanism)
of FIX Simple Binary Encoding.
 */
module SbeMessages {
  import opened Options
  import opened Powers
  import opened BigEndian
  import opened Wire
  import opened SbeTemplate
  import opened SbeFields
  import opened SbeBlocks

  /** A message's root fields, and each group's entries, in template order. */
  datatype Message = Message(fields: seq<Value>, groups: seq<seq<seq<Value>>>)

  ghost predicate EntriesTyped(g: GroupTemplate, es: seq<seq<Value>>) {
    forall j :: 0 <= j < |es| ==> AllTyped(g.fields, es[j])
  }

  ghost predicate EntriesWritable(g: GroupTemplate, es: seq<seq<Value>>)
    requires EntriesTyped(g, es)
  {
    forall j :: 0 <= j < |es| ==> AllWritable(g.fields, es[j])
  }

  ghost predicate GroupsTyped(gs: seq<GroupTemplate>, ess: seq<seq<seq<Value>>>)
    decreases |gs|
  {
    if gs == [] then ess == []
    else ess != [] && EntriesTyped(gs[0], ess[0]) && GroupsTyped(gs[1..], ess[1..])
  }

  /** Every entry can be written, and every count stated in a numInGroup. */
  ghost predicate GroupsWritable(gs: seq<GroupTemplate>, ess: seq<seq<seq<Value>>>)
    requires GroupsTyped(gs, ess)
    decreases |gs|
  {
    gs == [] || (|ess[0]| <= MAX_U16 && EntriesWritable(gs[0], ess[0]) && GroupsWritable(gs[1..], ess[1..]))
  }

  ghost predicate TypedMessage(t: MessageTemplate, m: Message) {
    AllTyped(t.fields, m.fields) && GroupsTyped(t.groups, m.groups)
  }

  ghost predicate WritableMessage(t: MessageTemplate, m: Message)
    requires TypedMessage(t, m)
  {
    AllWritable(t.fields, m.fields) && GroupsWritable(t.groups, m.groups)
  }

  ghost predicate SoundGroups(gs: seq<GroupTemplate>) {
    forall i :: 0 <= i < |gs| ==> SoundGroup(gs[i])
  }

  // ---- Writing ----

  ghost function EntriesBytes(g: GroupTemplate, es: seq<seq<Value>>): (r: seq<Byte>)
    requires SoundGroup(g) && EntriesTyped(g, es)
    decreases |es|
  {
    if es == [] then [] else BlockBytes(g.fields, es[0], 0, g.blockLength) + EntriesBytes(g, es[1..])
  }

  ghost function GroupsBytes(gs: seq<GroupTemplate>, ess: seq<seq<seq<Value>>>): seq<Byte>
    requires SoundGroups(gs) && GroupsTyped(gs, ess)
    decreases |gs|
  {
    if gs == [] then []
    else
      Fixed(2, gs[0].blockLength) + Fixed(2, |ess[0]|) + EntriesBytes(gs[0], ess[0]) + GroupsBytes(gs[1..], ess[1..])
  }

  ghost function Header(t: MessageTemplate): (r: seq<Byte>)
    ensures |r| == 8
  {
    Fixed(2, t.blockLength) + Fixed(2, t.templateId) + Fixed(2, t.schemaId) + Fixed(2, t.version)
  }

  ghost function MessageBytes(t: MessageTemplate, m: Message): seq<Byte>
    requires SoundTemplate(t) && TypedMessage(t, m)
  {
    Header(t) + BlockBytes(t.fields, m.fields, 0, t.blockLength) + GroupsBytes(t.groups, m.groups)
  }

  // ---- Reading ----

  function U16At(s: seq<Byte>, i: nat): nat
    requires i + 2 <= |s|
  {
    s[i] + 0x100 * (s[i + 1] as int)
  }

  lemma U16Reads(s: seq<Byte>, i: nat, v: nat)
    requires i + 2 <= |s| && v <= MAX_U16 && s[i..i + 2] == Fixed(2, v)
    ensures U16At(s, i) == v
  {
    var f := Fixed(2, v);
    assert f[0] == v % 0x100 && f[1] == v / 0x100 % 0x100;
    assert s[i] == s[i..i + 2][0] && s[i + 1] == s[i..i + 2][1];
  }

  /** A group's header: the bytes of an entry, how many entries, and what follows. */
  datatype GroupHead = GroupHead(block: nat, count: nat, tail: seq<Byte>)

  function HeadOf(rest: seq<Byte>): GroupHead
    requires |rest| >= 4
  {
    GroupHead(U16At(rest, 0), U16At(rest, 2), rest[4..])
  }

  /** The bytes of all the entries a header declares. */
  function Span(h: GroupHead): nat {
    h.block * h.count
  }

  /** The checks on one group's header, the room for its entries found by division. */
  predicate HeadValid(h: GroupHead, g: GroupTemplate, maxRepeated: nat) {
    && h.block >= g.blockLength
    && !(h.count > 0 && h.block == 0)
    && !(h.block > 0 && h.count > |h.tail| / h.block)
    && h.count <= maxRepeated
  }

  lemma SpanFits(h: GroupHead, g: GroupTemplate, maxRepeated: nat)
    requires HeadValid(h, g, maxRepeated)
    ensures 0 <= Span(h) <= |h.tail| && g.blockLength <= h.block
  {
    if h.block > 0 {
      DivLowerBound(|h.tail|, h.block, h.count);
    }
  }

  predicate GroupsValid(rest: seq<Byte>, gs: seq<GroupTemplate>, maxRepeated: nat)
    decreases |gs|
  {
    gs == []
    || (|rest| >= 4 && HeadValid(HeadOf(rest), gs[0], maxRepeated)
        && (SpanFits(HeadOf(rest), gs[0], maxRepeated);
            GroupsValid(HeadOf(rest).tail[Span(HeadOf(rest))..], gs[1..], maxRepeated)))
  }

  ghost function DecodeEntries(data: seq<Byte>, block: nat, count: nat, g: GroupTemplate): Option<seq<seq<Value>>>
    requires SoundGroup(g) && g.blockLength <= block && block * count <= |data|
    decreases count
  {
    if count == 0 then Some([])
    else
      OneLess(block, count);
      match DecodeBlock(data[..block], g.fields, 0, g.blockLength)
      case None => None
      case Some(v) =>
        match DecodeEntries(data[block..], block, count - 1, g)
        case None => None
        case Some(vs) => Some([v] + vs)
  }

  lemma OneLess(block: nat, count: nat)
    requires count > 0
    ensures block * count == block + block * (count - 1) && block * (count - 1) >= 0
  {
  }

  ghost function DecodeGroups(rest: seq<Byte>, gs: seq<GroupTemplate>, maxRepeated: nat): Option<seq<seq<seq<Value>>>>
    requires SoundGroups(gs) && GroupsValid(rest, gs, maxRepeated)
    decreases |gs|
  {
    if gs == [] then Some([])
    else
      var h := HeadOf(rest);
      SpanFits(h, gs[0], maxRepeated);
      match DecodeEntries(h.tail, h.block, h.count, gs[0])
      case None => None
      case Some(es) =>
        match DecodeGroups(h.tail[Span(h)..], gs[1..], maxRepeated)
        case None => None
        case Some(ess) => Some([es] + ess)
  }

  /** What the header must say for the bytes to be this template's. */
  predicate HeaderValid(data: seq<Byte>, t: MessageTemplate) {
    && |data| >= 8
    && U16At(data, 2) == t.templateId && U16At(data, 4) == t.schemaId
    && U16At(data, 0) >= t.blockLength
    && |data| >= 8 + U16At(data, 0)
  }

  ghost function DecodeMessage(data: seq<Byte>, t: MessageTemplate, maxRepeated: nat): Option<Message>
    requires SoundTemplate(t)
  {
    if !HeaderValid(data, t) then None
    else
      var end := 8 + U16At(data, 0);
      if !GroupsValid(data[end..], t.groups, maxRepeated) then None
      else
        match DecodeBlock(data[8..end], t.fields, 0, t.blockLength)
        case None => None
        case Some(fields) =>
          match DecodeGroups(data[end..], t.groups, maxRepeated)
          case None => None
          case Some(groups) => Some(Message(fields, groups))
  }

  // ---- The part of a message an older template knows ----

  ghost function ProjectEntries(g: GroupTemplate, es: seq<seq<Value>>): seq<seq<Value>> {
    seq(|es|, j requires 0 <= j < |es| => if |g.fields| <= |es[j]| then es[j][..|g.fields|] else es[j])
  }

  ghost function ProjectGroups(gs: seq<GroupTemplate>, ess: seq<seq<seq<Value>>>): seq<seq<seq<Value>>>
    decreases |gs|
  {
    if gs == [] || ess == [] then [] else [ProjectEntries(gs[0], ess[0])] + ProjectGroups(gs[1..], ess[1..])
  }

  ghost function Project(t: MessageTemplate, m: Message): Message {
    Message(if |t.fields| <= |m.fields| then m.fields[..|t.fields|] else m.fields, ProjectGroups(t.groups, m.groups))
  }

  ghost function NormalEntries(g: GroupTemplate, es: seq<seq<Value>>): (r: seq<seq<Value>>)
    requires EntriesTyped(g, es)
    ensures |r| == |es|
  {
    seq(|es|, j requires 0 <= j < |es| && EntriesTyped(g, es) => NormalBlock(g.fields, es[j]))
  }

  ghost function NormalGroups(gs: seq<GroupTemplate>, ess: seq<seq<seq<Value>>>): seq<seq<seq<Value>>>
    requires GroupsTyped(gs, ess)
    decreases |gs|
  {
    if gs == [] then [] else [NormalEntries(gs[0], ess[0])] + NormalGroups(gs[1..], ess[1..])
  }

  /** A message as it is read back. */
  ghost function NormalMessage(t: MessageTemplate, m: Message): Message
    requires TypedMessage(t, m)
  {
    Message(NormalBlock(t.fields, m.fields), NormalGroups(t.groups, m.groups))
  }

  // ---- Reading what was written ----

  lemma {:induction false} EntriesLength(g: GroupTemplate, es: seq<seq<Value>>)
    requires SoundGroup(g) && EntriesTyped(g, es)
    ensures |EntriesBytes(g, es)| == g.blockLength * |es|
    decreases |es|
  {
    if es != [] {
      assert EntriesTyped(g, es[1..]);
      EntriesLength(g, es[1..]);
      OneLess(g.blockLength, |es|);
    }
  }

  /** Every entry of the larger group, cut to the smaller's fields, is one of the smaller's. */
  lemma {:induction false} ProjectTyped(small: GroupTemplate, large: GroupTemplate, es: seq<seq<Value>>)
    requires GroupExtends(small, large) && SoundGroup(small) && SoundGroup(large) && EntriesTyped(large, es)
    ensures EntriesTyped(small, ProjectEntries(small, es))
    ensures EntriesWritable(large, es) ==> EntriesWritable(small, ProjectEntries(small, es))
  {
    forall j | 0 <= j < |es|
      ensures AllTyped(small.fields, ProjectEntries(small, es)[j])
      ensures AllWritable(large.fields, es[j]) ==> AllWritable(small.fields, ProjectEntries(small, es)[j])
    {
      BlockPrefix(small.fields, large.fields, es[j], 0, small.blockLength, large.blockLength);
    }
  }

  /** An entry of the larger group, read with the smaller's fields. */
  lemma {:induction false} EntryReads(small: GroupTemplate, large: GroupTemplate, e: seq<Value>)
    requires GroupExtends(small, large) && SoundGroup(small) && SoundGroup(large)
    requires AllTyped(large.fields, e) && AllWritable(large.fields, e)
    ensures small.blockLength <= large.blockLength && |small.fields| <= |e|
    ensures AllTyped(small.fields, e[..|small.fields|])
    ensures DecodeBlock(BlockBytes(large.fields, e, 0, large.blockLength), small.fields, 0, small.blockLength)
            == Some(NormalBlock(small.fields, e[..|small.fields|]))
  {
    BlockPrefix(small.fields, large.fields, e, 0, small.blockLength, large.blockLength);
    var block := BlockBytes(large.fields, e, 0, large.blockLength);
    assert block[0..small.blockLength] == block[..small.blockLength - 0];
    BlockReads(small.fields, e[..|small.fields|], 0, small.blockLength, block);
  }

  lemma {:induction false} EntriesRead(small: GroupTemplate, large: GroupTemplate, es: seq<seq<Value>>, rest: seq<Byte>)
    requires GroupExtends(small, large) && SoundGroup(small) && SoundGroup(large)
    requires EntriesTyped(large, es) && EntriesWritable(large, es)
    ensures small.blockLength <= large.blockLength && EntriesTyped(small, ProjectEntries(small, es))
    ensures large.blockLength * |es| <= |EntriesBytes(large, es) + rest|
    ensures DecodeEntries(EntriesBytes(large, es) + rest, large.blockLength, |es|, small)
            == Some(NormalEntries(small, ProjectEntries(small, es)))
    decreases |es|
  {
    hide AllTyped, AllWritable, LaidOut, DecodeBlock;
    SmallerBlock(small, large);
    ProjectTyped(small, large, es);
    EntriesLength(large, es);
    if es != [] {
      assert EntriesTyped(large, es[1..]);
      EntryReads(small, large, es[0]);
      EntriesRead(small, large, es[1..], rest);
      var a := BlockBytes(large.fields, es[0], 0, large.blockLength);
      var b := EntriesBytes(large, es[1..]);
      assert (a + b) + rest == a + (b + rest);
      assert (a + (b + rest))[..large.blockLength] == a && (a + (b + rest))[large.blockLength..] == b + rest;
      NormalEntriesCons(small, es);
    }
  }

  lemma SmallerBlock(small: GroupTemplate, large: GroupTemplate)
    requires GroupExtends(small, large) && SoundGroup(small) && SoundGroup(large)
    ensures small.blockLength <= large.blockLength
  {
    PrefixEnds(small.fields, large.fields, 0, small.blockLength, large.blockLength);
  }

  lemma {:induction false} PrefixEnds(small: seq<FieldTemplate>, large: seq<FieldTemplate>, at: nat, end: nat,
                                      end': nat)
    requires small <= large && LaidOut(small, at, end) && LaidOut(large, at, end')
    ensures end <= end'
    decreases |small|
  {
    LaidOutEnd(large, at, end');
    if small != [] {
      PrefixEnds(small[1..], large[1..], at + small[0].size, end, end');
    }
  }

  lemma {:induction false} NormalEntriesCons(g: GroupTemplate, es: seq<seq<Value>>)
    requires es != [] && EntriesTyped(g, ProjectEntries(g, es)) && |g.fields| <= |es[0]|
    ensures AllTyped(g.fields, es[0][..|g.fields|]) && EntriesTyped(g, ProjectEntries(g, es[1..]))
    ensures NormalEntries(g, ProjectEntries(g, es))
            == [NormalBlock(g.fields, es[0][..|g.fields|])] + NormalEntries(g, ProjectEntries(g, es[1..]))
  {
    hide AllTyped, NormalBlock;
    var p, q := ProjectEntries(g, es), ProjectEntries(g, es[1..]);
    assert p[0] == es[0][..|g.fields|];
    assert q == p[1..];
  }

  /** A reader's limit on entries, and entries of no bytes, which no reader takes. */
  ghost predicate Countable(gs: seq<GroupTemplate>, ess: seq<seq<seq<Value>>>, maxRepeated: nat) {
    && |gs| == |ess|
    && forall i :: 0 <= i < |gs| ==> |ess[i]| <= maxRepeated && (gs[i].blockLength > 0 || ess[i] == [])
  }

  /** One group's header and entries, at the front of what follows the root block. */
  lemma {:induction false} HeadReads(small: GroupTemplate, large: GroupTemplate, es: seq<seq<Value>>, rest: seq<Byte>,
                                     data: seq<Byte>, maxRepeated: nat)
    requires GroupExtends(small, large) && SoundGroup(small) && SoundGroup(large) && EntriesTyped(large, es)
    requires |es| <= MAX_U16 && |es| <= maxRepeated && (large.blockLength > 0 || es == [])
    requires data == Fixed(2, large.blockLength) + Fixed(2, |es|) + EntriesBytes(large, es) + rest
    ensures |data| >= 4 && HeadOf(data) == GroupHead(large.blockLength, |es|, EntriesBytes(large, es) + rest)
    ensures HeadValid(HeadOf(data), small, maxRepeated)
    ensures Span(HeadOf(data)) == |EntriesBytes(large, es)|
    ensures HeadOf(data).tail[|EntriesBytes(large, es)|..] == rest
  {
    hide LaidOut, EntriesBytes, Fixed;
    var a, b, e := Fixed(2, large.blockLength), Fixed(2, |es|), EntriesBytes(large, es);
    HeadSplit(a, b, e, rest);
    U16Reads(data, 0, large.blockLength);
    U16Reads(data, 2, |es|);
    SmallerBlock(small, large);
    EntriesLength(large, es);
    if large.blockLength > 0 {
      DivLowerBound(|e + rest|, large.blockLength, |es|);
    }
  }

  lemma HeadSplit(a: seq<Byte>, b: seq<Byte>, e: seq<Byte>, rest: seq<Byte>)
    requires |a| == 2 && |b| == 2
    ensures var data := a + b + e + rest;
            |data| >= 4 && data[0..2] == a && data[2..4] == b && data[4..] == e + rest && (e + rest)[|e|..] == rest
  {
  }

  lemma {:induction false} GroupsRead(small: seq<GroupTemplate>, large: seq<GroupTemplate>,
                                      ess: seq<seq<seq<Value>>>, maxRepeated: nat)
    requires GroupsExtend(small, large) && SoundGroups(small) && SoundGroups(large)
    requires GroupsTyped(large, ess) && GroupsWritable(large, ess) && Countable(large, ess, maxRepeated)
    ensures GroupsTyped(small, ProjectGroups(small, ess))
    ensures GroupsValid(GroupsBytes(large, ess), small, maxRepeated)
    ensures DecodeGroups(GroupsBytes(large, ess), small, maxRepeated)
            == Some(NormalGroups(small, ProjectGroups(small, ess)))
    decreases |small|
  {
    hide EntriesTyped, EntriesWritable, SoundGroup, HeadValid, Fixed, EntriesBytes, DecodeEntries;
    if small != [] {
      var s, l, es := small[0], large[0], ess[0];
      var data, rest := GroupsBytes(large, ess), GroupsBytes(large[1..], ess[1..]);
      assert GroupExtends(s, l);
      GroupsTail(small, large, ess, maxRepeated);
      GroupsRead(small[1..], large[1..], ess[1..], maxRepeated);
      HeadReads(s, l, es, rest, data, maxRepeated);
      EntriesRead(s, l, es, rest);
      var p := ProjectGroups(small, ess);
      assert p[0] == ProjectEntries(s, es) && p[1..] == ProjectGroups(small[1..], ess[1..]);
    }
  }

  lemma GroupsTail(small: seq<GroupTemplate>, large: seq<GroupTemplate>, ess: seq<seq<seq<Value>>>, maxRepeated: nat)
    requires small != [] && GroupsExtend(small, large) && Countable(large, ess, maxRepeated)
    ensures GroupsExtend(small[1..], large[1..]) && Countable(large[1..], ess[1..], maxRepeated)
  {
    forall i | 0 <= i < |small| - 1
      ensures GroupExtends(small[1..][i], large[1..][i])
    {
      assert GroupExtends(small[i + 1], large[i + 1]);
    }
  }

  /** The root block of the larger template holds that of the smaller at its front. */
  lemma RootReads(small: MessageTemplate, large: MessageTemplate, m: Message)
    requires SoundTemplate(small) && SoundTemplate(large) && Extends(small, large)
    requires TypedMessage(large, m) && WritableMessage(large, m)
    ensures small.blockLength <= large.blockLength
    ensures AllTyped(small.fields, Project(small, m).fields)
    ensures var b := BlockBytes(large.fields, m.fields, 0, large.blockLength);
            && |b| == large.blockLength
            && DecodeBlock(b, small.fields, 0, small.blockLength)
               == Some(NormalBlock(small.fields, Project(small, m).fields))
  {
    hide AllTyped, AllWritable, LaidOut, GroupsTyped, GroupsWritable, DecodeBlock, GroupsExtend, SoundGroup, BlockBytes;
    hide NormalBlock, ProjectGroups;
    var b := BlockBytes(large.fields, m.fields, 0, large.blockLength);
    TypedLength(large.fields, m.fields);
    PrefixEnds(small.fields, large.fields, 0, small.blockLength, large.blockLength);
    BlockPrefix(small.fields, large.fields, m.fields, 0, small.blockLength, large.blockLength);
    assert b[0..small.blockLength] == b[..small.blockLength - 0];
    BlockReads(small.fields, m.fields[..|small.fields|], 0, small.blockLength, b);
  }

  /**
   * Forward compatibility: bytes written under the larger template are read under the smaller
   * as exactly the part of the message it knows, in normal form; and every field of that part is
   * given back exactly when none that was not blank, and no bytes field, comes before a later
   * member of its oneof.
   */
  lemma {:induction false} ForwardReads(small: MessageTemplate, large: MessageTemplate, m: Message, maxRepeated: nat)
    requires SoundTemplate(small) && SoundTemplate(large) && Extends(small, large)
    requires TypedMessage(large, m) && WritableMessage(large, m) && Countable(large.groups, m.groups, maxRepeated)
    ensures TypedMessage(small, Project(small, m))
    ensures DecodeMessage(MessageBytes(large, m), small, maxRepeated)
            == Some(NormalMessage(small, Project(small, m)))
    ensures DecodeMessage(MessageBytes(large, m), small, maxRepeated)
            == Some(EachNormalMessage(small, Project(small, m)))
            <==> GroupsGivenBack(small.groups, Project(small, m).groups)
  {
    hide AllTyped, AllWritable, LaidOut, GroupsTyped, GroupsWritable, Fixed, GroupsValid, DecodeBlock, DecodeGroups;
    hide BlockBytes, GroupsBytes, GroupsExtend, SoundGroup, NormalBlock, NormalGroups, ProjectGroups, U16At, Countable;
    hide GroupsGivenBack, EachNormal, EachNormalGroups;
    var data := MessageBytes(large, m);
    var end := 8 + large.blockLength;
    var h, b, g := Header(large), BlockBytes(large.fields, m.fields, 0, large.blockLength),
                   GroupsBytes(large.groups, m.groups);
    RootReads(small, large, m);
    HeaderReads(large, b + g);
    assert data == h + (b + g);
    assert data[8..end] == b && data[end..] == g;
    GroupsRead(small.groups, large.groups, m.groups, maxRepeated);
    MessageGivenBack(small, Project(small, m));
  }

  lemma {:induction false} HeaderReads(t: MessageTemplate, rest: seq<Byte>)
    requires t.blockLength <= MAX_U16 && t.templateId <= MAX_U16 && t.schemaId <= MAX_U16 && t.version <= MAX_U16
    ensures var data := Header(t) + rest;
            U16At(data, 0) == t.blockLength && U16At(data, 2) == t.templateId && U16At(data, 4) == t.schemaId
  {
    hide Fixed;
    var data := Header(t) + rest;
    assert data[0..2] == Fixed(2, t.blockLength) && data[2..4] == Fixed(2, t.templateId)
           && data[4..6] == Fixed(2, t.schemaId);
    U16Reads(data, 0, t.blockLength);
    U16Reads(data, 2, t.templateId);
    U16Reads(data, 4, t.schemaId);
  }

  // ---- One template ----

  lemma {:induction false} ProjectSame(t: MessageTemplate, m: Message)
    requires TypedMessage(t, m)
    ensures Project(t, m) == m && Extends(t, t)
  {
    TypedLength(t.fields, m.fields);
    assert m.fields[..|t.fields|] == m.fields;
    ProjectGroupsSame(t.groups, m.groups);
  }

  lemma {:induction false} ProjectGroupsSame(gs: seq<GroupTemplate>, ess: seq<seq<seq<Value>>>)
    requires GroupsTyped(gs, ess)
    ensures ProjectGroups(gs, ess) == ess
    decreases |gs|
  {
    if gs != [] {
      ProjectGroupsSame(gs[1..], ess[1..]);
      forall j | 0 <= j < |ess[0]|
        ensures ProjectEntries(gs[0], ess[0])[j] == ess[0][j]
      {
        TypedLength(gs[0].fields, ess[0][j]);
      }
      assert ProjectEntries(gs[0], ess[0]) == ess[0];
    }
  }

  /** Marshal's bytes decode to the message's normal form, and when that is every field of it. */
  lemma {:induction false} MessageReads(t: MessageTemplate, m: Message, maxRepeated: nat)
    requires SoundTemplate(t) && TypedMessage(t, m) && WritableMessage(t, m)
             && Countable(t.groups, m.groups, maxRepeated)
    ensures DecodeMessage(MessageBytes(t, m), t, maxRepeated) == Some(NormalMessage(t, m))
    ensures DecodeMessage(MessageBytes(t, m), t, maxRepeated) == Some(EachNormalMessage(t, m))
            <==> GroupsGivenBack(t.groups, m.groups)
  {
    hide DecodeMessage, MessageBytes, NormalMessage, TypedMessage, WritableMessage, SoundTemplate, EachNormalMessage;
    hide GroupsGivenBack;
    ProjectSame(t, m);
    ForwardReads(t, t, m, maxRepeated);
  }

  // ---- Writing it again ----

  /** No entry lost anything when a later member of a oneof cleared an earlier one. */
  ghost predicate EntriesKept(g: GroupTemplate, es: seq<seq<Value>>)
    requires EntriesTyped(g, es)
  {
    forall j :: 0 <= j < |es| ==> AllKept(g.fields, es[j])
  }

  ghost predicate GroupsKept(gs: seq<GroupTemplate>, ess: seq<seq<seq<Value>>>)
    requires GroupsTyped(gs, ess)
    decreases |gs|
  {
    gs == [] || (EntriesKept(gs[0], ess[0]) && GroupsKept(gs[1..], ess[1..]))
  }

  lemma EntriesKeptCons(g: GroupTemplate, es: seq<seq<Value>>)
    requires es != [] && EntriesTyped(g, es)
    ensures EntriesTyped(g, es[1..])
    ensures EntriesKept(g, es) <==> AllKept(g.fields, es[0]) && EntriesKept(g, es[1..])
  {
    hide AllKept, AllTyped;
    var rest := es[1..];
    assert forall j :: 0 <= j < |rest| ==> rest[j] == es[j + 1];
    if AllKept(g.fields, es[0]) && EntriesKept(g, rest) {
      forall j | 0 <= j < |es|
        ensures AllKept(g.fields, es[j])
      {
        if j > 0 {
          assert AllKept(g.fields, rest[j - 1]);
        }
      }
    }
  }

  lemma {:induction false} EntriesAgain(g: GroupTemplate, es: seq<seq<Value>>)
    requires SoundGroup(g) && EntriesTyped(g, es) && EntriesWritable(g, es)
    ensures var n := NormalEntries(g, es);
            && EntriesTyped(g, n) && EntriesWritable(g, n) && NormalEntries(g, n) == n
            && (EntriesBytes(g, n) == EntriesBytes(g, es) <==> EntriesKept(g, es))
    decreases |es|
  {
    hide AllTyped, AllWritable, LaidOut, NormalBlock, AllKept, EntriesKept;
    var n := NormalEntries(g, es);
    forall j | 0 <= j < |es|
      ensures AllTyped(g.fields, n[j]) && AllWritable(g.fields, n[j]) && NormalBlock(g.fields, n[j]) == n[j]
    {
      BlockAgain(g.fields, es[j], 0, g.blockLength);
    }
    if es == [] {
      NoEntriesKept(g, es);
    } else {
      BlockAgain(g.fields, es[0], 0, g.blockLength);
      EntriesKeptCons(g, es);
      EntriesAgain(g, es[1..]);
      assert n[1..] == NormalEntries(g, es[1..]) && n[0] == NormalBlock(g.fields, es[0]);
      SameHalves(BlockBytes(g.fields, n[0], 0, g.blockLength), EntriesBytes(g, n[1..]),
                 BlockBytes(g.fields, es[0], 0, g.blockLength), EntriesBytes(g, es[1..]));
    }
  }

  lemma NoEntriesKept(g: GroupTemplate, es: seq<seq<Value>>)
    requires es == []
    ensures EntriesKept(g, es)
  {
  }

  lemma {:induction false} GroupsAgain(gs: seq<GroupTemplate>, ess: seq<seq<seq<Value>>>)
    requires SoundGroups(gs) && GroupsTyped(gs, ess) && GroupsWritable(gs, ess)
    ensures var n := NormalGroups(gs, ess);
            && GroupsTyped(gs, n) && GroupsWritable(gs, n) && NormalGroups(gs, n) == n
            && |GroupsBytes(gs, n)| == |GroupsBytes(gs, ess)|
            && (GroupsBytes(gs, n) == GroupsBytes(gs, ess) <==> GroupsKept(gs, ess))
    decreases |gs|
  {
    hide EntriesTyped, EntriesWritable, SoundGroup, Fixed, EntriesBytes, EntriesKept;
    if gs != [] {
      EntriesAgain(gs[0], ess[0]);
      GroupsAgain(gs[1..], ess[1..]);
      var n := NormalGroups(gs, ess);
      assert n[0] == NormalEntries(gs[0], ess[0]) && n[1..] == NormalGroups(gs[1..], ess[1..]);
      EntriesLength(gs[0], n[0]);
      EntriesLength(gs[0], ess[0]);
      var h := Fixed(2, gs[0].blockLength) + Fixed(2, |ess[0]|);
      var a, b := EntriesBytes(gs[0], n[0]), GroupsBytes(gs[1..], n[1..]);
      var c, d := EntriesBytes(gs[0], ess[0]), GroupsBytes(gs[1..], ess[1..]);
      assert h + a + b == h + (a + b) && h + c + d == h + (c + d);
      SameHalves(h, a + b, h, c + d);
      SameHalves(a, b, c, d);
    }
  }

  /**
   * What was decoded is a message of the template and its own normal form. Encoding it gives the
   * same bytes exactly when, in every entry, a member of a oneof that is not its last was blank.
   */
  lemma {:induction false} MessageAgain(t: MessageTemplate, m: Message)
    requires SoundTemplate(t) && TypedMessage(t, m) && WritableMessage(t, m)
    ensures var n := NormalMessage(t, m);
            && TypedMessage(t, n) && WritableMessage(t, n) && NormalMessage(t, n) == n
            && (MessageBytes(t, n) == MessageBytes(t, m) <==> GroupsKept(t.groups, m.groups))
  {
    hide AllTyped, AllWritable, LaidOut, GroupsTyped, GroupsWritable, NormalBlock, NormalGroups, Header, GroupsKept;
    hide NoOneofs, AllKept;
    var n := NormalMessage(t, m);
    BlockAgain(t.fields, m.fields, 0, t.blockLength);
    NoOneofsKept(t.fields, m.fields);
    GroupsAgain(t.groups, m.groups);
    var h := Header(t) + BlockBytes(t.fields, m.fields, 0, t.blockLength);
    SameHalves(h, GroupsBytes(t.groups, n.groups), h, GroupsBytes(t.groups, m.groups));
  }

  // ---- Every field given back ----

  ghost function EachNormalEntries(g: GroupTemplate, es: seq<seq<Value>>): (r: seq<seq<Value>>)
    requires EntriesTyped(g, es)
    ensures |r| == |es|
  {
    seq(|es|, j requires 0 <= j < |es| && EntriesTyped(g, es) => EachNormal(g.fields, es[j]))
  }

  ghost function EachNormalGroups(gs: seq<GroupTemplate>, ess: seq<seq<seq<Value>>>): seq<seq<seq<Value>>>
    requires GroupsTyped(gs, ess)
    decreases |gs|
  {
    if gs == [] then [] else [EachNormalEntries(gs[0], ess[0])] + EachNormalGroups(gs[1..], ess[1..])
  }

  /** The message with every field in normal form: integers as they are, strings cut, bytes cut or padded. */
  ghost function EachNormalMessage(t: MessageTemplate, m: Message): Message
    requires TypedMessage(t, m)
  {
    Message(EachNormal(t.fields, m.fields), EachNormalGroups(t.groups, m.groups))
  }

  ghost predicate EntriesGivenBack(g: GroupTemplate, es: seq<seq<Value>>)
    requires EntriesTyped(g, es)
  {
    forall j :: 0 <= j < |es| ==> AllGivenBack(g.fields, es[j])
  }

  ghost predicate GroupsGivenBack(gs: seq<GroupTemplate>, ess: seq<seq<seq<Value>>>)
    requires GroupsTyped(gs, ess)
    decreases |gs|
  {
    gs == [] || (EntriesGivenBack(gs[0], ess[0]) && GroupsGivenBack(gs[1..], ess[1..]))
  }

  lemma EntriesGiven(g: GroupTemplate, es: seq<seq<Value>>)
    requires SoundGroup(g) && EntriesTyped(g, es)
    ensures NormalEntries(g, es) == EachNormalEntries(g, es) <==> EntriesGivenBack(g, es)
  {
    hide AllTyped, LaidOut, NormalBlock, EachNormal, AllGivenBack;
    var n, e := NormalEntries(g, es), EachNormalEntries(g, es);
    forall j | 0 <= j < |es|
      ensures n[j] == e[j] <==> AllGivenBack(g.fields, es[j])
    {
      BlockGivenBack(g.fields, es[j], 0, g.blockLength);
    }
    if n == e {
      forall j | 0 <= j < |es|
        ensures AllGivenBack(g.fields, es[j])
      {
        assert n[j] == e[j];
      }
    }
  }

  lemma {:induction false} GroupsGiven(gs: seq<GroupTemplate>, ess: seq<seq<seq<Value>>>)
    requires SoundGroups(gs) && GroupsTyped(gs, ess)
    ensures NormalGroups(gs, ess) == EachNormalGroups(gs, ess) <==> GroupsGivenBack(gs, ess)
    decreases |gs|
  {
    hide EntriesTyped, SoundGroup, EntriesGivenBack, NormalEntries, EachNormalEntries;
    if gs != [] {
      EntriesGiven(gs[0], ess[0]);
      GroupsGiven(gs[1..], ess[1..]);
      var n, e := NormalGroups(gs, ess), EachNormalGroups(gs, ess);
      assert n[0] == NormalEntries(gs[0], ess[0]) && n[1..] == NormalGroups(gs[1..], ess[1..]);
      assert e[0] == EachNormalEntries(gs[0], ess[0]) && e[1..] == EachNormalGroups(gs[1..], ess[1..]);
      assert n == [n[0]] + n[1..] && e == [e[0]] + e[1..];
    }
  }

  /**
   * What is read gives every field back exactly when, in every entry, a member of a oneof that is
   * not its last was blank and is not a bytes field, whose padding would be missed.
   */
  lemma MessageGivenBack(t: MessageTemplate, m: Message)
    requires SoundTemplate(t) && TypedMessage(t, m)
    ensures NormalMessage(t, m) == EachNormalMessage(t, m) <==> GroupsGivenBack(t.groups, m.groups)
  {
    hide AllTyped, LaidOut, GroupsTyped, NormalBlock, EachNormal, NormalGroups, EachNormalGroups, AllGivenBack;
    hide NoOneofs, SoundGroup, GroupsGivenBack;
    BlockGivenBack(t.fields, m.fields, 0, t.blockLength);
    NoOneofsGivenBack(t.fields, m.fields);
    GroupsGiven(t.groups, m.groups);
  }

  /** A group whose fields are in no oneof, or in oneofs of their own, always is. */
  ghost predicate OneMemberEach(fields: seq<FieldTemplate>) {
    forall i, j :: 0 <= i < j < |fields| && fields[i].oneof.Some? ==> fields[j].oneof != fields[i].oneof
  }

  lemma {:induction false} OneMemberGivenBack(fields: seq<FieldTemplate>, vs: seq<Value>)
    requires OneMemberEach(fields) && AllTyped(fields, vs)
    ensures AllGivenBack(fields, vs) && AllKept(fields, vs)
    decreases |fields|
  {
    hide Blank, Typed, HoldsBytes;
    if fields != [] {
      var rest := fields[1..];
      forall i, j | 0 <= i < j < |rest| && rest[i].oneof.Some?
        ensures rest[j].oneof != rest[i].oneof
      {
        assert rest[i] == fields[i + 1] && rest[j] == fields[j + 1];
      }
      OneMemberGivenBack(rest, vs[1..]);
    }
  }
}
