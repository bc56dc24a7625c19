/**
The decoder reads nothing but the windows the view gives: a buffer that src/sbe/codec.cc, NewView, accepts
is decoded by src/sbe/unmarshal.cc exactly when every one of them decodes.
 */
module SbeWindows {
  import opened BigEndian
  import opened SbeTemplate
  import opened SbeBlocks
  import opened SbeMessages
  import opened SbeCodec
  import opened SbeView

  /** The field decodes from its own window of the block. */
  ghost predicate FieldDecodes(block: seq<Byte>, ft: FieldTemplate) {
    && Sound(ft) && ft.offset + ft.size <= |block|
    && DecodeField(ft, block[ft.offset..ft.offset + ft.size]).Some?
  }

  lemma {:induction false} AllFieldsDecode(block: seq<Byte>, fields: seq<FieldTemplate>, at: nat, end: nat)
    requires LaidOut(fields, at, end) && end <= |block|
    requires forall k :: 0 <= k < |fields| ==> FieldDecodes(block, fields[k])
    ensures DecodeBlock(block, fields, at, end).Some?
    decreases |fields|
  {
    hide DecodeField, Sound;
    if fields != [] {
      LaidOutEnd(fields, at, end);
      assert FieldDecodes(block, fields[0]);
      var rest := fields[1..];
      forall k | 0 <= k < |rest|
        ensures FieldDecodes(block, rest[k])
      {
        assert rest[k] == fields[k + 1];
      }
      AllFieldsDecode(block, rest, at + fields[0].size, end);
    }
  }

  /** A block decodes exactly when every field's window does. */
  lemma BlockDecodes(block: seq<Byte>, fields: seq<FieldTemplate>, end: nat)
    requires LaidOut(fields, 0, end) && end <= |block|
    ensures DecodeBlock(block, fields, 0, end).Some?
            <==> forall k :: 0 <= k < |fields| ==> FieldDecodes(block, fields[k])
  {
    hide DecodeBlock, LaidOut;
    if DecodeBlock(block, fields, 0, end).Some? {
      forall k | 0 <= k < |fields|
        ensures FieldDecodes(block, fields[k])
      {
        FieldOfBlock(block, fields, 0, end, k);
      }
    } else if forall k :: 0 <= k < |fields| ==> FieldDecodes(block, fields[k]) {
      AllFieldsDecode(block, fields, 0, end);
    }
  }

  /** Entry i of a group decodes from its own window of the group's data. */
  ghost predicate EntryDecodes(data: seq<Byte>, block: nat, g: GroupTemplate, i: nat)
    requires SoundGroup(g) && g.blockLength <= block
  {
    && EntryStart(i, block) + block <= |data|
    && DecodeBlock(data[EntryStart(i, block)..EntryStart(i, block) + block], g.fields, 0, g.blockLength).Some?
  }

  lemma {:induction false} AllEntriesDecode(data: seq<Byte>, block: nat, count: nat, g: GroupTemplate)
    requires SoundGroup(g) && g.blockLength <= block && 0 <= block * count <= |data|
    requires forall i :: 0 <= i < count ==> EntryDecodes(data, block, g, i)
    ensures DecodeEntries(data, block, count, g).Some?
    decreases count
  {
    hide LaidOut, DecodeBlock, EntryStart, DecodeEntries;
    if count == 0 {
      NoDecodedEntries(data, block, g);
    } else {
      OneLess(block, count);
      NextDecodedEntry(data, block, count, g);
      EntryRoom(block, count, 0);
      assert EntryDecodes(data, block, g, 0);
      assert data[0..block] == data[..block];
      var rest := data[block..];
      forall i | 0 <= i < count - 1
        ensures EntryDecodes(rest, block, g, i)
      {
        assert EntryDecodes(data, block, g, i + 1);
        NextEntry(data, block, g, i);
      }
      AllEntriesDecode(rest, block, count - 1, g);
    }
  }

  lemma NextEntry(data: seq<Byte>, block: nat, g: GroupTemplate, i: nat)
    requires SoundGroup(g) && g.blockLength <= block <= |data| && EntryDecodes(data, block, g, i + 1)
    ensures EntryDecodes(data[block..], block, g, i)
  {
    hide LaidOut, DecodeBlock, EntryStart;
    EntryRoom(block, 0, i + 1);
    var at := EntryStart(i, block);
    assert EntryStart(i + 1, block) == at + block;
    SliceOfSlice(data, block, |data|, at, at + block);
    assert data[block..|data|] == data[block..];
  }

  /** A group's entries decode exactly when every entry's window does. */
  lemma EntriesDecode(data: seq<Byte>, block: nat, count: nat, g: GroupTemplate)
    requires SoundGroup(g) && g.blockLength <= block && 0 <= block * count <= |data|
    ensures DecodeEntries(data, block, count, g).Some?
            <==> forall i :: 0 <= i < count ==> EntryDecodes(data, block, g, i)
  {
    hide DecodeEntries, DecodeBlock, SoundGroup;
    if DecodeEntries(data, block, count, g).Some? {
      forall i | 0 <= i < count
        ensures EntryDecodes(data, block, g, i)
      {
        EntryAgrees(data, block, count, g, i);
      }
    } else if forall i :: 0 <= i < count ==> EntryDecodes(data, block, g, i) {
      AllEntriesDecode(data, block, count, g);
    }
  }

  /** Every entry of group k, in the windows the view walks to, decodes. */
  ghost predicate GroupDecodes(buf: seq<Byte>, pos: nat, groups: seq<GroupTemplate>, maxRepeated: nat, k: nat)
    requires k < |groups| && pos <= |buf| && SoundGroups(groups) && GroupsValid(buf[pos..], groups, maxRepeated)
  {
    var gv := GroupViewAt(buf, pos, groups, k, maxRepeated);
    forall i :: 0 <= i < gv.count ==> EntryDecodes(At(buf, gv.data), gv.blockLength, groups[k], i)
  }

  ghost predicate GroupWindowsDecode(buf: seq<Byte>, pos: nat, groups: seq<GroupTemplate>, maxRepeated: nat)
    requires pos <= |buf| && SoundGroups(groups) && GroupsValid(buf[pos..], groups, maxRepeated)
  {
    forall k :: 0 <= k < |groups| ==> GroupDecodes(buf, pos, groups, maxRepeated, k)
  }

  lemma {:induction false} AllGroupsDecode(buf: seq<Byte>, pos: nat, groups: seq<GroupTemplate>, maxRepeated: nat)
    requires pos <= |buf| && SoundGroups(groups) && GroupsValid(buf[pos..], groups, maxRepeated)
    requires GroupWindowsDecode(buf, pos, groups, maxRepeated)
    ensures DecodeGroups(buf[pos..], groups, maxRepeated).Some?
    decreases |groups|
  {
    hide SoundGroup, HeadValid, DecodeEntries, DecodeGroups, GroupsValid, GroupViewAt, EntryDecodes, SoundGroups;
    if groups == [] {
      NoDecodedGroups(buf[pos..], groups, maxRepeated);
    } else {
      assert groups[0..] == groups;
      NextDecodedGroup(buf[pos..], groups, 0, maxRepeated);
      var next := NextPos(buf, pos, groups, maxRepeated);
      GroupViewFirst(buf, pos, groups, maxRepeated);
      assert GroupDecodes(buf, pos, groups, maxRepeated, 0);
      var h := HeadOf(buf[pos..]);
      var gv := GroupViewAt(buf, pos, groups, 0, maxRepeated);
      EntriesDecode(At(buf, gv.data), h.block, h.count, groups[0]);
      EntriesPrefix(h.tail, h.block, h.count, groups[0]);
      var rest := groups[1..];
      forall k | 0 <= k < |rest|
        ensures GroupDecodes(buf, next, rest, maxRepeated, k)
      {
        assert GroupDecodes(buf, pos, groups, maxRepeated, k + 1);
        GroupViewNext(buf, pos, groups, maxRepeated, k + 1);
      }
      AllGroupsDecode(buf, next, rest, maxRepeated);
    }
  }

  lemma GroupsDecode(buf: seq<Byte>, pos: nat, groups: seq<GroupTemplate>, maxRepeated: nat)
    requires pos <= |buf| && SoundGroups(groups) && GroupsValid(buf[pos..], groups, maxRepeated)
    ensures DecodeGroups(buf[pos..], groups, maxRepeated).Some?
            <==> GroupWindowsDecode(buf, pos, groups, maxRepeated)
  {
    hide DecodeGroups, GroupsValid, SoundGroup, DecodeEntries, EntryDecodes, GroupViewAt;
    if DecodeGroups(buf[pos..], groups, maxRepeated).Some? {
      forall k | 0 <= k < |groups|
        ensures GroupDecodes(buf, pos, groups, maxRepeated, k)
      {
        GroupAgrees(buf, pos, groups, maxRepeated, k);
        var gv := GroupViewAt(buf, pos, groups, k, maxRepeated);
        EntriesDecode(At(buf, gv.data), gv.blockLength, gv.count, groups[k]);
      }
    } else if GroupWindowsDecode(buf, pos, groups, maxRepeated) {
      AllGroupsDecode(buf, pos, groups, maxRepeated);
    }
  }

  /**
  For every buffer whose header, block and groups are those of the template: the decoder accepts it exactly
  when every field decodes from the view's window of it, and every entry of every group from its own.
   */
  lemma DecodesByWindows(buf: seq<Byte>, t: MessageTemplate, maxRepeated: nat)
    requires SoundTemplate(t) && HeaderValid(buf, t)
    requires GroupsValid(buf[8 + U16At(buf, 0)..], t.groups, maxRepeated)
    ensures var v := ViewOf(buf, t);
            && Inside(buf, v.block)
            && (DecodeMessage(buf, t, maxRepeated).Some? <==>
                  && (forall k :: 0 <= k < |t.fields| ==> FieldDecodes(At(buf, v.block), t.fields[k]))
                  && GroupWindowsDecode(buf, 8 + U16At(buf, 0), t.groups, maxRepeated))
  {
    hide LaidOut, DecodeBlock, DecodeGroups, GroupsValid, SoundGroup, FieldDecodes, GroupWindowsDecode;
    var end := 8 + U16At(buf, 0);
    BlockDecodes(buf[8..end], t.fields, t.blockLength);
    GroupsDecode(buf, end, t.groups, maxRepeated);
  }
}
