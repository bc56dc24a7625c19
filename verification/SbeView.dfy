/**
Reading an SBE buffer in place: src/sbe/view.cc and Codec::NewView. A view holds windows of
the buffer; what it reads through them is what the decoder decodes.
 */
module SbeView {
  import opened Options
  import opened Powers
  import opened BigEndian
  import opened Wire
  import opened SbeTemplate
  import opened SbeFields
  import opened SbeBlocks
  import opened SbeMessages
  import opened SbeCodec

  /** A span of the buffer. */
  datatype Window = Window(start: nat, len: nat)

  datatype View = View(data: Window, block: Window, fields: Option<seq<FieldTemplate>>,
                       groups: Option<seq<GroupTemplate>>)

  datatype GroupView = GroupView(data: Window, blockLength: nat, count: nat, fields: Option<seq<FieldTemplate>>)

  const NOTHING := Window(0, 0)
  const NO_VIEW := View(NOTHING, NOTHING, None, None)
  const NO_GROUP := GroupView(NOTHING, 0, 0, None)

  predicate Inside(buf: seq<Byte>, w: Window) {
    w.start + w.len <= |buf|
  }

  function At(buf: seq<Byte>, w: Window): (r: seq<Byte>)
    requires Inside(buf, w)
    ensures |r| == w.len
  {
    buf[w.start..w.start + w.len]
  }

  /** The fields tile the front of the window they are read from. */
  ghost predicate FieldsFit(fields: seq<FieldTemplate>, len: nat) {
    exists end: nat :: LaidOut(fields, 0, end) && end <= len
  }

  /** The group headers were checked, at some limit on entries. */
  ghost predicate GroupsFit(rest: seq<Byte>, groups: seq<GroupTemplate>) {
    exists n: nat :: GroupsValid(rest, groups, n)
  }

  /** A view whose every access stays inside the buffer. */
  ghost predicate ValidView(buf: seq<Byte>, v: View) {
    && Inside(buf, v.block)
    && (v.fields.Some? ==> FieldsFit(v.fields.value, v.block.len))
    && (v.groups.Some? ==>
          && v.data == Window(0, |buf|) && v.block.start == 8
          && SoundGroups(v.groups.value)
          && GroupsFit(buf[8 + v.block.len..], v.groups.value))
  }

  /** Looks up the template of the header, then walks the block and the groups once. */
  method NewView(buf: seq<Byte>, byId: map<(nat, nat), MessageTemplate>, maxSize: nat, maxRepeated: nat)
    returns (r: Option<View>)
    requires forall k :: k in byId ==> SoundTemplate(byId[k]) && byId[k].schemaId == k.0 && byId[k].templateId == k.1
    ensures r.Some? <==>
            && |buf| <= maxSize && |buf| >= 8
            && var key := (U16At(buf, 4), U16At(buf, 2));
               key in byId && HeaderValid(buf, byId[key])
               && GroupsValid(buf[8 + U16At(buf, 0)..], byId[key].groups, maxRepeated)
    ensures r.Some? ==>
            && |buf| >= 8 && (U16At(buf, 4), U16At(buf, 2)) in byId
            && var t := byId[(U16At(buf, 4), U16At(buf, 2))];
               r.value == View(Window(0, |buf|), Window(8, U16At(buf, 0)), Some(t.fields), Some(t.groups))
    ensures r.Some? ==> ValidView(buf, r.value)
  {
    hide LaidOut, SoundGroup, GroupsValid;
    if |buf| > maxSize || |buf| < 8 {
      return None;
    }
    var blockLength := U16At(buf, 0);
    var key := (U16At(buf, 4), U16At(buf, 2));
    if key !in byId {
      return None;
    }
    var t := byId[key];
    if blockLength < t.blockLength {
      return None;
    }
    var end := 8 + blockLength;
    if |buf| < end {
      return None;
    }
    var valid := ValidateGroups(buf, t.groups, end, maxRepeated);
    if !valid {
      return None;
    }
    r := Some(View(Window(0, |buf|), Window(8, blockLength), Some(t.fields), Some(t.groups)));
    assert SoundTemplate(t);
    assert FieldsFit(t.fields, blockLength) && GroupsFit(buf[8 + blockLength..], t.groups);
  }

  // ---- Fields ----

  /** The first field of that name. */
  function Find(fields: seq<FieldTemplate>, name: string): Option<FieldTemplate> {
    if fields == [] then None else if fields[0].name == name then Some(fields[0]) else Find(fields[1..], name)
  }

  lemma {:induction false} FindIs(fields: seq<FieldTemplate>, k: nat)
    requires k < |fields| && forall i :: 0 <= i < k ==> fields[i].name != fields[k].name
    ensures Find(fields, fields[k].name) == Some(fields[k])
    decreases k
  {
    if k > 0 {
      assert fields[0].name != fields[k].name;
      FindIs(fields[1..], k - 1);
    }
  }

  /** A field that is found lies in the window and is sound. */
  lemma {:induction false} FoundFits(fields: seq<FieldTemplate>, name: string, at: nat, end: nat)
    requires LaidOut(fields, at, end) && Find(fields, name).Some?
    ensures var ft := Find(fields, name).value; Sound(ft) && ft.offset + ft.size <= end
    decreases |fields|
  {
    LaidOutEnd(fields, at, end);
    if fields[0].name != name {
      FoundFits(fields[1..], name, at + fields[0].size, end);
    }
  }

  method FindField(v: View, name: string) returns (r: Option<FieldTemplate>)
    ensures r == if v.fields.None? then None else Find(v.fields.value, name)
  {
    if v.fields.None? {
      return None;
    }
    var fields := v.fields.value;
    var i := 0;
    assert fields[0..] == fields;
    while i < |fields|
      invariant 0 <= i <= |fields| && Find(fields[i..], name) == Find(fields, name)
    {
      if fields[i].name == name {
        return Some(fields[i]);
      }
      assert fields[i..][1..] == fields[i + 1..];
      i := i + 1;
    }
    r := None;
  }

  /** Where the named field is in the buffer. */
  function FieldWindow(v: View, ft: FieldTemplate): Window {
    Window(v.block.start + ft.offset, ft.size)
  }

  lemma WindowInside(buf: seq<Byte>, v: View, name: string)
    requires ValidView(buf, v) && v.fields.Some? && Find(v.fields.value, name).Some?
    ensures var ft := Find(v.fields.value, name).value;
            Sound(ft) && ft.offset + ft.size <= v.block.len && Inside(buf, FieldWindow(v, ft))
  {
    var end: nat :| LaidOut(v.fields.value, 0, end) && end <= v.block.len;
    FoundFits(v.fields.value, name, 0, end);
  }

  /** The window of a named field, and the field; None for a name the view does not know. */
  method Locate(buf: seq<Byte>, v: View, name: string) returns (r: Option<(FieldTemplate, Window)>)
    requires ValidView(buf, v)
    ensures v.fields.None? ==> r == None
    ensures v.fields.Some? ==>
              match Find(v.fields.value, name)
              case None => r == None
              case Some(ft) => r == Some((ft, FieldWindow(v, ft))) && Sound(ft) && Inside(buf, FieldWindow(v, ft))
  {
    hide LaidOut, ValidView, Sound;
    var ft := FindField(v, name);
    if ft.None? {
      return None;
    }
    WindowInside(buf, v, name);
    r := Some((ft.value, FieldWindow(v, ft.value)));
  }

  /** The signed integer a window of one, two, four or eight bytes holds. */
  function SignedOf(w: seq<Byte>): int {
    if |w| == 1 || |w| == 2 || |w| == 4 || |w| == 8 then
      var n := WordSize(|w|);
      if FixedValue(w) >= n / 2 then FixedValue(w) - n else FixedValue(w)
    else 0
  }

  function UnsignedOf(w: seq<Byte>): int {
    if |w| == 1 || |w| == 2 || |w| == 4 || |w| == 8 then FixedValue(w) else 0
  }

  /** The window a view reads for a name: nothing for an unknown one. */
  ghost function Read(buf: seq<Byte>, v: View, name: string): Option<seq<Byte>>
    requires ValidView(buf, v)
  {
    if v.fields.None? then None
    else
      match Find(v.fields.value, name)
      case None => None
      case Some(ft) =>
        WindowInside(buf, v, name);
        Some(At(buf, FieldWindow(v, ft)))
  }

  method Bool(buf: seq<Byte>, v: View, name: string) returns (b: bool)
    requires ValidView(buf, v)
    ensures var w := Read(buf, v, name); b == (w.Some? && w.value != [] && w.value[0] != 0)
  {
    hide ValidView;
    var f := Locate(buf, v, name);
    if f.None? || f.value.0.size == 0 {
      return false;
    }
    b := buf[f.value.1.start] != 0;
  }

  method Int(buf: seq<Byte>, v: View, name: string) returns (i: int)
    requires ValidView(buf, v)
    ensures var w := Read(buf, v, name); i == if w.None? then 0 else SignedOf(w.value)
  {
    hide ValidView, WordSize, FixedValue;
    var f := Locate(buf, v, name);
    if f.None? {
      return 0;
    }
    i := SignedOf(At(buf, f.value.1));
  }

  method Uint(buf: seq<Byte>, v: View, name: string) returns (i: int)
    requires ValidView(buf, v)
    ensures var w := Read(buf, v, name); i == if w.None? then 0 else UnsignedOf(w.value)
  {
    hide ValidView, FixedValue;
    var f := Locate(buf, v, name);
    if f.None? {
      return 0;
    }
    i := UnsignedOf(At(buf, f.value.1));
  }

  method String(buf: seq<Byte>, v: View, name: string) returns (r: Window)
    requires ValidView(buf, v)
    ensures Inside(buf, r)
    ensures var w := Read(buf, v, name); At(buf, r) == if w.None? then [] else DropNuls(w.value)
  {
    hide ValidView;
    var f := Locate(buf, v, name);
    if f.None? {
      return NOTHING;
    }
    var start, n := f.value.1.start, f.value.1.len;
    ghost var w := At(buf, f.value.1);
    assert w[..n] == w;
    while n > 0 && buf[start + n - 1] == 0
      invariant 0 <= n <= f.value.1.len && DropNuls(w[..n]) == DropNuls(w)
    {
      assert w[..n][..n - 1] == w[..n - 1] && w[n - 1] == buf[start + n - 1];
      n := n - 1;
    }
    assert n > 0 ==> w[n - 1] == buf[start + n - 1];
    r := Window(start, n);
    assert At(buf, r) == w[..n];
  }

  method Bytes(buf: seq<Byte>, v: View, name: string) returns (r: Window)
    requires ValidView(buf, v)
    ensures Inside(buf, r)
    ensures var w := Read(buf, v, name); At(buf, r) == if w.None? then [] else w.value
  {
    hide ValidView;
    var f := Locate(buf, v, name);
    if f.None? {
      return NOTHING;
    }
    r := f.value.1;
  }

  // ---- Composites ----

  ghost function CompositeView(v: View, name: string): View {
    if v.fields.None? || Find(v.fields.value, name).None? then NO_VIEW
    else
      var ft := Find(v.fields.value, name).value;
      if ft.form.Composite? then View(v.data, FieldWindow(v, ft), Some(ft.form.fields), None) else NO_VIEW
  }

  method Composite(buf: seq<Byte>, v: View, name: string) returns (r: View)
    requires ValidView(buf, v)
    ensures r == CompositeView(v, name) && ValidView(buf, r)
  {
    hide LaidOut;
    var f := Locate(buf, v, name);
    if f.None? || !f.value.0.form.Composite? {
      return NO_VIEW;
    }
    var ft := f.value.0;
    SoundComposite(ft);
    r := View(v.data, f.value.1, Some(ft.form.fields), None);
  }

  lemma SoundComposite(ft: FieldTemplate)
    requires Sound(ft) && ft.form.Composite?
    ensures LaidOut(ft.form.fields, 0, ft.size)
  {
  }

  // ---- Agreement with the decoder ----

  /** Each value the decoder returns is read from its own field's bytes, unless a later field cleared it. */
  lemma {:induction false} FieldOfBlock(block: seq<Byte>, fields: seq<FieldTemplate>, at: nat, end: nat, k: nat)
    requires LaidOut(fields, at, end) && end <= |block| && k < |fields|
    requires DecodeBlock(block, fields, at, end).Some?
    ensures |DecodeBlock(block, fields, at, end).value| == |fields|
    ensures Sound(fields[k]) && fields[k].offset + fields[k].size <= end
    ensures var r := DecodeField(fields[k], block[fields[k].offset..fields[k].offset + fields[k].size]);
            r.Some? && DecodeBlock(block, fields, at, end).value[k] == Keep(fields[k..], r.value)
    decreases |fields|
  {
    hide DecodeField, Sound, Keep;
    LaidOutEnd(fields, at, end);
    if k == 0 {
      assert fields[0..] == fields;
    } else {
      assert fields[1..][k - 1..] == fields[k..];
    }
    if |fields| > 1 {
      FieldOfBlock(block, fields[1..], at + fields[0].size, end, if k == 0 then 0 else k - 1);
    }
  }

  lemma SubWindow(buf: seq<Byte>, w: Window, offset: nat, size: nat)
    requires Inside(buf, w) && offset + size <= w.len
    ensures At(buf, Window(w.start + offset, size)) == At(buf, w)[offset..offset + size]
  {
    SliceOfSlice(buf, w.start, w.start + w.len, offset, offset + size);
  }

  lemma SliceOfSlice<T>(s: seq<T>, a: nat, b: nat, c: nat, d: nat)
    requires a <= b <= |s| && c <= d <= b - a
    ensures s[a..b][c..d] == s[a + c..a + d]
  {
    var l, r := s[a..b][c..d], s[a + c..a + d];
    forall x | 0 <= x < |l|
      ensures l[x] == r[x]
    {
      assert l[x] == s[a..b][c + x] == s[a + (c + x)];
      assert r[x] == s[(a + c) + x];
    }
  }

  /** What a view reads of field k is the window the decoder decoded it from. */
  lemma {:induction false} ViewReadsField(buf: seq<Byte>, v: View, k: nat, end: nat)
    requires ValidView(buf, v) && v.fields.Some? && k < |v.fields.value|
    requires forall i :: 0 <= i < k ==> v.fields.value[i].name != v.fields.value[k].name
    requires LaidOut(v.fields.value, 0, end) && end <= v.block.len
    requires DecodeBlock(At(buf, v.block), v.fields.value, 0, end).Some?
    ensures var ft := v.fields.value[k];
            && Read(buf, v, ft.name).Some? && Sound(ft) && |Read(buf, v, ft.name).value| == ft.size
            && var r := DecodeField(ft, Read(buf, v, ft.name).value);
               r.Some? && DecodeBlock(At(buf, v.block), v.fields.value, 0, end).value[k]
                          == Keep(v.fields.value[k..], r.value)
  {
    hide LaidOut, DecodeBlock, DecodeField, Sound, Find, Keep;
    var ft := v.fields.value[k];
    FindIs(v.fields.value, k);
    WindowInside(buf, v, ft.name);
    FieldOfBlock(At(buf, v.block), v.fields.value, 0, end, k);
    SubWindow(buf, v.block, ft.offset, ft.size);
  }

  /** An integer read through the view, by its primitive's signedness, is the decoder's. */
  lemma {:induction false} IntAgrees(k: IntKind, e: IntEncoding, w: seq<Byte>)
    requires |w| == EncSize(e) && !k.BoolKind? && DecodeInt(k, e, FixedValue(w)).Some?
    ensures EncSigned(e) ==> DecodeInt(k, e, FixedValue(w)) == Some(IntV(SignedOf(w)))
    ensures !EncSigned(e) ==> DecodeInt(k, e, FixedValue(w)) == Some(IntV(UnsignedOf(w)))
  {
    hide FixedValue, ReadCheck, InRange, KindLo, KindHi;
    var bits := FixedValue(w);
    FixedBound(w);
    WordPow(|w|);
    var v := Extended(e, bits);
    var i := if EncSigned(e) then SignedOf(w) else UnsignedOf(w);
    assert v == IntBits(i);
    KindFits(k, e, i);
    ToKindIs(k, i);
  }

  /** A wire integer the decoder lets through is one the field holds. */
  lemma {:induction false} KindFits(k: IntKind, e: IntEncoding, i: int)
    requires EncLo(e) <= i <= EncHi(e) && !k.BoolKind?
    requires ReadCheck(k, e) ==> InRange(IntBits(i), !EncSigned(e), KindLo(k), KindHi(k))
    ensures KindLo(k) <= i <= KindHi(k)
  {
  }

  /** The view looks at a bool's first byte only, the decoder at all of them. */
  lemma {:induction false} BoolAgrees(e: IntEncoding, w: seq<Byte>)
    requires |w| == EncSize(e)
    ensures DecodeInt(BoolKind, e, FixedValue(w)) == Some(IntV(if w[0] != 0 then 1 else 0))
            <==> !(w[0] == 0 && exists j :: 0 < j < |w| && w[j] != 0)
  {
    FixedBound(w);
    WordPow(|w|);
    FixedZero(w);
    var v := Extended(e, FixedValue(w));
    assert v == 0 <==> FixedValue(w) == 0;
  }

  lemma {:induction false} FixedZero(w: seq<Byte>)
    ensures FixedValue(w) == 0 <==> forall j :: 0 <= j < |w| ==> w[j] == 0
  {
    if w != [] {
      FixedZero(w[1..]);
      if FixedValue(w) == 0 {
        forall j | 0 < j < |w|
          ensures w[j] == 0
        {
          assert w[j] == w[1..][j - 1];
        }
      }
    }
  }

  // ---- Groups ----

  /** Where the header of group k is, walking the headers from pos. */
  function HeadPos(buf: seq<Byte>, pos: nat, groups: seq<GroupTemplate>, k: nat, maxRepeated: nat): (r: nat)
    requires k < |groups| && pos <= |buf| && GroupsValid(buf[pos..], groups, maxRepeated)
    ensures pos <= r && r + 4 <= |buf|
    ensures HeadValid(HeadOf(buf[r..]), groups[k], maxRepeated)
    decreases k
  {
    if k == 0 then pos
    else
      var next := NextPos(buf, pos, groups, maxRepeated);
      HeadPos(buf, next, groups[1..], k - 1, maxRepeated)
  }

  /** The byte after a group's entries. */
  function NextPos(buf: seq<Byte>, pos: nat, groups: seq<GroupTemplate>, maxRepeated: nat): (r: nat)
    requires groups != [] && pos <= |buf| && GroupsValid(buf[pos..], groups, maxRepeated)
    ensures pos + 4 <= r <= |buf| && GroupsValid(buf[r..], groups[1..], maxRepeated)
    ensures r == pos + 4 + U16At(buf, pos) * U16At(buf, pos + 2)
  {
    var h := HeadOf(buf[pos..]);
    HeadAt(buf, pos);
    SpanFits(h, groups[0], maxRepeated);
    assert buf[pos + 4..][Span(h)..] == buf[pos + 4 + Span(h)..];
    pos + 4 + Span(h)
  }

  /** The window of group k's entries. */
  function GroupViewAt(buf: seq<Byte>, pos: nat, groups: seq<GroupTemplate>, k: nat, maxRepeated: nat): (r: GroupView)
    requires k < |groups| && pos <= |buf| && GroupsValid(buf[pos..], groups, maxRepeated)
    ensures Inside(buf, r.data) && r.data.len == r.blockLength * r.count && r.fields == Some(groups[k].fields)
    ensures groups[k].blockLength <= r.blockLength && r.count <= maxRepeated
  {
    var at := HeadPos(buf, pos, groups, k, maxRepeated);
    var h := HeadOf(buf[at..]);
    HeadAt(buf, at);
    SpanFits(h, groups[k], maxRepeated);
    GroupView(Window(at + 4, Span(h)), h.block, h.count, Some(groups[k].fields))
  }

  /** The first group of that name. */
  function FindGroup(groups: seq<GroupTemplate>, name: string): (r: Option<nat>)
    ensures r.Some? ==> r.value < |groups| && groups[r.value].name == name
  {
    if groups == [] then None
    else if groups[0].name == name then Some(0)
    else
      match FindGroup(groups[1..], name)
      case None => None
      case Some(k) => Some(k + 1)
  }

  /** The view of the group of that name, in the groups from pos on. */
  ghost function NamedGroup(buf: seq<Byte>, pos: nat, groups: seq<GroupTemplate>, name: string,
                            maxRepeated: nat): GroupView
    requires pos <= |buf| && GroupsValid(buf[pos..], groups, maxRepeated)
  {
    match FindGroup(groups, name)
    case None => NO_GROUP
    case Some(k) => GroupViewAt(buf, pos, groups, k, maxRepeated)
  }

  /** Walks the group headers again, as the decoder did. */
  method Group(buf: seq<Byte>, v: View, name: string, ghost maxRepeated: nat) returns (r: GroupView)
    requires ValidView(buf, v)
    requires v.groups.Some? ==> GroupsValid(buf[8 + v.block.len..], v.groups.value, maxRepeated)
    ensures r == if v.groups.None? then NO_GROUP
                 else NamedGroup(buf, 8 + v.block.len, v.groups.value, name, maxRepeated)
  {
    hide GroupsValid, LaidOut, SoundGroup, NamedGroup;
    if v.groups.None? {
      return NO_GROUP;
    }
    var groups := v.groups.value;
    var pos: nat := v.block.len;
    var i := 0;
    assert groups[0..] == groups;
    while i < |groups|
      invariant 0 <= i <= |groups| && 8 + pos <= |buf|
      invariant GroupsValid(buf[8 + pos..], groups[i..], maxRepeated)
      invariant NamedGroup(buf, 8 + pos, groups[i..], name, maxRepeated)
                == NamedGroup(buf, 8 + v.block.len, groups, name, maxRepeated)
    {
      var gt := groups[i];
      WalkStep(buf, 8 + pos, groups[i..], name, maxRepeated);
      assert groups[i..][0] == gt && groups[i..][1..] == groups[i + 1..];
      if v.data.len < pos + 4 {
        break;
      }
      var entryBlock, count := U16At(buf, 8 + pos), U16At(buf, 8 + pos + 2);
      if gt.name == name {
        return GroupView(Window(8 + pos + 4, entryBlock * count), entryBlock, count, Some(gt.fields));
      }
      pos := pos + (4 + entryBlock * count);
      i := i + 1;
    }
    assert groups[i..] == [];
    NoNamedGroup(buf, 8 + pos, name, maxRepeated);
    r := NO_GROUP;
  }

  lemma NoNamedGroup(buf: seq<Byte>, pos: nat, name: string, maxRepeated: nat)
    requires pos <= |buf|
    ensures GroupsValid(buf[pos..], [], maxRepeated) && NamedGroup(buf, pos, [], name, maxRepeated) == NO_GROUP
  {
  }

  /** One header on: either the group is here, or the walk goes on after its entries. */
  lemma {:induction false} WalkStep(buf: seq<Byte>, pos: nat, groups: seq<GroupTemplate>, name: string,
                                    maxRepeated: nat)
    requires groups != [] && pos <= |buf| && GroupsValid(buf[pos..], groups, maxRepeated)
    ensures pos + 4 <= |buf|
    ensures var b, n := U16At(buf, pos), U16At(buf, pos + 2);
            var next := pos + (4 + b * n);
            && pos + 4 <= next <= |buf| && GroupsValid(buf[next..], groups[1..], maxRepeated)
            && NamedGroup(buf, pos, groups, name, maxRepeated)
               == if groups[0].name == name then GroupView(Window(pos + 4, b * n), b, n, Some(groups[0].fields))
                  else NamedGroup(buf, next, groups[1..], name, maxRepeated)
  {
    hide GroupViewAt, GroupsValid;
    var next := NextPos(buf, pos, groups, maxRepeated);
    FirstIs(buf, pos, groups, maxRepeated);
    var k := FindGroup(groups, name);
    if groups[0].name != name && k.Some? {
      GroupViewNext(buf, pos, groups, maxRepeated, k.value);
    }
  }

  lemma FirstIs(buf: seq<Byte>, pos: nat, groups: seq<GroupTemplate>, maxRepeated: nat)
    requires groups != [] && pos <= |buf| && GroupsValid(buf[pos..], groups, maxRepeated)
    ensures pos + 4 <= |buf|
    ensures GroupViewAt(buf, pos, groups, 0, maxRepeated)
            == GroupView(Window(pos + 4, U16At(buf, pos) * U16At(buf, pos + 2)),
                         U16At(buf, pos), U16At(buf, pos + 2), Some(groups[0].fields))
  {
    HeadAt(buf, pos);
  }

  method Entry(buf: seq<Byte>, g: GroupView, i: nat) returns (r: View)
    requires Inside(buf, g.data)
    requires g.fields.Some? ==> FieldsFit(g.fields.value, g.blockLength)
    ensures ValidView(buf, r)
    ensures i < g.count && g.data.len == g.blockLength * g.count ==>
              r == View(NOTHING, Window(g.data.start + EntryStart(i, g.blockLength), g.blockLength), g.fields, None)
    ensures i >= g.count ==> r == NO_VIEW
  {
    hide LaidOut;
    if i >= g.count || g.data.len < (i + 1) * g.blockLength {
      EntryRoom(g.blockLength, g.count, i);
      return NO_VIEW;
    }
    EntryRoom(g.blockLength, g.count, i);
    r := View(NOTHING, Window(g.data.start + EntryStart(i, g.blockLength), g.blockLength), g.fields, None);
  }

  /** Where entry i starts among its group's bytes. */
  function EntryStart(i: nat, block: nat): (r: nat)
  {
    MulGrowsOrZero(i, block);
    i * block
  }

  lemma EntryRoom(block: nat, count: nat, i: nat)
    ensures i < count ==> EntryStart(i, block) + block <= block * count
    ensures (i + 1) * block == EntryStart(i, block) + block
    ensures i > 0 ==> EntryStart(i, block) == EntryStart(i - 1, block) + block
    ensures i == 0 ==> EntryStart(i, block) == 0
  {
    if i < count {
      MulLe(i + 1, count, block);
    }
  }

  /** Entry i of a group is decoded from the window the view gives for it. */
  lemma {:induction false} EntryAgrees(data: seq<Byte>, block: nat, count: nat, g: GroupTemplate, i: nat)
    requires SoundGroup(g) && g.blockLength <= block && 0 <= block * count <= |data| && i < count
    requires DecodeEntries(data, block, count, g).Some?
    ensures EntryStart(i, block) + block <= |data| && |DecodeEntries(data, block, count, g).value| == count
    ensures DecodeBlock(data[EntryStart(i, block)..EntryStart(i, block) + block], g.fields, 0, g.blockLength)
            == Some(DecodeEntries(data, block, count, g).value[i])
    decreases count
  {
    hide LaidOut, DecodeBlock, EntryStart, DecodeEntries;
    OneLess(block, count);
    NextDecodedEntry(data, block, count, g);
    NoDecodedEntries(data[block..], block, g);
    EntryRoom(block, count, i);
    if count > 1 {
      var j := if i == 0 then 0 else i - 1;
      EntryAgrees(data[block..], block, count - 1, g, j);
      if i > 0 {
        var at := EntryStart(j, block);
        SliceOfSlice(data, block, |data|, at, at + block);
        assert data[block..|data|] == data[block..];
      }
    }
    assert data[0..block] == data[..block];
  }

  /** Group k of a decoded message comes from the windows the view walks to. */
  lemma {:induction false} GroupAgrees(buf: seq<Byte>, pos: nat, groups: seq<GroupTemplate>, maxRepeated: nat, k: nat)
    requires k < |groups| && pos <= |buf| && SoundGroups(groups) && GroupsValid(buf[pos..], groups, maxRepeated)
    requires DecodeGroups(buf[pos..], groups, maxRepeated).Some?
    ensures |DecodeGroups(buf[pos..], groups, maxRepeated).value| == |groups|
    ensures var gv := GroupViewAt(buf, pos, groups, k, maxRepeated);
            DecodeEntries(At(buf, gv.data), gv.blockLength, gv.count, groups[k])
            == Some(DecodeGroups(buf[pos..], groups, maxRepeated).value[k])
    decreases |groups|
  {
    hide SoundGroup, HeadValid, DecodeEntries, DecodeGroups, GroupsValid, GroupViewAt;
    assert groups[0..] == groups;
    NextDecodedGroup(buf[pos..], groups, 0, maxRepeated);
    var next := NextPos(buf, pos, groups, maxRepeated);
    GroupViewFirst(buf, pos, groups, maxRepeated);
    if k == 0 {
      var h := HeadOf(buf[pos..]);
      EntriesPrefix(h.tail, h.block, h.count, groups[0]);
    } else {
      GroupViewNext(buf, pos, groups, maxRepeated, k);
    }
    if |groups| > 1 {
      GroupAgrees(buf, next, groups[1..], maxRepeated, if k == 0 then 0 else k - 1);
    } else {
      NoDecodedGroups(buf[next..], groups[1..], maxRepeated);
    }
  }

  lemma GroupViewFirst(buf: seq<Byte>, pos: nat, groups: seq<GroupTemplate>, maxRepeated: nat)
    requires groups != [] && pos <= |buf| && GroupsValid(buf[pos..], groups, maxRepeated)
    ensures var h := HeadOf(buf[pos..]);
            var gv := GroupViewAt(buf, pos, groups, 0, maxRepeated);
            && gv.blockLength == h.block && gv.count == h.count && 0 <= Span(h) <= |h.tail|
            && At(buf, gv.data) == h.tail[..Span(h)]
            && h.tail[Span(h)..] == buf[NextPos(buf, pos, groups, maxRepeated)..]
  {
    var h := HeadOf(buf[pos..]);
    HeadAt(buf, pos);
    SpanFits(h, groups[0], maxRepeated);
    var tail := buf[pos + 4..];
    assert tail[Span(h)..] == buf[pos + 4 + Span(h)..];
    assert tail[..Span(h)] == buf[pos + 4..pos + 4 + Span(h)];
  }

  lemma GroupViewNext(buf: seq<Byte>, pos: nat, groups: seq<GroupTemplate>, maxRepeated: nat, k: nat)
    requires 0 < k < |groups| && pos <= |buf| && GroupsValid(buf[pos..], groups, maxRepeated)
    ensures GroupViewAt(buf, pos, groups, k, maxRepeated)
            == GroupViewAt(buf, NextPos(buf, pos, groups, maxRepeated), groups[1..], k - 1, maxRepeated)
  {
    hide HeadValid;
  }

  /** Entries depend on their own bytes only. */
  lemma {:induction false} EntriesPrefix(data: seq<Byte>, block: nat, count: nat, g: GroupTemplate)
    requires SoundGroup(g) && g.blockLength <= block && 0 <= block * count <= |data|
    ensures DecodeEntries(data[..block * count], block, count, g) == DecodeEntries(data, block, count, g)
    decreases count
  {
    hide LaidOut, DecodeBlock;
    if count > 0 {
      OneLess(block, count);
      EntriesPrefix(data[block..], block, count - 1, g);
      var d := data[..block * count];
      assert d[..block] == data[..block];
      assert d[block..] == data[block..][..block * (count - 1)];
    }
  }

  /** The view NewView gives for template t. */
  function ViewOf(buf: seq<Byte>, t: MessageTemplate): View
    requires |buf| >= 8
  {
    View(Window(0, |buf|), Window(8, U16At(buf, 0)), Some(t.fields), Some(t.groups))
  }

  /**
   * For a buffer both accept, a field read by name is decoded from the very bytes the view
   * reads, and an entry of a group from the very window Group and Entry give for it.
   */
  lemma {:induction false} ViewAgreesWithDecoder(buf: seq<Byte>, t: MessageTemplate, maxRepeated: nat)
    requires SoundTemplate(t) && DecodeMessage(buf, t, maxRepeated).Some?
    ensures ValidView(buf, ViewOf(buf, t))
    ensures GroupsValid(buf[8 + U16At(buf, 0)..], t.groups, maxRepeated)
    ensures var m := DecodeMessage(buf, t, maxRepeated).value;
            && |m.fields| == |t.fields| && |m.groups| == |t.groups|
            && (forall k :: 0 <= k < |t.fields| && (forall i :: 0 <= i < k ==> t.fields[i].name != t.fields[k].name)
                  ==> FieldAgrees(buf, t, m, k))
            && forall k :: 0 <= k < |t.groups| ==> EntriesAgree(buf, t, m, k, maxRepeated)
  {
    hide LaidOut, DecodeBlock, DecodeGroups, GroupsValid, SoundGroup, FieldAgrees, EntriesAgree;
    var m := DecodeMessage(buf, t, maxRepeated).value;
    var v := ViewOf(buf, t);
    var end := 8 + U16At(buf, 0);
    assert FieldsFit(t.fields, v.block.len) && GroupsFit(buf[end..], t.groups);
    GroupCount(buf[end..], t.groups, maxRepeated);
    forall k | 0 <= k < |t.fields| && forall i :: 0 <= i < k ==> t.fields[i].name != t.fields[k].name
      ensures FieldAgrees(buf, t, m, k)
    {
      FieldAgreesAt(buf, t, m, k);
    }
    forall k | 0 <= k < |t.groups|
      ensures EntriesAgree(buf, t, m, k, maxRepeated)
    {
      EntriesAgreeAt(buf, t, m, k, maxRepeated);
    }
  }

  lemma {:induction false} GroupCount(rest: seq<Byte>, groups: seq<GroupTemplate>, maxRepeated: nat)
    requires SoundGroups(groups) && GroupsValid(rest, groups, maxRepeated)
             && DecodeGroups(rest, groups, maxRepeated).Some?
    ensures |DecodeGroups(rest, groups, maxRepeated).value| == |groups|
    decreases |groups|
  {
    hide DecodeEntries, SoundGroup, DecodeGroups, GroupsValid;
    if groups == [] {
      NoDecodedGroups(rest, groups, maxRepeated);
    } else {
      assert groups[0..] == groups;
      NextDecodedGroup(rest, groups, 0, maxRepeated);
      var h := HeadOf(rest);
      GroupCount(h.tail[Span(h)..], groups[1..], maxRepeated);
    }
  }

  /** Field k of m is decoded from what the view reads under its name. */
  ghost predicate FieldAgrees(buf: seq<Byte>, t: MessageTemplate, m: Message, k: nat)
    requires |buf| >= 8 && ValidView(buf, ViewOf(buf, t)) && k < |t.fields| == |m.fields|
  {
    var ft := t.fields[k];
    var w := Read(buf, ViewOf(buf, t), ft.name);
    Sound(ft) && w.Some? && |w.value| == ft.size && DecodeField(ft, w.value) == Some(m.fields[k])
  }

  lemma FieldAgreesAt(buf: seq<Byte>, t: MessageTemplate, m: Message, k: nat)
    requires SoundTemplate(t) && HeaderValid(buf, t) && ValidView(buf, ViewOf(buf, t)) && k < |t.fields| == |m.fields|
    requires DecodeBlock(buf[8..8 + U16At(buf, 0)], t.fields, 0, t.blockLength) == Some(m.fields)
    requires forall i :: 0 <= i < k ==> t.fields[i].name != t.fields[k].name
    ensures FieldAgrees(buf, t, m, k)
  {
    hide LaidOut, DecodeBlock, DecodeField, Sound, ValidView, SoundGroup, Find;
    ViewReadsField(buf, ViewOf(buf, t), k, t.blockLength);
    assert !Superseded(t.fields[k..]);
  }

  /** Every entry of group k is decoded from the window of that entry. */
  ghost predicate EntriesAgree(buf: seq<Byte>, t: MessageTemplate, m: Message, k: nat, maxRepeated: nat)
    requires SoundTemplate(t) && HeaderValid(buf, t) && k < |t.groups| == |m.groups|
    requires GroupsValid(buf[8 + U16At(buf, 0)..], t.groups, maxRepeated)
  {
    var gv := GroupViewAt(buf, 8 + U16At(buf, 0), t.groups, k, maxRepeated);
    && |m.groups[k]| == gv.count
    && forall i :: 0 <= i < gv.count ==> EntryAgreesIn(buf, gv, t.groups[k], m.groups[k], i)
  }

  ghost predicate EntryAgreesIn(buf: seq<Byte>, gv: GroupView, g: GroupTemplate, es: seq<seq<Value>>, i: nat)
    requires SoundGroup(g) && Inside(buf, gv.data) && g.blockLength <= gv.blockLength && i < gv.count == |es|
  {
    var w := Window(gv.data.start + EntryStart(i, gv.blockLength), gv.blockLength);
    Inside(buf, w) && DecodeBlock(At(buf, w), g.fields, 0, g.blockLength) == Some(es[i])
  }

  lemma EntriesAgreeAt(buf: seq<Byte>, t: MessageTemplate, m: Message, k: nat, maxRepeated: nat)
    requires SoundTemplate(t) && HeaderValid(buf, t) && k < |t.groups| == |m.groups|
    requires GroupsValid(buf[8 + U16At(buf, 0)..], t.groups, maxRepeated)
    requires DecodeGroups(buf[8 + U16At(buf, 0)..], t.groups, maxRepeated) == Some(m.groups)
    ensures EntriesAgree(buf, t, m, k, maxRepeated)
  {
    hide LaidOut, DecodeBlock, DecodeGroups, GroupsValid, SoundGroup, DecodeEntries, GroupViewAt, EntryAgreesIn;
    var pos := 8 + U16At(buf, 0);
    var gv := GroupViewAt(buf, pos, t.groups, k, maxRepeated);
    GroupAgrees(buf, pos, t.groups, maxRepeated, k);
    if gv.count == 0 {
      NoDecodedEntries(At(buf, gv.data), gv.blockLength, t.groups[k]);
    }
    forall i | 0 <= i < gv.count
      ensures |m.groups[k]| == gv.count && EntryAgreesIn(buf, gv, t.groups[k], m.groups[k], i)
    {
      EntryWindow(buf, gv, t.groups[k], m.groups[k], i);
    }
    if gv.count > 0 {
      EntryAgrees(At(buf, gv.data), gv.blockLength, gv.count, t.groups[k], 0);
    }
  }

  lemma EntryWindow(buf: seq<Byte>, gv: GroupView, g: GroupTemplate, es: seq<seq<Value>>, i: nat)
    requires SoundGroup(g) && Inside(buf, gv.data) && g.blockLength <= gv.blockLength && i < gv.count
    requires gv.data.len == gv.blockLength * gv.count
    requires DecodeEntries(At(buf, gv.data), gv.blockLength, gv.count, g) == Some(es)
    ensures |es| == gv.count && EntryAgreesIn(buf, gv, g, es, i)
  {
    hide LaidOut, DecodeBlock, DecodeEntries, EntryStart, SoundGroup;
    EntryAgrees(At(buf, gv.data), gv.blockLength, gv.count, g, i);
    SubWindow(buf, gv.data, EntryStart(i, gv.blockLength), gv.blockLength);
  }
}
