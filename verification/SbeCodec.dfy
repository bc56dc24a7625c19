/**
The SBE codec: src/sbe/codec.cc, src/sbe/marshal.cc and src/sbe/unmarshal.cc. A buffer is
resized and written at offsets; reading moves a position over the group headers.
 */
module SbeCodec {
  import opened Options
  import opened BigEndian
  import opened Wire
  import opened Utf8
  import opened SbeTemplate
  import opened SbeFields
  import opened SbeBlocks
  import opened SbeMessages

  // ---- Writing into a buffer ----

  /** buf with w written at byte at. */
  function Splice(buf: seq<Byte>, at: nat, w: seq<Byte>): (r: seq<Byte>)
    requires at + |w| <= |buf|
    ensures |r| == |buf|
  {
    buf[..at] + w + buf[at + |w|..]
  }

  lemma SpliceTwice(buf: seq<Byte>, at: nat, a: seq<Byte>, b: seq<Byte>)
    requires at + |a| + |b| <= |buf|
    ensures Splice(Splice(buf, at, a), at + |a|, b) == Splice(buf, at, a + b)
  {
    var one := Splice(buf, at, a);
    assert one[..at + |a|] == buf[..at] + a;
    assert one[at + |a| + |b|..] == buf[at + |a| + |b|..];
    assert (buf[..at] + a) + b == buf[..at] + (a + b);
  }

  lemma SpliceNothing(buf: seq<Byte>, at: nat)
    requires at <= |buf|
    ensures Splice(buf, at, []) == buf
  {
    assert buf[..at] + [] + buf[at..] == buf;
  }

  /** buf, NUL-extended to n bytes. */
  function Grown(buf: seq<Byte>, n: nat): (r: seq<Byte>)
    ensures |r| >= n && |r| >= |buf|
  {
    if |buf| < n then buf + NulBytes(n - |buf|) else buf
  }

  method Grow(buf0: seq<Byte>, n: nat) returns (buf: seq<Byte>)
    ensures buf == Grown(buf0, n)
  {
    buf := buf0;
    while |buf| < n
      invariant |buf0| <= |buf|
      invariant |buf| > |buf0| ==> |buf| <= n
      invariant buf == buf0 + NulBytes(|buf| - |buf0|)
    {
      assert NulBytes(|buf| + 1 - |buf0|) == NulBytes(|buf| - |buf0|) + [0];
      buf := buf + [0];
    }
  }

  /** Puts a number into its window; refuses one that the wire width cannot hold. */
  method WriteScalar(buf0: seq<Byte>, offset: nat, ft: FieldTemplate, v: Value) returns (ok: bool, buf: seq<Byte>)
    requires Sound(ft) && Typed(ft, v) && (ft.form.Integer? || ft.form.Floating?)
    ensures ok <==> Writable(ft, v)
    ensures ok ==> buf == Splice(Grown(buf0, offset + ft.size), offset, FieldBytes(ft, v))
  {
    buf := Grow(buf0, offset + ft.size);
    if ft.form.Floating? {
      return true, Splice(buf, offset, Fixed(ft.size, v.bits));
    }
    var k, e := ft.form.kind, ft.form.enc;
    var bits := IntBits(v.i);
    if WriteCheck(k, e) && !InRange(bits, IsUnsigned(k), EncLo(e), EncHi(e)) {
      return false, buf;
    }
    return true, Splice(buf, offset, Fixed(ft.size, bits));
  }

  /** What fits of a string, and NULs to the end of its field. */
  method WriteFixedString(buf0: seq<Byte>, offset: nat, ft: FieldTemplate, s: seq<Byte>) returns (buf: seq<Byte>)
    requires ft.form.Chars?
    ensures buf == Splice(Grown(buf0, offset + ft.size), offset, CharBytes(s, ft.size, ft.form.isString))
  {
    hide Splice, NulBytes, CutAt;
    buf := Grow(buf0, offset + ft.size);
    ghost var grown := buf;
    var n := CutLength(s, ft.size, ft.form.isString);
    buf := Splice(buf, offset, s[..n]);
    var i := n;
    NoNuls();
    assert s[..n] + [] == s[..n];
    while i < ft.size
      invariant n <= i <= ft.size
      invariant |buf| == |grown| && buf == Splice(grown, offset, s[..n] + NulBytes(i - n))
    {
      PadOne(grown, offset, s[..n], i - n);
      buf := buf[offset + i := 0];
      i := i + 1;
    }
  }

  /** One NUL more after what was written. */
  lemma PadOne(buf: seq<Byte>, at: nat, w: seq<Byte>, k: nat)
    requires at + |w| + k < |buf|
    ensures Splice(buf, at, w + NulBytes(k))[at + |w| + k := 0] == Splice(buf, at, w + NulBytes(k + 1))
  {
    var one := Splice(buf, at, w + NulBytes(k));
    SpliceTwice(buf, at, w + NulBytes(k), [0]);
    assert w + NulBytes(k + 1) == (w + NulBytes(k)) + [0];
    assert one[at + |w| + k := 0] == Splice(one, at + |w| + k, [0]);
  }

  /** Writes one field at its offset from base. */
  method WriteField(buf0: seq<Byte>, base: nat, ft: FieldTemplate, v: Value) returns (ok: bool, buf: seq<Byte>)
    requires Sound(ft) && Typed(ft, v) && base + ft.offset + ft.size <= |buf0|
    ensures ok <==> Writable(ft, v)
    ensures ok ==> buf == Splice(buf0, base + ft.offset, FieldBytes(ft, v))
    decreases ft
  {
    hide LaidOut, AllTyped, AllWritable, BlockBytes, Splice, CharBytes, Fixed, IntFits;
    if ft.form.Composite? {
      ok, buf := WriteFields(buf0, base + ft.offset, ft.form.fields, v.fields, ft.size);
    } else if ft.form.Chars? {
      buf := WriteFixedString(buf0, base + ft.offset, ft, v.s);
      ok := true;
    } else {
      ok, buf := WriteScalar(buf0, base + ft.offset, ft, v);
    }
  }

  /** Writes a block's fields at their offsets from base. */
  method WriteFields(buf0: seq<Byte>, base: nat, fields: seq<FieldTemplate>, vs: seq<Value>, ghost end: nat)
    returns (ok: bool, buf: seq<Byte>)
    requires LaidOut(fields, 0, end) && AllTyped(fields, vs) && base + end <= |buf0|
    ensures ok <==> AllWritable(fields, vs)
    ensures ok ==> buf == Splice(buf0, base, BlockBytes(fields, vs, 0, end))
    decreases fields
  {
    hide LaidOut, AllTyped, AllWritable, BlockBytes, Typed, Writable, Sound, FieldBytes, Splice;
    buf := buf0;
    var i := 0;
    ghost var at: nat := 0;
    ghost var done: seq<Byte> := [];
    TypedLength(fields, vs);
    assert fields[0..] == fields && vs[0..] == vs;
    SpliceNothing(buf, base);
    assert [] + BlockBytes(fields, vs, 0, end) == BlockBytes(fields, vs, 0, end);
    while i < |fields|
      invariant 0 <= i <= |fields| == |vs|
      invariant LaidOut(fields[i..], at, end) && AllTyped(fields[i..], vs[i..])
      invariant AllWritable(fields[i..], vs[i..]) <==> AllWritable(fields, vs)
      invariant |done| == at <= end && |buf| == |buf0| && buf == Splice(buf0, base, done)
      invariant done + BlockBytes(fields[i..], vs[i..], at, end) == BlockBytes(fields, vs, 0, end)
    {
      var ft, v := fields[i], vs[i];
      NextField(fields, vs, i, at, end);
      ghost var w := FieldBytes(ft, v);
      ghost var more := BlockBytes(fields[i + 1..], vs[i + 1..], at + ft.size, end);
      assert (done + w) + more == done + (w + more);
      SpliceTwice(buf0, base, done, w);
      ok, buf := WriteField(buf, base, ft, v);
      if !ok {
        return;
      }
      done, at := done + w, at + ft.size;
      i := i + 1;
    }
    LastField(fields[i..], vs[i..], at, end);
    assert done + [] == done;
    ok := true;
  }

  /** The field at the front of those still to be written. */
  lemma NextField(fields: seq<FieldTemplate>, vs: seq<Value>, i: nat, at: nat, end: nat)
    requires i < |fields| == |vs| && LaidOut(fields[i..], at, end) && AllTyped(fields[i..], vs[i..])
    ensures fields[i].offset == at && Sound(fields[i]) && at + fields[i].size <= end
    ensures Typed(fields[i], vs[i])
    ensures LaidOut(fields[i + 1..], at + fields[i].size, end) && AllTyped(fields[i + 1..], vs[i + 1..])
    ensures AllWritable(fields[i..], vs[i..]) <==>
            Writable(fields[i], vs[i]) && AllWritable(fields[i + 1..], vs[i + 1..])
    ensures BlockBytes(fields[i..], vs[i..], at, end)
            == FieldBytes(fields[i], vs[i]) + BlockBytes(fields[i + 1..], vs[i + 1..], at + fields[i].size, end)
  {
    assert fields[i..][1..] == fields[i + 1..] && vs[i..][1..] == vs[i + 1..];
    assert fields[i..][0] == fields[i] && vs[i..][0] == vs[i];
    LaidOutEnd(fields[i..], at, end);
  }

  lemma LastField(fields: seq<FieldTemplate>, vs: seq<Value>, at: nat, end: nat)
    requires fields == [] && LaidOut(fields, at, end) && AllTyped(fields, vs)
    ensures at == end && BlockBytes(fields, vs, at, end) == [] && AllWritable(fields, vs)
  {
  }

  /** One group: its header, and each entry in a block of its own. */
  method WriteGroup(buf0: seq<Byte>, gt: GroupTemplate, es: seq<seq<Value>>) returns (ok: bool, buf: seq<Byte>)
    requires SoundGroup(gt) && EntriesTyped(gt, es)
    ensures ok <==> |es| <= MAX_U16 && EntriesWritable(gt, es)
    ensures ok ==> buf == buf0 + (Fixed(2, gt.blockLength) + Fixed(2, |es|) + EntriesBytes(gt, es))
  {
    hide AllTyped, AllWritable, LaidOut, Fixed, EntriesBytes;
    if |es| > MAX_U16 {
      return false, buf0;
    }
    buf := buf0 + (Fixed(2, gt.blockLength) + Fixed(2, |es|));
    ghost var head := buf;
    var i := 0;
    assert es[0..] == es;
    ghost var done: seq<Byte> := [];
    assert [] + EntriesBytes(gt, es) == EntriesBytes(gt, es);
    while i < |es|
      invariant 0 <= i <= |es| && buf == head + done
      invariant EntriesTyped(gt, es[i..]) && done + EntriesBytes(gt, es[i..]) == EntriesBytes(gt, es)
      invariant forall j :: 0 <= j < i ==> AllWritable(gt.fields, es[j])
    {
      var at := |buf|;
      NextEntry(gt, es, i);
      ghost var w := BlockBytes(gt.fields, es[i], 0, gt.blockLength);
      ghost var before := buf;
      buf := buf + NulBytes(gt.blockLength);
      ghost var wide := buf;
      ok, buf := WriteFields(buf, at, gt.fields, es[i], gt.blockLength);
      if !ok {
        return;
      }
      assert wide[..at] == before && wide[at + |w|..] == [];
      assert buf == before + w;
      assert (done + w) + EntriesBytes(gt, es[i + 1..]) == done + (w + EntriesBytes(gt, es[i + 1..]));
      assert head + (done + w) == (head + done) + w;
      done := done + w;
      i := i + 1;
    }
    NoEntries(gt, es[i..]);
    assert done + [] == done;
    ok := true;
  }

  lemma NextEntry(g: GroupTemplate, es: seq<seq<Value>>, i: nat)
    requires i < |es| && SoundGroup(g) && EntriesTyped(g, es)
    ensures AllTyped(g.fields, es[i]) && EntriesTyped(g, es[i..]) && EntriesTyped(g, es[i + 1..])
    ensures EntriesBytes(g, es[i..]) == BlockBytes(g.fields, es[i], 0, g.blockLength) + EntriesBytes(g, es[i + 1..])
  {
    hide AllTyped, LaidOut;
    assert es[i..][1..] == es[i + 1..];
  }

  lemma NoEntries(g: GroupTemplate, es: seq<seq<Value>>)
    requires es == [] && SoundGroup(g) && EntriesTyped(g, es)
    ensures EntriesBytes(g, es) == []
  {
  }

  method Marshal(t: MessageTemplate, m: Message) returns (ok: bool, buf: seq<Byte>)
    requires SoundTemplate(t) && TypedMessage(t, m)
    ensures ok <==> WritableMessage(t, m)
    ensures ok ==> buf == MessageBytes(t, m)
  {
    hide AllTyped, AllWritable, LaidOut, Fixed, GroupsTyped, GroupsWritable, GroupsBytes, EntriesTyped, EntriesWritable;
    hide EntriesBytes, SoundGroup, BlockBytes;
    buf := Fixed(2, t.blockLength) + Fixed(2, t.templateId) + Fixed(2, t.schemaId) + Fixed(2, t.version);
    ghost var h := buf;
    buf := buf + NulBytes(t.blockLength);
    ok, buf := WriteFields(buf, 8, t.fields, m.fields, t.blockLength);
    if !ok {
      return;
    }
    ghost var head := h + BlockBytes(t.fields, m.fields, 0, t.blockLength);
    assert buf == head;
    var i := 0;
    ghost var done: seq<Byte> := [];
    GroupsTypedLength(t.groups, m.groups);
    assert t.groups[0..] == t.groups && m.groups[0..] == m.groups;
    assert [] + GroupsBytes(t.groups, m.groups) == GroupsBytes(t.groups, m.groups);
    while i < |t.groups|
      invariant 0 <= i <= |t.groups| == |m.groups| && SoundGroups(t.groups[i..]) && buf == head + done
      invariant GroupsTyped(t.groups[i..], m.groups[i..])
      invariant GroupsWritable(t.groups[i..], m.groups[i..]) <==> GroupsWritable(t.groups, m.groups)
      invariant done + GroupsBytes(t.groups[i..], m.groups[i..]) == GroupsBytes(t.groups, m.groups)
    {
      var gt := t.groups[i];
      NextGroup(t.groups, m.groups, i);
      ghost var w := Fixed(2, gt.blockLength) + Fixed(2, |m.groups[i]|) + EntriesBytes(gt, m.groups[i]);
      ghost var more := GroupsBytes(t.groups[i + 1..], m.groups[i + 1..]);
      ok, buf := WriteGroup(buf, gt, m.groups[i]);
      if !ok {
        return;
      }
      assert (done + w) + more == done + (w + more);
      assert head + (done + w) == (head + done) + w;
      done := done + w;
      i := i + 1;
    }
    NoGroups(t.groups[i..], m.groups[i..]);
    assert done + [] == done;
    ok := true;
  }

  lemma {:induction false} GroupsTypedLength(gs: seq<GroupTemplate>, ess: seq<seq<seq<Value>>>)
    requires GroupsTyped(gs, ess)
    ensures |gs| == |ess|
    decreases |gs|
  {
    if gs != [] {
      GroupsTypedLength(gs[1..], ess[1..]);
    }
  }

  lemma NextGroup(gs: seq<GroupTemplate>, ess: seq<seq<seq<Value>>>, i: nat)
    requires i < |gs| == |ess| && SoundGroups(gs[i..]) && GroupsTyped(gs[i..], ess[i..])
    ensures SoundGroup(gs[i]) && SoundGroups(gs[i + 1..])
    ensures EntriesTyped(gs[i], ess[i]) && GroupsTyped(gs[i + 1..], ess[i + 1..])
    ensures GroupsWritable(gs[i..], ess[i..])
            <==> |ess[i]| <= MAX_U16 && EntriesWritable(gs[i], ess[i]) && GroupsWritable(gs[i + 1..], ess[i + 1..])
    ensures GroupsBytes(gs[i..], ess[i..])
            == (Fixed(2, gs[i].blockLength) + Fixed(2, |ess[i]|) + EntriesBytes(gs[i], ess[i]))
               + GroupsBytes(gs[i + 1..], ess[i + 1..])
  {
    hide EntriesTyped, EntriesWritable, SoundGroup, Fixed, EntriesBytes;
    var hs := gs[i..];
    assert hs[0] == gs[i] && ess[i..][0] == ess[i];
    assert hs[1..] == gs[i + 1..] && ess[i..][1..] == ess[i + 1..];
    var rest := gs[i + 1..];
    forall k | 0 <= k < |rest|
      ensures SoundGroup(rest[k])
    {
      assert rest[k] == hs[k + 1];
    }
  }

  lemma NoGroups(gs: seq<GroupTemplate>, ess: seq<seq<seq<Value>>>)
    requires gs == [] && GroupsTyped(gs, ess)
    ensures GroupsBytes(gs, ess) == [] && GroupsWritable(gs, ess)
  {
  }

  // ---- Reading from a buffer ----

  /** The text of a string, checked, without the NULs that pad it; all of a bytes field. */
  method DecodeCharField(w: seq<Byte>, isString: bool) returns (r: Option<Value>)
    ensures r == DecodeChars(w, isString)
  {
    var n := |w|;
    assert w[..n] == w;
    if isString {
      while n > 0 && w[n - 1] == 0
        invariant 0 <= n <= |w| && DropNuls(w[..n]) == DropNuls(w)
      {
        assert w[..n][..n - 1] == w[..n - 1];
        n := n - 1;
      }
      var valid := IsValidUTF8(w[..n]);
      if !valid {
        return None;
      }
    }
    r := Some(StrV(w[..n]));
  }

  /** One field from its window of the block. */
  method DecodeOneField(w: seq<Byte>, ft: FieldTemplate) returns (r: Option<Value>)
    requires Sound(ft) && |w| == ft.size
    ensures r == DecodeField(ft, w)
    decreases ft
  {
    hide LaidOut, DecodeBlock, FixedValue, DecodeInt, DecodeChars;
    match ft.form {
      case Composite(fs) =>
        var sub := DecodeFields(w, fs, ft.size);
        r := if sub.None? then None else Some(MsgV(sub.value));
      case Chars(isString) =>
        r := DecodeCharField(w, isString);
      case Floating(_) =>
        r := Some(FloatV(FixedValue(w)));
      case Integer(k, e) =>
        r := DecodeInt(k, e, FixedValue(w));
    }
  }

  predicate SameOneof(a: FieldTemplate, b: FieldTemplate) {
    a.oneof.Some? && a.oneof == b.oneof
  }

  /** What the setter of field i leaves: its value there, and the other members of its oneof cleared. */
  function SetField(fields: seq<FieldTemplate>, vs: seq<Value>, i: nat, v: Value): (r: seq<Value>)
    requires i < |fields| == |vs|
    ensures |r| == |vs|
  {
    seq(|vs|, k requires 0 <= k < |vs| =>
      if k == i then v else if SameOneof(fields[i], fields[k]) then Default(fields[k]) else vs[k])
  }

  /** The message once the fields from i on are set too. */
  function Finish(fields: seq<FieldTemplate>, i: nat, vs: seq<Value>, rest: Option<seq<Value>>): Option<seq<Value>>
    requires i <= |fields| == |vs|
  {
    match rest
    case None => None
    case Some(ws) => Some(SettledFirst(fields, i, vs) + ws)
  }

  /** The fields before i once those from i on are set. */
  function SettledFirst(fields: seq<FieldTemplate>, i: nat, vs: seq<Value>): (r: seq<Value>)
    requires i <= |fields| == |vs|
    ensures |r| == i && forall k :: 0 <= k < i ==> r[k] == Settled(fields, i, k, vs[k])
  {
    seq(i, k requires 0 <= k < i => Settled(fields, i, k, vs[k]))
  }

  /** Field k once those from i on are set. */
  function Settled(fields: seq<FieldTemplate>, i: nat, k: nat, v: Value): Value
    requires k < |fields|
  {
    if exists j :: i <= j < |fields| && SameOneof(fields[k], fields[j]) then Default(fields[k]) else v
  }

  method DecodeFields(block: seq<Byte>, fields: seq<FieldTemplate>, ghost end: nat) returns (r: Option<seq<Value>>)
    requires LaidOut(fields, 0, end) && end <= |block|
    ensures r == DecodeBlock(block, fields, 0, end)
    decreases fields
  {
    hide LaidOut, DecodeBlock, DecodeField, Sound, Finish, Defaults, SetField;
    var out: seq<Value> := Defaults(fields);
    var i := 0;
    ghost var at: nat := 0;
    assert fields[0..] == fields;
    FinishStart(fields, out, DecodeBlock(block, fields, 0, end));
    while i < |fields|
      invariant 0 <= i <= |fields| == |out| && LaidOut(fields[i..], at, end)
      invariant Finish(fields, i, out, DecodeBlock(block, fields[i..], at, end)) == DecodeBlock(block, fields, 0, end)
    {
      var ft := fields[i];
      NextDecoded(block, fields, i, at, end);
      var w := block[ft.offset..ft.offset + ft.size];
      var v := DecodeOneField(w, ft);
      if v.None? {
        FinishNone(fields, i, out);
        return None;
      }
      FinishStep(fields, i, out, v.value, DecodeBlock(block, fields[i + 1..], at + ft.size, end));
      out := SetField(fields, out, i, v.value);
      at := at + ft.size;
      i := i + 1;
    }
    NoneDecoded(block, fields[i..], at, end);
    FinishEnd(fields, out);
    r := Some(out);
  }

  lemma FinishStart(fields: seq<FieldTemplate>, vs: seq<Value>, r: Option<seq<Value>>)
    requires |fields| == |vs|
    ensures Finish(fields, 0, vs, r) == r
  {
    if r.Some? {
      assert SettledFirst(fields, 0, vs) + r.value == r.value;
    }
  }

  lemma FinishNone(fields: seq<FieldTemplate>, i: nat, vs: seq<Value>)
    requires i <= |fields| == |vs|
    ensures Finish(fields, i, vs, None) == None
  {
  }

  lemma FinishEnd(fields: seq<FieldTemplate>, vs: seq<Value>)
    requires |fields| == |vs|
    ensures Finish(fields, |fields|, vs, Some([])) == Some(vs)
  {
    assert SettledFirst(fields, |fields|, vs) + [] == vs;
  }

  /** Setting field i and then the rest, or all of them from i on. */
  lemma FinishStep(fields: seq<FieldTemplate>, i: nat, vs: seq<Value>, v: Value, rest: Option<seq<Value>>)
    requires i < |fields| == |vs|
    ensures Finish(fields, i, vs, With([Keep(fields[i..], v)], rest))
            == Finish(fields, i + 1, SetField(fields, vs, i, v), rest)
  {
    hide Default;
    if rest.Some? {
      var ws := rest.value;
      var now := SetField(fields, vs, i, v);
      var a, b := SettledFirst(fields, i, vs), SettledFirst(fields, i + 1, now);
      forall k | 0 <= k < i
        ensures a[k] == b[k]
      {
        SettledStep(fields, i, k, vs, v);
      }
      KeepIs(fields, i, v);
      assert b == a + [Keep(fields[i..], v)];
      assert a + ([Keep(fields[i..], v)] + ws) == b + ws;
    }
  }

  lemma SettledStep(fields: seq<FieldTemplate>, i: nat, k: nat, vs: seq<Value>, v: Value)
    requires k < i < |fields| == |vs|
    ensures Settled(fields, i, k, vs[k]) == Settled(fields, i + 1, k, SetField(fields, vs, i, v)[k])
  {
    hide Default;
    if SameOneof(fields[k], fields[i]) {
      assert SameOneof(fields[i], fields[k]);
    }
  }

  lemma KeepIs(fields: seq<FieldTemplate>, i: nat, v: Value)
    requires i < |fields|
    ensures Keep(fields[i..], v) == Settled(fields, i + 1, i, v)
  {
    hide Default;
    var rest := fields[i..];
    assert forall j :: 0 <= j < |rest| ==> rest[j] == fields[i + j];
    if j :| i + 1 <= j < |fields| && SameOneof(fields[i], fields[j]) {
      assert rest[j - i].oneof == rest[0].oneof;
    }
    if Superseded(rest) {
      var j :| 0 < j < |rest| && rest[j].oneof == rest[0].oneof;
      assert SameOneof(fields[i], fields[i + j]);
    }
  }

  /** The values already read, and then the rest of them. */
  function With<T>(done: seq<T>, rest: Option<seq<T>>): Option<seq<T>> {
    match rest
    case None => None
    case Some(vs) => Some(done + vs)
  }

  lemma WithNone<T>(r: Option<seq<T>>)
    ensures With([], r) == r
  {
    if r.Some? {
      assert [] + r.value == r.value;
    }
  }

  lemma WithWith<T>(a: seq<T>, b: seq<T>, r: Option<seq<T>>)
    ensures With(a, With(b, r)) == With(a + b, r)
  {
    if r.Some? {
      assert a + (b + r.value) == (a + b) + r.value;
    }
  }

  lemma NextDecoded(block: seq<Byte>, fields: seq<FieldTemplate>, i: nat, at: nat, end: nat)
    requires i < |fields| && LaidOut(fields[i..], at, end) && end <= |block|
    ensures fields[i].offset == at && Sound(fields[i]) && at + fields[i].size <= end
    ensures LaidOut(fields[i + 1..], at + fields[i].size, end)
    ensures DecodeBlock(block, fields[i..], at, end)
            == match DecodeField(fields[i], block[at..at + fields[i].size])
               case None => None
               case Some(v) => With([Keep(fields[i..], v)],
                                    DecodeBlock(block, fields[i + 1..], at + fields[i].size, end))
  {
    assert fields[i..][0] == fields[i] && fields[i..][1..] == fields[i + 1..];
    LaidOutEnd(fields[i..], at, end);
  }

  lemma NoneDecoded(block: seq<Byte>, fields: seq<FieldTemplate>, at: nat, end: nat)
    requires fields == [] && LaidOut(fields, at, end) && end <= |block|
    ensures DecodeBlock(block, fields, at, end) == Some([])
  {
  }

  /** Checks every group's header before any entry is read. */
  method ValidateGroups(data: seq<Byte>, groups: seq<GroupTemplate>, pos0: nat, maxRepeated: nat) returns (ok: bool)
    requires pos0 <= |data|
    ensures ok <==> GroupsValid(data[pos0..], groups, maxRepeated)
  {
    hide GroupsValid;
    var pos := pos0;
    var i := 0;
    assert groups[0..] == groups;
    while i < |groups|
      invariant 0 <= i <= |groups| && 0 <= pos <= |data|
      invariant GroupsValid(data[pos..], groups[i..], maxRepeated) <==> GroupsValid(data[pos0..], groups, maxRepeated)
    {
      var gt := groups[i];
      NextValid(data[pos..], groups, i, maxRepeated);
      if |data| < pos + 4 {
        return false;
      }
      HeadAt(data, pos);
      var entryBlock, count := U16At(data, pos), U16At(data, pos + 2);
      ghost var h := HeadOf(data[pos..]);
      pos := pos + 4;
      if entryBlock < gt.blockLength || (count > 0 && entryBlock == 0) {
        return false;
      }
      var remaining := |data| - pos;
      if entryBlock > 0 && count > remaining / entryBlock {
        return false;
      }
      if count > maxRepeated {
        return false;
      }
      SpanFits(h, gt, maxRepeated);
      assert data[pos..][entryBlock * count..] == data[pos + entryBlock * count..];
      pos := pos + entryBlock * count;
      i := i + 1;
    }
    NoneValid(data[pos..], groups[i..], maxRepeated);
    ok := true;
  }

  lemma HeadAt(data: seq<Byte>, pos: nat)
    requires pos + 4 <= |data|
    ensures HeadOf(data[pos..]) == GroupHead(U16At(data, pos), U16At(data, pos + 2), data[pos + 4..])
  {
    assert data[pos..][4..] == data[pos + 4..];
  }

  lemma NextValid(rest: seq<Byte>, groups: seq<GroupTemplate>, i: nat, maxRepeated: nat)
    requires i < |groups|
    ensures GroupsValid(rest, groups[i..], maxRepeated) <==>
            && |rest| >= 4 && HeadValid(HeadOf(rest), groups[i], maxRepeated)
            && 0 <= Span(HeadOf(rest)) <= |HeadOf(rest).tail|
            && GroupsValid(HeadOf(rest).tail[Span(HeadOf(rest))..], groups[i + 1..], maxRepeated)
  {
    assert groups[i..][0] == groups[i] && groups[i..][1..] == groups[i + 1..];
    if |rest| >= 4 && HeadValid(HeadOf(rest), groups[i], maxRepeated) {
      SpanFits(HeadOf(rest), groups[i], maxRepeated);
    }
  }

  lemma NoneValid(rest: seq<Byte>, groups: seq<GroupTemplate>, maxRepeated: nat)
    requires groups == []
    ensures GroupsValid(rest, groups, maxRepeated)
  {
  }

  /** The entries of one group, from pos on. */
  method DecodeGroupEntries(data: seq<Byte>, pos: nat, block: nat, count: nat, g: GroupTemplate)
    returns (r: Option<seq<seq<Value>>>)
    requires SoundGroup(g) && g.blockLength <= block && pos <= |data| && block * count <= |data| - pos
    ensures r == DecodeEntries(data[pos..], block, count, g)
  {
    hide LaidOut, DecodeBlock, DecodeEntries;
    var out: seq<seq<Value>> := [];
    var i, at := 0, pos;
    WithNone(DecodeEntries(data[pos..], block, count, g));
    while i < count
      invariant 0 <= i <= count && pos <= at <= |data| && block * (count - i) <= |data| - at
      invariant With(out, DecodeEntries(data[at..], block, count - i, g)) == DecodeEntries(data[pos..], block, count, g)
    {
      OneLess(block, count - i);
      NextDecodedEntry(data[at..], block, count - i, g);
      assert data[at..][..block] == data[at..at + block] && data[at..][block..] == data[at + block..];
      var v := DecodeFields(data[at..at + block], g.fields, g.blockLength);
      if v.None? {
        return None;
      }
      WithWith(out, [v.value], DecodeEntries(data[at + block..], block, count - i - 1, g));
      out := out + [v.value];
      at := at + block;
      i := i + 1;
    }
    NoDecodedEntries(data[at..], block, g);
    assert out + [] == out;
    r := Some(out);
  }

  lemma NextDecodedEntry(data: seq<Byte>, block: nat, count: nat, g: GroupTemplate)
    requires SoundGroup(g) && g.blockLength <= block && count > 0 && block * count <= |data|
    ensures block <= |data| && block * (count - 1) <= |data| - block
    ensures DecodeEntries(data, block, count, g)
            == match DecodeBlock(data[..block], g.fields, 0, g.blockLength)
               case None => None
               case Some(v) => With([v], DecodeEntries(data[block..], block, count - 1, g))
  {
    hide LaidOut, DecodeBlock;
    OneLess(block, count);
  }

  lemma NoDecodedEntries(data: seq<Byte>, block: nat, g: GroupTemplate)
    requires SoundGroup(g) && g.blockLength <= block
    ensures block * 0 <= |data| && DecodeEntries(data, block, 0, g) == Some([])
  {
  }

  method DecodeGroupsFrom(data: seq<Byte>, pos0: nat, groups: seq<GroupTemplate>, ghost maxRepeated: nat)
    returns (r: Option<seq<seq<seq<Value>>>>)
    requires SoundGroups(groups) && pos0 <= |data| && GroupsValid(data[pos0..], groups, maxRepeated)
    ensures r == DecodeGroups(data[pos0..], groups, maxRepeated)
  {
    hide GroupsValid, DecodeGroups, SoundGroup, DecodeEntries;
    var out: seq<seq<seq<Value>>> := [];
    var i, pos := 0, pos0;
    assert groups[0..] == groups;
    WithNone(DecodeGroups(data[pos0..], groups, maxRepeated));
    while i < |groups|
      invariant 0 <= i <= |groups| && pos0 <= pos <= |data| && SoundGroups(groups[i..])
      invariant GroupsValid(data[pos..], groups[i..], maxRepeated)
      invariant With(out, DecodeGroups(data[pos..], groups[i..], maxRepeated))
                == DecodeGroups(data[pos0..], groups, maxRepeated)
    {
      NextValid(data[pos..], groups, i, maxRepeated);
      NextDecodedGroup(data[pos..], groups, i, maxRepeated);
      HeadAt(data, pos);
      var entryBlock, count := U16At(data, pos), U16At(data, pos + 2);
      pos := pos + 4;
      var es := DecodeGroupEntries(data, pos, entryBlock, count, groups[i]);
      if es.None? {
        return None;
      }
      ghost var span := entryBlock * count;
      assert data[pos..][span..] == data[pos + span..];
      WithWith(out, [es.value], DecodeGroups(data[pos + span..], groups[i + 1..], maxRepeated));
      out := out + [es.value];
      pos := pos + entryBlock * count;
      i := i + 1;
    }
    NoDecodedGroups(data[pos..], groups[i..], maxRepeated);
    assert out + [] == out;
    r := Some(out);
  }

  lemma NextDecodedGroup(rest: seq<Byte>, groups: seq<GroupTemplate>, i: nat, maxRepeated: nat)
    requires i < |groups| && SoundGroups(groups[i..]) && GroupsValid(rest, groups[i..], maxRepeated)
    ensures |rest| >= 4 && SoundGroup(groups[i]) && SoundGroups(groups[i + 1..])
    ensures var h := HeadOf(rest);
            && groups[i].blockLength <= h.block && 0 <= h.block * h.count <= |h.tail|
            && GroupsValid(h.tail[Span(h)..], groups[i + 1..], maxRepeated)
            && DecodeGroups(rest, groups[i..], maxRepeated)
               == match DecodeEntries(h.tail, h.block, h.count, groups[i])
                  case None => None
                  case Some(es) => With([es], DecodeGroups(h.tail[Span(h)..], groups[i + 1..], maxRepeated))
  {
    hide SoundGroup, DecodeEntries;
    var hs, more := groups[i..], groups[i + 1..];
    assert hs[0] == groups[i] && hs[1..] == more;
    SpanFits(HeadOf(rest), groups[i], maxRepeated);
    forall k | 0 <= k < |more|
      ensures SoundGroup(more[k])
    {
      assert more[k] == hs[k + 1];
    }
  }

  lemma NoDecodedGroups(rest: seq<Byte>, groups: seq<GroupTemplate>, maxRepeated: nat)
    requires groups == []
    ensures GroupsValid(rest, groups, maxRepeated) && DecodeGroups(rest, groups, maxRepeated) == Some([])
  {
  }

  method UnmarshalInto(data: seq<Byte>, t: MessageTemplate, maxRepeated: nat) returns (r: Option<Message>)
    requires SoundTemplate(t)
    ensures r == DecodeMessage(data, t, maxRepeated)
  {
    hide LaidOut, DecodeBlock, DecodeGroups, GroupsValid, SoundGroup;
    if |data| < 8 {
      return None;
    }
    var blockLength := U16At(data, 0);
    if U16At(data, 2) != t.templateId || U16At(data, 4) != t.schemaId {
      return None;
    }
    if blockLength < t.blockLength || |data| < 8 + blockLength {
      return None;
    }
    var pos := 8 + blockLength;
    var valid := ValidateGroups(data, t.groups, pos, maxRepeated);
    if !valid {
      return None;
    }
    var fields := DecodeFields(data[8..pos], t.fields, t.blockLength);
    if fields.None? {
      return None;
    }
    var groups := DecodeGroupsFrom(data, pos, t.groups, maxRepeated);
    if groups.None? {
      return None;
    }
    r := Some(Message(fields.value, groups.value));
  }
}
