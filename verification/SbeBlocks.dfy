/**
An SBE block as a whole: the bytes of its fields one after another, and reading them back at
their offsets.
 */
module SbeBlocks {
  import opened Options
  import opened BigEndian
  import opened Wire
  import opened Utf8
  import opened SbeTemplate
  import opened SbeFields

  // ---- Values of a block ----

  /** v is a value of the field's type; a proto3 string is well-formed UTF-8. */
  ghost predicate Typed(ft: FieldTemplate, v: Value)
    decreases ft
  {
    match ft.form
    case Integer(k, _) => v.IntV? && KindLo(k) <= v.i <= KindHi(k)
    case Floating(double) => v.FloatV? && v.bits < if double then 0x1_0000_0000_0000_0000 else 0x1_0000_0000
    case Chars(isString) => v.StrV? && (isString ==> ValidUtf8(v.s))
    case Composite(fs) => v.MsgV? && AllTyped(fs, v.fields)
  }

  ghost predicate AllTyped(fields: seq<FieldTemplate>, vs: seq<Value>)
    decreases fields
  {
    if fields == [] then vs == []
    else vs != [] && Typed(fields[0], vs[0]) && AllTyped(fields[1..], vs[1..])
  }

  /** What Marshal does not refuse: every integer fits its primitive. */
  ghost predicate Writable(ft: FieldTemplate, v: Value)
    requires Typed(ft, v)
    decreases ft
  {
    match ft.form
    case Integer(k, e) => IntFits(k, e, v.i)
    case Floating(_) => true
    case Chars(_) => true
    case Composite(fs) => AllWritable(fs, v.fields)
  }

  ghost predicate AllWritable(fields: seq<FieldTemplate>, vs: seq<Value>)
    requires AllTyped(fields, vs)
    decreases fields
  {
    fields == [] || (Writable(fields[0], vs[0]) && AllWritable(fields[1..], vs[1..]))
  }

  // ---- Writing ----

  ghost function FieldBytes(ft: FieldTemplate, v: Value): (r: seq<Byte>)
    requires Sound(ft) && Typed(ft, v)
    ensures |r| == ft.size
    decreases ft
  {
    match ft.form
    case Integer(_, _) => Fixed(ft.size, IntBits(v.i))
    case Floating(_) => Fixed(ft.size, v.bits)
    case Chars(isString) => CharBytes(v.s, ft.size, isString)
    case Composite(fs) => BlockBytes(fs, v.fields, 0, ft.size)
  }

  ghost function BlockBytes(fields: seq<FieldTemplate>, vs: seq<Value>, at: nat, end: nat): (r: seq<Byte>)
    requires LaidOut(fields, at, end) && AllTyped(fields, vs)
    ensures at <= end && |r| == end - at
    decreases fields
  {
    if fields == [] then []
    else FieldBytes(fields[0], vs[0]) + BlockBytes(fields[1..], vs[1..], at + fields[0].size, end)
  }

  // ---- Fields that clear each other ----

  /** The value of a field that is not set. */
  function Default(ft: FieldTemplate): Value
    decreases ft
  {
    match ft.form
    case Integer(_, _) => IntV(0)
    case Floating(_) => FloatV(0)
    case Chars(_) => StrV([])
    case Composite(fs) => MsgV(Defaults(fs))
  }

  function Defaults(fields: seq<FieldTemplate>): (r: seq<Value>)
    ensures |r| == |fields|
    decreases fields
  {
    if fields == [] then [] else [Default(fields[0])] + Defaults(fields[1..])
  }

  /** What is left of the first field's value once every field has been set. */
  function Keep(fields: seq<FieldTemplate>, v: Value): Value
    requires fields != []
  {
    if Superseded(fields) then Default(fields[0]) else v
  }

  // ---- Reading ----

  ghost function DecodeField(ft: FieldTemplate, w: seq<Byte>): Option<Value>
    requires Sound(ft) && |w| == ft.size
    decreases ft
  {
    match ft.form
    case Integer(k, e) => DecodeInt(k, e, FixedValue(w))
    case Floating(_) => Some(FloatV(FixedValue(w)))
    case Chars(isString) => DecodeChars(w, isString)
    case Composite(fs) =>
      (match DecodeBlock(w, fs, 0, ft.size)
       case None => None
       case Some(vs) => Some(MsgV(vs)))
  }

  /** The fields that tile [at, end), each read at its offset in the block and set in turn. */
  ghost function DecodeBlock(block: seq<Byte>, fields: seq<FieldTemplate>, at: nat, end: nat): (r: Option<seq<Value>>)
    requires LaidOut(fields, at, end) && end <= |block|
    ensures r.Some? ==> |r.value| == |fields|
    decreases fields
  {
    if fields == [] then Some([])
    else
      var next := at + fields[0].size;
      LaidOutEnd(fields, at, end);
      match DecodeField(fields[0], block[at..next])
      case None => None
      case Some(v) =>
        match DecodeBlock(block, fields[1..], next, end)
        case None => None
        case Some(vs) => Some([Keep(fields, v)] + vs)
  }

  // ---- Normal form ----

  ghost function Normal(ft: FieldTemplate, v: Value): Value
    requires Typed(ft, v)
    decreases ft
  {
    match ft.form
    case Integer(_, _) => v
    case Floating(_) => v
    case Chars(isString) => StrV(NormalChars(v.s, ft.size, isString))
    case Composite(fs) => MsgV(NormalBlock(fs, v.fields))
  }

  ghost function NormalBlock(fields: seq<FieldTemplate>, vs: seq<Value>): (r: seq<Value>)
    requires AllTyped(fields, vs)
    ensures |r| == |fields|
    decreases fields
  {
    if fields == [] then [] else [Keep(fields, Normal(fields[0], vs[0]))] + NormalBlock(fields[1..], vs[1..])
  }

  /** A field that was written is read back in normal form. */
  lemma {:induction false} FieldReads(ft: FieldTemplate, v: Value)
    requires Sound(ft) && Typed(ft, v) && Writable(ft, v)
    ensures DecodeField(ft, FieldBytes(ft, v)) == Some(Normal(ft, v))
    decreases ft
  {
    match ft.form {
      case Integer(k, e) =>
        FixedResidue(ft.size, IntBits(v.i));
        IntReads(k, e, v.i);
      case Floating(double) =>
        FixedResidue(ft.size, v.bits);
      case Chars(isString) =>
        CharsRead(v.s, ft.size, isString);
      case Composite(fs) =>
        var w := FieldBytes(ft, v);
        assert w[0..ft.size] == w;
        BlockReads(fs, v.fields, 0, ft.size, w);
    }
  }

  /** Fields read from where they were written, whatever else the block holds. */
  lemma {:induction false} BlockReads(fields: seq<FieldTemplate>, vs: seq<Value>, at: nat, end: nat, block: seq<Byte>)
    requires LaidOut(fields, at, end) && AllTyped(fields, vs) && AllWritable(fields, vs)
    requires at <= end <= |block| && block[at..end] == BlockBytes(fields, vs, at, end)
    ensures DecodeBlock(block, fields, at, end) == Some(NormalBlock(fields, vs))
    decreases fields
  {
    if fields != [] {
      var next := at + fields[0].size;
      LaidOutEnd(fields, at, end);
      var a, b := FieldBytes(fields[0], vs[0]), BlockBytes(fields[1..], vs[1..], next, end);
      assert block[at..next] == block[at..end][..fields[0].size] == (a + b)[..|a|] == a;
      assert block[next..end] == block[at..end][fields[0].size..] == (a + b)[|a|..] == b;
      FieldReads(fields[0], vs[0]);
      BlockReads(fields[1..], vs[1..], next, end, block);
    }
  }

  // ---- Writing it again ----

  lemma {:induction false} DefaultTyped(ft: FieldTemplate)
    requires Sound(ft)
    ensures Typed(ft, Default(ft)) && Writable(ft, Default(ft))
    decreases ft
  {
    if ft.form.Composite? {
      DefaultsTyped(ft.form.fields, 0, ft.size);
    }
  }

  lemma {:induction false} DefaultsTyped(fields: seq<FieldTemplate>, at: nat, end: nat)
    requires LaidOut(fields, at, end)
    ensures AllTyped(fields, Defaults(fields)) && AllWritable(fields, Defaults(fields))
    decreases fields
  {
    if fields != [] {
      DefaultTyped(fields[0]);
      DefaultsTyped(fields[1..], at + fields[0].size, end);
      assert Defaults(fields)[1..] == Defaults(fields[1..]);
    }
  }

  predicate OnlyNuls(s: seq<Byte>) {
    forall i :: 0 <= i < |s| ==> s[i] == 0
  }

  /** v leaves nothing but zeros in the field's bytes, as a field that is not set does. */
  ghost predicate Blank(ft: FieldTemplate, v: Value)
    requires Typed(ft, v)
    decreases ft
  {
    match ft.form
    case Integer(_, _) => v.i == 0
    case Floating(_) => v.bits == 0
    case Chars(isString) => OnlyNuls(v.s[..CutAt(v.s, ft.size, isString)])
    case Composite(fs) => AllBlank(fs, v.fields)
  }

  ghost predicate AllBlank(fields: seq<FieldTemplate>, vs: seq<Value>)
    requires AllTyped(fields, vs)
    decreases fields
  {
    fields == [] || (Blank(fields[0], vs[0]) && AllBlank(fields[1..], vs[1..]))
  }

  /** Every field that a later one clears was blank. */
  ghost predicate AllKept(fields: seq<FieldTemplate>, vs: seq<Value>)
    requires AllTyped(fields, vs)
    decreases fields
  {
    fields == [] || ((Superseded(fields) ==> Blank(fields[0], vs[0])) && AllKept(fields[1..], vs[1..]))
  }

  lemma {:induction false} NoOneofsKept(fields: seq<FieldTemplate>, vs: seq<Value>)
    requires NoOneofs(fields) && AllTyped(fields, vs)
    ensures AllKept(fields, vs)
    decreases |fields|
  {
    hide Blank, Typed;
    if fields != [] {
      NoOneofsKept(fields[1..], vs[1..]);
    }
  }

  /** A blank value, and no other, is written as the default is. */
  lemma {:induction false} BlankBytes(ft: FieldTemplate, v: Value)
    requires Sound(ft) && Typed(ft, v) && Writable(ft, v)
    ensures Typed(ft, Default(ft))
    ensures Blank(ft, v) <==> FieldBytes(ft, v) == FieldBytes(ft, Default(ft))
    decreases ft
  {
    hide Fixed, FixedValue, ValidUtf8, DropNuls, IntFits;
    DefaultTyped(ft);
    match ft.form {
      case Integer(_, _) =>
        FieldReads(ft, v);
        FieldReads(ft, Default(ft));
      case Floating(_) =>
        FieldReads(ft, v);
        FieldReads(ft, Default(ft));
      case Chars(isString) =>
        NulChars(v.s, ft.size, isString);
      case Composite(fs) =>
        BlankBlock(fs, v.fields, 0, ft.size);
    }
  }

  lemma NulChars(s: seq<Byte>, size: nat, isString: bool)
    ensures OnlyNuls(s[..CutAt(s, size, isString)]) <==> CharBytes(s, size, isString) == CharBytes([], size, isString)
  {
    hide CutAt;
    var n := CutAt(s, size, isString);
    var b := CharBytes(s, size, isString);
    ShortChars([], size, isString);
    assert CharBytes([], size, isString) == NulBytes(size);
    assert b[..n] == s[..n];
    if b == NulBytes(size) {
      assert forall i :: 0 <= i < n ==> s[..n][i] == b[i];
    }
  }

  lemma {:induction false} BlankBlock(fields: seq<FieldTemplate>, vs: seq<Value>, at: nat, end: nat)
    requires LaidOut(fields, at, end) && AllTyped(fields, vs) && AllWritable(fields, vs)
    ensures AllTyped(fields, Defaults(fields))
    ensures AllBlank(fields, vs) <==> BlockBytes(fields, vs, at, end) == BlockBytes(fields, Defaults(fields), at, end)
    decreases fields
  {
    hide Blank, Typed, Writable, FieldBytes;
    DefaultsTyped(fields, at, end);
    if fields != [] {
      var next := at + fields[0].size;
      var d := Defaults(fields);
      assert d[1..] == Defaults(fields[1..]);
      BlankBytes(fields[0], vs[0]);
      BlankBlock(fields[1..], vs[1..], next, end);
      SameHalves(FieldBytes(fields[0], vs[0]), BlockBytes(fields[1..], vs[1..], next, end),
                 FieldBytes(fields[0], d[0]), BlockBytes(fields[1..], d[1..], next, end));
    }
  }

  lemma SameHalves(a: seq<Byte>, b: seq<Byte>, c: seq<Byte>, d: seq<Byte>)
    requires |a| == |c|
    ensures a + b == c + d <==> a == c && b == d
  {
    assert (a + b)[..|a|] == a && (a + b)[|a|..] == b;
    assert (c + d)[..|c|] == c && (c + d)[|c|..] == d;
  }

  /** A normal form is a value of the field, writes as the value does, and is its own normal form. */
  lemma {:induction false} FieldAgain(ft: FieldTemplate, v: Value)
    requires Sound(ft) && Typed(ft, v) && Writable(ft, v)
    ensures var n := Normal(ft, v);
            Typed(ft, n) && Writable(ft, n) && FieldBytes(ft, n) == FieldBytes(ft, v) && Normal(ft, n) == n
    decreases ft
  {
    match ft.form {
      case Integer(_, _) =>
      case Floating(_) =>
      case Chars(isString) =>
        CharsAgain(v.s, ft.size, isString);
      case Composite(fs) =>
        BlockAgain(fs, v.fields, 0, ft.size);
        NoOneofsKept(fs, v.fields);
    }
  }

  /** So is that of a block; but it writes as the block did exactly when no field that was cleared held anything. */
  lemma {:induction false} BlockAgain(fields: seq<FieldTemplate>, vs: seq<Value>, at: nat, end: nat)
    requires LaidOut(fields, at, end) && AllTyped(fields, vs) && AllWritable(fields, vs)
    ensures var n := NormalBlock(fields, vs);
            && AllTyped(fields, n) && AllWritable(fields, n) && NormalBlock(fields, n) == n
            && (BlockBytes(fields, n, at, end) == BlockBytes(fields, vs, at, end) <==> AllKept(fields, vs))
    decreases fields
  {
    hide Blank, Typed, Writable, FieldBytes, Normal, Superseded, Default;
    if fields != [] {
      var next := at + fields[0].size;
      FieldAgain(fields[0], vs[0]);
      BlankBytes(fields[0], vs[0]);
      DefaultTyped(fields[0]);
      BlockAgain(fields[1..], vs[1..], next, end);
      var n := NormalBlock(fields, vs);
      assert n[0] == Keep(fields, Normal(fields[0], vs[0])) && n[1..] == NormalBlock(fields[1..], vs[1..]);
      SameHalves(FieldBytes(fields[0], n[0]), BlockBytes(fields[1..], n[1..], next, end),
                 FieldBytes(fields[0], vs[0]), BlockBytes(fields[1..], vs[1..], next, end));
    }
  }

  // ---- Every field given back ----

  /** Every field in normal form, none of them cleared. */
  ghost function EachNormal(fields: seq<FieldTemplate>, vs: seq<Value>): (r: seq<Value>)
    requires AllTyped(fields, vs)
    ensures |r| == |fields|
    decreases fields
  {
    if fields == [] then [] else [Normal(fields[0], vs[0])] + EachNormal(fields[1..], vs[1..])
  }

  /** The field is or holds a bytes field, which reads as its padding where nothing was set. */
  predicate HoldsBytes(ft: FieldTemplate)
    decreases ft
  {
    match ft.form
    case Integer(_, _) => false
    case Floating(_) => false
    case Chars(isString) => !isString && ft.size > 0
    case Composite(fs) => AnyHoldsBytes(fs)
  }

  predicate AnyHoldsBytes(fields: seq<FieldTemplate>)
    decreases fields
  {
    fields != [] && (HoldsBytes(fields[0]) || AnyHoldsBytes(fields[1..]))
  }

  /** Every field that a later one clears was blank, and reads as its default when it is. */
  ghost predicate AllGivenBack(fields: seq<FieldTemplate>, vs: seq<Value>)
    requires AllTyped(fields, vs)
    decreases fields
  {
    fields == [] || ((Superseded(fields) ==> Blank(fields[0], vs[0]) && !HoldsBytes(fields[0]))
                     && AllGivenBack(fields[1..], vs[1..]))
  }

  /** What reads as a field that is not set. */
  lemma {:induction false} NormalDefault(ft: FieldTemplate, v: Value)
    requires Sound(ft) && Typed(ft, v)
    ensures Normal(ft, v) == Default(ft) <==> Blank(ft, v) && !HoldsBytes(ft)
    decreases ft
  {
    match ft.form {
      case Integer(_, _) =>
      case Floating(_) =>
      case Chars(isString) =>
        if isString {
          NulsDrop(v.s[..CutAt(v.s, ft.size, true)]);
        }
      case Composite(fs) =>
        NormalDefaults(fs, v.fields, 0, ft.size);
    }
  }

  lemma {:induction false} NulsDrop(s: seq<Byte>)
    ensures DropNuls(s) == [] <==> OnlyNuls(s)
    decreases |s|
  {
    if s != [] {
      NulsDrop(s[..|s| - 1]);
    }
  }

  lemma {:induction false} NormalDefaults(fields: seq<FieldTemplate>, vs: seq<Value>, at: nat, end: nat)
    requires LaidOut(fields, at, end) && NoOneofs(fields) && AllTyped(fields, vs)
    ensures NormalBlock(fields, vs) == Defaults(fields) <==> AllBlank(fields, vs) && !AnyHoldsBytes(fields)
    decreases fields
  {
    hide Blank, Typed, HoldsBytes, Normal, Default;
    if fields != [] {
      NormalDefault(fields[0], vs[0]);
      NormalDefaults(fields[1..], vs[1..], at + fields[0].size, end);
      var n, d := NormalBlock(fields, vs), Defaults(fields);
      assert n[0] == Normal(fields[0], vs[0]) && n[1..] == NormalBlock(fields[1..], vs[1..]);
      assert d[0] == Default(fields[0]) && d[1..] == Defaults(fields[1..]);
      assert n == [n[0]] + n[1..] && d == [d[0]] + d[1..];
    }
  }

  /** A block is read back field for field exactly when nothing that was cleared can be missed. */
  lemma {:induction false} BlockGivenBack(fields: seq<FieldTemplate>, vs: seq<Value>, at: nat, end: nat)
    requires LaidOut(fields, at, end) && AllTyped(fields, vs)
    ensures NormalBlock(fields, vs) == EachNormal(fields, vs) <==> AllGivenBack(fields, vs)
    decreases fields
  {
    hide Blank, Typed, HoldsBytes, Normal, Default, Superseded;
    if fields != [] {
      NormalDefault(fields[0], vs[0]);
      BlockGivenBack(fields[1..], vs[1..], at + fields[0].size, end);
      var n, e := NormalBlock(fields, vs), EachNormal(fields, vs);
      assert n[0] == Keep(fields, Normal(fields[0], vs[0])) && n[1..] == NormalBlock(fields[1..], vs[1..]);
      assert e[0] == Normal(fields[0], vs[0]) && e[1..] == EachNormal(fields[1..], vs[1..]);
      assert n == [n[0]] + n[1..] && e == [e[0]] + e[1..];
    }
  }

  lemma {:induction false} NoOneofsGivenBack(fields: seq<FieldTemplate>, vs: seq<Value>)
    requires NoOneofs(fields) && AllTyped(fields, vs)
    ensures AllGivenBack(fields, vs)
    decreases |fields|
  {
    hide Blank, Typed, HoldsBytes;
    if fields != [] {
      NoOneofsGivenBack(fields[1..], vs[1..]);
    }
  }

  // ---- Fewer fields ----

  /** A block's first fields are written as a block of only those fields. */
  lemma {:induction false} BlockPrefix(small: seq<FieldTemplate>, large: seq<FieldTemplate>, vs: seq<Value>,
                                       at: nat, end: nat, end': nat)
    requires small <= large && LaidOut(small, at, end) && LaidOut(large, at, end') && AllTyped(large, vs)
    ensures at <= end <= end' && |small| <= |vs| && AllTyped(small, vs[..|small|])
    ensures BlockBytes(large, vs, at, end')[..end - at] == BlockBytes(small, vs[..|small|], at, end)
    ensures AllWritable(large, vs) ==> AllWritable(small, vs[..|small|])
    decreases small
  {
    LaidOutEnd(large, at, end');
    if small != [] {
      var next := at + small[0].size;
      BlockPrefix(small[1..], large[1..], vs[1..], next, end, end');
      assert vs[..|small|][1..] == vs[1..][..|small| - 1];
      var a := FieldBytes(large[0], vs[0]);
      var b := BlockBytes(large[1..], vs[1..], next, end');
      assert (a + b)[..end - at] == a + b[..end - next];
    }
  }

  lemma {:induction false} TypedLength(fields: seq<FieldTemplate>, vs: seq<Value>)
    requires AllTyped(fields, vs)
    ensures |vs| == |fields|
    decreases |fields|
  {
    if fields != [] {
      TypedLength(fields[1..], vs[1..]);
    }
  }
}
