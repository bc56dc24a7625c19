/**
The fields of an SBE block, written and read: src/sbe/marshal.cc, src/sbe/unmarshal.cc and
the range checks of src/sbe/encoding_range.h. Decoding what was written gives each value's
normal form: integers exactly, strings cut at a whole character without trailing NULs, bytes
cut or padded to their size.
 */
module SbeFields {
  import opened Options
  import opened Powers
  import opened BigEndian
  import opened Wire
  import opened Utf8
  import opened SbeTemplate

  /** A field's value; a float or double is its bit pattern. */
  datatype Value = IntV(i: int) | FloatV(bits: nat) | StrV(s: seq<Byte>) | MsgV(fields: seq<Value>)

  // ---- Integers ----

  /** An int64 as its 64 bits, or a uint64 as it is. */
  function IntBits(i: int): int {
    if i < 0 then i + 0x1_0000_0000_0000_0000 else i
  }

  predicate IsUnsigned(k: IntKind) {
    k.BoolKind? || k.UInt32Kind? || k.UInt64Kind?
  }

  /** Whether the integer v holds is within [lo, hi]. */
  predicate InRange(v: int, unsigned: bool, lo: int, hi: int) {
    if !unsigned && v >= 0x8000_0000_0000_0000 then v - 0x1_0000_0000_0000_0000 >= lo else v <= hi
  }

  predicate WriteCheck(k: IntKind, e: IntEncoding) {
    KindLo(k) < EncLo(e) || KindHi(k) > EncHi(e)
  }

  predicate ReadCheck(k: IntKind, e: IntEncoding) {
    !k.BoolKind? && (EncLo(e) < KindLo(k) || EncHi(e) > KindHi(k))
  }

  /** What the writer lets through. */
  predicate IntFits(k: IntKind, e: IntEncoding, i: int) {
    WriteCheck(k, e) ==> InRange(IntBits(i), IsUnsigned(k), EncLo(e), EncHi(e))
  }

  /** The writer refuses exactly the values its primitive cannot hold. */
  lemma IntFitsIs(k: IntKind, e: IntEncoding, i: int)
    requires KindLo(k) <= i <= KindHi(k)
    ensures IntFits(k, e, i) <==> EncLo(e) <= i <= EncHi(e)
  {
  }

  /** The 64 bits of a wire integer, sign- or zero-extended by its primitive. */
  function Extended(e: IntEncoding, bits: nat): int {
    var w := WordSize(EncSize(e));
    if EncSigned(e) && bits >= w / 2 then bits - w + 0x1_0000_0000_0000_0000 else bits
  }

  /** The bits stored in a field of kind k. */
  function ToKind(k: IntKind, bits: int): int {
    match k
    case BoolKind => if bits != 0 then 1 else 0
    case Int32Kind => LowInt32(bits % 0x1_0000_0000)
    case EnumKind => LowInt32(bits % 0x1_0000_0000)
    case Int64Kind => if bits >= 0x8000_0000_0000_0000 then bits - 0x1_0000_0000_0000_0000 else bits
    case UInt32Kind => bits % 0x1_0000_0000
    case UInt64Kind => bits
  }

  function DecodeInt(k: IntKind, e: IntEncoding, bits: nat): Option<Value> {
    var v := Extended(e, bits);
    if ReadCheck(k, e) && !InRange(v, !EncSigned(e), KindLo(k), KindHi(k)) then None
    else Some(IntV(ToKind(k, v)))
  }

  /** An integer that fits is read back exactly. */
  lemma {:induction false} IntReads(k: IntKind, e: IntEncoding, i: int)
    requires KindLo(k) <= i <= KindHi(k) && IntFits(k, e, i)
    ensures DecodeInt(k, e, IntBits(i) % WordSize(EncSize(e))) == Some(IntV(i))
  {
    hide Extended, InRange, ToKind, WordSize, EncLo, EncHi, IntFits, ReadCheck;
    IntFitsIs(k, e, i);
    LowWord(e, i);
    ReadsInRange(k, e, i);
    ToKindIs(k, i);
  }

  /** The number a wire word is in two's complement, or without a sign. */
  function WordValue(e: IntEncoding, bits: nat): int {
    if EncSigned(e) && 2 * bits >= WordSize(EncSize(e)) then bits - WordSize(EncSize(e)) else bits
  }

  /** Any word is read as its number and refused exactly when the kind cannot hold it; a bool is whether it is 0. */
  lemma WordIs(k: IntKind, e: IntEncoding, bits: nat)
    requires bits < WordSize(EncSize(e))
    ensures var x := WordValue(e, bits);
            DecodeInt(k, e, bits) == if k.BoolKind? then Some(IntV(if bits == 0 then 0 else 1))
                                     else if KindLo(k) <= x <= KindHi(k) then Some(IntV(x)) else None
  {
    var x := WordValue(e, bits);
    assert Extended(e, bits) == IntBits(x);
    if KindLo(k) <= x <= KindHi(k) {
      ToKindIs(k, x);
    }
  }

  lemma ReadsInRange(k: IntKind, e: IntEncoding, i: int)
    requires KindLo(k) <= i <= KindHi(k) && EncLo(e) <= i <= EncHi(e)
    ensures InRange(IntBits(i), !EncSigned(e), KindLo(k), KindHi(k))
  {
  }

  lemma ToKindIs(k: IntKind, i: int)
    requires KindLo(k) <= i <= KindHi(k)
    ensures ToKind(k, IntBits(i)) == i
  {
  }

  lemma LowWord(e: IntEncoding, i: int)
    requires EncLo(e) <= i <= EncHi(e)
    ensures Extended(e, IntBits(i) % WordSize(EncSize(e))) == IntBits(i)
  {
    var w := WordSize(EncSize(e));
    if i < 0 {
      assert (i + 0x1_0000_0000_0000_0000) % w == i + w;
    } else {
      assert i % w == i;
    }
  }

  /** The low bytes of a number are its residue. */
  lemma {:induction false} FixedResidue(n: nat, v: nat)
    requires n == 1 || n == 2 || n == 4 || n == 8
    ensures FixedValue(Fixed(n, v)) == v % WordSize(n)
  {
    hide Pow;
    WordPow(n);
    FixedMod(n, v);
  }

  lemma WordPow(n: nat)
    requires n == 1 || n == 2 || n == 4 || n == 8
    ensures Pow(0x100, n) == WordSize(n)
  {
    assert Pow(0x100, 1) == 0x100 && Pow(0x100, 2) == 0x1_0000;
    PowAdd(0x100, 2, 2);
    PowAdd(0x100, 4, 4);
  }

  lemma {:induction false} FixedMod(n: nat, v: nat)
    ensures Pow(0x100, n) > 0 && FixedValue(Fixed(n, v)) == v % Pow(0x100, n)
    decreases n
  {
    if n > 0 {
      FixedMod(n - 1, v / 0x100);
      assert Fixed(n, v)[1..] == Fixed(n - 1, v / 0x100);
      DivDiv(v, 0x100, Pow(0x100, n - 1));
      assert 0x100 * Pow(0x100, n - 1) == Pow(0x100, n);
    }
  }

  // ---- Strings and bytes ----

  /** Back up from n to the start of a character. */
  function Backed(s: seq<Byte>, n: nat): (m: nat)
    requires n < |s|
    ensures m <= n
  {
    if n > 0 && IsContinuation(s[n]) then Backed(s, n - 1) else n
  }

  /** The length that s is cut to in a region of that size. */
  function CutAt(s: seq<Byte>, size: nat, isString: bool): (n: nat)
    ensures n <= |s| && n <= size
  {
    if |s| <= size then |s| else if isString then Backed(s, size) else size
  }

  method CutLength(s: seq<Byte>, size: nat, isString: bool) returns (n: nat)
    ensures n == CutAt(s, size, isString)
  {
    if |s| <= size {
      return |s|;
    }
    n := size;
    if isString {
      while n > 0 && IsContinuation(s[n])
        invariant n <= size && Backed(s, n) == Backed(s, size)
      {
        n := n - 1;
      }
    }
  }

  /** The cut is the longest that keeps whole characters. */
  lemma {:induction false} CutWhole(s: seq<Byte>, size: nat)
    requires ValidUtf8(s)
    ensures ValidUtf8(s[..CutAt(s, size, true)])
    ensures forall m :: CutAt(s, size, true) < m <= size && m <= |s| ==> !ValidUtf8(s[..m])
  {
    if |s| > size {
      BackedIs(s, size);
      var n := Backed(s, size);
      if n == 0 {
        assert s[..0] == [];
      } else {
        CutValid(s, n);
      }
      forall m | n < m <= size
        ensures !ValidUtf8(s[..m])
      {
        MidCharacter(s, m);
      }
    } else {
      assert s[..|s|] == s;
    }
  }

  lemma {:induction false} BackedIs(s: seq<Byte>, n: nat)
    requires n < |s|
    ensures Backed(s, n) == 0 || !IsContinuation(s[Backed(s, n)])
    ensures forall m :: Backed(s, n) < m <= n ==> IsContinuation(s[m])
    decreases n
  {
    if n > 0 && IsContinuation(s[n]) {
      BackedIs(s, n - 1);
    }
  }

  /** Cut inside a character, a well-formed string is not well-formed. */
  lemma {:induction false} MidCharacter(s: seq<Byte>, m: nat)
    requires ValidUtf8(s) && 0 < m < |s| && IsContinuation(s[m])
    ensures !ValidUtf8(s[..m])
  {
    var k := RuneLength(s);
    var t := s[..m];
    if m < k {
      assert t[0] == s[0] && |t| < LeadLength(t[0]);
    } else {
      RunePrefix(s, m);
      assert t[k..] == s[k..][..m - k];
      StartsCharacter(s[k..]);
      assert s[k..][m - k] == s[m];
      MidCharacter(s[k..], m - k);
    }
  }

  lemma StartsCharacter(s: seq<Byte>)
    requires ValidUtf8(s) && s != []
    ensures !IsContinuation(s[0])
  {
  }

  function NulBytes(n: nat): (s: seq<Byte>)
    ensures |s| == n && forall i :: 0 <= i < n ==> s[i] == 0
  {
    seq(n, _ => 0)
  }

  /** What a string or bytes field holds: what fits, and NUL padding. */
  function CharBytes(s: seq<Byte>, size: nat, isString: bool): (r: seq<Byte>)
    ensures |r| == size
  {
    var n := CutAt(s, size, isString);
    s[..n] + NulBytes(size - n)
  }

  /** Bytes are cut and padded byte by byte. */
  lemma BytesKept(s: seq<Byte>, size: nat, i: nat)
    requires i < size
    ensures CharBytes(s, size, false)[i] == if i < |s| then s[i] else 0
  {
  }

  /** s without its trailing NULs. */
  function DropNuls(s: seq<Byte>): (r: seq<Byte>)
    ensures |r| <= |s| && r == s[..|r|]
    ensures r == [] || r[|r| - 1] != 0
  {
    if s != [] && s[|s| - 1] == 0 then DropNuls(s[..|s| - 1]) else s
  }

  lemma {:induction false} DropNulsPadding(s: seq<Byte>, n: nat)
    ensures DropNuls(s + NulBytes(n)) == DropNuls(s)
    decreases n
  {
    var t := s + NulBytes(n);
    if n == 0 {
      assert t == s;
    } else {
      assert t[..|t| - 1] == s + NulBytes(n - 1);
      DropNulsPadding(s, n - 1);
    }
  }

  lemma {:induction false} DropNulsValid(s: seq<Byte>)
    requires ValidUtf8(s)
    ensures ValidUtf8(DropNuls(s))
    decreases |s|
  {
    if s != [] && s[|s| - 1] == 0 {
      CutValid(s, |s| - 1);
      DropNulsValid(s[..|s| - 1]);
    }
  }

  lemma {:induction false} DropNulsBack(s: seq<Byte>)
    ensures DropNuls(s) + NulBytes(|s| - |DropNuls(s)|) == s
    decreases |s|
  {
    if s != [] && s[|s| - 1] == 0 {
      var t := s[..|s| - 1];
      DropNulsBack(t);
      assert NulBytes(|s| - |DropNuls(t)|) == NulBytes(|t| - |DropNuls(t)|) + [0];
      assert s == t + [0];
    }
  }

  function DecodeChars(w: seq<Byte>, isString: bool): Option<Value> {
    if !isString then Some(StrV(w))
    else if ValidUtf8(DropNuls(w)) then Some(StrV(DropNuls(w)))
    else None
  }

  /** The value a string or bytes field is read back as. */
  function NormalChars(s: seq<Byte>, size: nat, isString: bool): seq<Byte> {
    if isString then DropNuls(s[..CutAt(s, size, true)]) else CharBytes(s, size, false)
  }

  lemma {:induction false} CharsRead(s: seq<Byte>, size: nat, isString: bool)
    requires isString ==> ValidUtf8(s)
    ensures DecodeChars(CharBytes(s, size, isString), isString) == Some(StrV(NormalChars(s, size, isString)))
  {
    if isString {
      var n := CutAt(s, size, true);
      CutWhole(s, size);
      DropNulsPadding(s[..n], size - n);
      DropNulsValid(s[..n]);
    }
  }

  /** A normal form is written as the value was. */
  lemma {:induction false} CharsAgain(s: seq<Byte>, size: nat, isString: bool)
    requires isString ==> ValidUtf8(s)
    ensures var t := NormalChars(s, size, isString);
            && CharBytes(t, size, isString) == CharBytes(s, size, isString)
            && NormalChars(t, size, isString) == t
            && (isString ==> ValidUtf8(t))
  {
    hide DropNuls, ValidUtf8, NulBytes;
    var t := NormalChars(s, size, isString);
    if isString {
      var n := CutAt(s, size, true);
      CutWhole(s, size);
      DropNulsValid(s[..n]);
      DropNulsBack(s[..n]);
      ShortChars(t, size, true);
      Repadded(t, n - |t|, size - n);
      DropNulsTwice(s[..n]);
      assert t[..|t|] == t;
    } else {
      ShortChars(t, size, false);
      NoNuls();
      assert t + [] == t;
    }
  }

  lemma NoNuls()
    ensures NulBytes(0) == []
  {
  }

  lemma ShortChars(t: seq<Byte>, size: nat, isString: bool)
    requires |t| <= size
    ensures CharBytes(t, size, isString) == t + NulBytes(size - |t|)
  {
    assert t[..|t|] == t;
  }

  lemma Repadded(t: seq<Byte>, k: nat, n: nat)
    ensures (t + NulBytes(k)) + NulBytes(n) == t + NulBytes(k + n)
  {
    assert NulBytes(k) + NulBytes(n) == NulBytes(k + n);
  }

  lemma DropNulsTwice(s: seq<Byte>)
    ensures DropNuls(DropNuls(s)) == DropNuls(s)
  {
  }
}
