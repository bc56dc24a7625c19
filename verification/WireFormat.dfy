/**
What the bytes of include/protowire/detail/wire.h mean, in positional notation: a varint is its number in base
128, least significant group first, with the top bit of every byte but the last; a fixed-width word is its
number in base 256.
 */
module WireFormat {
  import opened Powers
  import opened Digits
  import opened BigEndian
  import opened Wire

  /** The low seven bits of each byte. */
  function Groups(s: seq<Byte>): (r: seq<nat>)
    ensures |r| == |s|
  {
    seq(|s|, i requires 0 <= i < |s| => s[i] % 0x80)
  }

  /** All bytes but the last say that another follows. */
  predicate Continued(s: seq<Byte>) {
    s != [] && s[|s| - 1] < 0x80 && forall i :: 0 <= i < |s| - 1 ==> s[i] >= 0x80
  }

  lemma GroupsCons(s: seq<Byte>)
    requires s != []
    ensures Eval(0x80, Groups(s)) == s[0] % 0x80 + 0x80 * Eval(0x80, Groups(s[1..]))
  {
    assert Groups(s)[1..] == Groups(s[1..]);
  }

  /** A number is written as its groups, without a group too many. */
  lemma {:induction false} VarintForm(v: nat)
    ensures var s := Varint(v);
            Continued(s) && Eval(0x80, Groups(s)) == v && (|s| > 1 ==> s[|s| - 1] != 0)
    decreases v
  {
    var s := Varint(v);
    GroupsCons(s);
    if v < 0x80 {
      assert Groups(s[1..]) == [];
    } else {
      VarintForm(v / 0x80);
      var t := Varint(v / 0x80);
      assert s[1..] == t;
      assert s[|s| - 1] == t[|t| - 1];
      forall i | 0 < i < |s| - 1 ensures s[i] >= 0x80 { assert s[i] == t[i - 1]; }
    }
  }

  /** Up to ten bytes are read as the number they are in base 128, groups too many or not; the tenth holds one bit. */
  lemma VarintMeans(s: seq<Byte>, rest: seq<Byte>)
    requires Continued(s)
    ensures ReadVarint(s + rest)
            == if |s| > 10 || (|s| == 10 && s[9] > 1) then Bad else Got(Eval(0x80, Groups(s)), |s|)
  {
    MeansFrom(s, rest, 0);
    assert s[0..] == s;
  }

  lemma {:induction false} MeansFrom(s: seq<Byte>, rest: seq<Byte>, i: nat)
    requires Continued(s) && i < |s|
    ensures VarintFrom(s + rest, i)
            == if |s| > 10 || (|s| == 10 && s[9] > 1) then Bad else Got(Eval(0x80, Groups(s[i..])), |s|)
    decreases |s| - i
  {
    hide Eval, Groups;
    assert (s + rest)[i] == s[i];
    GroupsCons(s[i..]);
    assert s[i..][0] == s[i] && s[i..][1..] == s[i + 1..];
    if i + 1 < |s| {
      if i < 9 {
        MeansFrom(s, rest, i + 1);
      }
    } else {
      assert s[i + 1..] == [];
      NoGroups();
    }
  }

  lemma NoGroups()
    ensures Eval(0x80, Groups([])) == 0
  {
  }

  /** Bytes that all say that another follows are no varint. */
  lemma {:induction false} Unfinished(s: seq<Byte>, i: nat)
    requires forall j :: 0 <= j < |s| ==> s[j] >= 0x80
    ensures VarintFrom(s, i) == Bad
    decreases 10 - i
  {
    if i < |s| && i < 10 {
      Unfinished(s, i + 1);
    }
  }

  lemma {:induction false} FixedForm(n: nat, v: nat)
    requires v < Pow(0x100, n)
    ensures Eval(0x100, Fixed(n, v)) == v
    decreases n
  {
    if n > 0 {
      FixedForm(n - 1, v / 0x100);
      assert Fixed(n, v)[1..] == Fixed(n - 1, v / 0x100);
    }
  }

  lemma {:induction false} FixedMeans(s: seq<Byte>)
    ensures FixedValue(s) == Eval(0x100, s)
  {
    if s != [] {
      FixedMeans(s[1..]);
    }
  }
}
