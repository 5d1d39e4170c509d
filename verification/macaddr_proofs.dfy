/**
  Properties of the address type that relate several operations: what parsing
  ignores, the text round trips, the OUI/NIC split, the integer value, and
  the EUI-64 identifier's independence from extra octets.
 */
module MacAddressProofs {
  import opened Hex
  import opened Join
  import opened MacAddress

  // ---------------------------------------------------------------------------
  // Cleaning.
  // ---------------------------------------------------------------------------

  /** The address depends only on the letters and digits of the text, in order. */
  lemma ParseOnlyAlnum(s: string)
    ensures Parse(Clean(s)) == Parse(s)
  {
  }

  /** Any separator or punctuation character may be inserted anywhere without changing the address. */
  lemma ParseIgnoresSeparator(s: string, c: char, t: string)
    requires !IsAlnum(c)
    ensures Parse(s + [c] + t) == Parse(s + t)
  {
    calc {
      Clean(s + [c] + t);
      { CleanAppend(s + [c], t); }
      Clean(s + [c]) + Clean(t);
      { CleanAppend(s, [c]); assert Clean([c]) == ""; }
      Clean(s) + Clean(t);
      { CleanAppend(s, t); }
      Clean(s + t);
    }
  }

  // ---------------------------------------------------------------------------
  // Letter case.
  // ---------------------------------------------------------------------------

  function LowerAll(s: string): (r: string)
    ensures |r| == |s|
    ensures forall i :: 0 <= i < |s| ==> r[i] == ToLower(s[i])
  {
    if |s| == 0 then "" else [ToLower(s[0])] + LowerAll(s[1..])
  }

  lemma {:induction false} CleanLowerAll(s: string)
    ensures Clean(LowerAll(s)) == LowerAll(Clean(s))
    decreases |s|
  {
    if |s| > 0 {
      ToLowerPreservesClass(s[0]);
      CleanLowerAll(s[1..]);
      assert LowerAll(s)[1..] == LowerAll(s[1..]);
      if IsAlnum(s[0]) {
        assert Clean(s) == [s[0]] + Clean(s[1..]);
        assert LowerAll(Clean(s)) == [ToLower(s[0])] + LowerAll(Clean(s[1..]));
      }
    }
  }

  lemma ChunkValueLower(c0: char, c1: char)
    ensures ChunkValue(ToLower(c0), ToLower(c1)) == ChunkValue(c0, c1)
  {
    ToLowerPreservesClass(c0);
    ToLowerPreservesClass(c1);
  }

  lemma {:induction false} ChunksLowerAll(t: string)
    ensures Chunks(LowerAll(t)) == Chunks(t)
    decreases |t|
  {
    if |t| >= 2 {
      ChunkValueLower(t[0], t[1]);
      assert LowerAll(t)[2..] == LowerAll(t[2..]);
      ChunksLowerAll(t[2..]);
    }
  }

  /** Hex digits read the same in either case, so upper-case input gives the same octets. */
  lemma ParseIgnoresCase(s: string)
    ensures Parse(LowerAll(s)) == Parse(s)
  {
    CleanLowerAll(s);
    ChunksLowerAll(Clean(s));
  }

  // ---------------------------------------------------------------------------
  // Chunking.
  // ---------------------------------------------------------------------------

  /** `scan(/../)` drops a lone trailing character. */
  lemma {:induction false} ChunksDropOddTail(t: string, c: char)
    requires |t| % 2 == 0
    ensures Chunks(t + [c]) == Chunks(t)
    decreases |t|
  {
    if |t| >= 2 {
      assert (t + [c])[2..] == t[2..] + [c];
      ChunksDropOddTail(t[2..], c);
    }
  }

  /** A letter or digit left over after an even number of them contributes nothing. */
  lemma TrailingOddCharacterDropped(s: string, c: char)
    requires |Clean(s)| % 2 == 0 && IsAlnum(c)
    ensures Parse(s + [c]) == Parse(s)
  {
    CleanAppend(s, [c]);
    assert Clean([c]) == [c];
    ChunksDropOddTail(Clean(s), c);
  }

  /** A two-character group followed by a separator cleans to the group itself. */
  lemma CleanGroup(p: string, c: char, tail: string)
    requires |p| == 2 && IsAlnum(p[0]) && IsAlnum(p[1]) && !IsAlnum(c)
    ensures Clean(p + [c] + tail) == p + Clean(tail)
  {
    calc {
      Clean(p + [c] + tail);
      { CleanAppend(p + [c], tail); }
      Clean(p + [c]) + Clean(tail);
      { CleanAppend(p, [c]); assert Clean([c]) == ""; }
      p + Clean(tail);
    }
  }

  // ---------------------------------------------------------------------------
  // Canonical text.
  // ---------------------------------------------------------------------------

  /** Two lower-case digits per octet, single colons between, nothing else. */
  predicate IsCanonical(s: string) {
    |s| == 0 || IsGroups(s)
  }

  predicate IsGroups(s: string)
    decreases |s|
  {
    && |s| >= 2
    && IsLowerHexDigit(s[0]) && IsLowerHexDigit(s[1])
    && (|s| == 2 || (s[2] == Colon && IsGroups(s[3..])))
  }

  lemma Hex2OfDigits(c0: char, c1: char)
    requires IsLowerHexDigit(c0) && IsLowerHexDigit(c1)
    ensures Hex2(16 * DigitValue(c0) + DigitValue(c1)) == [c0, c1]
  {
    DigitCharOfValue(c0);
    DigitCharOfValue(c1);
  }

  /** Reading a two-digit rendering gives the octet back. */
  lemma ChunkOfHex2(b: Byte)
    ensures ChunkValue(Hex2(b)[0], Hex2(b)[1]) == b
  {
  }

  lemma {:induction false} ParseHexColons(a: seq<Byte>)
    ensures Chunks(Clean(HexColons(a))) == a
    decreases |a|
  {
    if |a| == 1 {
      assert Clean(Hex2(a[0])) == Hex2(a[0]);
      ChunksCons(Hex2(a[0]), "");
      ChunkOfHex2(a[0]);
    } else if |a| >= 2 {
      var rest := HexColons(a[1..]);
      HexColonsCons(a);
      CleanGroup(Hex2(a[0]), Colon, rest);
      ChunksCons(Hex2(a[0]), Clean(rest));
      ChunkOfHex2(a[0]);
      ParseHexColons(a[1..]);
      assert a == [a[0]] + a[1..];
    }
  }

  /** `MACAddr.new(a.to_s).to_a` is `a.to_a` for every octet sequence. */
  lemma ParseToS(m: MacAddr)
    ensures Parse(ToS(m)) == m
  {
    ParseHexColons(m.octets);
  }

  /** Every rendering is canonical text. */
  lemma {:induction false} ToSIsCanonical(m: MacAddr)
    ensures IsCanonical(ToS(m))
    decreases |m.octets|
  {
    var a := m.octets;
    if |a| >= 2 {
      HexColonsCons(a);
      ToSIsCanonical(MacAddr(a[1..]));
      assert HexColons(a)[3..] == HexColons(a[1..]);
    }
  }

  lemma {:induction false} HexColonsOfParse(s: string)
    requires IsGroups(s)
    ensures HexColons(Chunks(Clean(s))) == s
    decreases |s|
  {
    var p := s[..2];
    Hex2OfDigits(s[0], s[1]);
    var v := ChunkValue(s[0], s[1]);
    assert Hex2(v) == p;
    if |s| == 2 {
      assert Clean(p) == p;
      assert s == p;
      ChunksCons(p, "");
    } else {
      var tail := s[3..];
      HexColonsOfParse(tail);
      var rest := Chunks(Clean(tail));
      assert |rest| >= 1;
      calc {
        HexColons(Chunks(Clean(s)));
        { assert s == p + [Colon] + tail; CleanGroup(p, Colon, tail); }
        HexColons(Chunks(p + Clean(tail)));
        { ChunksCons(p, Clean(tail)); }
        HexColons([v] + rest);
        { assert ([v] + rest)[1..] == rest; HexColonsCons([v] + rest); }
        p + [Colon] + HexColons(rest);
        s;
      }
    }
  }

  /** On canonical text, rendering the parse gives the text back. */
  lemma ToSParse(s: string)
    requires IsCanonical(s)
    ensures ToS(Parse(s)) == s
  {
    if |s| > 0 {
      HexColonsOfParse(s);
    }
  }

  /** Canonicalising twice is canonicalising once. */
  lemma CanonicalizeIdempotent(s: string)
    ensures ToS(Parse(ToS(Parse(s)))) == ToS(Parse(s))
  {
    ParseToS(Parse(s));
  }

  // ---------------------------------------------------------------------------
  // OUI and NIC.
  // ---------------------------------------------------------------------------

  /** For six octets the two halves, colon joined, are the full rendering. */
  lemma OuiNicSplit(m: MacAddr)
    requires |m.octets| == 6
    ensures |Oui(m)| == 8 && |Nic(m)| == 8
    ensures Oui(m) + [Colon] + Nic(m) == ToS(m)
  {
    var t := ToS(m);
    assert t[8] == Colon by {
      ToSLayout(m);
      assert t[3 * 2 + 2] == Colon;
    }
    assert t == t[..8] + [t[8]] + t[9..17];
  }

  // ---------------------------------------------------------------------------
  // The integer value.
  // ---------------------------------------------------------------------------

  /** The positional sum of `a[k] * 256^(n-1-k)`, written from the most significant end. */
  function BigEndian(a: seq<Byte>): nat {
    if |a| == 0 then 0 else a[0] * Pow256(|a| - 1) + BigEndian(a[1..])
  }

  lemma {:induction false} BigEndianSnoc(a: seq<Byte>, x: Byte)
    ensures BigEndian(a + [x]) == BigEndian(a) * 256 + x
    decreases |a|
  {
    if |a| > 0 {
      assert (a + [x])[1..] == a[1..] + [x];
      BigEndianSnoc(a[1..], x);
      calc {
        BigEndian(a + [x]);
        a[0] * Pow256(|a|) + BigEndian(a[1..] + [x]);
        a[0] * (256 * Pow256(|a| - 1)) + BigEndian(a[1..]) * 256 + x;
        { MulAssoc(a[0], Pow256(|a| - 1)); }
        (a[0] * Pow256(|a| - 1) + BigEndian(a[1..])) * 256 + x;
      }
    }
  }

  lemma MulAssoc(x: int, p: int)
    ensures x * (256 * p) == (x * p) * 256
  {
  }

  /** `to_i` is the big-endian value of the octets. */
  lemma {:induction false} FoldIsBigEndian(a: seq<Byte>)
    ensures Fold(a) == BigEndian(a)
    decreases |a|
  {
    if |a| > 0 {
      var init := a[..|a| - 1];
      FoldIsBigEndian(init);
      BigEndianSnoc(init, a[|a| - 1]);
      assert init + [a[|a| - 1]] == a;
    }
  }

  /** The octets of `n` as `len` bytes, most significant first. */
  function FromInt(n: nat, len: nat): (a: seq<Byte>)
    ensures |a| == len
  {
    if len == 0 then [] else FromInt(n / 256, len - 1) + [n % 256]
  }

  /** Unpacking the integer value of an address gives its octets back. */
  lemma {:induction false} FromIntOfFold(a: seq<Byte>)
    ensures FromInt(Fold(a), |a|) == a
    decreases |a|
  {
    if |a| > 0 {
      var init := a[..|a| - 1];
      var n := Fold(a);
      assert n == Fold(init) * 256 + a[|a| - 1];
      assert n / 256 == Fold(init) && n % 256 == a[|a| - 1];
      FromIntOfFold(init);
      assert a == init + [a[|a| - 1]];
    }
  }

  /** Every number below `256^len` is the value of exactly the octets `FromInt` gives. */
  lemma {:induction false} FoldOfFromInt(n: nat, len: nat)
    requires n < Pow256(len)
    ensures Fold(FromInt(n, len)) == n
    decreases len
  {
    if len > 0 {
      var a := FromInt(n, len);
      assert n / 256 < Pow256(len - 1);
      FoldOfFromInt(n / 256, len - 1);
      assert a[..|a| - 1] == FromInt(n / 256, len - 1);
    }
  }

  /** Two addresses of one length with the same integer value hold the same octets. */
  lemma ToIInjective(m1: MacAddr, m2: MacAddr)
    requires |m1.octets| == |m2.octets|
    requires ToI(m1) == ToI(m2)
    ensures m1 == m2
  {
    FromIntOfFold(m1.octets);
    FromIntOfFold(m2.octets);
  }

  /** A six-octet address fits in 48 bits. */
  lemma ToIOfSixOctets(m: MacAddr)
    requires |m.octets| == 6
    ensures ToI(m) < 0x1_0000_0000_0000
  {
    assert Pow256(6) == 0x1_0000_0000_0000;
  }

  // ---------------------------------------------------------------------------
  // EUI-64.
  // ---------------------------------------------------------------------------

  /** Octets past the sixth never reach the EUI-64 identifier. */
  lemma Eui64IgnoresExtraOctets(m: MacAddr)
    requires |m.octets| >= 6
    ensures Eui64(m) == Eui64(MacAddr(m.octets[..6]))
  {
    assert Eui64Bytes(m.octets) == Eui64Bytes(m.octets[..6]);
  }

  /**
    The identifier of a six-octet address group by group: four colon-separated
    groups, each the unpadded hex of two bytes side by side.
   */
  lemma Eui64OfSixOctets(m: MacAddr)
    requires |m.octets| == 6
    ensures Eui64(m)
         == HexString(SetUlBit(m.octets[0])) + HexString(m.octets[1]) + [Colon]
          + (HexString(m.octets[2]) + "ff" + [Colon]
          + ("fe" + HexString(m.octets[3]) + [Colon]
          + (HexString(m.octets[4]) + HexString(m.octets[5]))))
  {
    var e := Eui64Bytes(m.octets);
    var g := PairGroups(e);
    PairGroupsOfFour(e);
    JoinOfFour(g);
    assert HexString(0xff) == "ff" && HexString(0xfe) == "fe";
  }

  /**
    The identifier of a four-octet address: three groups, the `ff`/`fe` filler
    sitting after the third octet and the last group a single octet's `fe` pair.
   */
  lemma Eui64OfFourOctets(m: MacAddr)
    requires |m.octets| == 4
    ensures Eui64(m)
         == HexString(SetUlBit(m.octets[0])) + HexString(m.octets[1]) + [Colon]
          + (HexString(m.octets[2]) + "ff" + [Colon]
          + ("fe" + HexString(m.octets[3])))
  {
    var e := Eui64Bytes(m.octets);
    var g := PairGroups(e);
    PairGroupsOfThree(e);
    JoinOfThree(g);
    assert HexString(0xff) == "ff" && HexString(0xfe) == "fe";
  }

  /** Groups that agree with the pair-k-to-group-k layout at every index are the groups. */
  lemma GroupsByIndex(e: seq<Byte>, t: seq<string>)
    requires |e| % 2 == 0 && |t| == |e| / 2
    requires forall k :: 0 <= k < |t| ==> t[k] == PairGroup(e[2 * k], e[2 * k + 1])
    ensures PairGroups(e) == t
  {
  }

  lemma PairGroupsOfFour(e: seq<Byte>)
    requires |e| == 8
    ensures PairGroups(e) == [PairGroup(e[0], e[1]), PairGroup(e[2], e[3]), PairGroup(e[4], e[5]), PairGroup(e[6], e[7])]
  {
    var t := [PairGroup(e[0], e[1]), PairGroup(e[2], e[3]), PairGroup(e[4], e[5]), PairGroup(e[6], e[7])];
    forall k | 0 <= k < 4
      ensures t[k] == PairGroup(e[2 * k], e[2 * k + 1])
    {
      if k == 0 {} else if k == 1 {} else if k == 2 {} else { assert k == 3; }
    }
    GroupsByIndex(e, t);
  }

  lemma PairGroupsOfThree(e: seq<Byte>)
    requires |e| == 6
    ensures PairGroups(e) == [PairGroup(e[0], e[1]), PairGroup(e[2], e[3]), PairGroup(e[4], e[5])]
  {
    var t := [PairGroup(e[0], e[1]), PairGroup(e[2], e[3]), PairGroup(e[4], e[5])];
    forall k | 0 <= k < 3
      ensures t[k] == PairGroup(e[2 * k], e[2 * k + 1])
    {
      if k == 0 {} else if k == 1 {} else { assert k == 2; }
    }
    GroupsByIndex(e, t);
  }

  /** Addresses that agree on octets 0 to 3 share an identifier whenever their last groups are spelled alike. */
  lemma Eui64LastGroupOnly(m1: MacAddr, m2: MacAddr)
    requires |m1.octets| == 6 && |m2.octets| == 6
    requires m1.octets[..4] == m2.octets[..4]
    requires HexString(m1.octets[4]) + HexString(m1.octets[5]) == HexString(m2.octets[4]) + HexString(m2.octets[5])
    ensures Eui64(m1) == Eui64(m2)
  {
    var a, b := m1.octets, m2.octets;
    assert a[0] == b[0] && a[1] == b[1] by { assert a[0] == a[..4][0] && a[1] == a[..4][1]; }
    assert a[2] == b[2] && a[3] == b[3] by { assert a[2] == a[..4][2] && a[3] == a[..4][3]; }
    var last := HexString(a[4]) + HexString(a[5]);
    var head := HexString(SetUlBit(a[0])) + HexString(a[1]);
    var x2 := HexString(a[2]) + "ff";
    var x3 := "fe" + HexString(a[3]);
    calc {
      Eui64(m1);
      { Eui64OfSixOctets(m1); }
      head + [Colon] + (x2 + [Colon] + (x3 + [Colon] + last));
      { Eui64OfSixOctets(m2); }
      Eui64(m2);
    }
  }
}
