/**
  The `MACAddr` value type: an immutable sequence of octets in transmission
  order, built from loosely formatted text, with its canonical rendering,
  OUI/NIC halves, I/G and U/L bit tests, integer value and Modified EUI-64
  string.
 */
module MacAddress {
  import opened Hex
  import opened Join

  /** The stored octets (`to_a`). Parsing does not force a length of six. */
  datatype MacAddr = MacAddr(octets: seq<Byte>)

  const DefaultText: string := "00:00:00:00:00:00"

  function Min(a: int, b: int): int {
    if a < b then a else b
  }

  // ---------------------------------------------------------------------------
  // Construction from text: strip, chunk, read each chunk with `String#hex`.
  // ---------------------------------------------------------------------------

  /** `gsub(/[^a-zA-Z0-9]/, '')`: the ASCII letters and digits of `s`, in order. */
  function Clean(s: string): (r: string)
    ensures |r| <= |s|
    ensures AllAlnum(r)
    ensures AllAlnum(s) ==> r == s
    ensures IsSeparator(s) ==> r == ""
  {
    if |s| == 0 then ""
    else
      assert forall i :: 1 <= i < |s| ==> s[1..][i - 1] == s[i];
      (if IsAlnum(s[0]) then [s[0]] else []) + Clean(s[1..])
  }

  /** Text made of letters and digits only. */
  predicate AllAlnum(s: string) {
    forall i :: 0 <= i < |s| ==> IsAlnum(s[i])
  }

  /** Text the cleaning regex removes entirely; the empty text is one too. */
  predicate IsSeparator(x: string) {
    forall i :: 0 <= i < |x| ==> !IsAlnum(x[i])
  }

  /** `String#hex` on a two-character chunk, case by case (see `ChunkValueIsStringHex`). */
  function ChunkValue(c0: char, c1: char): Byte {
    if IsHexDigit(c0) && IsHexDigit(c1) then 16 * DigitValue(c0) + DigitValue(c1)
    else if IsHexDigit(c0) then DigitValue(c0)
    else 0
  }

  /** The three cases are exactly what `String#hex` makes of two characters. */
  lemma ChunkValueIsStringHex(c0: char, c1: char)
    ensures ChunkValue(c0, c1) == LeadingHexValue([c0, c1])
  {
    LeadingHexValueOfPair(c0, c1);
  }

  /** `scan(/../).map(&:hex)`: one octet per complete pair; an odd last character is dropped. */
  function Chunks(t: string): (r: seq<Byte>)
    ensures |r| == |t| / 2
    ensures forall k :: 0 <= k < |r| ==> r[k] == ChunkValue(t[2 * k], t[2 * k + 1])
    decreases |t|
  {
    if |t| < 2 then []
    else
      var rest := Chunks(t[2..]);
      ChunksStep(t, rest);
      [ChunkValue(t[0], t[1])] + rest
  }

  /** Putting the first pair's octet in front of the rest's octets keeps the pair-k-to-octet-k layout. */
  lemma ChunksStep(t: string, rest: seq<Byte>)
    requires |t| >= 2 && |rest| == |t| / 2 - 1
    requires forall k :: 0 <= k < |rest| ==> rest[k] == ChunkValue(t[2..][2 * k], t[2..][2 * k + 1])
    ensures forall k :: 0 <= k < |rest| + 1 ==>
              ([ChunkValue(t[0], t[1])] + rest)[k] == ChunkValue(t[2 * k], t[2 * k + 1])
  {
    var r := [ChunkValue(t[0], t[1])] + rest;
    forall k | 1 <= k < |rest| + 1
      ensures r[k] == ChunkValue(t[2 * k], t[2 * k + 1])
    {
      var j := k - 1;
      assert r[k] == rest[j];
      assert t[2..][2 * j] == t[2 * k] && t[2..][2 * j + 1] == t[2 * k + 1];
    }
  }

  /** `MACAddr.new(addr)`. Accepts any well-formed text; the length is whatever the text yields. */
  function Parse(s: string): (m: MacAddr)
    ensures |m.octets| == |Clean(s)| / 2
  {
    MacAddr(Chunks(Clean(s)))
  }

  /** Cleaning works character by character, so it distributes over concatenation. */
  lemma {:induction false} CleanAppend(s: string, t: string)
    ensures Clean(s + t) == Clean(s) + Clean(t)
    decreases |s|
  {
    if |s| == 0 {
      assert s + t == t;
    } else {
      var u := s + t;
      assert u[0] == s[0] && u[1..] == s[1..] + t;
      CleanAppend(s[1..], t);
      assert Clean(u) == (if IsAlnum(s[0]) then [s[0]] else []) + Clean(s[1..] + t);
    }
  }

  lemma ChunksCons(p: string, t: string)
    requires |p| == 2
    ensures Chunks(p + t) == [ChunkValue(p[0], p[1])] + Chunks(t)
  {
    assert (p + t)[2..] == t;
  }

  /** Two letters or digits: what `scan(/../)` takes as one chunk of cleaned text. */
  predicate IsPair(p: string) {
    |p| == 2 && IsAlnum(p[0]) && IsAlnum(p[1])
  }

  /** A pair, then any separator, reads as the pair's octet followed by the rest. */
  lemma ParsePairThen(p: string, x: string, t: string)
    requires IsPair(p) && IsSeparator(x)
    ensures Parse(p + x + t).octets == [ChunkValue(p[0], p[1])] + Parse(t).octets
  {
    CleanAppend(p + x, t);
    CleanAppend(p, x);
    ChunksCons(p, Clean(t));
  }

  /** A lone pair reads as one octet. */
  lemma ParseLastPair(p: string)
    requires IsPair(p)
    ensures Parse(p).octets == [ChunkValue(p[0], p[1])]
  {
    ChunksCons(p, "");
    assert p + "" == p;
  }

  /**
    Six pairs with any separators between them (colons, dashes, dots every
    other pair, or none) read as six octets, one per pair.
   */
  lemma ParseSixPairs(p0: string, x1: string, p1: string, x2: string, p2: string,
                      x3: string, p3: string, x4: string, p4: string, x5: string, p5: string)
    requires IsPair(p0) && IsPair(p1) && IsPair(p2) && IsPair(p3) && IsPair(p4) && IsPair(p5)
    requires IsSeparator(x1) && IsSeparator(x2) && IsSeparator(x3) && IsSeparator(x4) && IsSeparator(x5)
    ensures Parse(p0 + x1 + (p1 + x2 + (p2 + x3 + (p3 + x4 + (p4 + x5 + p5))))).octets
         == [ChunkValue(p0[0], p0[1]), ChunkValue(p1[0], p1[1]), ChunkValue(p2[0], p2[1]),
             ChunkValue(p3[0], p3[1]), ChunkValue(p4[0], p4[1]), ChunkValue(p5[0], p5[1])]
  {
    var t4 := p4 + x5 + p5;
    var t3 := p3 + x4 + t4;
    var t2 := p2 + x3 + t3;
    var t1 := p1 + x2 + t2;
    ParseLastPair(p5);
    ParsePairThen(p4, x5, p5);
    ParsePairThen(p3, x4, t4);
    ParsePairThen(p2, x3, t3);
    ParsePairThen(p1, x2, t2);
    ParsePairThen(p0, x1, t1);
  }

  /** The default text is six `00` pairs with colons between. */
  lemma DefaultTextPairs()
    ensures DefaultText == "00" + ":" + ("00" + ":" + ("00" + ":" + ("00" + ":" + ("00" + ":" + "00"))))
  {
  }

  /** `MACAddr.new` with no argument. */
  function New(): (m: MacAddr)
    ensures m.octets == [0, 0, 0, 0, 0, 0]
  {
    DefaultTextPairs();
    ParseSixPairs("00", ":", "00", ":", "00", ":", "00", ":", "00", ":", "00");
    assert ChunkValue('0', '0') == 0;
    Parse(DefaultText)
  }

  // ---------------------------------------------------------------------------
  // Renderings.
  // ---------------------------------------------------------------------------

  /** `map { "%02x" % i }`. */
  function Hex2All(a: seq<Byte>): (r: seq<string>)
    ensures |r| == |a|
    ensures forall k :: 0 <= k < |a| ==> r[k] == Hex2(a[k])
  {
    if |a| == 0 then [] else [Hex2(a[0])] + Hex2All(a[1..])
  }

  /** `map { "%02x" % i }.join(':')`, shared by `to_s`, `oui` and `nic`. */
  function HexColons(a: seq<Byte>): (r: string)
    ensures |a| == 0 ==> r == ""
    ensures |a| >= 1 ==> |r| == 3 * |a| - 1
  {
    HexColonsLength(a);
    JoinColons(Hex2All(a))
  }

  /** Two characters per octet and one colon between neighbours. */
  lemma {:induction false} HexColonsLength(a: seq<Byte>)
    ensures |a| >= 1 ==> |JoinColons(Hex2All(a))| == 3 * |a| - 1
    decreases |a|
  {
    if |a| >= 2 {
      HexColonsLength(a[1..]);
      assert Hex2All(a)[1..] == Hex2All(a[1..]);
    }
  }

  /** `to_s`: every octet as two lower-case digits, colon separated. */
  function ToS(m: MacAddr): (r: string)
    ensures |m.octets| == 0 ==> r == ""
    ensures |m.octets| >= 1 ==> |r| == 3 * |m.octets| - 1
  {
    HexColons(m.octets)
  }

  /** Octet `k` of the address is the two digits at offset `3k` of `to_s`, with a colon after all but the last. */
  lemma ToSLayout(m: MacAddr)
    ensures |m.octets| >= 1 ==> |ToS(m)| == 3 * |m.octets| - 1
    ensures forall k :: 0 <= k < |m.octets| ==> ToS(m)[3 * k..3 * k + 2] == Hex2(m.octets[k])
    ensures forall k :: 0 <= k < |m.octets| - 1 ==> ToS(m)[3 * k + 2] == Colon
  {
    var a := m.octets;
    forall k | 0 <= k < |a|
      ensures ToS(m)[3 * k..3 * k + 2] == Hex2(a[k])
    {
      HexColonsOctet(a, k);
    }
    forall k | 0 <= k < |a| - 1
      ensures ToS(m)[3 * k + 2] == Colon
    {
      HexColonsColon(a, k);
    }
  }

  lemma HexColonsOctet(a: seq<Byte>, k: nat)
    requires k < |a|
    ensures HexColons(a)[3 * k..3 * k + 2] == Hex2(a[k])
  {
    HexColonsSlice(a, k, k + 1);
    assert a[k..k + 1] == [a[k]];
    assert Hex2All([a[k]]) == [Hex2(a[k])];
  }

  lemma HexColonsColon(a: seq<Byte>, k: nat)
    requires k + 1 < |a|
    ensures HexColons(a)[3 * k + 2] == Colon
  {
    HexColonsSplit(a, k + 1);
    assert |HexColons(a[..k + 1])| == 3 * k + 2;
  }

  /** `oui`: the rendering of the first three octets (fewer if there are fewer). */
  function Oui(m: MacAddr): (r: string)
    ensures |m.octets| >= 3 ==> |r| == 8 && r == ToS(m)[..8]
    ensures |m.octets| <= 3 ==> r == ToS(m)
  {
    var a := m.octets;
    if |a| >= 3 then
      HexColonsPrefix(a, 3);
      HexColons(a[..3])
    else
      assert a[..|a|] == a;
      HexColons(a[..|a|])
  }

  /** `nic`: the rendering of octets 3 to 5. `@addr[3..5]` is nil below three octets. */
  function Nic(m: MacAddr): (r: string)
    requires |m.octets| >= 3
    ensures |m.octets| >= 6 ==> |r| == 8 && r == ToS(m)[9..17]
    ensures |m.octets| == 3 ==> r == ""
    ensures 3 < |m.octets| < 6 ==> r == ToS(m)[9..]
  {
    var a := m.octets;
    if |a| >= 6 then
      HexColonsSlice(a, 3, 6);
      HexColons(a[3..6])
    else if |a| == 3 then
      HexColons(a[3..])
    else
      HexColonsSuffix(a, 3);
      assert a[3..|a|] == a[3..];
      HexColons(a[3..|a|])
  }

  /** The rendering of a run of octets is the matching piece of the whole rendering. */
  lemma HexColonsSlice(a: seq<Byte>, i: nat, j: nat)
    requires i < j <= |a|
    ensures HexColons(a[i..j]) == HexColons(a)[3 * i..3 * j - 1]
  {
    var t := HexColons(a);
    HexColonsSuffix(a, i);
    HexColonsPrefix(a[i..], j - i);
    assert a[i..][..j - i] == a[i..j];
    SliceOfSuffix(t, 3 * i, 3 * (j - i) - 1);
  }

  lemma HexColonsPrefix(a: seq<Byte>, n: nat)
    requires 1 <= n <= |a|
    ensures HexColons(a[..n]) == HexColons(a)[..3 * n - 1]
  {
    if n < |a| {
      HexColonsSplit(a, n);
      CutAtColon(HexColons(a), HexColons(a[..n]), HexColons(a[n..]));
    } else {
      assert a[..n] == a;
    }
  }

  lemma HexColonsSuffix(a: seq<Byte>, i: nat)
    requires i < |a|
    ensures HexColons(a[i..]) == HexColons(a)[3 * i..]
  {
    if i > 0 {
      HexColonsSplit(a, i);
      CutAtColon(HexColons(a), HexColons(a[..i]), HexColons(a[i..]));
    } else {
      assert a[0..] == a;
    }
  }

  lemma SliceOfSuffix(t: string, p: nat, n: nat)
    requires p + n <= |t|
    ensures t[p..][..n] == t[p..p + n]
  {
  }

  lemma CutAtColon(t: string, x: string, y: string)
    requires t == x + [Colon] + y
    ensures t[..|x|] == x && t[|x| + 1..] == y
  {
  }

  /** Cutting the octets in two cuts the rendering at the colon between them. */
  lemma HexColonsSplit(a: seq<Byte>, n: nat)
    requires 1 <= n < |a|
    ensures HexColons(a) == HexColons(a[..n]) + [Colon] + HexColons(a[n..])
  {
    var h, p, q := Hex2All(a), Hex2All(a[..n]), Hex2All(a[n..]);
    assert h == p + q;
    JoinAppend(p, q);
  }

  /** The first octet's digits, a colon, then the rest of the rendering. */
  lemma HexColonsCons(a: seq<Byte>)
    requires |a| >= 2
    ensures HexColons(a) == Hex2(a[0]) + [Colon] + HexColons(a[1..])
  {
    assert Hex2All(a)[1..] == Hex2All(a[1..]);
  }

  // ---------------------------------------------------------------------------
  // Bits of the first octet. On an empty address `@addr[0]` is nil, and Ruby's
  // `nil & x` is false, so the tests read false rather than raising.
  // ---------------------------------------------------------------------------

  /** `group?`: the I/G bit, bit 0 of octet 0. */
  function IsGroup(m: MacAddr): (r: bool)
    ensures r <==> |m.octets| >= 1 && m.octets[0] % 2 == 1
  {
    |m.octets| >= 1 && (m.octets[0] as bv8 & 0x01) == 0x01
  }

  /** `individual?`. */
  function IsIndividual(m: MacAddr): (r: bool)
    ensures r <==> |m.octets| == 0 || m.octets[0] % 2 == 0
  {
    !IsGroup(m)
  }

  /** `universally_administered?`: true when bit 1 of octet 0 is SET, as written. */
  function IsUniversallyAdministered(m: MacAddr): (r: bool)
    ensures r <==> |m.octets| >= 1 && (m.octets[0] / 2) % 2 == 1
  {
    |m.octets| >= 1 && (m.octets[0] as bv8 & 0x02) == 0x02
  }

  /** `locally_administered?`. */
  function IsLocallyAdministered(m: MacAddr): (r: bool)
    ensures r <==> |m.octets| == 0 || (m.octets[0] / 2) % 2 == 0
  {
    !IsUniversallyAdministered(m)
  }

  // ---------------------------------------------------------------------------
  // `to_i`: a left fold that shifts the accumulator up one byte and ORs in the
  // next octet. The octet fits in the eight bits the shift clears, so the OR
  // is an addition.
  // ---------------------------------------------------------------------------

  function Pow256(k: nat): (p: nat)
    ensures p >= 1
  {
    if k == 0 then 1 else 256 * Pow256(k - 1)
  }

  /** The left fold over the octets, last octet least significant. */
  function Fold(a: seq<Byte>): (n: nat)
    ensures n < Pow256(|a|)
    decreases |a|
  {
    if |a| == 0 then 0
    else Fold(a[..|a| - 1]) * 256 + a[|a| - 1]
  }

  function ToI(m: MacAddr): (n: nat)
    ensures n < Pow256(|m.octets|)
  {
    Fold(m.octets)
  }

  // ---------------------------------------------------------------------------
  // `eui64`.
  // ---------------------------------------------------------------------------

  /** `@addr[0] | 0x02`: bit 1 set, every other bit kept. On an octet the OR adds 2 exactly when bit 1 is clear. */
  function SetUlBit(b: Byte): (r: Byte)
    ensures (r / 2) % 2 == 1
    ensures r % 2 == b % 2 && r / 4 == b / 4
  {
    if (b / 2) % 2 == 1 then b else b + 2
  }

  /** An address `eui64` accepts: shorter ones hit nil, five gives an odd slice. */
  predicate Eui64Defined(a: seq<Byte>) {
    |a| == 4 || |a| >= 6
  }

  /** The bytes `eui64` groups: octet 0 with bit 1 set, octets 1 and 2, the filler `ff fe`, then octets 3 to 5 (only octet 3 when there are four). */
  function Eui64Bytes(a: seq<Byte>): (e: seq<Byte>)
    requires Eui64Defined(a)
    ensures |a| >= 6 ==> e == [SetUlBit(a[0]), a[1], a[2], 0xff, 0xfe, a[3], a[4], a[5]]
    ensures |a| == 4 ==> e == [SetUlBit(a[0]), a[1], a[2], 0xff, 0xfe, a[3]]
    ensures (e[0] / 2) % 2 == 1
  {
    [SetUlBit(a[0])] + a[1..3] + [0xff, 0xfe] + a[3..Min(6, |a|)]
  }

  /** `each_slice(2).map { |i| "%x%x" % i }`: two unpadded bytes side by side per group. */
  function PairGroups(e: seq<Byte>): (r: seq<string>)
    requires |e| % 2 == 0
    ensures |r| == |e| / 2
    ensures AllNoColon(r)
    ensures forall k :: 0 <= k < |r| ==> r[k] == PairGroup(e[2 * k], e[2 * k + 1])
    decreases |e|
  {
    if |e| == 0 then []
    else
      var rest := PairGroups(e[2..]);
      PairGroupsStep(e, rest);
      [PairGroup(e[0], e[1])] + rest
  }

  /** `"%x%x" % [x, y]`: both bytes in unpadded lower-case hex, side by side. */
  function PairGroup(x: Byte, y: Byte): (g: string)
    ensures 2 <= |g| <= 4 && AllLowerHexDigits(g) && NoColon(g)
  {
    HexStringOfByte(x);
    HexStringOfByte(y);
    HexString(x) + HexString(y)
  }

  /** Putting the first pair's group in front of the rest's groups keeps the pair-k-to-group-k layout. */
  lemma PairGroupsStep(e: seq<Byte>, rest: seq<string>)
    requires |e| >= 2 && |rest| == |e| / 2 - 1
    requires forall k :: 0 <= k < |rest| ==> rest[k] == PairGroup(e[2..][2 * k], e[2..][2 * k + 1])
    ensures forall k :: 0 <= k < |rest| + 1 ==>
              ([PairGroup(e[0], e[1])] + rest)[k] == PairGroup(e[2 * k], e[2 * k + 1])
  {
    var r := [PairGroup(e[0], e[1])] + rest;
    forall k | 1 <= k < |rest| + 1
      ensures r[k] == PairGroup(e[2 * k], e[2 * k + 1])
    {
      var j := k - 1;
      assert r[k] == rest[j];
      assert e[2..][2 * j] == e[2 * k] && e[2..][2 * j + 1] == e[2 * k + 1];
    }
  }

  /** `eui64`: the groups joined by colons. */
  function Eui64(m: MacAddr): (r: string)
    requires Eui64Defined(m.octets)
    ensures |m.octets| >= 6 ==> multiset(r)[Colon] == 3
    ensures |m.octets| == 4 ==> multiset(r)[Colon] == 2
    ensures forall i :: 0 <= i < |r| && r[i] != Colon ==> IsLowerHexDigit(r[i])
  {
    var e := Eui64Bytes(m.octets);
    var groups := PairGroups(e);
    PairGroupsAreDigits(e);
    JoinColonCount(groups);
    JoinOfDigitGroups(groups);
    JoinColons(groups)
  }

  /** Every group holds lower-case hex digits only. */
  lemma PairGroupsAreDigits(e: seq<Byte>)
    requires |e| % 2 == 0
    ensures forall k :: 0 <= k < |PairGroups(e)| ==> AllLowerHexDigits(PairGroups(e)[k])
  {
    var g := PairGroups(e);
    forall k | 0 <= k < |g|
      ensures AllLowerHexDigits(g[k])
    {
      assert g[k] == PairGroup(e[2 * k], e[2 * k + 1]);
    }
  }

  /** A join of digit-only groups holds nothing but digits and colons. */
  lemma {:induction false} JoinOfDigitGroups(groups: seq<string>)
    requires forall k :: 0 <= k < |groups| ==> AllLowerHexDigits(groups[k])
    ensures forall i :: 0 <= i < |JoinColons(groups)| && JoinColons(groups)[i] != Colon
                        ==> IsLowerHexDigit(JoinColons(groups)[i])
    decreases |groups|
  {
    if |groups| >= 2 {
      JoinOfDigitGroups(groups[1..]);
      var j := JoinColons(groups);
      var g := groups[0];
      var rest := JoinColons(groups[1..]);
      assert j == g + [Colon] + rest;
      forall i | 0 <= i < |j| && j[i] != Colon
        ensures IsLowerHexDigit(j[i])
      {
        if i < |g| {
          assert j[i] == g[i];
        } else {
          assert j[i] == rest[i - |g| - 1];
        }
      }
    }
  }
}
