/**
  Ruby's `Array#join(':')` on a sequence of strings, and the facts about it
  that the address renderings need.
 */
module Join {

  const Colon: char := ':'

  /** The parts in order with one colon between neighbours; empty for no parts. */
  function JoinColons(parts: seq<string>): (r: string)
    ensures |parts| == 1 ==> r == parts[0]
    ensures |parts| == 0 ==> r == ""
  {
    if |parts| == 0 then ""
    else if |parts| == 1 then parts[0]
    else parts[0] + [Colon] + JoinColons(parts[1..])
  }

  predicate NoColon(s: string) {
    Colon !in s
  }

  predicate AllNoColon(parts: seq<string>) {
    forall i :: 0 <= i < |parts| ==> NoColon(parts[i])
  }

  /** Joining two non-empty runs puts exactly one colon between them. */
  lemma {:induction false} JoinAppend(ps: seq<string>, qs: seq<string>)
    requires |ps| >= 1 && |qs| >= 1
    ensures JoinColons(ps + qs) == JoinColons(ps) + [Colon] + JoinColons(qs)
    decreases |ps|
  {
    if |ps| == 1 {
      assert (ps + qs)[1..] == qs;
    } else {
      assert (ps + qs)[1..] == ps[1..] + qs;
      JoinAppend(ps[1..], qs);
    }
  }

  /** The number of colons in a join of colon-free parts is one less than the parts. */
  lemma {:induction false} JoinColonCount(parts: seq<string>)
    requires |parts| >= 1 && AllNoColon(parts)
    ensures multiset(JoinColons(parts))[Colon] == |parts| - 1
    decreases |parts|
  {
    if |parts| == 1 {
      assert Colon !in multiset(parts[0]);
    } else {
      JoinColonCount(parts[1..]);
      assert Colon !in multiset(parts[0]);
      assert JoinColons(parts) == parts[0] + [Colon] + JoinColons(parts[1..]);
    }
  }

  /** Position of the first colon in `s`, or `|s|` when there is none. */
  function ColonIndex(s: string): (k: nat)
    ensures k <= |s|
  {
    if |s| == 0 || s[0] == Colon then 0 else 1 + ColonIndex(s[1..])
  }

  lemma {:induction false} ColonIndexAfter(x: string, s: string)
    requires NoColon(x)
    ensures ColonIndex(x + [Colon] + s) == |x|
    decreases |x|
  {
    if |x| > 0 {
      assert (x + [Colon] + s)[1..] == x[1..] + [Colon] + s;
      assert x[0] in x;
      ColonIndexAfter(x[1..], s);
    }
  }

  /** Colon-free parts can be recovered from their join, given how many there were. */
  lemma {:induction false} JoinInjective(ps: seq<string>, qs: seq<string>)
    requires |ps| == |qs|
    requires AllNoColon(ps) && AllNoColon(qs)
    requires JoinColons(ps) == JoinColons(qs)
    ensures ps == qs
    decreases |ps|
  {
    if |ps| >= 2 {
      var x, y := ps[0], qs[0];
      var j := JoinColons(ps);
      assert j == x + [Colon] + JoinColons(ps[1..]);
      assert j == y + [Colon] + JoinColons(qs[1..]);
      ColonIndexAfter(x, JoinColons(ps[1..]));
      ColonIndexAfter(y, JoinColons(qs[1..]));
      assert x == j[..|x|] == y;
      assert JoinColons(ps[1..]) == j[|x| + 1..] == JoinColons(qs[1..]);
      JoinInjective(ps[1..], qs[1..]);
      assert ps == [x] + ps[1..];
      assert qs == [y] + qs[1..];
    }
  }

  /** The join of four parts, written out. */
  lemma JoinOfFour(ps: seq<string>)
    requires |ps| == 4
    ensures JoinColons(ps) == ps[0] + [Colon] + (ps[1] + [Colon] + (ps[2] + [Colon] + ps[3]))
  {
    assert ps[2..][1..] == ps[3..];
    assert JoinColons(ps[2..]) == ps[2] + [Colon] + ps[3];
    assert ps[1..][1..] == ps[2..];
    assert JoinColons(ps[1..]) == ps[1] + [Colon] + JoinColons(ps[2..]);
  }

  /** The join of three parts, written out. */
  lemma JoinOfThree(ps: seq<string>)
    requires |ps| == 3
    ensures JoinColons(ps) == ps[0] + [Colon] + (ps[1] + [Colon] + ps[2])
  {
    assert ps[1..][1..] == ps[2..];
    assert JoinColons(ps[1..]) == ps[1] + [Colon] + ps[2];
  }
}
