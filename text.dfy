/** Decimal text of integers, as `String.valueOf(int)` writes it, and the two texts the job builds
    from it: the reducer key of a bucket triple and the `x#y` text of an edge. */
module Text {
  import opened Graph

  /** The character of a decimal digit. */
  function DigitChar(d: int): (ch: char)
    requires 0 <= d < 10
    ensures '0' <= ch <= '9'
    ensures ch as int - '0' as int == d
  {
    ('0' as int + d) as char
  }

  /** Decimal digits of a natural number, most significant first, without leading zeros. */
  function NatToString(x: nat): (s: string)
    ensures |s| >= 1
    ensures forall i :: 0 <= i < |s| ==> '0' <= s[i] <= '9'
    ensures x < 10 <==> |s| == 1
    decreases x
  {
    if x < 10 then [DigitChar(x)] else NatToString(x / 10) + [DigitChar(x % 10)]
  }

  /** `String.valueOf(int)`: a minus sign before the digits of a negative number. */
  function IntToString(x: int): (s: string)
    ensures |s| >= 1
    ensures forall i :: 0 <= i < |s| ==> s[i] != '#'
    ensures (s[0] == '-') <==> x < 0
  {
    if x < 0 then "-" + NatToString(-x) else NatToString(x)
  }

  lemma {:induction false} NatToStringInjective(x: nat, y: nat)
    requires NatToString(x) == NatToString(y)
    ensures x == y
    decreases x
  {
    var s := NatToString(x);
    if x >= 10 {
      assert y >= 10;
      assert s[|s| - 1] == DigitChar(x % 10) == DigitChar(y % 10);
      assert NatToString(x / 10) == s[..|s| - 1] == NatToString(y / 10);
      NatToStringInjective(x / 10, y / 10);
    }
  }

  lemma IntToStringInjective(x: int, y: int)
    requires IntToString(x) == IntToString(y)
    ensures x == y
  {
    if x < 0 {
      assert "-" + NatToString(-x) == "-" + NatToString(-y);
      assert NatToString(-x) == ("-" + NatToString(-x))[1..];
      NatToStringInjective(-x, -y);
    } else {
      NatToStringInjective(x, y);
    }
  }

  /** makeReducerHash (src/main/java/TriangleMapper.java:15-18): the three decimal texts concatenated. */
  function MakeReducerHash(hash1: int, hash2: int, hash3: int): (key: string)
    ensures 0 <= hash1 < 10 && 0 <= hash2 < 10 && 0 <= hash3 < 10 ==>
              key == [DigitChar(hash1), DigitChar(hash2), DigitChar(hash3)]
  {
    IntToString(hash1) + IntToString(hash2) + IntToString(hash3)
  }

  /** Bucket triples of single digits get distinct keys, so the key names the triple. */
  lemma ReducerHashInjective(a1: int, b1: int, c1: int, a2: int, b2: int, c2: int)
    requires 0 <= a1 < 10 && 0 <= b1 < 10 && 0 <= c1 < 10
    requires 0 <= a2 < 10 && 0 <= b2 < 10 && 0 <= c2 < 10
    requires MakeReducerHash(a1, b1, c1) == MakeReducerHash(a2, b2, c2)
    ensures a1 == a2 && b1 == b2 && c1 == c2
  {
    var k1, k2 := MakeReducerHash(a1, b1, c1), MakeReducerHash(a2, b2, c2);
    assert k1[0] == k2[0] && k1[1] == k2[1] && k1[2] == k2[2];
  }

  /** With multi-digit buckets the concatenation can be ambiguous even for the increasing triples
      the mapper builds: (0, 1, 112) and (0, 11, 12) share the key "01112". Single-digit buckets
      (at most 10 of them) are enough for distinct keys, by `ReducerHashInjective`; this pair
      shows that with 113 buckets or more distinct groups can share a key. */
  lemma ReducerHashCollidesBeyondDigits()
    ensures MakeReducerHash(0, 1, 112) == MakeReducerHash(0, 11, 12) == "01112"
  {
    assert NatToString(11) == "11";
    assert NatToString(112) == "112";
    assert NatToString(12) == "12";
  }

  /** makeEdge (src/main/java/TriangleReducer.java:56-58) and the mapper's edge text
      (src/main/java/TriangleMapper.java:37): `left#right`. */
  function MakeEdge(node1: int, node2: int): (text: string)
    ensures |text| >= 3 && '#' in text
  {
    IntToString(node1) + "#" + IntToString(node2)
  }

  /** The edge text determines the ordered pair, so a set of edge texts is a set of ordered pairs
      and a lookup of `makeEdge(x, y)` is a lookup of the pair (x, y). */
  lemma MakeEdgeInjective(x1: int, y1: int, x2: int, y2: int)
    requires MakeEdge(x1, y1) == MakeEdge(x2, y2)
    ensures x1 == x2 && y1 == y2
  {
    var s1, s2 := IntToString(x1), IntToString(x2);
    var t := MakeEdge(x1, y1);
    assert s1 == t[..|s1|] == s2;
    assert IntToString(y1) == t[|s1| + 1..] == IntToString(y2);
    IntToStringInjective(x1, x2);
    IntToStringInjective(y1, y2);
  }
}
