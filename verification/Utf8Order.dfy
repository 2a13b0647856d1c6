/**
 * The byte layout that src/fort.c writes and reads, by the value of each bit and by the order of the bytes: section 3 of
 * RFC 3629 promises that byte order and codepoint order are the same.
 */
module Utf8Order {
  import opened Utf8Codec
  import opened Utf8Strings

  // ---- The value of the bits ----

  /** What a bit stands for that has `n` continuation bytes behind it. */
  function Place(n: nat): nat {
    if n == 0 then 1 else 0x40 * Place(n - 1)
  }

  /** The fixed bits of the first of `n` bytes. */
  function Marker(n: nat): int {
    if n == 1 then 0 else if n == 2 then 0xc0 else if n == 3 then 0xe0 else 0xf0
  }

  /** The bits of byte `k` that belong to the codepoint. */
  function Payload(bytes: seq<int>, k: nat): int
    requires k < |bytes|
  {
    if k == 0 then bytes[0] - Marker(|bytes|) else bytes[k] - 0x80
  }

  /** The first `n` bytes, each with the value of its place. */
  function Positional(bytes: seq<int>, n: nat): int
    requires n <= |bytes|
  {
    if n == 0 then 0 else Positional(bytes, n - 1) + Payload(bytes, n - 1) * Place(|bytes| - n)
  }

  lemma PositionalIs(bytes: seq<int>)
    ensures Place(0) == 1 && Place(1) == 0x40 && Place(2) == 0x1000 && Place(3) == 0x4_0000
    ensures |bytes| == 1 ==> Positional(bytes, 1) == bytes[0]
    ensures |bytes| == 2 ==> Positional(bytes, 2) == (bytes[0] - 0xc0) * 0x40 + (bytes[1] - 0x80)
    ensures |bytes| == 3 ==> Positional(bytes, 3)
                             == (bytes[0] - 0xe0) * 0x1000 + (bytes[1] - 0x80) * 0x40 + (bytes[2] - 0x80)
    ensures |bytes| == 4 ==> Positional(bytes, 4)
                             == (bytes[0] - 0xf0) * 0x4_0000 + (bytes[1] - 0x80) * 0x1000 + (bytes[2] - 0x80) * 0x40
                                + (bytes[3] - 0x80)
  {
    assert Place(1) == 0x40 * Place(0) && Place(2) == 0x40 * Place(1) && Place(3) == 0x40 * Place(2);
    if |bytes| > 0 {
      assert Positional(bytes, 0) == 0;
      if |bytes| > 1 {
        assert Positional(bytes, 1) == Payload(bytes, 0) * Place(|bytes| - 1);
        if |bytes| > 2 {
          assert Positional(bytes, 2) == Positional(bytes, 1) + Payload(bytes, 1) * Place(|bytes| - 2);
          if |bytes| > 3 {
            assert Positional(bytes, 3) == Positional(bytes, 2) + Payload(bytes, 2) * Place(|bytes| - 3);
          }
        }
      }
    }
  }

  /** The bits of an encoding, the most significant first, make up the codepoint. */
  lemma EncodeIsPositional(cp: Codepoint)
    ensures Positional(Encode(cp), Size(cp)) == cp
    ensures forall k :: 0 < k < Size(cp) ==> 0 <= Payload(Encode(cp), k) < 0x40
  {
    PositionalIs(Encode(cp));
    Shifts(cp);
  }

  /** What is decoded has the value of the bits. */
  lemma DecodeIsPositional(bytes: seq<Byte>)
    requires ShortestForm(bytes)
    ensures Decode(bytes) == Positional(bytes, |bytes|)
  {
    hide Encode, Decode, Positional;
    if bytes[0] == 0 {
      ZeroByte(bytes);
    } else {
      ShortestIsEncoded(bytes);
      EncodeIsPositional(Decode(bytes));
    }
  }

  lemma ZeroByte(bytes: seq<Byte>)
    requires ShortestForm(bytes) && bytes[0] == 0
    ensures Decode(bytes) == 0 == Positional(bytes, |bytes|)
  {
    PositionalIs(bytes);
  }

  // ---- The order of the bytes ----

  /** Comparing item by item, as `strcmp` compares bytes. */
  predicate Less(s: seq<int>, t: seq<int>) {
    t != [] && (s == [] || s[0] < t[0] || (s[0] == t[0] && Less(s[1..], t[1..])))
  }

  lemma {:induction false} LessIsAsymmetric(s: seq<int>, t: seq<int>)
    requires Less(s, t)
    ensures !Less(t, s) && s != t
    decreases |s|
  {
    if s != [] && s[0] == t[0] {
      LessIsAsymmetric(s[1..], t[1..]);
    }
  }

  lemma {:induction false} LessBehind(p: seq<int>, s: seq<int>, t: seq<int>)
    ensures Less(p + s, p + t) <==> Less(s, t)
  {
    if p == [] {
      assert p + s == s && p + t == t;
    } else {
      assert (p + s)[1..] == p[1..] + s && (p + t)[1..] == p[1..] + t;
      LessBehind(p[1..], s, t);
    }
  }

  /** Two sequences that agree in front of place `k` and differ there. */
  ghost predicate SmallerAt(s: seq<int>, t: seq<int>, k: nat) {
    k < |s| && k < |t| && s[..k] == t[..k] && s[k] < t[k]
  }

  lemma SmallerIsLess(s: seq<int>, t: seq<int>, k: nat)
    requires SmallerAt(s, t, k)
    ensures Less(s, t)
  {
    assert s == s[..k] + s[k..] && t == s[..k] + t[k..];
    LessBehind(s[..k], s[k..], t[k..]);
  }

  lemma LeadsDiffer(a: Codepoint, b: Codepoint)
    requires a < b && Size(a) < Size(b)
    ensures SmallerAt(Encode(a), Encode(b), 0)
  {
  }

  /** Numbers compared by their last digit to the base 64 and what stands before it. */
  lemma Digits(a: nat, b: nat)
    requires a < b
    ensures a / 0x40 < b / 0x40 || (a / 0x40 == b / 0x40 && Trail(a) < Trail(b))
  {
  }

  lemma TwoBytesDiffer(a: Codepoint, b: Codepoint) returns (k: nat)
    requires a < b && Size(a) == Size(b) == 2
    ensures SmallerAt(Encode(a), Encode(b), k)
  {
    hide Trail;
    Digits(a, b);
    k := if a / 0x40 == b / 0x40 then 1 else 0;
  }

  lemma ThreeBytesDiffer(a: Codepoint, b: Codepoint) returns (k: nat)
    requires a < b && Size(a) == Size(b) == 3
    ensures SmallerAt(Encode(a), Encode(b), k)
  {
    hide Trail;
    Shifts(a);
    Shifts(b);
    Digits(a, b);
    if a / 0x40 == b / 0x40 {
      return 2;
    }
    Digits(a / 0x40, b / 0x40);
    k := if a / 0x1000 == b / 0x1000 then 1 else 0;
  }

  lemma FourBytesDiffer(a: Codepoint, b: Codepoint) returns (k: nat)
    requires a < b && Size(a) == Size(b) == 4
    ensures SmallerAt(Encode(a), Encode(b), k)
  {
    hide Trail;
    Shifts(a);
    Shifts(b);
    Digits(a, b);
    if a / 0x40 == b / 0x40 {
      return 3;
    }
    Digits(a / 0x40, b / 0x40);
    if a / 0x1000 == b / 0x1000 {
      return 2;
    }
    Digits(a / 0x1000, b / 0x1000);
    k := if a / 0x4_0000 == b / 0x4_0000 then 1 else 0;
  }

  /** Where the encodings of two codepoints differ. */
  lemma EncodingsDiffer(a: Codepoint, b: Codepoint) returns (k: nat)
    requires a < b
    ensures SmallerAt(Encode(a), Encode(b), k)
  {
    hide SmallerAt;
    if Size(a) < Size(b) {
      LeadsDiffer(a, b);
      k := 0;
    } else if Size(a) == 4 {
      k := FourBytesDiffer(a, b);
    } else if Size(a) == 3 {
      k := ThreeBytesDiffer(a, b);
    } else if Size(a) == 2 {
      k := TwoBytesDiffer(a, b);
    } else {
      assert SmallerAt(Encode(a), Encode(b), 0) by {
        OneByteDiffers(a, b);
      }
      k := 0;
    }
  }

  lemma OneByteDiffers(a: Codepoint, b: Codepoint)
    requires a < b && Size(a) == Size(b) == 1
    ensures SmallerAt(Encode(a), Encode(b), 0)
  {
  }

  /** Byte order of encodings is the order of the codepoints. */
  lemma EncodeKeepsOrder(a: Codepoint, b: Codepoint)
    ensures a < b <==> Less(Encode(a), Encode(b))
  {
    hide Encode;
    if a < b {
      var k := EncodingsDiffer(a, b);
      SmallerIsLess(Encode(a), Encode(b), k);
    } else if b < a {
      var k := EncodingsDiffer(b, a);
      SmallerIsLess(Encode(b), Encode(a), k);
      LessIsAsymmetric(Encode(b), Encode(a));
    } else if Less(Encode(a), Encode(b)) {
      LessIsAsymmetric(Encode(a), Encode(b));
    }
  }

  lemma DifferenceStays(s: seq<int>, t: seq<int>, u: seq<int>, v: seq<int>, k: nat)
    requires SmallerAt(s, t, k)
    ensures Less(s + u, t + v)
  {
    assert (s + u)[..k] == s[..k] && (t + v)[..k] == t[..k];
    SmallerIsLess(s + u, t + v, k);
  }

  /** Comparing two strings byte by byte is comparing them codepoint by codepoint. */
  lemma {:induction false} StringsKeepOrder(a: seq<Codepoint>, b: seq<Codepoint>)
    ensures Less(a, b) <==> Less(EncodeAll(a), EncodeAll(b))
  {
    hide Encode;
    if a != [] && b != [] {
      var u, v := EncodeAll(a[1..]), EncodeAll(b[1..]);
      if a[0] < b[0] {
        var k := EncodingsDiffer(a[0], b[0]);
        DifferenceStays(Encode(a[0]), Encode(b[0]), u, v, k);
      } else if b[0] < a[0] {
        var k := EncodingsDiffer(b[0], a[0]);
        DifferenceStays(Encode(b[0]), Encode(a[0]), v, u, k);
        LessIsAsymmetric(EncodeAll(b), EncodeAll(a));
      } else {
        StringsKeepOrder(a[1..], b[1..]);
        LessBehind(Encode(a[0]), u, v);
      }
    }
  }
}
