/** NUL-terminated UTF-8 strings of src/fort.c: the validator, the length, and a search that only tries codepoint
    boundaries. A pointer into a string is an array with a position. */
module Utf8Strings {
  import opened Utf8Codec

  // ---- Encoded strings ----

  ghost function EncodeAll(cps: seq<Codepoint>): seq<Byte> {
    if cps == [] then [] else Encode(cps[0]) + EncodeAll(cps[1..])
  }

  /** The bytes are the encodings of some codepoints, one after another. */
  ghost predicate WellFormed(s: seq<Byte>) {
    exists cps :: Scalars(cps) && EncodeAll(cps) == s
  }

  /** Where codepoint `j` starts. */
  ghost function Offset(cps: seq<Codepoint>, j: nat): nat
    requires j <= |cps|
  {
    |EncodeAll(cps[..j])|
  }

  lemma {:induction false} EncodeAllConcat(a: seq<Codepoint>, b: seq<Codepoint>)
    ensures EncodeAll(a + b) == EncodeAll(a) + EncodeAll(b)
  {
    hide Encode, Size;
    if a == [] {
      assert a + b == b;
    } else {
      EncodeAllConcat(a[1..], b);
      assert (a + b)[1..] == a[1..] + b;
    }
  }

  lemma EncodeAllSingle(cp: Codepoint)
    ensures EncodeAll([cp]) == Encode(cp)
  {
    hide Encode, Size;
    assert [cp][1..] == [];
    assert Encode(cp) + [] == Encode(cp);
  }

  lemma EncodeAllPrefix(cps: seq<Codepoint>, j: nat)
    requires j < |cps|
    ensures EncodeAll(cps[..j + 1]) == EncodeAll(cps[..j]) + Encode(cps[j])
  {
    hide *;
    assert cps[..j + 1] == cps[..j] + [cps[j]];
    EncodeAllConcat(cps[..j], [cps[j]]);
    EncodeAllSingle(cps[j]);
  }

  /** The bytes of codepoint `j` stand between its offset and the next one. */
  lemma EncodedAt(cps: seq<Codepoint>, j: nat)
    requires j < |cps|
    ensures |EncodeAll(cps[..j + 1])| == |EncodeAll(cps[..j])| + Size(cps[j])
    ensures EncodeAll(cps) == EncodeAll(cps[..j]) + Encode(cps[j]) + EncodeAll(cps[j + 1..])
  {
    hide *;
    assert cps == cps[..j + 1] + cps[j + 1..];
    EncodeAllConcat(cps[..j + 1], cps[j + 1..]);
    EncodeAllPrefix(cps, j);
  }

  /** The same, byte by byte. */
  lemma EncodedByte(cps: seq<Codepoint>, j: nat, k: nat)
    requires j < |cps| && k < Size(cps[j])
    ensures Offset(cps, j) + k < |EncodeAll(cps)|
    ensures EncodeAll(cps)[Offset(cps, j) + k] == Encode(cps[j])[k]
  {
    hide Encode, Size;
    EncodedAt(cps, j);
  }

  lemma {:induction false} EncodeAllHasNoZero(cps: seq<Codepoint>)
    requires Scalars(cps)
    ensures 0 !in EncodeAll(cps)
  {
    hide Encode, Size;
    if cps != [] {
      EncodeShape(cps[0]);
      EncodeAllHasNoZero(cps[1..]);
    }
  }

  /** No encoding is a proper prefix of another, so decoding is unique. */
  lemma {:induction false} PrefixCode(cps: seq<Codepoint>, cps': seq<Codepoint>)
    requires Scalars(cps) && Scalars(cps') && EncodeAll(cps) <= EncodeAll(cps')
    ensures cps <= cps'
  {
    hide Encode, Size, LeadSize, Decode;
    if cps != [] {
      var c := cps[0];
      EncodeShape(c);
      assert EncodeAll(cps)[0] == Encode(c)[0];
      assert cps' != [];
      var c' := cps'[0];
      EncodeShape(c');
      assert EncodeAll(cps)[0] == EncodeAll(cps')[0];
      assert EncodeAll(cps)[..Size(c)] == Encode(c);
      assert EncodeAll(cps')[..Size(c)] == Encode(c');
      assert Encode(c) == Encode(c');
      DecodeEncode(c);
      DecodeEncode(c');
      assert c == c';
      assert EncodeAll(cps)[Size(c)..] == EncodeAll(cps[1..]);
      assert EncodeAll(cps')[Size(c)..] == EncodeAll(cps'[1..]);
      PrefixCode(cps[1..], cps'[1..]);
      assert cps == [c] + cps[1..] && cps' == [c] + cps'[1..];
    }
  }

  /** Main result: the codepoints of a well-formed string are unique. */
  lemma DecodingIsUnique(cps: seq<Codepoint>, cps': seq<Codepoint>)
    requires Scalars(cps) && Scalars(cps') && EncodeAll(cps) == EncodeAll(cps')
    ensures cps == cps'
  {
    PrefixCode(cps, cps');
    PrefixCode(cps', cps);
  }

  /** Self-synchronisation: a byte that does not continue a codepoint starts one. */
  lemma {:induction false} LeadByteIsBoundary(cps: seq<Codepoint>, p: nat) returns (j: nat)
    requires Scalars(cps) && p < |EncodeAll(cps)| && !Continues(EncodeAll(cps)[p])
    ensures j < |cps| && Offset(cps, j) == p
  {
    hide Encode, Size;
    EncodeShape(cps[0]);
    assert p < Size(cps[0]) ==> EncodeAll(cps)[p] == Encode(cps[0])[p];
    if p == 0 {
      j := 0;
    } else {
      var i := LeadByteIsBoundary(cps[1..], p - Size(cps[0]));
      j := i + 1;
      assert cps[..j][1..] == cps[1..][..i];
    }
  }

  // ---- Pointers to strings ----

  /** `s` is the string that starts at position `i` of `buf`. */
  ghost predicate IsString(buf: seq<Byte>, i: nat, s: seq<Byte>) {
    i + |s| < |buf| && buf[i..i + |s|] == s && buf[i + |s|] == 0 && 0 !in s
  }

  lemma StringByte(buf: seq<Byte>, i: nat, s: seq<Byte>, k: nat)
    requires IsString(buf, i, s) && k <= |s|
    ensures buf[i + k] == if k < |s| then s[k] else 0
    ensures buf[i + k] == 0 <==> k == |s|
  {
    if k < |s| {
      assert buf[i..i + |s|][k] == s[k];
      assert s[k] in s;
    }
  }

  lemma StringTail(buf: seq<Byte>, i: nat, s: seq<Byte>, k: nat)
    requires IsString(buf, i, s) && k <= |s|
    ensures IsString(buf, i + k, s[k..])
  {
    assert buf[i + k..i + |s|] == buf[i..i + |s|][k..];
  }

  // ---- utf8codepoint ----

  /** Reads one codepoint and returns the position after it. */
  method Utf8Codepoint(str: array<Byte>, i: nat) returns (next: nat, cp: Codepoint)
    requires i < str.Length && i + LeadSize(str[i]) <= str.Length
    ensures next == i + LeadSize(str[i])
    ensures cp == Decode(str[..][i..i + LeadSize(str[i])])
  {
    if Leads4(str[i]) {
      cp := Append(Append(Append(str[i] % 0x8, str[i + 1]), str[i + 2]), str[i + 3]);
      next := i + 4;
    } else if Leads3(str[i]) {
      cp := Append(Append(str[i] % 0x10, str[i + 1]), str[i + 2]);
      next := i + 3;
    } else if Leads2(str[i]) {
      cp := Append(str[i] % 0x20, str[i + 1]);
      next := i + 2;
    } else {
      cp := str[i];
      next := i + 1;
    }
  }

  /** At the offset of codepoint `j` the bytes there decode to it, and the next position is the next offset. */
  lemma ReadsCodepoint(cps: seq<Codepoint>, j: nat)
    requires Scalars(cps) && j < |cps|
    ensures var s, o := EncodeAll(cps), Offset(cps, j);
            && o < |s| && o + LeadSize(s[o]) == Offset(cps, j + 1) <= |s|
            && s[o..Offset(cps, j + 1)] == Encode(cps[j])
            && Decode(s[o..o + LeadSize(s[o])]) == cps[j]
  {
    hide Encode, Size, Decode, LeadSize;
    EncodedAt(cps, j);
    DecodeEncode(cps[j]);
    EncodedByte(cps, j, 0);
    var s, o := EncodeAll(cps), Offset(cps, j);
    assert s[o..Offset(cps, j + 1)] == Encode(cps[j]);
  }

  // ---- utf8catcodepoint ----

  lemma Patched<T>(before: seq<T>, after: seq<T>, i: nat, bytes: seq<T>)
    requires |after| == |before| && i + |bytes| <= |before|
    requires forall k :: 0 <= k < |before| ==> after[k] == if i <= k < i + |bytes| then bytes[k - i] else before[k]
    ensures after == before[..i] + bytes + before[i + |bytes|..]
  {
  }

  /** Writes the bytes of `chr` at `i` if `n` bytes are enough for them; -1 stands for the null pointer. */
  method Utf8CatCodepoint(str: array<Byte>, i: nat, chr: Codepoint, n: nat) returns (end: int)
    requires i + n <= str.Length
    modifies str
    ensures n < Size(chr) ==> end == -1 && str[..] == old(str[..])
    ensures n >= Size(chr) ==>
              end == i + Size(chr) && str[..] == old(str[..i]) + Encode(chr) + old(str[i + Size(chr)..])
  {
    ghost var before := str[..];
    if chr < 0x80 {
      if n < 1 {
        return -1;
      }
      str[i] := chr;
      end := i + 1;
    } else if chr < 0x800 {
      if n < 2 {
        return -1;
      }
      str[i] := 0xc0 + chr / 0x40;
      str[i + 1] := Trail(chr);
      end := i + 2;
    } else if chr < 0x1_0000 {
      if n < 3 {
        return -1;
      }
      str[i] := 0xe0 + chr / 0x1000;
      str[i + 1] := Trail(chr / 0x40);
      str[i + 2] := Trail(chr);
      end := i + 3;
    } else {
      if n < 4 {
        return -1;
      }
      str[i] := 0xf0 + chr / 0x4_0000;
      str[i + 1] := Trail(chr / 0x1000);
      str[i + 2] := Trail(chr / 0x40);
      str[i + 3] := Trail(chr);
      end := i + 4;
    }
    Patched(before, str[..], i, Encode(chr));
  }

  // ---- utf8valid ----

  /** What the validator demands of the bytes at `i`. */
  ghost predicate AcceptedAt(s: seq<Byte>, i: nat)
    requires i < |s|
  {
    var n := LeadSize(s[i]);
    i + n <= |s| && ShortestForm(s[i..i + n]) && (n > 1 && i + n < |s| ==> !Continues(s[i + n]))
  }

  /** The string's byte at `k`, where everything from the end on reads as the terminator. */
  function ByteAt(s: seq<Byte>, k: nat): Byte {
    if k < |s| then s[k] else 0
  }

  /** The same demand, byte by byte: nothing beyond the terminator is looked at. */
  lemma AcceptedByteByByte(s: seq<Byte>, i: nat)
    requires i < |s|
    ensures AcceptedAt(s, i) <==>
      var b := s[i];
      if Leads4(b) then
        && Continues(ByteAt(s, i + 1)) && Continues(ByteAt(s, i + 2)) && Continues(ByteAt(s, i + 3))
        && !Continues(ByteAt(s, i + 4)) && !(b % 0x8 == 0 && ByteAt(s, i + 1) / 0x10 % 0x4 == 0)
      else if Leads3(b) then
        && Continues(ByteAt(s, i + 1)) && Continues(ByteAt(s, i + 2))
        && !Continues(ByteAt(s, i + 3)) && !(b % 0x10 == 0 && ByteAt(s, i + 1) / 0x20 % 0x2 == 0)
      else if Leads2(b) then
        Continues(ByteAt(s, i + 1)) && !Continues(ByteAt(s, i + 2)) && b / 0x2 % 0x10 != 0
      else b < 0x80
  {
    var n := LeadSize(s[i]);
    if i + n <= |s| {
      var bytes := s[i..i + n];
      assert forall k :: 0 <= k < n ==> bytes[k] == ByteAt(s, i + k);
    } else {
      assert ByteAt(s, i + n - 1) == 0;
    }
  }

  lemma WellFormedAt(s: seq<Byte>, cps: seq<Codepoint>)
    requires Scalars(cps) && EncodeAll(cps) < s && WellFormed(s)
    ensures AcceptedAt(s, |EncodeAll(cps)|)
  {
    hide Encode, Size, LeadSize, ShortestForm;
    var all :| Scalars(all) && EncodeAll(all) == s;
    PrefixCode(cps, all);
    var j := |cps|;
    assert all[..j] == cps;
    assert all == cps ==> EncodeAll(cps) == s;
    ReadsCodepoint(all, j);
    EncodeIsShortest(all[j]);
    if j + 1 < |all| {
      EncodeShape(all[j + 1]);
      EncodedByte(all, j + 1, 0);
    } else {
      assert all[..j + 1] == all;
    }
  }

  lemma RejectedMeansIllFormed(s: seq<Byte>, cps: seq<Codepoint>)
    requires Scalars(cps) && EncodeAll(cps) < s && !AcceptedAt(s, |EncodeAll(cps)|)
    ensures !WellFormed(s)
  {
    if WellFormed(s) {
      WellFormedAt(s, cps);
    }
  }

  lemma AcceptedExtends(s: seq<Byte>, cps: seq<Codepoint>) returns (cp: Codepoint)
    requires Scalars(cps) && EncodeAll(cps) < s && 0 !in s && AcceptedAt(s, |EncodeAll(cps)|)
    ensures var i := |EncodeAll(cps)|;
            Scalars(cps + [cp]) && EncodeAll(cps + [cp]) == s[..i + LeadSize(s[i])]
  {
    hide Encode, Size, LeadSize, ShortestForm;
    var i := |EncodeAll(cps)|;
    var bytes := s[i..i + LeadSize(s[i])];
    assert bytes[0] == s[i] && s[i] in s;
    ShortestIsEncoded(bytes);
    cp := Decode(bytes);
    EncodeAllConcat(cps, [cp]);
    EncodeAllSingle(cp);
  }

  /** `utf8valid`: -1 stands for the null pointer, any other result is the position of the first bad codepoint.
      It never reads past the terminator, and it accepts exactly the well-formed strings. */
  method Utf8Valid(str: array<Byte>, ghost s: seq<Byte>) returns (bad: int)
    requires IsString(str[..], 0, s)
    ensures bad == -1 <==> WellFormed(s)
    ensures bad != -1 ==> 0 <= bad < |s| && WellFormed(s[..bad]) && !AcceptedAt(s, bad)
  {
    var i := 0;
    ghost var cps: seq<Codepoint> := [];
    forall k | 0 <= k <= |s| ensures str[k] == ByteAt(s, k) && (str[k] == 0 <==> k == |s|) {
      StringByte(str[..], 0, s, k);
    }
    while str[i] != 0
      invariant 0 <= i <= |s|
      invariant Scalars(cps) && EncodeAll(cps) == s[..i]
      decreases |s| - i
    {
      var ok := true;
      var n := 1;
      if Leads4(str[i]) {
        n := 4;
        if !Continues(str[i + 1]) || !Continues(str[i + 2]) || !Continues(str[i + 3]) {
          ok := false;
        } else if Continues(str[i + 4]) {
          ok := false;
        } else if str[i] % 0x8 == 0 && str[i + 1] / 0x10 % 0x4 == 0 {
          ok := false;
        }
      } else if Leads3(str[i]) {
        n := 3;
        if !Continues(str[i + 1]) || !Continues(str[i + 2]) {
          ok := false;
        } else if Continues(str[i + 3]) {
          ok := false;
        } else if str[i] % 0x10 == 0 && str[i + 1] / 0x20 % 0x2 == 0 {
          ok := false;
        }
      } else if Leads2(str[i]) {
        n := 2;
        if !Continues(str[i + 1]) {
          ok := false;
        } else if Continues(str[i + 2]) {
          ok := false;
        } else if str[i] / 0x2 % 0x10 == 0 {
          ok := false;
        }
      } else if str[i] >= 0x80 {
        ok := false;
      }
      AcceptedByteByByte(s, i);
      assert ok <==> AcceptedAt(s, i);
      if !ok {
        RejectedMeansIllFormed(s, cps);
        return i;
      }
      var cp := AcceptedExtends(s, cps);
      cps := cps + [cp];
      i := i + n;
    }
    assert s[..i] == s;
    return -1;
  }
}
