/** Length and search on NUL-terminated UTF-8 strings of src/fort.c. */
module Utf8Search {
  import opened Utf8Codec
  import opened Utf8Strings

  /** The string at a codepoint boundary is the encoding of the remaining codepoints. */
  lemma EncodedTail(cps: seq<Codepoint>, j: nat)
    requires j <= |cps|
    ensures Offset(cps, j) <= |EncodeAll(cps)|
    ensures EncodeAll(cps)[Offset(cps, j)..] == EncodeAll(cps[j..])
  {
    hide EncodeAll;
    assert cps == cps[..j] + cps[j..];
    EncodeAllConcat(cps[..j], cps[j..]);
  }

  /** From a boundary before the end, the length told by the lead byte leads to the next boundary. */
  lemma NextBoundary(cps: seq<Codepoint>, j: nat)
    requires Scalars(cps) && j <= |cps| && Offset(cps, j) < |EncodeAll(cps)|
    ensures j < |cps|
    ensures var o := Offset(cps, j);
            o + LeadSize(EncodeAll(cps)[o]) == Offset(cps, j + 1) <= |EncodeAll(cps)|
  {
    hide Encode, Size, EncodeAll, LeadSize;
    assert cps[..|cps|] == cps;
    ReadsCodepoint(cps, j);
  }

  /** Only the last boundary is the end of the string. */
  lemma EndBoundary(cps: seq<Codepoint>, j: nat)
    requires Scalars(cps) && j <= |cps|
    ensures Offset(cps, j) == |EncodeAll(cps)| <==> j == |cps|
  {
    hide Encode, Size, EncodeAll;
    assert cps[..|cps|] == cps;
    if j < |cps| {
      ReadsCodepoint(cps, j);
    }
  }

  // ---- utf8len ----

  /** `utf8len`: the number of codepoints. */
  method Utf8Len(str: array<Byte>, ghost cps: seq<Codepoint>) returns (length: nat)
    requires Scalars(cps) && IsString(str[..], 0, EncodeAll(cps))
    ensures length == |cps|
  {
    hide Encode, Size, EncodeAll;
    var i := 0;
    length := 0;
    ghost var s := EncodeAll(cps);
    EncodedTail(cps, 0);
    assert Offset(cps, 0) == 0 by {
      OffsetZero(cps);
    }
    StringByte(str[..], 0, s, 0);
    while str[i] != 0
      invariant length <= |cps| && i == Offset(cps, length) <= |s|
      invariant str[i] == ByteAt(s, i) && (str[i] == 0 <==> i == |s|)
      decreases |s| - i
    {
      NextBoundary(cps, length);
      if Leads4(str[i]) {
        i := i + 4;
      } else if Leads3(str[i]) {
        i := i + 3;
      } else if Leads2(str[i]) {
        i := i + 2;
      } else {
        i := i + 1;
      }
      length := length + 1;
      StringByte(str[..], 0, s, i);
    }
    EndBoundary(cps, length);
  }

  lemma OffsetZero(cps: seq<Codepoint>)
    ensures Offset(cps, 0) == 0
  {
  }

  // ---- utf8str ----

  /** `n` occurs in `h` at byte `p`. */
  ghost predicate Occurs(h: seq<Byte>, n: seq<Byte>, p: nat) {
    p + |n| <= |h| && h[p..p + |n|] == n
  }

  /** Bytes that start with a lead byte occur only at codepoint boundaries. */
  lemma OccursAtBoundary(cps: seq<Codepoint>, n: seq<Byte>, p: nat) returns (j: nat)
    requires Scalars(cps) && n != [] && !Continues(n[0]) && Occurs(EncodeAll(cps), n, p)
    ensures j < |cps| && Offset(cps, j) == p
  {
    assert EncodeAll(cps)[p..p + |n|][0] == EncodeAll(cps)[p];
    j := LeadByteIsBoundary(cps, p);
  }

  lemma WellFormedStartsWithLead(n: seq<Byte>)
    requires WellFormed(n) && n != []
    ensures !Continues(n[0])
  {
    var cps :| Scalars(cps) && EncodeAll(cps) == n;
    EncodeShape(cps[0]);
  }

  lemma {:induction false} OffsetsGrow(cps: seq<Codepoint>, i: nat, j: nat)
    requires i < j <= |cps|
    ensures Offset(cps, i) < Offset(cps, j) <= |EncodeAll(cps)|
    decreases j - i
  {
    hide Encode, Size, EncodeAll;
    EncodedTail(cps, j);
    EncodedAt(cps, i);
    if i + 1 < j {
      OffsetsGrow(cps, i + 1, j);
    }
  }

  /** Between two neighbouring boundaries nothing that starts with a lead byte occurs. */
  lemma NoOccurrenceBetween(cps: seq<Codepoint>, n: seq<Byte>, j: nat, p: nat)
    requires Scalars(cps) && n != [] && !Continues(n[0]) && j < |cps|
    requires Offset(cps, j) < p < Offset(cps, j + 1)
    ensures !Occurs(EncodeAll(cps), n, p)
  {
    hide Encode, Size, EncodeAll, Offset;
    if Occurs(EncodeAll(cps), n, p) {
      var i := OccursAtBoundary(cps, n, p);
      if i <= j {
        OffsetOrder(cps, i, j);
      } else {
        OffsetOrder(cps, j + 1, i);
      }
    }
  }

  lemma OffsetOrder(cps: seq<Codepoint>, i: nat, j: nat)
    requires i <= j <= |cps|
    ensures Offset(cps, i) <= Offset(cps, j)
  {
    if i < j {
      OffsetsGrow(cps, i, j);
    }
  }

  /** How far `h` at `p` and `n` agree decides whether `n` occurs there. */
  lemma MatchedPrefix(h: seq<Byte>, n: seq<Byte>, p: nat, k: nat)
    requires p + k <= |h| && k <= |n| && h[p..p + k] == n[..k]
    requires k < |n| ==> p + k == |h| || h[p + k] != n[k]
    ensures Occurs(h, n, p) <==> k == |n|
  {
    assert Occurs(h, n, p) ==> forall i :: 0 <= i < |n| ==> h[p..p + |n|][i] == h[p + i] == n[i];
  }

  /** The inner loop of `utf8str`: compares from position `h` until the bytes differ or either string ends. */
  method MatchLength(hay: array<Byte>, at: nat, h: nat, needle: array<Byte>, ghost s: seq<Byte>, ghost n: seq<Byte>)
    returns (k: nat)
    requires IsString(hay[..], at, s) && IsString(needle[..], 0, n) && at <= h <= at + |s|
    ensures k <= |n| && k < needle.Length && (needle[k] == 0 <==> k == |n|)
    ensures Occurs(s, n, h - at) <==> k == |n|
  {
    k := 0;
    ghost var p := h - at;
    StringByte(hay[..], at, s, p);
    StringByte(needle[..], 0, n, 0);
    while hay[h + k] == needle[k] && hay[h + k] != 0 && needle[k] != 0
      invariant p + k <= |s| && k <= |n|
      invariant s[p..p + k] == n[..k]
      invariant hay[h + k] == ByteAt(s, p + k) && needle[k] == ByteAt(n, k)
      invariant (hay[h + k] == 0 <==> p + k == |s|) && (needle[k] == 0 <==> k == |n|)
      decreases |n| - k
    {
      assert s[p..p + k + 1] == s[p..p + k] + [s[p + k]] && n[..k + 1] == n[..k] + [n[k]];
      k := k + 1;
      StringByte(hay[..], at, s, p + k);
      StringByte(needle[..], 0, n, k);
    }
    MatchedPrefix(s, n, p, k);
  }

  /** `utf8str`: tries codepoint boundaries only, yet finds the first byte-level occurrence; -1 is the null pointer. */
  method Utf8Str(hay: array<Byte>, at: nat, needle: array<Byte>, ghost cps: seq<Codepoint>, ghost n: seq<Byte>)
    returns (r: int)
    requires Scalars(cps) && IsString(hay[..], at, EncodeAll(cps))
    requires WellFormed(n) && IsString(needle[..], 0, n)
    ensures r == -1 ==> forall p: nat :: !Occurs(EncodeAll(cps), n, p)
    ensures r != -1 ==> r >= at && Occurs(EncodeAll(cps), n, r - at)
                        && forall p: nat :: p < r - at ==> !Occurs(EncodeAll(cps), n, p)
  {
    hide Encode, Size, EncodeAll;
    ghost var s := EncodeAll(cps);
    StringByte(needle[..], 0, n, 0);
    if needle[0] == 0 {
      return at;
    }
    WellFormedStartsWithLead(n);
    ghost var j := 0;
    var h := at;
    OffsetZero(cps);
    StringByte(hay[..], at, s, 0);
    while hay[h] != 0
      invariant j <= |cps| && h == at + Offset(cps, j) <= at + |s|
      invariant hay[h] == ByteAt(s, h - at) && (hay[h] == 0 <==> h == at + |s|)
      invariant forall p: nat :: p < h - at ==> !Occurs(s, n, p)
      decreases |s| - (h - at)
    {
      var k := MatchLength(hay, at, h, needle, s, n);
      if needle[k] == 0 {
        return h;
      }
      NextBoundary(cps, j);
      forall p: nat | h - at < p < Offset(cps, j + 1) ensures !Occurs(s, n, p) {
        NoOccurrenceBetween(cps, n, j, p);
      }
      var next, _ := Utf8Codepoint(hay, h);
      h := next;
      j := j + 1;
      StringByte(hay[..], at, s, h - at);
    }
    assert forall p: nat :: p >= |s| ==> !Occurs(s, n, p);
    return -1;
  }

  // ---- utf8chr and utf8chr_count ----

  lemma SingleIsWellFormed(chr: Codepoint)
    requires chr != 0
    ensures WellFormed(Encode(chr)) && 0 !in Encode(chr)
  {
    hide Encode, Size;
    EncodeAllSingle(chr);
    EncodeAllHasNoZero([chr]);
    assert Scalars([chr]);
  }

  /** At a boundary, the bytes of `chr` occur exactly if the codepoint there is `chr`. */
  lemma OccursIffCodepoint(cps: seq<Codepoint>, chr: Codepoint, j: nat)
    requires Scalars(cps) && chr != 0 && j < |cps|
    ensures Occurs(EncodeAll(cps), Encode(chr), Offset(cps, j)) <==> cps[j] == chr
  {
    hide Encode, Size, EncodeAll, Decode, LeadSize;
    var s, o := EncodeAll(cps), Offset(cps, j);
    ReadsCodepoint(cps, j);
    EncodedByte(cps, j, 0);
    EncodedAt(cps, j);
    EncodeShape(chr);
    EncodeShape(cps[j]);
    DecodeEncode(chr);
    DecodeEncode(cps[j]);
    if Occurs(s, Encode(chr), o) {
      assert s[o..o + |Encode(chr)|][0] == s[o];
    }
  }

  /** `utf8chr` writes the bytes of `chr` into a local buffer of five bytes that starts as zeros. */
  method EncodeToBuffer(chr: Codepoint) returns (c: array<Byte>)
    requires chr != 0
    ensures fresh(c) && IsString(c[..], 0, Encode(chr))
  {
    c := new Byte[5](_ => 0);
    var end := Utf8CatCodepoint(c, 0, chr, 4);
    SingleIsWellFormed(chr);
  }

  /** `utf8chr`: the position of the first codepoint equal to `chr`, -1 for none; the terminator if `chr` is 0. */
  method Utf8Chr(str: array<Byte>, at: nat, chr: Codepoint, ghost cps: seq<Codepoint>) returns (r: int, ghost j: nat)
    requires Scalars(cps) && IsString(str[..], at, EncodeAll(cps))
    ensures chr == 0 ==> r == at + |EncodeAll(cps)|
    ensures chr != 0 && r == -1 ==> chr !in cps
    ensures chr != 0 && r != -1 ==>
              j < |cps| && cps[j] == chr && chr !in cps[..j] && r == at + Offset(cps, j)
  {
    hide Encode, Size, EncodeAll;
    j := 0;
    if chr == 0 {
      var i := at;
      StringByte(str[..], at, EncodeAll(cps), 0);
      while str[i] != 0
        invariant at <= i <= at + |EncodeAll(cps)|
        invariant str[i] == 0 <==> i == at + |EncodeAll(cps)|
        decreases at + |EncodeAll(cps)| - i
      {
        i := i + 1;
        StringByte(str[..], at, EncodeAll(cps), i - at);
      }
      return i, 0;
    }
    SingleIsWellFormed(chr);
    var c := EncodeToBuffer(chr);
    r := Utf8Str(str, at, c, cps, Encode(chr));
    if r == -1 {
      forall i | 0 <= i < |cps| ensures cps[i] != chr {
        OccursIffCodepoint(cps, chr, i);
      }
    } else {
      WellFormedStartsWithLead(Encode(chr));
      j := OccursAtBoundary(cps, Encode(chr), r - at);
      OccursIffCodepoint(cps, chr, j);
      forall i | 0 <= i < j ensures cps[i] != chr {
        OccursIffCodepoint(cps, chr, i);
        OffsetsGrow(cps, i, j);
      }
    }
  }

  ghost function Occurrences<T>(s: seq<T>, x: T): nat {
    multiset(s)[x]
  }

  lemma CountAfterFirst<T>(s: seq<T>, j: nat)
    requires j < |s| && s[j] !in s[..j]
    ensures Occurrences(s, s[j]) == 1 + Occurrences(s[j + 1..], s[j])
  {
    assert s == s[..j] + [s[j]] + s[j + 1..];
    assert s[j] !in multiset(s[..j]);
  }

  lemma NoOccurrence<T>(s: seq<T>, x: T)
    requires x !in s
    ensures Occurrences(s, x) == 0
  {
    assert x !in multiset(s);
  }

  /** The string behind codepoint `j` holds the codepoints behind it. */
  lemma StringBehind(buf: seq<Byte>, at: nat, cps: seq<Codepoint>, j: nat)
    requires Scalars(cps) && IsString(buf, at, EncodeAll(cps)) && j < |cps|
    ensures IsString(buf, at + Offset(cps, j + 1), EncodeAll(cps[j + 1..])) && Scalars(cps[j + 1..])
  {
    hide Encode, Size, EncodeAll, Offset, IsString;
    EncodedTail(cps, j + 1);
    StringTail(buf, at, EncodeAll(cps), Offset(cps, j + 1));
  }

  /** Main result: `utf8chr_count` is the number of decoded codepoints equal to the one sought. */
  method Utf8ChrCount(str: array<Byte>, chr: Codepoint, ghost cps: seq<Codepoint>) returns (count: nat)
    requires Scalars(cps) && IsString(str[..], 0, EncodeAll(cps)) && chr != 0
    ensures count == Occurrences(cps, chr)
  {
    hide Encode, Size, EncodeAll, Offset, LeadSize, Decode, Occurrences;
    count := 0;
    ghost var rest := cps;
    ghost var start: nat := 0;
    var p: int;
    ghost var j: nat;
    p, j := Utf8Chr(str, 0, chr, cps);
    while p != -1
      invariant Scalars(rest) && IsString(str[..], start, EncodeAll(rest))
      invariant Occurrences(cps, chr) == count + Occurrences(rest, chr)
      invariant p == -1 ==> chr !in rest
      invariant p != -1 ==> j < |rest| && rest[j] == chr && chr !in rest[..j] && p == start + Offset(rest, j)
      decreases |rest|
    {
      count := count + 1;
      ReadsCodepoint(rest, j);
      StringByte(str[..], start, EncodeAll(rest), Offset(rest, j));
      StringBehind(str[..], start, rest, j);
      CountAfterFirst(rest, j);
      var next, _ := Utf8Codepoint(str, p);
      start := next;
      rest := rest[j + 1..];
      p, j := Utf8Chr(str, next, chr, rest);
    }
    NoOccurrence(rest, chr);
  }
}
