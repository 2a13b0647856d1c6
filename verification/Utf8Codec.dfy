/** The UTF-8 codec inside src/fort.c. The layout is that of section 3 of RFC 3629, but the code also encodes and
    accepts surrogates and the values above 0x10FFFF that fit in 21 bits. The source's masks and shifts are written
    as ranges, divisions and remainders. */
module Utf8Codec {

  type Byte = b: int | 0 <= b < 0x100

  type Codepoint = cp: int | 0 <= cp < 0x20_0000

  /** What a NUL-terminated string can hold: every codepoint but the terminator. */
  ghost predicate Scalars(cps: seq<Codepoint>) {
    forall i :: 0 <= i < |cps| ==> cps[i] != 0
  }

  /** 0b10xxxxxx */
  predicate Continues(b: Byte) {
    0x80 <= b < 0xc0
  }

  /** 0b110xxxxx */
  predicate Leads2(b: Byte) {
    0xc0 <= b < 0xe0
  }

  /** 0b1110xxxx */
  predicate Leads3(b: Byte) {
    0xe0 <= b < 0xf0
  }

  /** 0b11110xxx */
  predicate Leads4(b: Byte) {
    0xf0 <= b < 0xf8
  }

  /** `utf8codepointsize` */
  function Size(cp: Codepoint): (n: nat)
    ensures 1 <= n <= 4
  {
    if cp < 0x80 then 1 else if cp < 0x800 then 2 else if cp < 0x1_0000 then 3 else 4
  }

  /** A byte 0b10xxxxxx that holds the lowest six bits of `x`. */
  function Trail(x: nat): Byte {
    0x80 + x % 0x40
  }

  /** The bytes `utf8catcodepoint` writes. */
  function Encode(cp: Codepoint): (bytes: seq<Byte>)
    ensures |bytes| == Size(cp)
  {
    if cp < 0x80 then [cp]
    else if cp < 0x800 then [0xc0 + cp / 0x40, Trail(cp)]
    else if cp < 0x1_0000 then [0xe0 + cp / 0x1000, Trail(cp / 0x40), Trail(cp)]
    else [0xf0 + cp / 0x4_0000, Trail(cp / 0x1000), Trail(cp / 0x40), Trail(cp)]
  }

  /** How many bytes `utf8codepoint` and `utf8len` take for a codepoint that starts with `b`. */
  function LeadSize(b: Byte): (n: nat)
    ensures 1 <= n <= 4
  {
    if Leads4(b) then 4 else if Leads3(b) then 3 else if Leads2(b) then 2 else 1
  }

  /** `high`, followed by the low six bits of a continuation byte. */
  function Append(high: nat, b: Byte): nat {
    high * 0x40 + b % 0x40
  }

  /** The codepoint `utf8codepoint` reads from bytes that start with those of one codepoint. */
  function Decode(bytes: seq<Byte>): Codepoint
    requires bytes != [] && LeadSize(bytes[0]) <= |bytes|
  {
    if Leads4(bytes[0]) then Append(Append(Append(bytes[0] % 0x8, bytes[1]), bytes[2]), bytes[3])
    else if Leads3(bytes[0]) then Append(Append(bytes[0] % 0x10, bytes[1]), bytes[2])
    else if Leads2(bytes[0]) then Append(bytes[0] % 0x20, bytes[1])
    else bytes[0]
  }

  /** An encoding is a lead byte that tells its length, followed by continuation bytes; none of them is 0. */
  lemma EncodeShape(cp: Codepoint)
    requires cp != 0
    ensures LeadSize(Encode(cp)[0]) == Size(cp)
    ensures !Continues(Encode(cp)[0]) && Encode(cp)[0] != 0
    ensures forall k :: 1 <= k < Size(cp) ==> Continues(Encode(cp)[k])
  {
  }

  lemma AppendTrail(x: nat)
    ensures Append(x / 0x40, Trail(x)) == x
  {
  }

  lemma SplitAppend(high: nat, b: Byte)
    requires Continues(b)
    ensures Append(high, b) == high * 0x40 + (b - 0x80)
    ensures Append(high, b) / 0x40 == high && Trail(Append(high, b)) == b
  {
  }

  lemma Shifts(x: nat)
    ensures x / 0x40 / 0x40 == x / 0x1000 && x / 0x1000 / 0x40 == x / 0x4_0000
  {
  }

  /** What was encoded is decoded again. */
  lemma DecodeEncode(cp: Codepoint)
    requires cp != 0
    ensures LeadSize(Encode(cp)[0]) == Size(cp)
    ensures Decode(Encode(cp)) == cp
  {
    hide Append, Trail;
    AppendTrail(cp);
    AppendTrail(cp / 0x40);
    AppendTrail(cp / 0x1000);
    Shifts(cp);
  }

  /** The validator's tests on the bytes of one codepoint: continuation bytes follow, and the bits that only this
      length can hold are not all 0. */
  predicate ShortestForm(bytes: seq<Byte>) {
    && bytes != [] && |bytes| == LeadSize(bytes[0])
    && (|bytes| > 1 ==> Continues(bytes[1]))
    && (|bytes| > 2 ==> Continues(bytes[2]))
    && (|bytes| > 3 ==> Continues(bytes[3]))
    && if Leads4(bytes[0]) then !(bytes[0] % 0x8 == 0 && bytes[1] / 0x10 % 0x4 == 0)
       else if Leads3(bytes[0]) then !(bytes[0] % 0x10 == 0 && bytes[1] / 0x20 % 0x2 == 0)
       else if Leads2(bytes[0]) then bytes[0] / 0x2 % 0x10 != 0
       else bytes[0] < 0x80
  }

  lemma EncodeIsShortest(cp: Codepoint)
    requires cp != 0
    ensures ShortestForm(Encode(cp))
  {
  }

  lemma Rebuild2(b0: Byte, b1: Byte)
    requires Leads2(b0) && Continues(b1) && b0 / 0x2 % 0x10 != 0
    ensures Encode(Decode([b0, b1])) == [b0, b1]
  {
    hide Append, Trail;
    SplitAppend(b0 % 0x20, b1);
  }

  lemma Rebuild3(b0: Byte, b1: Byte, b2: Byte)
    requires Leads3(b0) && Continues(b1) && Continues(b2) && !(b0 % 0x10 == 0 && b1 / 0x20 % 0x2 == 0)
    ensures Encode(Decode([b0, b1, b2])) == [b0, b1, b2]
  {
    hide Append, Trail;
    SplitAppend(b0 % 0x10, b1);
    SplitAppend(Append(b0 % 0x10, b1), b2);
    Shifts(Decode([b0, b1, b2]));
  }

  lemma Rebuild4(b0: Byte, b1: Byte, b2: Byte, b3: Byte)
    requires Leads4(b0) && Continues(b1) && Continues(b2) && Continues(b3)
    requires !(b0 % 0x8 == 0 && b1 / 0x10 % 0x4 == 0)
    ensures Encode(Decode([b0, b1, b2, b3])) == [b0, b1, b2, b3]
  {
    hide Append, Trail;
    SplitAppend(b0 % 0x8, b1);
    SplitAppend(Append(b0 % 0x8, b1), b2);
    SplitAppend(Append(Append(b0 % 0x8, b1), b2), b3);
    Shifts(Decode([b0, b1, b2, b3]));
  }

  /** Bytes that pass the tests are an encoding, so the tests are exact. */
  lemma ShortestIsEncoded(bytes: seq<Byte>)
    requires ShortestForm(bytes) && bytes[0] != 0
    ensures Decode(bytes) != 0 && Encode(Decode(bytes)) == bytes
  {
    hide Encode, Decode, Append;
    if Leads4(bytes[0]) {
      assert bytes == [bytes[0], bytes[1], bytes[2], bytes[3]];
      Rebuild4(bytes[0], bytes[1], bytes[2], bytes[3]);
    } else if Leads3(bytes[0]) {
      assert bytes == [bytes[0], bytes[1], bytes[2]];
      Rebuild3(bytes[0], bytes[1], bytes[2]);
    } else if Leads2(bytes[0]) {
      assert bytes == [bytes[0], bytes[1]];
      Rebuild2(bytes[0], bytes[1]);
    } else {
      assert bytes == [bytes[0]];
      Rebuild1(bytes[0]);
    }
    EncodeZero();
  }

  lemma Rebuild1(b0: Byte)
    requires b0 < 0x80
    ensures Encode(Decode([b0])) == [b0]
  {
  }

  lemma EncodeZero()
    ensures Encode(0) == [0]
  {
  }
}
