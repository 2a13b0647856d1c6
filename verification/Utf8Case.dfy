/** Case mapping of src/fort.c: a table on codepoints, and its in-place application to a whole string. */
module Utf8Case {
  import opened Utf8Codec
  import opened Utf8Strings
  import opened Utf8Search

  predicate In(cp: Codepoint, lo: int, hi: int) {
    lo <= cp <= hi
  }

  predicate ShiftedDown(cp: Codepoint) {
    || In(cp, 0x0041, 0x005a) || In(cp, 0x00c0, 0x00d6) || In(cp, 0x00d8, 0x00de) || In(cp, 0x0391, 0x03a1)
    || In(cp, 0x03a3, 0x03ab)
  }

  predicate ShiftedUp(cp: Codepoint) {
    || In(cp, 0x0061, 0x007a) || In(cp, 0x00e0, 0x00f6) || In(cp, 0x00f8, 0x00fe) || In(cp, 0x03b1, 0x03c1)
    || In(cp, 0x03c3, 0x03cb)
  }

  /** Blocks in which an even codepoint is the upper-case form of its odd successor. */
  predicate EvenUpper(cp: Codepoint) {
    || In(cp, 0x0100, 0x012f) || In(cp, 0x0132, 0x0137) || In(cp, 0x014a, 0x0177) || In(cp, 0x0182, 0x0185)
    || In(cp, 0x01a0, 0x01a5) || In(cp, 0x01de, 0x01ef) || In(cp, 0x01f8, 0x021f) || In(cp, 0x0222, 0x0233)
    || In(cp, 0x0246, 0x024f) || In(cp, 0x03d8, 0x03ef)
  }

  /** Blocks in which an odd codepoint is the upper-case form of its even successor. */
  predicate OddUpper(cp: Codepoint) {
    || In(cp, 0x0139, 0x0148) || In(cp, 0x0179, 0x017e) || In(cp, 0x01af, 0x01b0) || In(cp, 0x01b3, 0x01b6)
    || In(cp, 0x01cd, 0x01dc)
  }

  // ---- Lower case ----

  function LowerLatin(cp: Codepoint): (r: Codepoint)
    ensures r == cp || (0x80 <= cp <= 0x2ff && 0x80 <= r <= 0x2ff)
  {
    if cp == 0x0178 then 0x00ff
    else if cp == 0x0243 then 0x0180
    else if cp == 0x018e then 0x01dd
    else if cp == 0x023d then 0x019a
    else if cp == 0x0220 then 0x019e
    else if cp == 0x01b7 then 0x0292
    else if cp == 0x01c4 then 0x01c6
    else if cp == 0x01c7 then 0x01c9
    else if cp == 0x01ca then 0x01cc
    else if cp == 0x01f1 then 0x01f3
    else if cp == 0x01f7 then 0x01bf
    else if cp == 0x0187 then 0x0188
    else if cp == 0x018b then 0x018c
    else if cp == 0x0191 then 0x0192
    else if cp == 0x0198 then 0x0199
    else if cp == 0x01a7 then 0x01a8
    else if cp == 0x01ac then 0x01ad
    else if cp == 0x01af then 0x01b0
    else if cp == 0x01b8 then 0x01b9
    else if cp == 0x01bc then 0x01bd
    else if cp == 0x01f4 then 0x01f5
    else if cp == 0x023b then 0x023c
    else if cp == 0x0241 then 0x0242
    else cp
  }

  function LowerGreek(cp: Codepoint): (r: Codepoint)
    ensures r == cp || (0x370 <= cp <= 0x3ff && 0x370 <= r <= 0x3ff)
  {
    if cp == 0x03fd then 0x037b
    else if cp == 0x03fe then 0x037c
    else if cp == 0x03ff then 0x037d
    else if cp == 0x037f then 0x03f3
    else if cp == 0x0386 then 0x03ac
    else if cp == 0x0388 then 0x03ad
    else if cp == 0x0389 then 0x03ae
    else if cp == 0x038a then 0x03af
    else if cp == 0x038c then 0x03cc
    else if cp == 0x038e then 0x03cd
    else if cp == 0x038f then 0x03ce
    else if cp == 0x0370 then 0x0371
    else if cp == 0x0372 then 0x0373
    else if cp == 0x0376 then 0x0377
    else if cp == 0x03f4 then 0x03d1
    else if cp == 0x03cf then 0x03d7
    else if cp == 0x03f9 then 0x03f2
    else if cp == 0x03f7 then 0x03f8
    else if cp == 0x03fa then 0x03fb
    else cp
  }

  /** `utf8lwrcodepoint`; the `switch` of the source is split at the Greek block. */
  function Lower(cp: Codepoint): Codepoint {
    if ShiftedDown(cp) then cp + 32
    else if EvenUpper(cp) then cp - cp % 2 + 1
    else if OddUpper(cp) then cp + cp % 2
    else if LowerLatin(cp) != cp then LowerLatin(cp)
    else LowerGreek(cp)
  }

  /** The table never changes how many bytes a codepoint takes, and no codepoint becomes the terminator. */
  lemma LowerKeepsSize(cp: Codepoint)
    ensures Size(Lower(cp)) == Size(cp)
    ensures Lower(cp) == 0 <==> cp == 0
  {
  }

  // ---- Upper case ----

  function UpperLatin(cp: Codepoint): (r: Codepoint)
    ensures r == cp || (0x80 <= cp <= 0x2ff && 0x80 <= r <= 0x2ff)
  {
    if cp == 0x00ff then 0x0178
    else if cp == 0x0180 then 0x0243
    else if cp == 0x01dd then 0x018e
    else if cp == 0x019a then 0x023d
    else if cp == 0x019e then 0x0220
    else if cp == 0x0292 then 0x01b7
    else if cp == 0x01c6 then 0x01c4
    else if cp == 0x01c9 then 0x01c7
    else if cp == 0x01cc then 0x01ca
    else if cp == 0x01f3 then 0x01f1
    else if cp == 0x01bf then 0x01f7
    else if cp == 0x0188 then 0x0187
    else if cp == 0x018c then 0x018b
    else if cp == 0x0192 then 0x0191
    else if cp == 0x0199 then 0x0198
    else if cp == 0x01a8 then 0x01a7
    else if cp == 0x01ad then 0x01ac
    else if cp == 0x01b0 then 0x01af
    else if cp == 0x01b9 then 0x01b8
    else if cp == 0x01bd then 0x01bc
    else if cp == 0x01f5 then 0x01f4
    else if cp == 0x023c then 0x023b
    else if cp == 0x0242 then 0x0241
    else cp
  }

  function UpperGreek(cp: Codepoint): (r: Codepoint)
    ensures r == cp || (0x370 <= cp <= 0x3ff && 0x370 <= r <= 0x3ff)
  {
    if cp == 0x037b then 0x03fd
    else if cp == 0x037c then 0x03fe
    else if cp == 0x037d then 0x03ff
    else if cp == 0x03f3 then 0x037f
    else if cp == 0x03ac then 0x0386
    else if cp == 0x03ad then 0x0388
    else if cp == 0x03ae then 0x0389
    else if cp == 0x03af then 0x038a
    else if cp == 0x03cc then 0x038c
    else if cp == 0x03cd then 0x038e
    else if cp == 0x03ce then 0x038f
    else if cp == 0x0371 then 0x0370
    else if cp == 0x0373 then 0x0372
    else if cp == 0x0377 then 0x0376
    else if cp == 0x03d1 then 0x03f4
    else if cp == 0x03d7 then 0x03cf
    else if cp == 0x03f2 then 0x03f9
    else if cp == 0x03f8 then 0x03f7
    else if cp == 0x03fb then 0x03fa
    else cp
  }

  /** `utf8uprcodepoint`; the `switch` of the source is split at the Greek block. */
  function Upper(cp: Codepoint): Codepoint {
    if ShiftedUp(cp) then cp - 32
    else if EvenUpper(cp) then cp - cp % 2
    else if OddUpper(cp) then cp - 1 + cp % 2
    else if UpperLatin(cp) != cp then UpperLatin(cp)
    else UpperGreek(cp)
  }

  /** The table never changes how many bytes a codepoint takes, and no codepoint becomes the terminator. */
  lemma UpperKeepsSize(cp: Codepoint)
    ensures Size(Upper(cp)) == Size(cp)
    ensures Upper(cp) == 0 <==> cp == 0
  {
  }

  // ---- The two tables against each other ----

  /** One of the rules for ranges applies, with `shifted` as the ranges that are moved by 32. */
  ghost predicate Ruled(cp: Codepoint, shifted: Codepoint -> bool) {
    shifted(cp) || EvenUpper(cp) || OddUpper(cp)
  }

  lemma LowerShiftInverts(cp: Codepoint)
    requires ShiftedDown(cp)
    ensures Upper(Lower(cp)) == cp && Upper(cp) == cp
  {
  }

  lemma LowerPairInverts(cp: Codepoint)
    requires !ShiftedDown(cp) && (EvenUpper(cp) || OddUpper(cp))
    ensures Lower(cp) != cp ==> Upper(Lower(cp)) == cp && Upper(cp) == cp
  {
    hide LowerLatin, LowerGreek, UpperLatin, UpperGreek;
  }

  lemma LowerLatinBack(cp: Codepoint)
    requires LowerLatin(cp) != cp && cp != 0x1af
    ensures UpperLatin(LowerLatin(cp)) == cp && UpperLatin(cp) == cp
  {
  }

  lemma LowerLatinUnruled(cp: Codepoint)
    requires LowerLatin(cp) != cp && !OddUpper(cp)
    ensures !Ruled(LowerLatin(cp), ShiftedUp) && !Ruled(cp, ShiftedUp)
  {
  }

  lemma LowerLatinInverts(cp: Codepoint)
    requires LowerLatin(cp) != cp && !OddUpper(cp)
    ensures Upper(LowerLatin(cp)) == cp && Upper(cp) == cp
  {
    hide LowerLatin, LowerGreek, UpperLatin, UpperGreek;
    LowerLatinBack(cp);
    hide ShiftedUp, ShiftedDown, EvenUpper, OddUpper;
    LowerLatinUnruled(cp);
  }

  lemma LowerGreekBack(cp: Codepoint)
    requires LowerGreek(cp) != cp
    ensures UpperGreek(LowerGreek(cp)) == cp && UpperGreek(cp) == cp
  {
  }

  lemma LowerGreekUnruled(cp: Codepoint)
    requires LowerGreek(cp) != cp && !OddUpper(cp)
    ensures !Ruled(LowerGreek(cp), ShiftedUp) && !Ruled(cp, ShiftedUp)
  {
  }

  lemma LowerGreekInverts(cp: Codepoint)
    requires LowerGreek(cp) != cp && !OddUpper(cp)
    ensures Upper(LowerGreek(cp)) == cp && Upper(cp) == cp
  {
    hide LowerLatin, LowerGreek, UpperLatin, UpperGreek;
    LowerGreekBack(cp);
    hide ShiftedUp, ShiftedDown, EvenUpper, OddUpper;
    LowerGreekUnruled(cp);
  }

  /** A codepoint that has a lower-case form is the upper-case form of it, and is itself in upper case. */
  lemma LowerInverts(cp: Codepoint)
    ensures Lower(cp) != cp ==> Upper(Lower(cp)) == cp && Upper(cp) == cp
  {
    hide LowerLatin, LowerGreek, ShiftedDown, EvenUpper, OddUpper, Upper;
    if ShiftedDown(cp) {
      LowerShiftInverts(cp);
    } else if EvenUpper(cp) || OddUpper(cp) {
      LowerPairInverts(cp);
    } else if LowerLatin(cp) != cp {
      LowerLatinInverts(cp);
    } else if LowerGreek(cp) != cp {
      LowerGreekInverts(cp);
    }
  }

  lemma UpperShiftInverts(cp: Codepoint)
    requires ShiftedUp(cp)
    ensures Lower(Upper(cp)) == cp && Lower(cp) == cp
  {
  }

  lemma UpperPairInverts(cp: Codepoint)
    requires !ShiftedUp(cp) && (EvenUpper(cp) || OddUpper(cp))
    ensures Upper(cp) != cp ==> Lower(Upper(cp)) == cp && Lower(cp) == cp
  {
    hide LowerLatin, LowerGreek, UpperLatin, UpperGreek;
  }

  lemma UpperLatinBack(cp: Codepoint)
    requires UpperLatin(cp) != cp
    ensures LowerLatin(UpperLatin(cp)) == cp && LowerLatin(cp) == cp
  {
  }

  lemma UpperLatinUnruled(cp: Codepoint)
    requires UpperLatin(cp) != cp && !OddUpper(cp)
    ensures !Ruled(UpperLatin(cp), ShiftedDown) && !Ruled(cp, ShiftedDown)
  {
  }

  lemma UpperLatinInverts(cp: Codepoint)
    requires UpperLatin(cp) != cp && !OddUpper(cp)
    ensures Lower(UpperLatin(cp)) == cp && Lower(cp) == cp
  {
    hide LowerLatin, LowerGreek, UpperLatin, UpperGreek;
    UpperLatinBack(cp);
    hide ShiftedUp, ShiftedDown, EvenUpper, OddUpper;
    UpperLatinUnruled(cp);
  }

  lemma UpperGreekBack(cp: Codepoint)
    requires UpperGreek(cp) != cp
    ensures LowerGreek(UpperGreek(cp)) == cp && LowerGreek(cp) == cp
  {
  }

  lemma UpperGreekUnruled(cp: Codepoint)
    requires UpperGreek(cp) != cp && !OddUpper(cp)
    ensures !Ruled(UpperGreek(cp), ShiftedDown) && !Ruled(cp, ShiftedDown)
  {
  }

  lemma UpperGreekInverts(cp: Codepoint)
    requires UpperGreek(cp) != cp && !OddUpper(cp)
    ensures Lower(UpperGreek(cp)) == cp && Lower(cp) == cp
  {
    hide LowerLatin, LowerGreek, UpperLatin, UpperGreek;
    UpperGreekBack(cp);
    hide ShiftedUp, ShiftedDown, EvenUpper, OddUpper;
    UpperGreekUnruled(cp);
  }

  /** A codepoint that has an upper-case form is the lower-case form of it, and is itself in lower case. */
  lemma UpperInverts(cp: Codepoint)
    ensures Upper(cp) != cp ==> Lower(Upper(cp)) == cp && Lower(cp) == cp
  {
    hide UpperLatin, UpperGreek, ShiftedUp, EvenUpper, OddUpper, Lower;
    if ShiftedUp(cp) {
      UpperShiftInverts(cp);
    } else if EvenUpper(cp) || OddUpper(cp) {
      UpperPairInverts(cp);
    } else if UpperLatin(cp) != cp {
      UpperLatinInverts(cp);
    } else if UpperGreek(cp) != cp {
      UpperGreekInverts(cp);
    }
  }

  /** Applying a table twice is applying it once: what it yields has an image in the other table, and so none in this. */
  lemma LowerTwice(cp: Codepoint)
    ensures Lower(Lower(cp)) == Lower(cp)
  {
    hide *;
    LowerInverts(cp);
    UpperInverts(Lower(cp));
  }

  lemma UpperTwice(cp: Codepoint)
    ensures Upper(Upper(cp)) == Upper(cp)
  {
    hide *;
    UpperInverts(cp);
    LowerInverts(Upper(cp));
  }

  /** Two stretches of `n` codepoints hold the same letters at the same places, in upper and in lower case. */
  ghost predicate SameLetters(upper: int, lower: int, n: nat) {
    && (forall cp: Codepoint :: upper <= cp < upper + n ==> Lower(cp) == lower + (cp - upper))
    && (forall cp: Codepoint :: lower <= cp < lower + n ==> Upper(cp) == upper + (cp - lower))
  }

  /** The alphabets: basic Latin, Latin-1 on both sides of the multiplication sign, Greek on both sides of the final
      sigma. Apart from the letters, nothing below U+0080 has another case. */
  lemma Alphabets()
    ensures SameLetters('A' as int, 'a' as int, 26)
    ensures SameLetters(0xc0, 0xe0, 23) && SameLetters(0xd8, 0xf8, 7)
    ensures SameLetters(0x391, 0x3b1, 17) && SameLetters(0x3a3, 0x3c3, 9)
    ensures forall cp: Codepoint :: cp < 0x80 ==> (Lower(cp) != cp <==> 'A' as int <= cp <= 'Z' as int)
    ensures forall cp: Codepoint :: cp < 0x80 ==> (Upper(cp) != cp <==> 'a' as int <= cp <= 'z' as int)
  {
    hide LowerLatin, LowerGreek, UpperLatin, UpperGreek;
  }

  /** A block of `pairs` pairs from an upper-case letter on, each followed by its lower-case form. */
  ghost predicate TakeTurns(first: int, pairs: nat) {
    forall cp: Codepoint :: first <= cp < first + 2 * pairs ==>
      if (cp - first) % 2 == 0 then Lower(cp) == cp + 1 else Upper(cp) == cp - 1
  }

  /** The blocks of pairs: most of Latin Extended-A and -B, and the Coptic letters among the Greek ones. */
  lemma PairedBlocks()
    ensures TakeTurns(0x100, 24) && TakeTurns(0x132, 3) && TakeTurns(0x14a, 23) && TakeTurns(0x182, 2)
    ensures TakeTurns(0x1a0, 3) && TakeTurns(0x1de, 9) && TakeTurns(0x1f8, 20) && TakeTurns(0x222, 9)
    ensures TakeTurns(0x246, 5) && TakeTurns(0x3d8, 12)
  {
    hide LowerLatin, LowerGreek, UpperLatin, UpperGreek;
  }

  /** The blocks that start with an odd codepoint. */
  lemma OddPairedBlocks()
    ensures TakeTurns(0x139, 8) && TakeTurns(0x179, 3) && TakeTurns(0x1af, 1) && TakeTurns(0x1b3, 2) && TakeTurns(0x1cd, 8)
  {
    hide Lower, Upper;
    forall cp: Codepoint | OddUpper(cp) ensures if cp % 2 == 1 then Lower(cp) == cp + 1 else Upper(cp) == cp - 1 {
      OddPair(cp);
    }
  }

  lemma OddPair(cp: Codepoint)
    requires OddUpper(cp)
    ensures if cp % 2 == 1 then Lower(cp) == cp + 1 else Upper(cp) == cp - 1
  {
    hide LowerLatin, LowerGreek, UpperLatin, UpperGreek;
  }

  /** Pairs that stand alone, an upper-case letter in front of its lower-case form. */
  lemma SingleLatinPair(cp: Codepoint)
    requires cp in {0x187, 0x18b, 0x191, 0x198, 0x1a7, 0x1ac, 0x1b8, 0x1bc, 0x1f4, 0x23b, 0x241}
    ensures Lower(cp) == cp + 1 && Upper(cp + 1) == cp
  {
    hide LowerGreek, Upper;
    LowerInverts(cp);
  }

  lemma SingleGreekPair(cp: Codepoint)
    requires cp in {0x370, 0x372, 0x376, 0x3f7, 0x3fa}
    ensures Lower(cp) == cp + 1 && Upper(cp + 1) == cp
  {
    hide LowerLatin, Upper;
    LowerInverts(cp);
  }

  /** Digraphs: between their upper-case and their lower-case form stands one in title case. */
  lemma Digraph(cp: Codepoint)
    requires cp in {0x1c4, 0x1c7, 0x1ca, 0x1f1}
    ensures Lower(cp) == cp + 2 && Upper(cp + 2) == cp
  {
    hide LowerGreek, Upper;
    LowerInverts(cp);
  }

  /** Greek vowels with an accent, and the reversed lunate sigmas: stretches of letters at the same places. */
  lemma GreekStretches(cp: Codepoint)
    ensures 0x388 <= cp <= 0x38a ==> Lower(cp) == 0x3ad + (cp - 0x388) && Upper(0x3ad + (cp - 0x388)) == cp
    ensures 0x38e <= cp <= 0x38f ==> Lower(cp) == 0x3cd + (cp - 0x38e) && Upper(0x3cd + (cp - 0x38e)) == cp
    ensures 0x3fd <= cp <= 0x3ff ==> Lower(cp) == 0x37b + (cp - 0x3fd) && Upper(0x37b + (cp - 0x3fd)) == cp
  {
    hide LowerLatin, Upper;
    LowerInverts(cp);
  }

  // ---- Whole strings ----

  ghost function MapAll(table: Codepoint -> Codepoint, cps: seq<Codepoint>): (r: seq<Codepoint>)
    ensures |r| == |cps|
  {
    seq(|cps|, i requires 0 <= i < |cps| => table(cps[i]))
  }

  /** A table that keeps the size of each codepoint and leaves the terminator alone. */
  ghost predicate KeepsSize(table: Codepoint -> Codepoint) {
    forall cp :: Size(table(cp)) == Size(cp) && (table(cp) == 0 <==> cp == 0)
  }

  lemma TablesKeepSize()
    ensures KeepsSize(Lower) && KeepsSize(Upper)
  {
    hide Lower, Upper, Size;
    forall cp ensures Size(Lower(cp)) == Size(cp) && (Lower(cp) == 0 <==> cp == 0) {
      LowerKeepsSize(cp);
    }
    forall cp ensures Size(Upper(cp)) == Size(cp) && (Upper(cp) == 0 <==> cp == 0) {
      UpperKeepsSize(cp);
    }
  }

  /** The string after the first `j` codepoints have been mapped. */
  ghost function Mapped(table: Codepoint -> Codepoint, cps: seq<Codepoint>, j: nat): seq<Codepoint>
    requires j <= |cps|
  {
    MapAll(table, cps[..j]) + cps[j..]
  }

  lemma MappedScalars(table: Codepoint -> Codepoint, cps: seq<Codepoint>, j: nat)
    requires KeepsSize(table) && Scalars(cps) && j <= |cps|
    ensures Scalars(Mapped(table, cps, j))
  {
    hide Size;
  }

  /** Mapping leaves every offset where it was. */
  lemma {:induction false} MappedOffset(table: Codepoint -> Codepoint, cps: seq<Codepoint>, j: nat)
    requires KeepsSize(table) && Scalars(cps) && j <= |cps|
    ensures |EncodeAll(MapAll(table, cps[..j]))| == Offset(cps, j)
  {
    hide Encode, Size, EncodeAll;
    if j > 0 {
      MappedOffset(table, cps, j - 1);
      EncodedAt(cps, j - 1);
      assert MapAll(table, cps[..j]) == MapAll(table, cps[..j - 1]) + [table(cps[j - 1])];
      EncodeAllConcat(MapAll(table, cps[..j - 1]), [table(cps[j - 1])]);
      EncodeAllSingle(table(cps[j - 1]));
    } else {
      EmptyEncoding(table, cps);
    }
  }

  lemma EmptyEncoding(table: Codepoint -> Codepoint, cps: seq<Codepoint>)
    ensures EncodeAll(MapAll(table, cps[..0])) == EncodeAll(cps[..0]) == []
  {
  }

  /** Writing the image of codepoint `j` over its bytes maps one more codepoint. */
  lemma MapNext(table: Codepoint -> Codepoint, cps: seq<Codepoint>, j: nat)
    requires KeepsSize(table) && Scalars(cps) && j < |cps|
    ensures Offset(cps, j) + Size(cps[j]) <= |EncodeAll(Mapped(table, cps, j))|
    ensures var s, o := EncodeAll(Mapped(table, cps, j)), Offset(cps, j);
            EncodeAll(Mapped(table, cps, j + 1)) == s[..o] + Encode(table(cps[j])) + s[o + Size(cps[j])..]
  {
    hide Encode, Size, EncodeAll;
    var done, c, rest := MapAll(table, cps[..j]), cps[j], cps[j + 1..];
    MappedOffset(table, cps, j);
    assert Mapped(table, cps, j) == done + ([c] + rest);
    assert Mapped(table, cps, j + 1) == done + ([table(c)] + rest);
    EncodeAllConcat(done, [c] + rest);
    EncodeAllConcat(done, [table(c)] + rest);
    EncodeAllConcat([c], rest);
    EncodeAllConcat([table(c)], rest);
    EncodeAllSingle(c);
    EncodeAllSingle(table(c));
  }

  /** What the loops of `utf8lwr` and `utf8upr` read at their position: the next codepoint not yet mapped, or 0. */
  lemma ReadsNext(table: Codepoint -> Codepoint, cps: seq<Codepoint>, j: nat)
    requires KeepsSize(table) && Scalars(cps) && j < |cps|
    ensures var s, o := EncodeAll(Mapped(table, cps, j)), Offset(cps, j);
            && o < |s| && o + LeadSize(s[o]) == o + Size(cps[j]) <= |s|
            && Decode(s[o..o + LeadSize(s[o])]) == cps[j]
            && Offset(cps, j + 1) == o + Size(cps[j])
  {
    hide Encode, Size, EncodeAll, Decode, LeadSize;
    MappedScalars(table, cps, j);
    MappedOffset(table, cps, j);
    var all := Mapped(table, cps, j);
    assert all[..j] == MapAll(table, cps[..j]) && all[j] == cps[j];
    ReadsCodepoint(all, j);
    EncodedAt(all, j);
    EncodedAt(cps, j);
  }

  /** The end of the string has not moved. */
  lemma MappedEnd(table: Codepoint -> Codepoint, cps: seq<Codepoint>, j: nat)
    requires KeepsSize(table) && Scalars(cps) && j <= |cps|
    ensures |EncodeAll(Mapped(table, cps, j))| == |EncodeAll(cps)|
    ensures j == |cps| ==> Offset(cps, j) == |EncodeAll(cps)| && Mapped(table, cps, j) == MapAll(table, cps)
  {
    hide Encode, Size, EncodeAll;
    MappedOffset(table, cps, j);
    EncodeAllConcat(MapAll(table, cps[..j]), cps[j..]);
    EncodedTail(cps, j);
    assert cps[..|cps|] == cps;
  }

  /** The buffer holds a string with its first `j` codepoints mapped, and what stood behind it. */
  ghost predicate HoldsMapped(buf: seq<Byte>, table: Codepoint -> Codepoint, cps: seq<Codepoint>, j: nat,
                              behind: seq<Byte>)
  {
    j <= |cps| && buf == EncodeAll(Mapped(table, cps, j)) + behind && behind != [] && behind[0] == 0
  }

  lemma StartMapped(buf: seq<Byte>, table: Codepoint -> Codepoint, cps: seq<Codepoint>)
    requires IsString(buf, 0, EncodeAll(cps))
    ensures HoldsMapped(buf, table, cps, 0, buf[|EncodeAll(cps)|..]) && Offset(cps, 0) == 0
  {
    hide Encode, Size;
    OffsetZero(cps);
    assert Mapped(table, cps, 0) == cps;
  }

  /** One pass of the loop: the image of codepoint `j` is written unless it is the codepoint itself. */
  lemma StepMapped(buf: seq<Byte>, buf': seq<Byte>, table: Codepoint -> Codepoint, cps: seq<Codepoint>, j: nat,
                   behind: seq<Byte>)
    requires KeepsSize(table) && Scalars(cps) && HoldsMapped(buf, table, cps, j, behind) && j < |cps|
    requires Offset(cps, j) + Size(cps[j]) <= |buf|
    requires buf' == if table(cps[j]) == cps[j] then buf
                     else buf[..Offset(cps, j)] + Encode(table(cps[j])) + buf[Offset(cps, j) + Size(cps[j])..]
    ensures HoldsMapped(buf', table, cps, j + 1, behind)
  {
    hide Encode, Size, EncodeAll, Offset;
    if table(cps[j]) == cps[j] {
      assert Mapped(table, cps, j + 1) == Mapped(table, cps, j);
    } else {
      MapNext(table, cps, j);
    }
  }

  lemma EndMapped(buf: seq<Byte>, table: Codepoint -> Codepoint, cps: seq<Codepoint>, behind: seq<Byte>)
    requires KeepsSize(table) && Scalars(cps) && HoldsMapped(buf, table, cps, |cps|, behind)
    ensures |EncodeAll(MapAll(table, cps))| == |EncodeAll(cps)| && buf == EncodeAll(MapAll(table, cps)) + behind
  {
    hide Encode, Size, EncodeAll;
    MappedEnd(table, cps, |cps|);
  }

  lemma ReadsMapped(buf: seq<Byte>, table: Codepoint -> Codepoint, cps: seq<Codepoint>, j: nat, behind: seq<Byte>)
    requires KeepsSize(table) && Scalars(cps) && HoldsMapped(buf, table, cps, j, behind)
    ensures var o := Offset(cps, j);
            && o < |buf| && o + LeadSize(buf[o]) <= |buf|
            && Decode(buf[o..o + LeadSize(buf[o])]) == (if j < |cps| then cps[j] else 0)
            && (j < |cps| ==> o + LeadSize(buf[o]) == Offset(cps, j + 1) == o + Size(cps[j]))
  {
    hide Encode, Size, EncodeAll;
    MappedEnd(table, cps, j);
    if j < |cps| {
      ReadsNext(table, cps, j);
      var s, o := EncodeAll(Mapped(table, cps, j)), Offset(cps, j);
      assert buf[o..o + LeadSize(s[o])] == s[o..o + LeadSize(s[o])];
    }
  }

  /** Main result: `utf8lwr` rewrites the string in place to the encoding of the lower-case codepoints; its length
      and everything behind it stay as they were. */
  method Utf8Lwr(str: array<Byte>, ghost cps: seq<Codepoint>)
    requires Scalars(cps) && IsString(str[..], 0, EncodeAll(cps))
    modifies str
    ensures |EncodeAll(MapAll(Lower, cps))| == |EncodeAll(cps)|
    ensures str[..] == EncodeAll(MapAll(Lower, cps)) + old(str[|EncodeAll(cps)|..])
  {
    hide Encode, Size, EncodeAll, Lower, MapAll, Decode, LeadSize, Offset, HoldsMapped;
    TablesKeepSize();
    ghost var behind := str[|EncodeAll(cps)|..];
    ghost var j := 0;
    StartMapped(str[..], Lower, cps);
    var p := 0;
    ReadsMapped(str[..], Lower, cps, 0, behind);
    var pn, cp := Utf8Codepoint(str, p);
    while cp != 0
      invariant 0 <= j <= |cps| && p == Offset(cps, j)
      invariant HoldsMapped(str[..], Lower, cps, j, behind)
      invariant cp == if j < |cps| then cps[j] else 0
      invariant j < |cps| ==> pn == Offset(cps, j + 1) == p + Size(cps[j]) <= str.Length
      decreases |cps| - j
    {
      var mapped := Lower(cp);
      var size := Size(mapped);
      ghost var before := str[..];
      if mapped != cp {
        var end := Utf8CatCodepoint(str, p, mapped, size);
      }
      StepMapped(before, str[..], Lower, cps, j, behind);
      j := j + 1;
      p := pn;
      ReadsMapped(str[..], Lower, cps, j, behind);
      pn, cp := Utf8Codepoint(str, p);
    }
    EndMapped(str[..], Lower, cps, behind);
  }

  /** Main result: `utf8upr` rewrites the string in place to the encoding of the upper-case codepoints; its length
      and everything behind it stay as they were. */
  method Utf8Upr(str: array<Byte>, ghost cps: seq<Codepoint>)
    requires Scalars(cps) && IsString(str[..], 0, EncodeAll(cps))
    modifies str
    ensures |EncodeAll(MapAll(Upper, cps))| == |EncodeAll(cps)|
    ensures str[..] == EncodeAll(MapAll(Upper, cps)) + old(str[|EncodeAll(cps)|..])
  {
    hide Encode, Size, EncodeAll, Upper, MapAll, Decode, LeadSize, Offset, HoldsMapped;
    TablesKeepSize();
    ghost var behind := str[|EncodeAll(cps)|..];
    ghost var j := 0;
    StartMapped(str[..], Upper, cps);
    var p := 0;
    ReadsMapped(str[..], Upper, cps, 0, behind);
    var pn, cp := Utf8Codepoint(str, p);
    while cp != 0
      invariant 0 <= j <= |cps| && p == Offset(cps, j)
      invariant HoldsMapped(str[..], Upper, cps, j, behind)
      invariant cp == if j < |cps| then cps[j] else 0
      invariant j < |cps| ==> pn == Offset(cps, j + 1) == p + Size(cps[j]) <= str.Length
      decreases |cps| - j
    {
      var mapped := Upper(cp);
      var size := Size(mapped);
      ghost var before := str[..];
      if mapped != cp {
        var end := Utf8CatCodepoint(str, p, mapped, size);
      }
      StepMapped(before, str[..], Upper, cps, j, behind);
      j := j + 1;
      p := pn;
      ReadsMapped(str[..], Upper, cps, j, behind);
      pn, cp := Utf8Codepoint(str, p);
    }
    EndMapped(str[..], Upper, cps, behind);
  }

  /** Main result: mapping a string twice is mapping it once. */
  lemma MappingIsIdempotent(cps: seq<Codepoint>)
    ensures MapAll(Lower, MapAll(Lower, cps)) == MapAll(Lower, cps)
    ensures MapAll(Upper, MapAll(Upper, cps)) == MapAll(Upper, cps)
  {
    hide Lower, Upper;
    forall i | 0 <= i < |cps|
      ensures Lower(Lower(cps[i])) == Lower(cps[i]) && Upper(Upper(cps[i])) == Upper(cps[i])
    {
      LowerTwice(cps[i]);
      UpperTwice(cps[i]);
    }
  }

  /** Main result: going to one case by way of the other is going there directly, so two strings that agree in lower case
      agree in upper case. */
  lemma MappingsAbsorb(cps: seq<Codepoint>)
    ensures MapAll(Upper, MapAll(Lower, cps)) == MapAll(Upper, cps)
    ensures MapAll(Lower, MapAll(Upper, cps)) == MapAll(Lower, cps)
  {
    hide Lower, Upper;
    forall i | 0 <= i < |cps|
      ensures Upper(Lower(cps[i])) == Upper(cps[i]) && Lower(Upper(cps[i])) == Lower(cps[i])
    {
      LowerInverts(cps[i]);
      UpperInverts(cps[i]);
    }
  }
}
