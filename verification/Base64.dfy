/** What the Base64 codec computes: the alphabet and padding of section 4 of RFC 4648, characters
    outside the alphabet skipped and 76-column lines as in section 6.8 of RFC 2045 (but with a bare
    newline). Bit operations are those of the program, on bit-vectors. */
module Base64 {

  type Byte = bv8

  /** Java's `char`, a 16-bit code unit: surrogates are code units like any other. */
  type CodeUnit = u: int | 0 <= u < 0x1_0000

  type Text = seq<CodeUnit>

  const PAD: CodeUnit := '=' as int
  const NEWLINE: CodeUnit := '\n' as int

  // ----- the two tables

  /** `S_BASE64CHAR` */
  function LetterAt(i: int): CodeUnit
    requires 0 <= i < 64
  {
    if i < 26 then 'A' as int + i
    else if i < 52 then 'a' as int + (i - 26)
    else if i < 62 then '0' as int + (i - 52)
    else if i == 62 then '+' as int else '/' as int
  }

  const UPPER: string := "ABCDEFGHIJKLMNOPQRSTUVWXYZ"
  const LOWER: string := "abcdefghijklmnopqrstuvwxyz"
  const DIGITS: string := "0123456789"

  /** The alphabet, as Table 1 of RFC 4648 lists it. */
  const ALPHABET: string := UPPER + LOWER + DIGITS + "+/"

  lemma UpperIs(i: int)
    ensures |UPPER| == 26 && (0 <= i < 26 ==> UPPER[i] as int == 'A' as int + i)
  {}

  lemma LowerIs(i: int)
    ensures |LOWER| == 26 && (0 <= i < 26 ==> LOWER[i] as int == 'a' as int + i)
  {}

  lemma DigitsAre(i: int)
    ensures |DIGITS| == 10 && (0 <= i < 10 ==> DIGITS[i] as int == '0' as int + i)
  {}

  /** The i-th letter is the i-th of the alphabet; the pad and the newline are what they should be. */
  lemma AlphabetIs(i: int)
    ensures |ALPHABET| == 64 && PAD == '=' as int && NEWLINE == '\n' as int
    ensures 0 <= i < 64 ==> LetterAt(i) == ALPHABET[i] as int
  {
    UpperIs(i);
    LowerIs(i - 26);
    DigitsAre(i - 52);
  }

  /** The place of a character in the alphabet, or -1. */
  function PlaceOf(c: CodeUnit): (i: int)
    ensures -1 <= i < 64
  {
    if 'A' as int <= c <= 'Z' as int then c - 'A' as int
    else if 'a' as int <= c <= 'z' as int then c - 'a' as int + 26
    else if '0' as int <= c <= '9' as int then c - '0' as int + 52
    else if c == '+' as int then 62 else if c == '/' as int then 63 else -1
  }

  lemma AlphabetIsABijection(i: int, c: CodeUnit)
    ensures 0 <= i < 64 ==> PlaceOf(LetterAt(i)) == i && LetterAt(i) < 128 && LetterAt(i) != PAD
    ensures PlaceOf(c) >= 0 ==> LetterAt(PlaceOf(c)) == c && c < 128
  {}

  /** `S_DECODETABLE`: a letter's six bits, and 127 for every other character. */
  function Code(c: CodeUnit): Byte {
    if PlaceOf(c) >= 0 then PlaceOf(c) as bv8 else 127
  }

  function Letter(s: bv8): CodeUnit
    requires s < 64
  {
    LetterAt(s as int)
  }

  /** What the decoder keeps: the pad and the letters. */
  predicate Significant(c: CodeUnit) {
    c == PAD || PlaceOf(c) >= 0
  }

  ghost predicate AllSignificant(s: Text) {
    forall k :: 0 <= k < |s| ==> Significant(s[k])
  }

  /** Counting up to n in bytes. */
  ghost function ByteOf(n: nat): (b: Byte)
    requires n < 256
    ensures b as int == n
  {
    if n == 0 then 0 else ByteOf(n - 1) + 1
  }

  lemma ByteIsItsInt(n: nat)
    requires n < 256
    ensures (n as bv8) as int == n
  {
    assert n as bv8 == ByteOf(n);
  }

  /** The test as the program makes it, on the table. */
  lemma SignificantByTable(c: CodeUnit)
    ensures Significant(c) <==> c == PAD || (c < 128 && Code(c) != 127)
  {
    if PlaceOf(c) >= 0 {
      AlphabetIsABijection(0, c);
      ByteIsItsInt(PlaceOf(c));
      ByteIsItsInt(127);
    }
  }

  lemma CodeOfLetter(s: bv8)
    requires s < 64
    ensures Code(Letter(s)) == s && Letter(s) != PAD && Significant(Letter(s))
  {
    AlphabetIsABijection(s as int, PAD);
    assert (s as int) as bv8 == s;
  }

  // ----- four characters to bytes

  function Byte0(b0: Byte, b1: Byte): Byte { ((b0 << 2) & 0xfc) | ((b1 >> 4) & 0x3) }
  function Byte1(b1: Byte, b2: Byte): Byte { ((b1 << 4) & 0xf0) | ((b2 >> 2) & 0xf) }
  function Byte2(b2: Byte, b3: Byte): Byte { ((b2 << 6) & 0xc0) | (b3 & 0x3f) }

  /** `decode0` on four characters: a pad in third place leaves one byte, one in fourth place two. */
  function DecodeGroup(q: Text): (r: seq<Byte>)
    ensures |r| <= 3 && (|q| == 4 ==> |r| >= 1)
  {
    if |q| != 4 then []
    else if q[2] == PAD then [Byte0(Code(q[0]), Code(q[1]))]
    else if q[3] == PAD then [Byte0(Code(q[0]), Code(q[1])), Byte1(Code(q[1]), Code(q[2]))]
    else [Byte0(Code(q[0]), Code(q[1])), Byte1(Code(q[1]), Code(q[2])), Byte2(Code(q[2]), Code(q[3]))]
  }

  // ----- bytes to four characters

  function Sextet(g: bv32, shift: nat): (s: bv8)
    requires shift <= 18
    ensures s < 64
  {
    ((g >> shift) & 0x3f) as bv8
  }

  predicate Fits(g: bv32, shift: nat)
    requires shift <= 18
  {
    (g >> shift) < 64
  }

  /** The leading six bits need no mask: the shift leaves no more. */
  function Lead(g: bv32, shift: nat): (s: bv8)
    requires shift <= 18 && Fits(g, shift)
    ensures s < 64
  {
    (g >> shift) as bv8
  }

  function Group3(x: Byte, y: Byte, z: Byte): (g: bv32)
    ensures Fits(g, 18)
  {
    ((x as bv32) << 16) + ((y as bv32) << 8) + (z as bv32)
  }

  function Group2(x: Byte, y: Byte): (g: bv32)
    ensures Fits(g, 10)
  {
    ((x as bv32) << 8) + (y as bv32)
  }

  function Group1(x: Byte): (g: bv32)
    ensures Fits(g, 2)
  {
    x as bv32
  }

  /** One, two or three bytes as four characters. */
  function EncodeGroup(b: seq<Byte>): Text {
    if |b| == 3 then
      var i := Group3(b[0], b[1], b[2]);
      [Letter(Lead(i, 18)), Letter(Sextet(i, 12)), Letter(Sextet(i, 6)), Letter(Sextet(i, 0))]
    else if |b| == 2 then
      var i := Group2(b[0], b[1]);
      [Letter(Lead(i, 10)), Letter(Sextet(i, 4)), Letter(Sextet(i << 2, 0)), PAD]
    else if |b| == 1 then
      var i := Group1(b[0]);
      [Letter(Lead(i, 2)), Letter(Sextet(i << 4, 0)), PAD, PAD]
    else []
  }

  // ----- the six-bit values, bit by bit from the bytes

  function Six0(x: Byte): (s: bv8)
    ensures s < 64
  {
    x >> 2
  }

  function Six1(x: Byte, y: Byte): (s: bv8)
    ensures s < 64
  {
    ((x & 0x3) << 4) | (y >> 4)
  }

  function Six2(y: Byte, z: Byte): (s: bv8)
    ensures s < 64
  {
    ((y & 0xf) << 2) | (z >> 6)
  }

  function Six3(z: Byte): (s: bv8)
    ensures s < 64
  {
    z & 0x3f
  }

  lemma Lead3(x: Byte, y: Byte, z: Byte)
    ensures Lead(Group3(x, y, z), 18) == Six0(x)
  {}

  lemma Second3(x: Byte, y: Byte, z: Byte)
    ensures Sextet(Group3(x, y, z), 12) == Six1(x, y)
  {}

  lemma Third3(x: Byte, y: Byte, z: Byte)
    ensures Sextet(Group3(x, y, z), 6) == Six2(y, z)
  {}

  lemma Fourth3(x: Byte, y: Byte, z: Byte)
    ensures Sextet(Group3(x, y, z), 0) == Six3(z)
  {}

  lemma Lead2(x: Byte, y: Byte)
    ensures Lead(Group2(x, y), 10) == Six0(x)
  {}

  lemma Second2(x: Byte, y: Byte)
    ensures Sextet(Group2(x, y), 4) == Six1(x, y)
  {}

  lemma Third2(x: Byte, y: Byte)
    ensures Sextet(Group2(x, y) << 2, 0) == Six2(y, 0)
  {}

  lemma Lead1(x: Byte)
    ensures Lead(Group1(x), 2) == Six0(x)
  {}

  lemma Second1(x: Byte)
    ensures Sextet(Group1(x) << 4, 0) == Six1(x, 0)
  {}

  lemma Back0(x: Byte, y: Byte)
    ensures Byte0(Six0(x), Six1(x, y)) == x
  {}

  lemma Back1(x: Byte, y: Byte, z: Byte)
    ensures Byte1(Six1(x, y), Six2(y, z)) == y
  {}

  lemma Back2(y: Byte, z: Byte)
    ensures Byte2(Six2(y, z), Six3(z)) == z
  {}

  /** The letters a group is written with; bytes that are missing count as zero. */
  lemma GroupLetters(b: seq<Byte>)
    ensures |b| == 3 ==>
              EncodeGroup(b) == [Letter(Six0(b[0])), Letter(Six1(b[0], b[1])),
                                 Letter(Six2(b[1], b[2])), Letter(Six3(b[2]))]
    ensures |b| == 2 ==> EncodeGroup(b) == [Letter(Six0(b[0])), Letter(Six1(b[0], b[1])), Letter(Six2(b[1], 0)), PAD]
    ensures |b| == 1 ==> EncodeGroup(b) == [Letter(Six0(b[0])), Letter(Six1(b[0], 0)), PAD, PAD]
  {
    if |b| == 3 {
      Lead3(b[0], b[1], b[2]);
      Second3(b[0], b[1], b[2]);
      Third3(b[0], b[1], b[2]);
      Fourth3(b[0], b[1], b[2]);
    } else if |b| == 2 {
      Lead2(b[0], b[1]);
      Second2(b[0], b[1]);
      Third2(b[0], b[1]);
    } else if |b| == 1 {
      Lead1(b[0]);
      Second1(b[0]);
    }
  }

  // ----- a group comes apart again

  lemma DecodeLetters(a: bv8, b: bv8, c: bv8, d: bv8)
    requires a < 64 && b < 64 && c < 64 && d < 64
    ensures DecodeGroup([Letter(a), Letter(b), Letter(c), Letter(d)]) == [Byte0(a, b), Byte1(b, c), Byte2(c, d)]
    ensures DecodeGroup([Letter(a), Letter(b), Letter(c), PAD]) == [Byte0(a, b), Byte1(b, c)]
    ensures DecodeGroup([Letter(a), Letter(b), PAD, PAD]) == [Byte0(a, b)]
    ensures AllSignificant([Letter(a), Letter(b), Letter(c), Letter(d)])
  {
    CodeOfLetter(a);
    CodeOfLetter(b);
    CodeOfLetter(c);
    CodeOfLetter(d);
  }

  /** A group of characters that are all kept and that decode to b. */
  ghost predicate Stands(q: Text, b: seq<Byte>) {
    |q| == 4 && AllSignificant(q) && DecodeGroup(q) == b
  }

  lemma StandsPadded(q: Text, full: Text, b: seq<Byte>)
    requires |q| == |full| == 4 && AllSignificant(full) && DecodeGroup(q) == b
    requires forall k :: 0 <= k < 4 ==> q[k] == full[k] || q[k] == PAD
    ensures Stands(q, b)
  {}

  /** One, two or three bytes come back from their four characters, all of which are kept. */
  lemma GroupRoundTrip(b: seq<Byte>)
    requires 1 <= |b| <= 3
    ensures Stands(EncodeGroup(b), b)
  {
    var x, y, z := b[0], if |b| > 1 then b[1] else 0, if |b| > 2 then b[2] else 0;
    GroupLetters(b);
    DecodeLetters(Six0(x), Six1(x, y), Six2(y, z), Six3(z));
    Back0(x, y);
    Back1(x, y, z);
    Back2(y, z);
    var full := [Letter(Six0(x)), Letter(Six1(x, y)), Letter(Six2(y, z)), Letter(Six3(z))];
    assert b == [x, y, z][..|b|];
    StandsPadded(EncodeGroup(b), full, b);
  }

  // ----- the same 24 bits, as section 4 of RFC 4648 defines them

  function Bits8(x: Byte, y: Byte, z: Byte): bv32 {
    ((x as bv32) << 16) | ((y as bv32) << 8) | (z as bv32)
  }

  function Bits6(a: bv8, b: bv8, c: bv8, d: bv8): bv32 {
    ((a as bv32) << 18) | ((b as bv32) << 12) | ((c as bv32) << 6) | (d as bv32)
  }

  lemma SameBits(x: Byte, y: Byte, z: Byte)
    ensures Bits6(Six0(x), Six1(x, y), Six2(y, z), Six3(z)) == Bits8(x, y, z)
  {}

  lemma NoBits()
    ensures Six2(0, 0) == 0 && Six3(0) == 0
  {}

  /** The letter that the alphabet's table gives for six bits. */
  function Symbol(s: bv8): CodeUnit
    requires s < 64
  {
    AlphabetIs(s as int);
    ALPHABET[s as int] as int
  }

  lemma SymbolIs(s: bv8)
    requires s < 64
    ensures Letter(s) == Symbol(s) && Code(Symbol(s)) == s && Symbol(s) != '=' as int
  {
    AlphabetIs(s as int);
    CodeOfLetter(s);
  }

  /** A group of 24 bits is written as four letters of the table, most significant first; a final group of
      one or two bytes is filled up with zero bits, and '=' stands for the letters it does not reach. */
  lemma GroupSpellsBits(b: seq<Byte>) returns (s0: bv8, s1: bv8, s2: bv8, s3: bv8)
    requires 1 <= |b| <= 3
    ensures s0 < 64 && s1 < 64 && s2 < 64 && s3 < 64
    ensures |b| == 3 ==> EncodeGroup(b) == [Symbol(s0), Symbol(s1), Symbol(s2), Symbol(s3)]
                         && Bits6(s0, s1, s2, s3) == Bits8(b[0], b[1], b[2])
    ensures |b| == 2 ==> EncodeGroup(b) == [Symbol(s0), Symbol(s1), Symbol(s2), '=' as int]
                         && Bits6(s0, s1, s2, 0) == Bits8(b[0], b[1], 0)
    ensures |b| == 1 ==> EncodeGroup(b) == [Symbol(s0), Symbol(s1), '=' as int, '=' as int]
                         && Bits6(s0, s1, 0, 0) == Bits8(b[0], 0, 0)
  {
    var x, y, z := b[0], if |b| > 1 then b[1] else 0, if |b| > 2 then b[2] else 0;
    s0, s1, s2, s3 := Six0(x), Six1(x, y), Six2(y, z), Six3(z);
    GroupLetters(b);
    SymbolIs(s0);
    SymbolIs(s1);
    SymbolIs(s2);
    SymbolIs(s3);
    SameBits(x, y, z);
    NoBits();
  }

  // ----- any four kept characters, canonical or not

  /** The six bits a kept character stands for: those of the table; a pad that closes nothing counts as all ones. */
  ghost predicate StandsFor(c: CodeUnit, s: bv8) {
    s < 64 && (c == Symbol(s) || (c == '=' as int && s == 63))
  }

  lemma CodeBits(c: CodeUnit, s: bv8)
    requires StandsFor(c, s)
    ensures Code(c) & 0x3f == s && (Code(c) < 64 || Code(c) == 127)
  {
    if c == Symbol(s) { SymbolIs(s); }
  }

  lemma TopByte(k0: bv8, k1: bv8, a: bv8, b: bv8, c: bv8, d: bv8)
    requires k0 & 0x3f == a && k1 & 0x3f == b && c < 64 && d < 64
    ensures Byte0(k0, k1) as bv32 == Bits6(a, b, c, d) >> 16
  {}

  lemma MiddleByte(k1: bv8, k2: bv8, a: bv8, b: bv8, c: bv8, d: bv8)
    requires k1 & 0x3f == b && k2 & 0x3f == c && a < 64 && d < 64
    ensures Byte1(k1, k2) as bv32 == (Bits6(a, b, c, d) >> 8) & 0xff
  {}

  lemma LowByte(k2: bv8, k3: bv8, a: bv8, b: bv8, c: bv8, d: bv8)
    requires k2 & 0x3f == c && k3 & 0x3f == d && a < 64 && b < 64
    ensures Byte2(k2, k3) as bv32 == Bits6(a, b, c, d) & 0xff
  {}

  /** Bytes r are the leading bytes of 24 bits. */
  ghost predicate LeadingBytes(r: seq<Byte>, bits: bv32) {
    && 1 <= |r| <= 3 && r[0] as bv32 == bits >> 16
    && (|r| >= 2 ==> r[1] as bv32 == (bits >> 8) & 0xff)
    && (|r| == 3 ==> r[2] as bv32 == bits & 0xff)
  }

  lemma LeadsOne(k0: bv8, k1: bv8, a: bv8, b: bv8, c: bv8, d: bv8)
    requires k0 & 0x3f == a && k1 & 0x3f == b && c < 64 && d < 64
    ensures LeadingBytes([Byte0(k0, k1)], Bits6(a, b, c, d))
  {
    TopByte(k0, k1, a, b, c, d);
  }

  lemma LeadsTwo(k0: bv8, k1: bv8, k2: bv8, a: bv8, b: bv8, c: bv8, d: bv8)
    requires k0 & 0x3f == a && k1 & 0x3f == b && k2 & 0x3f == c && a < 64 && c < 64 && d < 64
    ensures LeadingBytes([Byte0(k0, k1), Byte1(k1, k2)], Bits6(a, b, c, d))
  {
    TopByte(k0, k1, a, b, c, d);
    MiddleByte(k1, k2, a, b, c, d);
  }

  lemma LeadsThree(k0: bv8, k1: bv8, k2: bv8, k3: bv8, a: bv8, b: bv8, c: bv8, d: bv8)
    requires k0 & 0x3f == a && k1 & 0x3f == b && k2 & 0x3f == c && k3 & 0x3f == d
    requires a < 64 && b < 64 && c < 64 && d < 64
    ensures LeadingBytes([Byte0(k0, k1), Byte1(k1, k2), Byte2(k2, k3)], Bits6(a, b, c, d))
  {
    TopByte(k0, k1, a, b, c, d);
    MiddleByte(k1, k2, a, b, c, d);
    LowByte(k2, k3, a, b, c, d);
  }

  lemma CodesLead(k0: bv8, k1: bv8, k2: bv8, k3: bv8, a: bv8, b: bv8, c: bv8, d: bv8)
    requires k0 & 0x3f == a && k1 & 0x3f == b && k2 & 0x3f == c && k3 & 0x3f == d
    requires a < 64 && b < 64 && c < 64 && d < 64
    ensures LeadingBytes([Byte0(k0, k1)], Bits6(a, b, c, d))
    ensures LeadingBytes([Byte0(k0, k1), Byte1(k1, k2)], Bits6(a, b, c, d))
    ensures LeadingBytes([Byte0(k0, k1), Byte1(k1, k2), Byte2(k2, k3)], Bits6(a, b, c, d))
  {
    LeadsOne(k0, k1, a, b, c, d);
    LeadsTwo(k0, k1, k2, a, b, c, d);
    LeadsThree(k0, k1, k2, k3, a, b, c, d);
  }

  /** Decoding takes the 24 bits of four kept characters apart into bytes, most significant first: one byte if the
      third is a pad, else two if the fourth is, else three; bits beyond the last byte are dropped. */
  lemma DecodesBits(q: Text, s0: bv8, s1: bv8, s2: bv8, s3: bv8)
    requires |q| == 4 && StandsFor(q[0], s0) && StandsFor(q[1], s1) && StandsFor(q[2], s2) && StandsFor(q[3], s3)
    ensures LeadingBytes(DecodeGroup(q), Bits6(s0, s1, s2, s3))
    ensures |DecodeGroup(q)| == if q[2] == '=' as int then 1 else if q[3] == '=' as int then 2 else 3
  {
    CodeBits(q[0], s0);
    CodeBits(q[1], s1);
    CodeBits(q[2], s2);
    CodeBits(q[3], s3);
    CodesLead(Code(q[0]), Code(q[1]), Code(q[2]), Code(q[3]), s0, s1, s2, s3);
  }
}
