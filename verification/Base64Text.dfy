/** Grouping, filtering and line breaking, for any way of encoding and decoding one group. */
module Base64Text {
  import opened Base64

  type Encoder = seq<Byte> -> Text
  type Decoder = Text -> seq<Byte>
  /** The line break due after so many characters of full groups, if one is. */
  type Breaker = nat -> Text

  /** `f` writes one to three bytes as four significant characters, and `g` reads them back. */
  ghost predicate Codec(f: Encoder, g: Decoder) {
    forall b :: 1 <= |b| <= 3 ==> |f(b)| == 4 && AllSignificant(f(b)) && g(f(b)) == b
  }

  function EncodeBy(f: Encoder, b: seq<Byte>): Text {
    if |b| == 0 then [] else if |b| < 3 then f(b) else f(b[..3]) + EncodeBy(f, b[3..])
  }

  function LineBreak(output: nat): (nl: Text)
    ensures nl == [] || nl == [NEWLINE]
  {
    if output % 76 == 0 then [NEWLINE] else []
  }

  ghost predicate BreaksLines(brk: Breaker) {
    forall o: nat :: brk(o) == [] || brk(o) == [NEWLINE]
  }

  /** Groups with line breaks between them, the characters of full groups counted from `output`. */
  function WrapBy(f: Encoder, brk: Breaker, b: seq<Byte>, output: nat): Text {
    if |b| < 3 then EncodeBy(f, b)
    else f(b[..3]) + brk(output + 4) + WrapBy(f, brk, b[3..], output + 4)
  }

  /** Consecutive groups of four; up to three left-over characters are ignored. */
  function QuadsBy(g: Decoder, q: Text): seq<Byte> {
    if |q| < 4 then [] else g(q[..4]) + QuadsBy(g, q[4..])
  }

  function Keep(s: Text): Text {
    if s == [] then [] else Keep(s[..|s| - 1]) + if Significant(s[|s| - 1]) then [s[|s| - 1]] else []
  }

  lemma {:induction false} KeepConcat(a: Text, b: Text)
    ensures Keep(a + b) == Keep(a) + Keep(b)
  {
    if b == [] {
      assert a + b == a;
    } else {
      assert (a + b)[..|a + b| - 1] == a + b[..|b| - 1];
      KeepConcat(a, b[..|b| - 1]);
    }
  }

  lemma {:induction false} KeepAll(s: Text)
    requires AllSignificant(s)
    ensures Keep(s) == s
  {
    if s != [] { KeepAll(s[..|s| - 1]); }
  }

  lemma {:induction false} KeepNone(s: Text)
    requires forall k :: 0 <= k < |s| ==> !Significant(s[k])
    ensures Keep(s) == []
  {
    if s != [] { KeepNone(s[..|s| - 1]); }
  }

  lemma {:induction false} QuadsConcat(g: Decoder, p: Text, q: Text)
    requires |p| % 4 == 0
    ensures QuadsBy(g, p + q) == QuadsBy(g, p) + QuadsBy(g, q)
    decreases |p|
  {
    if p == [] {
      assert p + q == q;
    } else {
      assert (p + q)[4..] == p[4..] + q && (p + q)[..4] == p[..4];
      QuadsConcat(g, p[4..], q);
    }
  }

  lemma {:induction false} EncodeConcat(f: Encoder, a: seq<Byte>, b: seq<Byte>)
    requires |a| % 3 == 0
    ensures EncodeBy(f, a + b) == EncodeBy(f, a) + EncodeBy(f, b)
    decreases |a|
  {
    if a == [] {
      assert a + b == b;
    } else {
      assert (a + b)[3..] == a[3..] + b && (a + b)[..3] == a[..3];
      EncodeConcat(f, a[3..], b);
    }
  }

  lemma {:induction false} EncodedShape(f: Encoder, g: Decoder, b: seq<Byte>)
    requires Codec(f, g)
    ensures AllSignificant(EncodeBy(f, b))
    ensures |EncodeBy(f, b)| == (|b| + 2) / 3 * 4 && |EncodeBy(f, b)| % 4 == 0
  {
    if |b| >= 3 { EncodedShape(f, g, b[3..]); }
  }

  lemma {:induction false} EncodedQuads(f: Encoder, g: Decoder, b: seq<Byte>)
    requires Codec(f, g)
    ensures QuadsBy(g, EncodeBy(f, b)) == b
  {
    if |b| >= 3 {
      var head, rest := f(b[..3]), EncodeBy(f, b[3..]);
      EncodedQuads(f, g, b[3..]);
      assert (head + rest)[..4] == head && (head + rest)[4..] == rest;
      assert b == b[..3] + b[3..];
    } else if |b| >= 1 {
      assert f(b)[..4] == f(b) && f(b)[4..] == [];
    }
  }

  /** The bytes of the k-th group. */
  function Slice(b: seq<Byte>, k: nat): seq<Byte>
    requires 3 * k < |b|
  {
    b[3 * k..if 3 * k + 3 <= |b| then 3 * k + 3 else |b|]
  }

  lemma SliceLater(b: seq<Byte>, k: nat)
    requires 1 <= k && 3 * k < |b|
    ensures Slice(b, k) == Slice(b[3..], k - 1)
  {}

  lemma QuadLater(head: Text, rest: Text, k: nat)
    requires |head| == 4 && 1 <= k && 4 * k <= |rest|
    ensures (head + rest)[4 * k..4 * k + 4] == rest[4 * (k - 1)..4 * (k - 1) + 4]
  {}

  /** The k-th four characters are the k-th three bytes, or what is left of them. */
  lemma {:induction false} GroupAt(f: Encoder, g: Decoder, b: seq<Byte>, k: nat)
    requires Codec(f, g) && 3 * k < |b|
    ensures 4 * k + 4 <= |EncodeBy(f, b)| && EncodeBy(f, b)[4 * k..4 * k + 4] == f(Slice(b, k))
    decreases |b|
  {
    if |b| < 3 {
      assert Slice(b, 0) == b;
    } else if k == 0 {
      assert Slice(b, 0) == b[..3];
    } else {
      GroupAt(f, g, b[3..], k - 1);
      SliceLater(b, k);
      QuadLater(f(b[..3]), EncodeBy(f, b[3..]), k);
    }
  }

  // ----- lines

  /** From column `col`: no line is longer than 76, and a newline comes only after exactly 76 characters. */
  ghost predicate Lines76(s: Text, col: nat)
    decreases |s|
  {
    s == [] || (if s[0] == NEWLINE then col == 76 && Lines76(s[1..], 0) else col < 76 && Lines76(s[1..], col + 1))
  }

  lemma {:induction false} LinesAppend(s: Text, t: Text, col: nat)
    requires NEWLINE !in s && col + |s| <= 76 && Lines76(t, col + |s|)
    ensures Lines76(s + t, col)
  {
    if s == [] {
      assert s + t == t;
    } else {
      assert (s + t)[1..] == s[1..] + t;
      LinesAppend(s[1..], t, col + 1);
    }
  }

  lemma NewlineIsForeign(s: Text)
    ensures !Significant(NEWLINE) && Keep([NEWLINE]) == []
    ensures AllSignificant(s) ==> NEWLINE !in s
  {
    assert [NEWLINE][..0] == [];
  }

  ghost function Column(output: nat): nat {
    output % 76
  }

  /** Columns advance by four and newlines come at 76. */
  lemma NextColumn(output: nat)
    requires output % 4 == 0
    ensures Column(output) <= 72 && (output + 4) % 4 == 0
    ensures if Column(output) == 72 then Column(output + 4) == 0 && LineBreak(output + 4) == [NEWLINE]
            else Column(output + 4) == Column(output) + 4 && LineBreak(output + 4) == []
  {
    var q, r := output / 76, output % 76;
    assert output == 76 * q + r && r % 4 == (output - 4 * (19 * q)) % 4 == 0;
    if r == 72 { RemainderIs(output + 4, q + 1, 0); } else { RemainderIs(output + 4, q, r + 4); }
  }

  lemma RemainderIs(n: nat, q: nat, r: nat)
    requires n == 76 * q + r && r < 76
    ensures n % 76 == r
  {}

  lemma LinesGroup(head: Text, nl: Text, rest: Text, col: nat)
    requires |head| == 4 && NEWLINE !in head && col <= 72
    requires if col == 72 then nl == [NEWLINE] && Lines76(rest, 0) else nl == [] && Lines76(rest, col + 4)
    ensures Lines76(head + nl + rest, col)
  {
    assert col == 72 ==> (nl + rest)[1..] == rest;
    assert col != 72 ==> nl + rest == rest;
    LinesAppend(head, nl + rest, col);
    assert head + nl + rest == head + (nl + rest);
  }

  lemma {:induction false} WrappedLines(f: Encoder, g: Decoder, b: seq<Byte>, output: nat)
    requires Codec(f, g) && output % 4 == 0
    ensures Lines76(WrapBy(f, LineBreak, b, output), Column(output))
  {
    NextColumn(output);
    if |b| < 3 {
      var s := EncodeBy(f, b);
      EncodedShape(f, g, b);
      NewlineIsForeign(s);
      LinesAppend(s, [], Column(output));
      assert s + [] == s;
    } else {
      var head, rest := f(b[..3]), WrapBy(f, LineBreak, b[3..], output + 4);
      NewlineIsForeign(head);
      WrappedLines(f, g, b[3..], output + 4);
      LinesGroup(head, LineBreak(output + 4), rest, Column(output));
    }
  }

  lemma KeepGroup(head: Text, nl: Text, rest: Text)
    requires AllSignificant(head) && (nl == [] || nl == [NEWLINE])
    ensures Keep(head + nl + rest) == head + Keep(rest)
  {
    var kept := Keep(head + nl);
    assert kept == head by {
      KeepConcat(head, nl);
      KeepAll(head);
      KeepNone(nl) by { NewlineIsForeign(nl); }
      assert head + [] == head;
    }
    KeepConcat(head + nl, rest);
  }

  lemma {:induction false} WrappedKeep(f: Encoder, g: Decoder, brk: Breaker, b: seq<Byte>, output: nat)
    requires Codec(f, g) && BreaksLines(brk)
    ensures Keep(WrapBy(f, brk, b, output)) == EncodeBy(f, b)
  {
    if |b| < 3 {
      EncodedShape(f, g, b);
      KeepAll(EncodeBy(f, b));
    } else {
      var head, rest := f(b[..3]), WrapBy(f, brk, b[3..], output + 4);
      KeepGroup(head, brk(output + 4), rest);
      WrappedKeep(f, g, brk, b[3..], output + 4);
    }
  }

  // ----- the wrapped form without its newlines

  function WithoutNewlines(s: Text): Text {
    if s == [] then []
    else WithoutNewlines(s[..|s| - 1]) + if s[|s| - 1] != NEWLINE then [s[|s| - 1]] else []
  }

  ghost predicate SignificantOrNewline(s: Text) {
    forall k :: 0 <= k < |s| ==> Significant(s[k]) || s[k] == NEWLINE
  }

  lemma {:induction false} WrappedCharacters(f: Encoder, g: Decoder, brk: Breaker, b: seq<Byte>, output: nat)
    requires Codec(f, g) && BreaksLines(brk)
    ensures SignificantOrNewline(WrapBy(f, brk, b, output))
  {
    if |b| < 3 {
      EncodedShape(f, g, b);
    } else {
      WrappedCharacters(f, g, brk, b[3..], output + 4);
    }
  }

  /** When newlines are the only foreign characters, dropping what is foreign drops just them. */
  lemma {:induction false} KeepIsWithoutNewlines(s: Text)
    requires SignificantOrNewline(s)
    ensures WithoutNewlines(s) == Keep(s)
  {
    if s != [] {
      KeepIsWithoutNewlines(s[..|s| - 1]);
      NewlineIsForeign([]);
    }
  }

  // ----- the codec of the program

  function Encode(b: seq<Byte>): Text { EncodeBy(EncodeGroup, b) }

  /** A newline after every 76 characters of full groups. */
  function Wrapped(b: seq<Byte>): Text { WrapBy(EncodeGroup, LineBreak, b, 0) }

  /** The plain meaning of decoding: drop what is not significant, then take groups of four. */
  function Decode(s: Text): seq<Byte> { QuadsBy(DecodeGroup, Keep(s)) }

  lemma ProgramCodec()
    ensures Codec(EncodeGroup, DecodeGroup)
  {
    forall b: seq<Byte> | 1 <= |b| <= 3
      ensures |EncodeGroup(b)| == 4 && AllSignificant(EncodeGroup(b)) && DecodeGroup(EncodeGroup(b)) == b
    {
      GroupRoundTrip(b);
    }
  }

  /** For all byte strings: decode(encode(x)) = x. */
  lemma DecodeEncode(x: seq<Byte>)
    ensures Decode(Encode(x)) == x
  {
    ProgramCodec();
    RoundTripBy(EncodeGroup, DecodeGroup, x, []);
    assert Encode(x) + EncodeBy(EncodeGroup, []) == Encode(x);
  }

  lemma RoundTripBy(f: Encoder, g: Decoder, x: seq<Byte>, y: seq<Byte>)
    requires Codec(f, g)
    ensures QuadsBy(g, Keep(EncodeBy(f, x) + EncodeBy(f, y))) == x + y
  {
    var p, q := EncodeBy(f, x), EncodeBy(f, y);
    assert AllSignificant(p) && |p| % 4 == 0 by { EncodedShape(f, g, x); }
    assert AllSignificant(q) by { EncodedShape(f, g, y); }
    EncodedQuads(f, g, x);
    EncodedQuads(f, g, y);
    KeepAll(p + q);
    QuadsConcat(g, p, q);
  }

  /** Encoded pieces may be joined, even with padding in the middle: decode(encode(x) + encode(y)) = x + y. */
  lemma DecodeJoined(x: seq<Byte>, y: seq<Byte>)
    ensures Decode(Encode(x) + Encode(y)) == x + y
  {
    ProgramCodec();
    RoundTripBy(EncodeGroup, DecodeGroup, x, y);
  }

  /** Foreign characters anywhere make no difference. */
  lemma DecodeIgnoresForeign(a: Text, junk: Text, b: Text)
    requires forall k :: 0 <= k < |junk| ==> !Significant(junk[k])
    ensures Decode(a + junk + b) == Decode(a + b)
  {
    KeepNone(junk);
    KeepConcat(a + junk, b);
    KeepConcat(a, junk);
    KeepConcat(a, b);
    assert Keep(a) + [] == Keep(a);
  }

  /** The wrapped form without its newlines is the plain one; it breaks the text into lines of 76, and
      decodes to the same bytes. */
  lemma DecodeWrapped(x: seq<Byte>)
    ensures SignificantOrNewline(Wrapped(x)) && WithoutNewlines(Wrapped(x)) == Encode(x)
    ensures Lines76(Wrapped(x), 0)
    ensures Decode(Wrapped(x)) == x
  {
    ProgramCodec();
    WrappedKeep(EncodeGroup, DecodeGroup, LineBreak, x, 0);
    WrappedCharacters(EncodeGroup, DecodeGroup, LineBreak, x, 0);
    KeepIsWithoutNewlines(Wrapped(x));
    WrappedLines(EncodeGroup, DecodeGroup, x, 0);
    EncodedQuads(EncodeGroup, DecodeGroup, x);
  }
}
