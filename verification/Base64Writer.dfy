/** The writer form of the encoder, whose column counter is a 32-bit int, and the exact length up to which
    it breaks lines as it should. */
module Base64Writer {
  import opened JavaInt
  import opened Base64
  import opened Base64Text
  import opened Base64Codec

  /** The line break as the program decides it, on the counter's 32-bit value. */
  function IntLineBreak(output: nat): (nl: Text)
    ensures nl == [] || nl == [NEWLINE]
  {
    if Remainder(Wrap(output), 76) == 0 then [NEWLINE] else []
  }

  /** What the program writes. */
  function Written(b: seq<Byte>): Text { WrapBy(EncodeGroup, IntLineBreak, b, 0) }

  ghost predicate Breaks(brk: Breaker) {
    forall o {:trigger IntLineBreak(o)} :: brk(o) == IntLineBreak(o)
  }

  lemma {:induction false} WrapConcat(f: Encoder, brk: Breaker, a: seq<Byte>, b: seq<Byte>, output: nat, k: nat)
    requires |a| == 3 * k
    ensures WrapBy(f, brk, a + b, output) == WrapBy(f, brk, a, output) + WrapBy(f, brk, b, output + 4 * k)
    decreases k
  {
    if k == 0 {
      assert a + b == b;
    } else {
      assert (a + b)[3..] == a[3..] + b && (a + b)[..3] == a[..3];
      WrapConcat(f, brk, a[3..], b, output + 4, k - 1);
      assert output + 4 * k == output + 4 + 4 * (k - 1);
      var head := f(a[..3]) + brk(output + 4);
      assert WrapBy(f, brk, a + b, output) == head + WrapBy(f, brk, a[3..] + b, output + 4);
    }
  }

  lemma WrapNext(f: Encoder, brk: Breaker, data: seq<Byte>, off: nat, r: nat, n: nat, k: nat)
    requires off <= r <= r + n <= |data| && r - off == 3 * k && 1 <= n <= 3
    ensures WrapBy(f, brk, data[off..r + n], 0)
         == WrapBy(f, brk, data[off..r], 0) + f(data[r..r + n]) + if n == 3 then brk(4 * k + 4) else []
  {
    var a, b := data[off..r], data[r..r + n];
    assert data[off..r + n] == a + b;
    WrapConcat(f, brk, a, b, 0, k);
    if n == 3 { assert b[..3] == b && b[3..] == []; }
  }

  method WriteLineNext(written: Text, data: array<Byte>, off: nat, rindex: nat, n: nat, ghost k: nat,
                       ghost f: Encoder, ghost brk: Breaker)
      returns (written': Text)
    requires Encodes(f) && 1 <= n <= 3 && off <= rindex && rindex + n <= data.Length && rindex - off == 3 * k
    requires written == WrapBy(f, brk, data[off..rindex], 0)
    ensures n < 3 ==> written' == WrapBy(f, brk, data[off..rindex + n], 0)
    ensures n == 3 ==> written' + brk(4 * k + 4) == WrapBy(f, brk, data[off..rindex + n], 0)
  {
    var quad := NextGroup(data, off, rindex, n);
    written' := written + quad;
    WrapNext(f, brk, data[..], off, rindex, n, k);
    assert data[..][off..rindex] == data[off..rindex] && data[..][rindex..rindex + n] == data[rindex..rindex + n];
    assert data[..][off..rindex + n] == data[off..rindex + n];
  }

  /** `encode(byte[], int, int, Writer)` */
  method EncodeToWriter(data: array<Byte>, off: int, len: int) returns (written: Text)
    requires len > 0 ==> 0 <= off && off + len <= data.Length
    ensures written == if len <= 0 then [] else Written(data[off..off + len])
  {
    if len <= 0 {
      return [];
    }
    written := WriteAllLines(data, off, len, EncodeGroup, IntLineBreak);
  }

  method WriteAllLines(data: array<Byte>, off: nat, len: nat, ghost f: Encoder, ghost brk: Breaker)
      returns (written: Text)
    requires Encodes(f) && Breaks(brk) && off + len <= data.Length
    ensures written == WrapBy(f, brk, data[off..off + len], 0)
  {
    var rindex;
    ghost var k;
    written, rindex, k := WriteLines(data, off, len, f, brk);
    written := WriteLineLast(written, data, off, rindex, off + len, k, f, brk);
  }

  /** The loop of the writer encoder: all full groups, a newline whenever `output` reaches a multiple of 76. */
  method WriteLines(data: array<Byte>, off: nat, len: nat, ghost f: Encoder, ghost brk: Breaker)
      returns (written: Text, rindex: nat, ghost k: nat)
    requires Encodes(f) && Breaks(brk) && off + len <= data.Length
    ensures rindex == off + 3 * k && off + len - 3 < rindex <= off + len
    ensures written == WrapBy(f, brk, data[off..rindex], 0)
  {
    written, rindex, k := [], off, 0;
    var rest, output := len, 0;
    assert output == Wrap(0);
    while rest >= 3
      invariant 0 <= k && rindex == off + 3 * k && rest == len - 3 * k >= 0 && output == Wrap(4 * k)
      invariant written == WrapBy(f, brk, data[off..rindex], 0)
    {
      written := WriteLineNext(written, data, off, rindex, 3, k, f, brk);
      rindex := rindex + 3;
      rest := rest - 3;
      WrapAdd(4 * k, 4);
      output := Wrap(output + 4);
      k := k + 1;
      written := EndLine(written, output, 4 * k);
    }
  }

  method EndLine(written: Text, output: int, ghost o: nat) returns (written': Text)
    requires output == Wrap(o)
    ensures written' == written + IntLineBreak(o)
  {
    written' := written;
    if Remainder(output, 76) == 0 {
      written' := written + [NEWLINE];
    } else {
      assert written + [] == written;
    }
  }

  method WriteLineLast(written: Text, data: array<Byte>, off: nat, rindex: nat, end: nat, ghost k: nat,
                       ghost f: Encoder, ghost brk: Breaker)
      returns (written': Text)
    requires Encodes(f) && off <= rindex <= end <= data.Length && end < rindex + 3 && rindex - off == 3 * k
    requires written == WrapBy(f, brk, data[off..rindex], 0)
    ensures written' == WrapBy(f, brk, data[off..end], 0)
  {
    written' := written;
    if end > rindex {
      written' := WriteLineNext(written, data, off, rindex, end - rindex, k, f, brk);
    }
  }

  // ----- how far the counter counts right

  /** After this many groups, 2^29 + 4, a newline is due that the program does not write. */
  const GROUPS: nat := 0x2000_0004

  lemma BreaksAgree(o: nat)
    requires o % 4 == 0 && o < 4 * GROUPS
    ensures IntLineBreak(o) == LineBreak(o)
  {
    if o < 0x8000_0000 {
      assert Wrap(o) == o;
    } else {
      assert o == 0x8000_0000 || o == 0x8000_0004 || o == 0x8000_0008 || o == 0x8000_000c;
    }
  }

  lemma BreakMissing()
    ensures LineBreak(4 * GROUPS) == [NEWLINE] && IntLineBreak(4 * GROUPS) == []
  {}

  lemma {:induction false} WrapAgrees(f: Encoder, b: seq<Byte>, output: nat)
    requires output % 4 == 0 && output + 4 * (|b| / 3) < 4 * GROUPS
    ensures WrapBy(f, IntLineBreak, b, output) == WrapBy(f, LineBreak, b, output)
    decreases |b|
  {
    if |b| >= 3 {
      assert |b[3..]| / 3 == |b| / 3 - 1;
      BreaksAgree(output + 4);
      WrapAgrees(f, b[3..], output + 4);
    }
  }

  lemma StartsWithLetter(f: Encoder, g: Decoder, brk: Breaker, b: seq<Byte>, output: nat)
    requires Codec(f, g) && b != []
    ensures var s := WrapBy(f, brk, b, output); s != [] && s[0] != NEWLINE
  {
    NewlineIsForeign([]);
    var q := if |b| < 3 then b else b[..3];
    assert Significant(f(q)[0]);
  }

  /** Two ways of breaking lines that agree up to a group where only the first breaks: the texts part there. */
  lemma TextsPart(f: Encoder, due: Breaker, brk: Breaker, a: seq<Byte>, b: seq<Byte>, c: seq<Byte>, k: nat)
      returns (p: Text)
    requires |a| == 3 * k && |b| == 3 && WrapBy(f, due, a, 0) == WrapBy(f, brk, a, 0)
    requires due(4 * k + 4) == [NEWLINE] && brk(4 * k + 4) == []
    ensures WrapBy(f, due, a + b + c, 0) == p + ([NEWLINE] + WrapBy(f, due, c, 4 * k + 4))
    ensures WrapBy(f, brk, a + b + c, 0) == p + WrapBy(f, brk, c, 4 * k + 4)
  {
    AroundGroup(f, due, a, b, c, k);
    AroundGroup(f, brk, a, b, c, k);
    p := WrapBy(f, due, a, 0) + f(b);
    Rejoin(p, WrapBy(f, due, c, 4 * k + 4), WrapBy(f, brk, c, 4 * k + 4));
  }

  lemma Rejoin(p: Text, due: Text, rest: Text)
    ensures p + [NEWLINE] + due == p + ([NEWLINE] + due) && p + [] + rest == p + rest
  {}

  /** One group in the middle. */
  lemma AroundGroup(f: Encoder, brk: Breaker, a: seq<Byte>, b: seq<Byte>, c: seq<Byte>, k: nat)
    requires |a| == 3 * k && |b| == 3
    ensures WrapBy(f, brk, a + b + c, 0) == WrapBy(f, brk, a, 0) + f(b) + brk(4 * k + 4) + WrapBy(f, brk, c, 4 * k + 4)
  {
    var tail := b + c;
    assert a + b + c == a + tail && tail[..3] == b && tail[3..] == c;
    WrapConcat(f, brk, a, tail, 0, k);
    assert WrapBy(f, brk, tail, 4 * k) == f(b) + brk(4 * k + 4) + WrapBy(f, brk, c, 4 * k + 4);
  }

  function ColumnAfter(s: Text, col: nat): nat
    decreases |s|
  {
    if s == [] then col else ColumnAfter(s[1..], if s[0] == NEWLINE then 0 else col + 1)
  }

  lemma {:induction false} LinesSplit(s: Text, t: Text, col: nat)
    ensures Lines76(s + t, col) <==> Lines76(s, col) && Lines76(t, ColumnAfter(s, col))
    decreases |s|
  {
    if s == [] {
      assert s + t == t;
    } else {
      assert (s + t)[1..] == s[1..] + t;
      LinesSplit(s[1..], t, if s[0] == NEWLINE then 0 else col + 1);
    }
  }

  /** One text with a newline where the other has none: they differ, and the lines of the second are good
      only if it ends there. */
  lemma OneNewlineLess(p: Text, due: Text, rest: Text)
    requires Lines76(p + ([NEWLINE] + due), 0) && (rest != [] ==> rest[0] != NEWLINE)
    ensures p + rest != p + ([NEWLINE] + due) && (Lines76(p + rest, 0) <==> rest == [])
  {
    LinesSplit(p, [NEWLINE] + due, 0);
    LinesSplit(p, rest, 0);
    assert (p + ([NEWLINE] + due))[|p|] == NEWLINE;
    assert rest != [] ==> (p + rest)[|p|] == rest[0];
  }

  lemma WrittenBeyond(x: seq<Byte>)
    requires |x| >= 3 * GROUPS
    ensures Written(x) != Wrapped(x) && (Lines76(Written(x), 0) <==> |x| == 3 * GROUPS)
  {
    var k := GROUPS - 1;
    var a, b, c := x[..3 * k], x[3 * k..3 * k + 3], x[3 * k + 3..];
    assert x == a + b + c;
    ProgramCodec();
    WrapAgrees(EncodeGroup, a, 0);
    BreakMissing();
    var p := TextsPart(EncodeGroup, LineBreak, IntLineBreak, a, b, c, k);
    DecodeWrapped(x);
    if c != [] { StartsWithLetter(EncodeGroup, DecodeGroup, IntLineBreak, c, 4 * GROUPS); }
    OneNewlineLess(p, WrapBy(EncodeGroup, LineBreak, c, 4 * GROUPS), WrapBy(EncodeGroup, IntLineBreak, c, 4 * GROUPS));
  }

  /** What the writer writes is the wrapped form exactly for fewer than 1610612748 bytes, and it keeps the
      lines within 76 exactly for at most that many. Always it holds nothing but the encoded text and
      newlines, so it decodes to the same bytes. */
  lemma WriterLimits(x: seq<Byte>)
    ensures Written(x) == Wrapped(x) <==> |x| < 1_610_612_748
    ensures Lines76(Written(x), 0) <==> |x| <= 1_610_612_748
    ensures SignificantOrNewline(Written(x)) && WithoutNewlines(Written(x)) == Encode(x)
    ensures Decode(Written(x)) == x
  {
    ProgramCodec();
    WrappedKeep(EncodeGroup, DecodeGroup, IntLineBreak, x, 0);
    WrappedCharacters(EncodeGroup, DecodeGroup, IntLineBreak, x, 0);
    KeepIsWithoutNewlines(Written(x));
    EncodedQuads(EncodeGroup, DecodeGroup, x);
    if |x| < 3 * GROUPS {
      WrapAgrees(EncodeGroup, x, 0);
      DecodeWrapped(x);
    } else {
      WrittenBeyond(x);
    }
  }
}
