/** The codec's loops over arrays, against the meaning given in `Base64Text`. A stream or writer is
    the sequence of what was written to it. */
module Base64Codec {
  import opened JavaInt
  import opened Base64
  import opened Base64Text

  const BUF_SIZE: nat := 256

  /** How a call ends: with a value, or with an exception. */
  datatype Outcome<T> = Returned(value: T) | Thrown

  /** The decode table, indexed by character. */
  ghost predicate IsTable(table: seq<Byte>) {
    |table| == 128 && forall c :: 0 <= c < 128 ==> table[c] == Code(c)
  }

  /** The static initialiser: fill with 127, then enter the alphabet. */
  method BuildTable() returns (table: array<Byte>)
    ensures IsTable(table[..])
  {
    table := new Byte[128];
    for i := 0 to 128
      invariant forall c :: 0 <= c < i ==> table[c] == 127
    {
      table[i] := 127;
    }
    for i := 0 to 64
      invariant forall c :: 0 <= c < 128 ==> table[c] == CodeBelow(c, i)
    {
      AlphabetIsABijection(i, PAD);
      forall c: CodeUnit | c < 128
        ensures CodeBelow(c, i + 1) == if c == LetterAt(i) then i as bv8 else CodeBelow(c, i)
      {
        AlphabetIsABijection(i, c);
      }
      table[LetterAt(i)] := i as bv8;
    }
  }

  /** The table entry when the first n letters are entered. */
  function CodeBelow(c: CodeUnit, n: nat): Byte
    requires n <= 64
  {
    if 0 <= PlaceOf(c) < n then PlaceOf(c) as bv8 else 127
  }

  lemma SignificantIsAscii(c: CodeUnit)
    requires Significant(c)
    ensures c < 128
  {
    AlphabetIsABijection(0, c);
  }

  /** The test on the table, for any character. */
  method IsSignificant(table: seq<Byte>, ch: CodeUnit) returns (r: bool)
    requires IsTable(table)
    ensures r == Significant(ch)
  {
    SignificantByTable(ch);
    r := ch == PAD || (ch < 128 && table[ch] != 127);
  }

  method LookUp(table: seq<Byte>, ch: CodeUnit) returns (b: Byte)
    requires IsTable(table) && Significant(ch)
    ensures b == Code(ch)
  {
    SignificantIsAscii(ch);
    b := table[ch];
  }

  /** `decode0`: the characters are pads or letters, so the table look-ups are in bounds. */
  method Decode0(table: seq<Byte>, ibuf: array<CodeUnit>, obuf: array<Byte>, wp: nat) returns (n: nat)
    requires IsTable(table) && (ibuf as object) != obuf
    requires ibuf.Length >= 4 && AllSignificant(ibuf[..4])
    requires wp + |DecodeGroup(ibuf[..4])| <= obuf.Length
    modifies obuf
    ensures n == |DecodeGroup(ibuf[..4])|
    ensures obuf[..wp + n] == old(obuf[..wp]) + DecodeGroup(ibuf[..4])
  {
    ghost var q, before := ibuf[..4], obuf[..wp];
    assert q[0] == ibuf[0] && q[1] == ibuf[1] && q[2] == ibuf[2] && q[3] == ibuf[3];
    var outlen := 3;
    if ibuf[3] == PAD {
      outlen := 2;
    }
    if ibuf[2] == PAD {
      outlen := 1;
    }
    var b0 := LookUp(table, ibuf[0]);
    var b1 := LookUp(table, ibuf[1]);
    var b2 := LookUp(table, ibuf[2]);
    var b3 := LookUp(table, ibuf[3]);
    n := outlen;
    StoreByte(obuf, wp, Byte0(b0, b1));
    if outlen >= 2 {
      StoreByte(obuf, wp + 1, Byte1(b1, b2));
    }
    if outlen == 3 {
      StoreByte(obuf, wp + 2, Byte2(b2, b3));
    }
    assert obuf[..wp + n] == before + DecodeGroup(q);
  }

  method StoreByte(obuf: array<Byte>, wp: nat, b: Byte)
    requires wp < obuf.Length
    modifies obuf
    ensures obuf[..wp + 1] == old(obuf[..wp]) + [b]
  {
    obuf[wp] := b;
  }

  /** `decode0` into a three-byte buffer of its own, as the stream decoders use it. */
  method DecodeOne(table: seq<Byte>, ibuf: array<CodeUnit>) returns (bytes: seq<Byte>)
    requires IsTable(table) && ibuf.Length >= 4 && AllSignificant(ibuf[..4])
    ensures bytes == DecodeGroup(ibuf[..4])
  {
    var obuf := new Byte[3];
    var obufcount := Decode0(table, ibuf, obuf, 0);
    bytes := obuf[..obufcount];
  }

  // ----- feeding one character

  /** The characters waiting for their group to fill up. */
  function Carry(kept: Text): (c: Text)
    ensures |c| < 4 && (AllSignificant(kept) ==> AllSignificant(c))
  {
    if |kept| < 4 then kept else Carry(kept[4..])
  }

  /** `g` decodes one group. The loops are proved for any such `g`, which keeps the bits out of sight. */
  ghost predicate Decodes(g: Decoder) {
    && (forall q {:trigger DecodeGroup(q)} :: g(q) == DecodeGroup(q))
    && (forall q :: |g(q)| <= 3)
  }

  lemma ProgramDecodes()
    ensures Decodes(DecodeGroup)
  {}

  lemma ShortQuads(g: Decoder, q: Text)
    requires |q| <= 4
    ensures QuadsBy(g, q) == if |q| == 4 then g(q) else []
  {
    if |q| == 4 { assert q[..4] == q && q[4..] == []; }
  }

  /** One more character: the carry grows, or a group is complete and decoded. */
  lemma {:induction false} QuadsNext(g: Decoder, kept: Text, c: CodeUnit)
    ensures QuadsBy(g, kept + [c]) == QuadsBy(g, kept) + if |Carry(kept)| == 3 then g(Carry(kept) + [c]) else []
    ensures Carry(kept + [c]) == if |Carry(kept)| == 3 then [] else Carry(kept) + [c]
    decreases |kept|
  {
    var next := kept + [c];
    if |kept| < 4 {
      ShortQuads(g, next);
    } else {
      assert next[4..] == kept[4..] + [c] && next[..4] == kept[..4];
      QuadsNext(g, kept[4..], c);
    }
  }

  lemma {:induction false} QuadsLength(g: Decoder, kept: Text)
    requires forall q :: |g(q)| <= 3
    ensures |QuadsBy(g, kept)| <= 3 * (|kept| / 4)
    decreases |kept|
  {
    if |kept| >= 4 { QuadsLength(g, kept[4..]); }
  }

  lemma {:induction false} KeepShape(s: Text)
    ensures |Keep(s)| <= |s| && AllSignificant(Keep(s))
  {
    if s != [] { KeepShape(s[..|s| - 1]); }
  }

  lemma KeepNext(s: Text, i: nat)
    requires i < |s|
    ensures Keep(s[..i + 1]) == Keep(s[..i]) + if Significant(s[i]) then [s[i]] else []
  {
    assert s[..i + 1][..i] == s[..i];
  }

  /** The buffers hold what `kept` says: its waiting characters and its decoded bytes. */
  ghost predicate Holds(g: Decoder, ibuf: array<CodeUnit>, ibufcount: nat, obuf: array<Byte>, obufcount: nat,
                        kept: Text)
    reads ibuf, obuf
  {
    && ibufcount <= ibuf.Length && ibuf[..ibufcount] == Carry(kept)
    && obufcount <= obuf.Length && obuf[..obufcount] == QuadsBy(g, kept)
  }

  /** The body of the decoding loops: keep the character if it is significant, and decode as soon as
      there are four. Only the cell at the write index changes. */
  method Feed(table: seq<Byte>, ibuf: array<CodeUnit>, ibufcount: nat, obuf: array<Byte>, obufcount: nat, ch: CodeUnit,
              ghost g: Decoder, ghost kept: Text, ghost textLength: nat)
      returns (ic: nat, oc: nat)
    requires IsTable(table) && (ibuf as object) != obuf
    requires ibufcount < ibuf.Length && (ibufcount == 3 ==> ibuf.Length >= 4)
    requires Decodes(g) && Holds(g, ibuf, ibufcount, obuf, obufcount, kept) && AllSignificant(kept)
    requires |kept| < textLength && obuf.Length == ObufSize(textLength)
    modifies ibuf, obuf
    ensures Holds(g, ibuf, ic, obuf, oc, kept + if Significant(ch) then [ch] else []) && ic <= ibufcount + 1
    ensures forall j :: 0 <= j < ibuf.Length && j != ibufcount ==> ibuf[j] == old(ibuf[j])
  {
    ic, oc := ibufcount, obufcount;
    var keep := IsSignificant(table, ch);
    if keep {
      QuadsNext(g, kept, ch);
      ibuf[ic] := ch;
      ic := ic + 1;
      assert ibuf[..ic] == Carry(kept) + [ch];
      if ic == 4 {
        ic := 0;
        RoomForGroup(g, kept, textLength);
        var n := Decode0(table, ibuf, obuf, oc);
        oc := oc + n;
      }
    } else {
      assert kept + [] == kept;
    }
  }

  /** The same for the character at position n of a text. */
  method FeedNext(table: seq<Byte>, ibuf: array<CodeUnit>, ibufcount: nat, obuf: array<Byte>, obufcount: nat,
                  ch: CodeUnit,
                  ghost g: Decoder, ghost text: Text, ghost n: nat)
      returns (ic: nat, oc: nat)
    requires IsTable(table) && (ibuf as object) != obuf
    requires ibufcount < ibuf.Length && (ibufcount == 3 ==> ibuf.Length >= 4)
    requires n < |text| && ch == text[n] && obuf.Length == ObufSize(|text|)
    requires Decodes(g) && Holds(g, ibuf, ibufcount, obuf, obufcount, Keep(text[..n]))
    modifies ibuf, obuf
    ensures Holds(g, ibuf, ic, obuf, oc, Keep(text[..n + 1])) && ic <= ibufcount + 1
    ensures forall j :: 0 <= j < ibuf.Length && j != ibufcount ==> ibuf[j] == old(ibuf[j])
  {
    ghost var kept := Keep(text[..n]);
    KeepShape(text[..n]);
    KeepNext(text, n);
    ic, oc := Feed(table, ibuf, ibufcount, obuf, obufcount, ch, g, kept, |text|);
  }

  function ObufSize(n: nat): nat {
    n / 4 * 3 + 3
  }

  lemma RoomForGroup(g: Decoder, kept: Text, textLength: nat)
    requires |kept| < textLength && forall q :: |g(q)| <= 3
    ensures |QuadsBy(g, kept)| + 3 <= textLength / 4 * 3 + 3 == ObufSize(textLength)
  {
    QuadsLength(g, kept);
  }

  /** `getChars`: copy data[from..to] into the buffer; with a range that is none it throws. */
  method GetChars(data: Text, from: nat, to: int, ibuf: array<CodeUnit>, at: nat) returns (ok: bool)
    requires at <= ibuf.Length && (from <= to ==> to <= |data| && at + (to - from) <= ibuf.Length)
    modifies ibuf
    ensures ok == (from <= to) && ibuf[..at] == old(ibuf[..at])
    ensures ok ==> forall t :: at <= t < at + (to - from) ==> ibuf[t] == data[from + (t - at)]
  {
    ok := from <= to;
    if !ok {
      return;
    }
    for i := 0 to to - from
      invariant ibuf[..at] == old(ibuf[..at])
      invariant forall t :: at <= t < at + i ==> ibuf[t] == data[from + (t - at)]
    {
      ibuf[at + i] := data[from + i];
    }
  }

  /** The bytes collected so far, as an array of their own. */
  method Collect(obuf: array<Byte>, obufcount: nat) returns (ret: array<Byte>)
    requires obufcount <= obuf.Length
    ensures ret[..] == obuf[..obufcount]
  {
    if obufcount == obuf.Length {
      return obuf;
    }
    ret := new Byte[obufcount](i requires 0 <= i < obufcount reads obuf => obuf[i]);
  }

  // ----- decoding into an array

  /** `decode(char[], int, int)` */
  method DecodeChars(table: seq<Byte>, data: array<CodeUnit>, off: nat, len: nat) returns (ret: array<Byte>)
    requires IsTable(table) && off + len <= data.Length
    ensures ret[..] == Decode(data[off..off + len])
  {
    var ibuf := new CodeUnit[4];
    var obuf := new Byte[ObufSize(len)];
    ProgramDecodes();
    var obufcount := DecodeEach(table, data, off, len, ibuf, obuf, DecodeGroup);
    ret := Collect(obuf, obufcount);
  }

  /** Its loop. */
  method DecodeEach(table: seq<Byte>, data: array<CodeUnit>, off: nat, len: nat, ibuf: array<CodeUnit>,
                    obuf: array<Byte>, ghost g: Decoder)
      returns (obufcount: nat)
    requires IsTable(table) && off + len <= data.Length && ibuf.Length == 4 && obuf.Length == ObufSize(len)
    requires Decodes(g)
    requires ibuf != data && (ibuf as object) != obuf && (data as object) != obuf
    modifies ibuf, obuf
    ensures obufcount <= obuf.Length && obuf[..obufcount] == QuadsBy(g, Keep(data[off..off + len]))
  {
    var ibufcount := 0;
    obufcount := 0;
    ghost var text, n := data[off..off + len], 0;
    for i := off to off + len
      invariant n == i - off && Holds(g, ibuf, ibufcount, obuf, obufcount, Keep(text[..n]))
      invariant data[off..off + len] == text
    {
      assert data[i] == text[n];
      ibufcount, obufcount := FeedNext(table, ibuf, ibufcount, obuf, obufcount, data[i], g, text, n);
      n := n + 1;
    }
    assert text[..len] == text;
  }

  /** The size of the chunk buffer suffices for three carried characters and the next chunk. */
  lemma ChunkFits(slen: nat, i: nat, carried: nat)
    requires i < slen && carried <= 3 && (i == 0 ==> carried == 0) && (i > 0 ==> i >= BUF_SIZE)
    ensures ChunkBufferSize(slen) == (if slen < 256 + 3 then slen else 256 + 3)
    ensures carried + (Least(i + BUF_SIZE, slen) - i) <= ChunkBufferSize(slen)
  {}

  function Least(a: nat, b: nat): nat {
    if a <= b then a else b
  }

  function ChunkBufferSize(slen: nat): nat {
    if slen < BUF_SIZE + 3 then slen else BUF_SIZE + 3
  }

  /** Where the last chunk starts whose end fits an int: strings longer than this cannot be decoded in chunks. */
  const LAST_CHUNK: nat := 2_147_483_392

  /** The end of a chunk as the program finds it. */
  function ChunkEnd(i: nat, slen: nat): int {
    if Wrap(i + BUF_SIZE) <= slen then Wrap(i + BUF_SIZE) else slen
  }

  lemma ChunkStart(m: nat)
    ensures (BUF_SIZE * m) % BUF_SIZE == 0
  {}

  lemma ChunkEndIs(i: nat, slen: nat)
    requires i < slen <= MAX_INT && i % BUF_SIZE == 0
    ensures if i < LAST_CHUNK then Wrap(i + BUF_SIZE) == i + BUF_SIZE && ChunkEnd(i, slen) == Least(i + BUF_SIZE, slen)
            else i == LAST_CHUNK && ChunkEnd(i, slen) < 0
  {}

  /** `decode(String)`: chunks of 256 characters are copied behind the at most three characters carried
      over, and compacted in place; the write index never passes the read index. The result is that of
      the plain decoder for every string up to the limit; on longer ones the chunk index overflows. */
  method DecodeString(table: seq<Byte>, data: Text) returns (r: Outcome<array<Byte>>)
    requires IsTable(table) && |data| <= MAX_INT
    ensures r.Thrown? <==> |data| > LAST_CHUNK
    ensures r.Returned? ==> r.value[..] == Decode(data)
  {
    var slen := |data|;
    var ibuf := new CodeUnit[ChunkBufferSize(slen)];
    var obuf := new Byte[ObufSize(slen)];
    ProgramDecodes();
    var ok, obufcount := DecodeChunks(table, data, ibuf, obuf, DecodeGroup);
    if !ok {
      return Thrown;
    }
    var ret := Collect(obuf, obufcount);
    r := Returned(ret);
  }

  /** Its outer loop. */
  method DecodeChunks(table: seq<Byte>, data: Text, ibuf: array<CodeUnit>, obuf: array<Byte>, ghost g: Decoder)
      returns (ok: bool, obufcount: nat)
    requires IsTable(table) && |data| <= MAX_INT && Decodes(g) && (ibuf as object) != obuf
    requires ibuf.Length == ChunkBufferSize(|data|) && obuf.Length == ObufSize(|data|)
    modifies ibuf, obuf
    ensures ok <==> |data| <= LAST_CHUNK
    ensures ok ==> obufcount <= obuf.Length && obuf[..obufcount] == QuadsBy(g, Keep(data))
  {
    var ibufcount, slen := 0, |data|;
    ok, obufcount := true, 0;
    var i := 0;
    ghost var done, m := 0, 0;
    while i < slen
      invariant i == BUF_SIZE * m <= LAST_CHUNK && done == Least(i, slen)
      invariant if i == 0 then ibufcount == 0 else i >= BUF_SIZE
      invariant Holds(g, ibuf, ibufcount, obuf, obufcount, Keep(data[..done]))
      decreases slen - i
    {
      ChunkFits(slen, i, ibufcount);
      ChunkStart(m);
      var next;
      ok, ibufcount, obufcount, next := DecodeChunk(table, data, i, ibuf, ibufcount, obuf, obufcount, g);
      if !ok {
        return;
      }
      i := next;
      m := m + 1;
      done := Least(i, slen);
    }
    assert data[..slen] == data;
  }

  /** One round of the outer loop; `next` is where the next chunk starts. */
  method DecodeChunk(table: seq<Byte>, data: Text, i: nat, ibuf: array<CodeUnit>, ibufcount: nat, obuf: array<Byte>,
                     obufcount: nat, ghost g: Decoder)
      returns (ok: bool, ic: nat, oc: nat, next: int)
    requires IsTable(table) && Decodes(g) && (ibuf as object) != obuf && obuf.Length == ObufSize(|data|)
    requires i < |data| <= MAX_INT && i % BUF_SIZE == 0
    requires Holds(g, ibuf, ibufcount, obuf, obufcount, Keep(data[..i]))
    requires ibufcount + (Least(i + BUF_SIZE, |data|) - i) <= ibuf.Length
    modifies ibuf, obuf
    ensures ok <==> i < LAST_CHUNK
    ensures ok ==> next == i + BUF_SIZE
    ensures ok ==> Holds(g, ibuf, ic, obuf, oc, Keep(data[..Least(i + BUF_SIZE, |data|)]))
  {
    ic, oc := ibufcount, obufcount;
    ChunkEndIs(i, |data|);
    var end := ChunkEnd(i, |data|);
    next := Wrap(i + BUF_SIZE);
    ok := GetChars(data, i, end, ibuf, ibufcount);
    if ok {
      ic, oc := DecodeBuffered(table, ibuf, ibufcount, end - i + ibufcount, obuf, obufcount, g, data, i);
    }
  }

  /** ibuf holds the characters of data from position n on, at places j to blen. */
  ghost predicate Loaded(ibuf: seq<CodeUnit>, j: nat, blen: nat, data: Text, n: nat) {
    j <= blen <= |ibuf| && n + (blen - j) <= |data| && forall t :: j <= t < blen ==> ibuf[t] == data[n + (t - j)]
  }

  /** The inner loop: read at j, compact at ic, which never passes j. */
  method DecodeBuffered(table: seq<Byte>, ibuf: array<CodeUnit>, ibufcount: nat, blen: nat, obuf: array<Byte>,
                        obufcount: nat,
                        ghost g: Decoder, ghost data: Text, ghost i: nat)
      returns (ic: nat, oc: nat)
    requires IsTable(table) && Decodes(g) && (ibuf as object) != obuf && i <= |data| && obuf.Length == ObufSize(|data|)
    requires Holds(g, ibuf, ibufcount, obuf, obufcount, Keep(data[..i])) && Loaded(ibuf[..], ibufcount, blen, data, i)
    modifies ibuf, obuf
    ensures Holds(g, ibuf, ic, obuf, oc, Keep(data[..i + (blen - ibufcount)]))
  {
    ic, oc := ibufcount, obufcount;
    var j := ic;
    ghost var n, was := i, ibuf[..];
    while j < blen
      invariant ic <= j <= blen && n - i == j - ibufcount >= 0
      invariant Holds(g, ibuf, ic, obuf, oc, Keep(data[..n]))
      invariant forall t :: j <= t < blen ==> ibuf[t] == was[t]
    {
      assert was[j] == data[n];
      ic, oc := FeedNext(table, ibuf, ic, obuf, oc, ibuf[j], g, data, n);
      j, n := j + 1, n + 1;
    }
  }

  // ----- decoding to a stream

  ghost predicate HoldsStream(g: Decoder, ibuf: array<CodeUnit>, ibufcount: nat, out: seq<Byte>, kept: Text)
    reads ibuf
  {
    ibufcount <= ibuf.Length && ibuf[..ibufcount] == Carry(kept) && out == QuadsBy(g, kept)
  }

  /** The body of the stream decoders: a full group is decoded into three bytes and written out. */
  method FeedStream(table: seq<Byte>, ibuf: array<CodeUnit>, ibufcount: nat, out: seq<Byte>, ch: CodeUnit,
                    ghost g: Decoder, ghost text: Text, ghost n: nat)
      returns (ic: nat, out': seq<Byte>)
    requires IsTable(table) && ibufcount < ibuf.Length && (ibufcount == 3 ==> ibuf.Length >= 4)
    requires Decodes(g) && n < |text| && ch == text[n] && HoldsStream(g, ibuf, ibufcount, out, Keep(text[..n]))
    modifies ibuf
    ensures HoldsStream(g, ibuf, ic, out', Keep(text[..n + 1])) && ic <= ibufcount + 1
    ensures forall j :: 0 <= j < ibuf.Length && j != ibufcount ==> ibuf[j] == old(ibuf[j])
  {
    ghost var kept := Keep(text[..n]);
    KeepShape(text[..n]);
    KeepNext(text, n);
    ic, out' := ibufcount, out;
    var keep := IsSignificant(table, ch);
    if keep {
      QuadsNext(g, kept, ch);
      ibuf[ic] := ch;
      ic := ic + 1;
      assert ibuf[..ic] == Carry(kept) + [ch];
      if ic == 4 {
        ic := 0;
        var bytes := DecodeOne(table, ibuf);
        out' := out' + bytes;
      }
    } else {
      assert kept + [] == kept;
    }
  }

  /** `decode(char[], int, int, OutputStream)` writes the same bytes. */
  method DecodeCharsTo(table: seq<Byte>, data: array<CodeUnit>, off: nat, len: nat) returns (out: seq<Byte>)
    requires IsTable(table) && off + len <= data.Length
    ensures out == Decode(data[off..off + len])
  {
    ProgramDecodes();
    out := DecodeEachTo(table, data, off, len, DecodeGroup);
  }

  method DecodeEachTo(table: seq<Byte>, data: array<CodeUnit>, off: nat, len: nat, ghost g: Decoder)
      returns (out: seq<Byte>)
    requires IsTable(table) && off + len <= data.Length && Decodes(g)
    ensures out == QuadsBy(g, Keep(data[off..off + len]))
  {
    var ibuf := new CodeUnit[4];
    var ibufcount := 0;
    out := [];
    ghost var text, n := data[off..off + len], 0;
    for i := off to off + len
      invariant n == i - off && HoldsStream(g, ibuf, ibufcount, out, Keep(text[..n]))
      invariant data[off..off + len] == text
    {
      assert data[i] == text[n];
      ibufcount, out := FeedStream(table, ibuf, ibufcount, out, data[i], g, text, n);
      n := n + 1;
    }
    assert text[..len] == text;
  }

  /** `decode(String, OutputStream)` too, chunk by chunk. Beyond the limit it throws, having written the
      bytes of the chunks before. */
  method DecodeStringTo(table: seq<Byte>, data: Text) returns (ok: bool, out: seq<Byte>)
    requires IsTable(table) && |data| <= MAX_INT
    ensures ok <==> |data| <= LAST_CHUNK
    ensures out == Decode(if ok then data else data[..LAST_CHUNK])
  {
    ProgramDecodes();
    ok, out := DecodeChunksTo(table, data, DecodeGroup);
  }

  method DecodeChunksTo(table: seq<Byte>, data: Text, ghost g: Decoder) returns (ok: bool, out: seq<Byte>)
    requires IsTable(table) && |data| <= MAX_INT && Decodes(g)
    ensures ok <==> |data| <= LAST_CHUNK
    ensures out == QuadsBy(g, Keep(if ok then data else data[..LAST_CHUNK]))
  {
    var ibuf := new CodeUnit[BUF_SIZE + 4];
    var ibufcount, slen := 0, |data|;
    ok, out := true, [];
    var i := 0;
    ghost var done, m := 0, 0;
    while i < slen
      invariant i == BUF_SIZE * m <= LAST_CHUNK && done == Least(i, slen)
      invariant HoldsStream(g, ibuf, ibufcount, out, Keep(data[..done]))
      decreases slen - i
    {
      ChunkStart(m);
      var next;
      ok, ibufcount, out, next := DecodeChunkTo(table, data, i, ibuf, ibufcount, out, g);
      if !ok {
        return;
      }
      i := next;
      m := m + 1;
      done := Least(i, slen);
    }
    assert data[..slen] == data;
  }

  method DecodeChunkTo(table: seq<Byte>, data: Text, i: nat, ibuf: array<CodeUnit>, ibufcount: nat, out: seq<Byte>,
                       ghost g: Decoder)
      returns (ok: bool, ic: nat, out': seq<Byte>, next: int)
    requires IsTable(table) && Decodes(g) && i < |data| <= MAX_INT && i % BUF_SIZE == 0 && ibuf.Length == BUF_SIZE + 4
    requires HoldsStream(g, ibuf, ibufcount, out, Keep(data[..i]))
    modifies ibuf
    ensures ok <==> i < LAST_CHUNK
    ensures ok ==> next == i + BUF_SIZE
    ensures if ok then HoldsStream(g, ibuf, ic, out', Keep(data[..Least(i + BUF_SIZE, |data|)])) else out' == out
  {
    ic, out' := ibufcount, out;
    ChunkEndIs(i, |data|);
    var end := ChunkEnd(i, |data|);
    next := Wrap(i + BUF_SIZE);
    ok := GetChars(data, i, end, ibuf, ibufcount);
    if ok {
      ic, out' := DecodeBufferedTo(table, ibuf, ibufcount, end - i + ibufcount, out, g, data, i);
    }
  }

  method DecodeBufferedTo(table: seq<Byte>, ibuf: array<CodeUnit>, ibufcount: nat, blen: nat, out: seq<Byte>,
                          ghost g: Decoder, ghost data: Text, ghost i: nat)
      returns (ic: nat, out': seq<Byte>)
    requires IsTable(table) && Decodes(g) && i <= |data| && ibuf.Length >= 4
    requires HoldsStream(g, ibuf, ibufcount, out, Keep(data[..i])) && Loaded(ibuf[..], ibufcount, blen, data, i)
    modifies ibuf
    ensures HoldsStream(g, ibuf, ic, out', Keep(data[..i + (blen - ibufcount)]))
  {
    ic, out' := ibufcount, out;
    var j := ic;
    ghost var n, was := i, ibuf[..];
    while j < blen
      invariant ic <= j <= blen && n - i == j - ibufcount >= 0
      invariant HoldsStream(g, ibuf, ic, out', Keep(data[..n]))
      invariant forall t :: j <= t < blen ==> ibuf[t] == was[t]
    {
      assert was[j] == data[n];
      ic, out' := FeedStream(table, ibuf, ic, out', ibuf[j], g, data, n);
      j, n := j + 1, n + 1;
    }
  }

  // ----- encoding

  /** The group computation shared by the encoders: four characters for one to three bytes. */
  method PutGroup(out: array<CodeUnit>, windex: nat, data: array<Byte>, rindex: nat, n: nat)
    requires 1 <= n <= 3 && rindex + n <= data.Length && windex + 4 <= out.Length && (out as object) != data
    modifies out
    ensures out[..windex + 4] == old(out[..windex]) + EncodeGroup(data[rindex..rindex + n])
  {
    ghost var b := data[rindex..rindex + n];
    assert b[0] == data[rindex];
    assert n >= 2 ==> b[1] == data[rindex + 1];
    assert n >= 3 ==> b[2] == data[rindex + 2];
    var c0, c1, c2, c3;
    if n == 1 {
      var i := Group1(data[rindex]);
      c0, c1, c2, c3 := Letter(Lead(i, 2)), Letter(Sextet(i << 4, 0)), PAD, PAD;
    } else if n == 2 {
      var i := Group2(data[rindex], data[rindex + 1]);
      c0, c1, c2, c3 := Letter(Lead(i, 10)), Letter(Sextet(i, 4)), Letter(Sextet(i << 2, 0)), PAD;
    } else {
      var i := Group3(data[rindex], data[rindex + 1], data[rindex + 2]);
      c0, c1, c2, c3 := Letter(Lead(i, 18)), Letter(Sextet(i, 12)), Letter(Sextet(i, 6)), Letter(Sextet(i, 0));
    }
    assert [c0, c1, c2, c3] == EncodeGroup(b);
    Store4(out, windex, c0, c1, c2, c3);
  }

  method Store4(out: array<CodeUnit>, windex: nat, c0: CodeUnit, c1: CodeUnit, c2: CodeUnit, c3: CodeUnit)
    requires windex + 4 <= out.Length
    modifies out
    ensures out[..windex + 4] == old(out[..windex]) + [c0, c1, c2, c3]
  {
    out[windex] := c0;
    out[windex + 1] := c1;
    out[windex + 2] := c2;
    out[windex + 3] := c3;
  }

  /** Appending the next group to what is already encoded. */
  lemma EncodeNext(f: Encoder, a: seq<Byte>, b: seq<Byte>, k: nat)
    requires |a| == 3 * k && 1 <= |b| <= 3
    ensures EncodeBy(f, a + b) == EncodeBy(f, a) + f(b)
  {
    WholeGroups(k);
    EncodeConcat(f, a, b);
    EncodeOne(f, b);
  }

  lemma WholeGroups(k: nat)
    ensures (3 * k) % 3 == 0
  {}

  lemma EncodeOne(f: Encoder, b: seq<Byte>)
    requires 1 <= |b| <= 3
    ensures EncodeBy(f, b) == f(b)
  {
    assert |b| == 3 ==> b[..3] == b && b[3..] == [];
  }

  lemma EncodeSlice(f: Encoder, data: seq<Byte>, off: nat, r: nat, n: nat, k: nat)
    requires off <= r <= r + n <= |data| && r - off == 3 * k && 1 <= n <= 3
    ensures EncodeBy(f, data[off..r + n]) == EncodeBy(f, data[off..r]) + f(data[r..r + n])
  {
    assert data[off..r + n] == data[off..r] + data[r..r + n];
    EncodeNext(f, data[off..r], data[r..r + n], k);
  }

  /** `f` encodes one group; again the loops are proved for any such `f`. */
  ghost predicate Encodes(f: Encoder) {
    forall b {:trigger EncodeGroup(b)} :: f(b) == EncodeGroup(b)
  }

  /** One round of `encode`: after it, n bytes more are encoded. */
  method PutNext(out: array<CodeUnit>, windex: nat, data: array<Byte>, off: nat, rindex: nat, n: nat, ghost k: nat,
                 ghost f: Encoder)
    requires Encodes(f) && 1 <= n <= 3 && off <= rindex && rindex + n <= data.Length && windex + 4 <= out.Length
    requires (out as object) != data
    requires rindex - off == 3 * k && out[..windex] == EncodeBy(f, data[off..rindex])
    modifies out
    ensures out[..windex + 4] == EncodeBy(f, data[off..rindex + n])
  {
    PutGroup(out, windex, data, rindex, n);
    EncodeSlice(f, data[..], off, rindex, n, k);
    assert data[..][off..rindex] == data[off..rindex] && data[..][rindex..rindex + n] == data[rindex..rindex + n];
    assert data[..][off..rindex + n] == data[off..rindex + n];
  }

  /** The loop of `encode`: all full groups. */
  method PutFullGroups(out: array<CodeUnit>, data: array<Byte>, off: nat, len: nat, ghost f: Encoder)
      returns (windex: nat, rindex: nat, ghost k: nat)
    requires Encodes(f) && off + len <= data.Length && out.Length == len / 3 * 4 + 4 && (out as object) != data
    modifies out
    ensures rindex == off + 3 * k && off + len - 3 < rindex <= off + len && windex == 4 * k && windex + 4 <= out.Length
    ensures out[..windex] == EncodeBy(f, data[off..rindex])
  {
    windex, rindex, k := 0, off, 0;
    var rest := len;
    while rest >= 3
      invariant rindex == off + 3 * k && rest == len - 3 * k >= 0 && windex == 4 * k
      invariant out[..windex] == EncodeBy(f, data[off..rindex])
    {
      PutNext(out, windex, data, off, rindex, 3, k, f);
      windex := windex + 4;
      rindex := rindex + 3;
      rest := rest - 3;
      k := k + 1;
    }
  }

  /** `encode(byte[], int, int)` */
  method EncodeBytes(data: array<Byte>, off: int, len: int) returns (r: Outcome<Text>)
    requires data.Length <= MAX_INT
    requires len > 0 ==> 0 <= off && off + len <= data.Length
    ensures r.Thrown? <==> len >= 1_610_612_733
    ensures r.Returned? ==> r.value == if len <= 0 then [] else Encode(data[off..off + len])
  {
    if len <= 0 {
      return Returned([]);
    }
    OutSize(len);
    var size := Wrap(Wrap(len / 3 * 4) + 4);
    if size < 0 {
      return Thrown;
    }
    var s := EncodeAll(data, off, len, size, EncodeGroup);
    r := Returned(s);
  }

  /** The size of the output array as computed: right, or negative when it does not fit an int. */
  lemma OutSize(len: nat)
    requires len <= MAX_INT
    ensures var size := Wrap(Wrap(len / 3 * 4) + 4);
            if len >= 1_610_612_733 then size < 0 else size == len / 3 * 4 + 4
  {}

  method EncodeAll(data: array<Byte>, off: nat, len: nat, size: nat, ghost f: Encoder) returns (s: Text)
    requires Encodes(f) && off + len <= data.Length && size == len / 3 * 4 + 4
    ensures s == EncodeBy(f, data[off..off + len])
  {
    var out := new CodeUnit[size];
    var windex, rindex;
    ghost var k;
    windex, rindex, k := PutFullGroups(out, data, off, len, f);
    windex := PutLast(out, windex, data, off, rindex, off + len, k, f);
    s := out[..windex];
  }

  /** The one or two bytes after the full groups, if any. */
  method PutLast(out: array<CodeUnit>, windex: nat, data: array<Byte>, off: nat, rindex: nat, end: nat,
                 ghost k: nat, ghost f: Encoder)
      returns (w: nat)
    requires Encodes(f) && off <= rindex <= end <= data.Length && end < rindex + 3 && windex + 4 <= out.Length
    requires (out as object) != data
    requires rindex - off == 3 * k && out[..windex] == EncodeBy(f, data[off..rindex])
    modifies out
    ensures w <= out.Length && out[..w] == EncodeBy(f, data[off..end])
  {
    w := windex;
    if end > rindex {
      PutNext(out, windex, data, off, rindex, end - rindex, k, f);
      w := windex + 4;
    }
  }

  // ----- encoding to a stream

  /** The bytes `(byte) c`. */
  function Bytes(s: Text): seq<Byte> {
    seq(|s|, i requires 0 <= i < |s| => (s[i] % 256) as bv8)
  }

  /** Bytes read as Latin-1 characters. */
  function Chars(b: seq<Byte>): Text {
    seq(|b|, i requires 0 <= i < |b| => b[i] as int)
  }

  lemma CharOfByte(c: CodeUnit)
    requires Significant(c)
    ensures ((c % 256) as bv8) as int == c
  {
    SignificantIsAscii(c);
    assert c % 256 == c;
    ByteIsItsInt(c);
  }

  lemma CharsOfBytes(s: Text)
    requires AllSignificant(s)
    ensures Chars(Bytes(s)) == s
  {
    forall i | 0 <= i < |s| ensures Chars(Bytes(s))[i] == s[i] { CharOfByte(s[i]); }
  }

  /** What the stream encoder writes are the character codes of the encoded text, byte by byte. */
  lemma BytesAreCodes(x: seq<Byte>)
    ensures |Bytes(Encode(x))| == |Encode(x)|
    ensures forall i :: 0 <= i < |Encode(x)| ==> Bytes(Encode(x))[i] as int == Encode(x)[i]
  {
    ProgramCodec();
    EncodedShape(EncodeGroup, DecodeGroup, x);
    forall i | 0 <= i < |Encode(x)| ensures Bytes(Encode(x))[i] as int == Encode(x)[i] { CharOfByte(Encode(x)[i]); }
  }

  /** What the stream encoder writes decodes to the original bytes. */
  lemma StreamRoundTrip(x: seq<Byte>)
    ensures Decode(Chars(Bytes(Encode(x)))) == x
  {
    ProgramCodec();
    EncodedShape(EncodeGroup, DecodeGroup, x);
    CharsOfBytes(Encode(x));
    DecodeEncode(x);
  }

  /** One group, as four characters of its own. */
  method NextGroup(data: array<Byte>, off: nat, rindex: nat, n: nat) returns (quad: Text)
    requires 1 <= n <= 3 && off <= rindex && rindex + n <= data.Length
    ensures quad == EncodeGroup(data[rindex..rindex + n])
  {
    var out := new CodeUnit[4];
    PutGroup(out, 0, data, rindex, n);
    quad := out[..4];
    assert out[..0] == [];
  }

  lemma BytesConcat(s: Text, t: Text)
    ensures Bytes(s + t) == Bytes(s) + Bytes(t)
  {}

  method WriteNext(written: seq<Byte>, data: array<Byte>, off: nat, rindex: nat, n: nat, ghost k: nat, ghost f: Encoder)
      returns (written': seq<Byte>)
    requires Encodes(f) && 1 <= n <= 3 && off <= rindex && rindex + n <= data.Length && rindex - off == 3 * k
    requires written == Bytes(EncodeBy(f, data[off..rindex]))
    ensures written' == Bytes(EncodeBy(f, data[off..rindex + n]))
  {
    var quad := NextGroup(data, off, rindex, n);
    written' := written + Bytes(quad);
    EncodeSlice(f, data[..], off, rindex, n, k);
    BytesConcat(EncodeBy(f, data[off..rindex]), quad);
    assert data[..][off..rindex] == data[off..rindex] && data[..][rindex..rindex + n] == data[rindex..rindex + n];
    assert data[..][off..rindex + n] == data[off..rindex + n];
  }

  /** The loop of the stream encoder: all full groups. */
  method WriteFullGroups(data: array<Byte>, off: nat, len: nat, ghost f: Encoder)
      returns (written: seq<Byte>, rindex: nat, ghost k: nat)
    requires Encodes(f) && off + len <= data.Length
    ensures rindex == off + 3 * k && off + len - 3 < rindex <= off + len
    ensures written == Bytes(EncodeBy(f, data[off..rindex]))
  {
    written, rindex, k := [], off, 0;
    var rest := len;
    while rest >= 3
      invariant rindex == off + 3 * k && rest == len - 3 * k >= 0
      invariant written == Bytes(EncodeBy(f, data[off..rindex]))
    {
      written := WriteNext(written, data, off, rindex, 3, k, f);
      rindex := rindex + 3;
      rest := rest - 3;
      k := k + 1;
    }
  }

  /** `encode(byte[], int, int, OutputStream)` writes the characters of `encode`, one byte each. */
  method EncodeTo(data: array<Byte>, off: int, len: int) returns (written: seq<Byte>)
    requires len > 0 ==> 0 <= off && off + len <= data.Length
    ensures written == if len <= 0 then [] else Bytes(Encode(data[off..off + len]))
  {
    if len <= 0 {
      return [];
    }
    written := WriteAll(data, off, len, EncodeGroup);
  }

  method WriteAll(data: array<Byte>, off: nat, len: nat, ghost f: Encoder) returns (written: seq<Byte>)
    requires Encodes(f) && off + len <= data.Length
    ensures written == Bytes(EncodeBy(f, data[off..off + len]))
  {
    var rindex;
    ghost var k;
    written, rindex, k := WriteFullGroups(data, off, len, f);
    written := WriteLast(written, data, off, rindex, off + len, k, f);
  }

  method WriteLast(written: seq<Byte>, data: array<Byte>, off: nat, rindex: nat, end: nat, ghost k: nat,
                   ghost f: Encoder)
      returns (written': seq<Byte>)
    requires Encodes(f) && off <= rindex <= end <= data.Length && end < rindex + 3 && rindex - off == 3 * k
    requires written == Bytes(EncodeBy(f, data[off..rindex]))
    ensures written' == Bytes(EncodeBy(f, data[off..end]))
  {
    written' := written;
    if end > rindex {
      written' := WriteNext(written, data, off, rindex, end - rindex, k, f);
    }
  }
}
