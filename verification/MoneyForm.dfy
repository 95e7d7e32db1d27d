/** The form of the money text, read off the fifteen digits of the amount: which zeros are announced, which units
    stand bare, where the collapse strikes and how the text ends. */
module MoneyForm {
  import opened MoneyText

  function Join(parts: seq<string>): string {
    if parts == [] then "" else parts[0] + Join(parts[1..])
  }

  lemma {:induction false} JoinSplit(parts: seq<string>, k: nat)
    requires k <= |parts|
    ensures Join(parts) == Join(parts[..k]) + Join(parts[k..])
  {
    if k == 0 {
      assert parts[0..] == parts;
    } else {
      assert parts[1..][..k - 1] == parts[..k][1..] && parts[1..][k - 1..] == parts[k..];
      JoinSplit(parts[1..], k - 1);
    }
  }

  lemma {:induction false} JoinNothing(parts: seq<string>)
    requires forall j :: 0 <= j < |parts| ==> parts[j] == ""
    ensures Join(parts) == ""
  {
    if parts != [] { JoinNothing(parts[1..]); }
  }

  /** The text begins with its first part that is not empty, and ends with its last. */
  lemma JoinStarts(parts: seq<string>, j: nat)
    requires j < |parts| && parts[j] != "" && forall i :: 0 <= i < j ==> parts[i] == ""
    ensures Join(parts) != "" && Join(parts)[0] == parts[j][0]
  {
    JoinSplit(parts, j);
    JoinNothing(parts[..j]);
  }

  lemma JoinEnds(parts: seq<string>, j: nat)
    requires j < |parts| && parts[j] != "" && forall i :: j < i < |parts| ==> parts[i] == ""
    ensures Join(parts) != "" && Join(parts)[|Join(parts)| - 1] == parts[j][|parts[j]| - 1]
  {
    JoinSplit(parts, j);
    assert parts[j..][1..] == parts[j + 1..];
    JoinNothing(parts[j + 1..]);
    assert Join(parts[j..]) == parts[j];
  }

  lemma {:induction false} JoinHasNo(parts: seq<string>, c: char)
    requires forall j :: 0 <= j < |parts| ==> c !in parts[j]
    ensures c !in Join(parts)
  {
    if parts != [] { JoinHasNo(parts[1..], c); }
  }

  /** Fifteen digits, the first nonzero one at place `first`. */
  ghost predicate Fifteen(d: seq<nat>, first: nat) {
    && |d| == 15 && first < 15 && d[first] != 0
    && (forall j :: 0 <= j < 15 ==> d[j] < 10) && (forall j :: 0 <= j < first ==> d[j] == 0)
  }

  /** What the loop appends at place j. */
  ghost function RawPart(d: seq<nat>, first: nat, j: nat): string
    requires Fifteen(d, first) && j < 15
  {
    if j < first then "" else Piece(d[j], j, j > first && Pending(d[j - 1], j - 1))
  }

  ghost function RawParts(d: seq<nat>, first: nat): (parts: seq<string>)
    requires Fifteen(d, first)
    ensures |parts| == 15 && forall j :: 0 <= j < 15 ==> parts[j] == RawPart(d, first, j)
  {
    seq(15, j requires 0 <= j < 15 => RawPart(d, first, j))
  }

  lemma {:induction false} EmitIsJoin(d: seq<nat>, first: nat, j: nat)
    requires Fifteen(d, first) && first <= j <= 15
    ensures Numeral(d[j..], j)
    ensures Emit(d[j..], j, j > first && Pending(d[j - 1], j - 1)) == Join(RawParts(d, first)[j..])
    decreases 15 - j
  {
    if j < 15 {
      EmitIsJoin(d, first, j + 1);
      assert d[j..][0] == d[j] && d[j..][1..] == d[j + 1..];
      var parts := RawParts(d, first);
      assert parts[j..][0] == parts[j] && parts[j..][1..] == parts[j + 1..];
    }
  }

  lemma {:induction false} ExtendZeros(k: nat, d: seq<nat>)
    ensures Extend(0, seq(k, i => 0) + d) == Extend(0, d)
  {
    var z := seq(k, i => 0);
    if k == 0 {
      assert z + d == d;
    } else {
      assert (z + d)[1..] == seq(k - 1, i => 0) + d;
      ExtendZeros(k - 1, d);
    }
  }

  /** The digits filled up to fifteen. */
  lemma PaddedDigits(n: nat) returns (d: seq<nat>, first: nat)
    requires 0 < n <= MAX_CENTS
    ensures Fifteen(d, first) && Extend(0, d) == n && first == Start(n) && d[first..] == Digits(n)
  {
    first := Start(n);
    d := seq(first, i => 0) + Digits(n);
    ExtendZeros(first, Digits(n));
    DigitsSpell(n);
    assert d[first] == Digits(n)[0];
  }

  /** And the text before the collapse. */
  lemma Padded(n: nat) returns (d: seq<nat>, first: nat)
    requires 0 < n <= MAX_CENTS
    ensures Fifteen(d, first) && Extend(0, d) == n
    ensures Raw(n) == Close(Join(RawParts(d, first)))
  {
    d, first := PaddedDigits(n);
    EmitIsJoin(d, first, first);
    SkipLeading(d, first);
  }

  lemma SkipLeading(d: seq<nat>, first: nat)
    requires Fifteen(d, first)
    ensures Join(RawParts(d, first)[first..]) == Join(RawParts(d, first))
  {
    JoinSplit(RawParts(d, first), first);
    JoinNothing(RawParts(d, first)[..first]);
  }

  lemma TwoDigits(x: nat, a: nat, b: nat)
    requires a < 10 && b < 10
    ensures (10 * (10 * x + a) + b) % 100 == 0 <==> a == 0 && b == 0
  {
    assert (10 * (10 * x + a) + b) % 100 == 10 * a + b;
  }

  lemma LastTwoDigits(d: seq<nat>, n: nat)
    requires |d| == 15 && Extend(0, d) == n && d[13] < 10 && d[14] < 10
    ensures n % 100 == 0 <==> d[13] == 0 && d[14] == 0
  {
    assert d == d[..13] + [d[13]] + [d[14]];
    ExtendLast(0, d[..13] + [d[13]], d[14]);
    ExtendLast(0, d[..13], d[13]);
    TwoDigits(Extend(0, d[..13]), d[13], d[14]);
  }

  /** The text before its ending ends with the unit of the last place that prints something. */
  lemma EndsAt(d: seq<nat>, first: nat, j: nat)
    requires Fifteen(d, first) && first <= j < 15 && (d[j] != 0 || IsMark(Unit(j)))
    requires forall i :: j < i < 15 ==> d[i] == 0 && !IsMark(Unit(i))
    ensures var s := Join(RawParts(d, first)); s != "" && s[|s| - 1] == Unit(j)
  {
    EndsWithUnit(d, first, j);
    forall i | j < i < 15 ensures RawPart(d, first, i) == "" { PartStarts(d, first, i); }
    JoinEnds(RawParts(d, first), j);
  }

  lemma LastChar(d: seq<nat>, first: nat) returns (c: char)
    requires Fifteen(d, first)
    ensures var s := Join(RawParts(d, first)); s != "" && s[|s| - 1] == c
    ensures (c == '角' || c == '分') <==> !(d[13] == 0 && d[14] == 0)
  {
    var j := if d[14] != 0 then 14 else if d[13] != 0 then 13 else 12;
    EndsAt(d, first, j);
    c := Unit(j);
  }

  lemma ClosedForm(d: seq<nat>, first: nat)
    requires Fifteen(d, first)
    ensures Close(Join(RawParts(d, first)))
         == Join(RawParts(d, first)) + if d[13] == 0 && d[14] == 0 then ['整'] else ""
  {
    var c := LastChar(d, first);
    assert Join(RawParts(d, first)) + "" == Join(RawParts(d, first));
  }

  lemma EndsWithUnit(d: seq<nat>, first: nat, j: nat)
    requires Fifteen(d, first) && first <= j < 15 && (d[j] != 0 || IsMark(Unit(j)))
    ensures var p := RawPart(d, first, j); p != "" && p[|p| - 1] == Unit(j)
  {}

  /** No 亿 but at place 4. */
  lemma OnlyYi(d: seq<nat>, first: nat, j: nat)
    requires Fifteen(d, first) && j < 15 && j != 4
    ensures '亿' !in RawPart(d, first, j)
  {}

  lemma {:induction false} CollapseNothing(s: string)
    requires '亿' !in s
    ensures Collapse(s) == s
    decreases |s|
  {
    if |s| >= 2 { CollapseNothing(s[1..]); }
  }

  function WithoutWan(q: string): string {
    if q != [] && q[0] == '万' then q[1..] else q
  }

  lemma {:induction false} CollapseOnce(p: string, q: string)
    requires '亿' !in p && '亿' !in q
    ensures Collapse(p + ['亿'] + q) == p + ['亿'] + WithoutWan(q)
    decreases |p|
  {
    var s := p + ['亿'] + q;
    if p == [] {
      if q != [] {
        if q[0] == '万' {
          assert s[2..] == q[1..];
          CollapseNothing(q[1..]);
        } else {
          assert s[1..] == q;
          CollapseNothing(q);
        }
      }
    } else {
      assert s[1..] == p[1..] + ['亿'] + q;
      CollapseOnce(p[1..], q);
    }
  }

  /** The section between 亿 and 万 is empty. */
  ghost predicate NoWan(d: seq<nat>, first: nat)
    requires |d| == 15
  {
    first <= 4 && d[5] == d[6] == d[7] == d[8] == 0
  }

  ghost function FinalParts(d: seq<nat>, first: nat): (parts: seq<string>)
    requires Fifteen(d, first)
    ensures |parts| == 15
    ensures forall j :: 0 <= j < 15 ==> parts[j] == if j == 8 && NoWan(d, first) then "" else RawPart(d, first, j)
  {
    if NoWan(d, first) then RawParts(d, first)[8 := ""] else RawParts(d, first)
  }

  /** A part that prints something begins with a 零, a digit or its bare unit. */
  lemma PartStarts(d: seq<nat>, first: nat, j: nat)
    requires Fifteen(d, first) && first < j < 15
    ensures d[j] != 0 ==> RawPart(d, first, j) != "" && RawPart(d, first, j)[0] != '万'
    ensures d[j] == 0 ==> RawPart(d, first, j) == if IsMark(Unit(j)) then [Unit(j)] else ""
  {}

  /** The first part after the 亿 that prints something. */
  lemma FirstAfterYi(d: seq<nat>, first: nat, raw: seq<string>) returns (j: nat)
    requires Fifteen(d, first) && first <= 4 && !NoWan(d, first) && raw == RawParts(d, first)[5..]
    ensures j < |raw| && raw[j] != "" && raw[j][0] != '万' && forall i :: 0 <= i < j ==> raw[i] == ""
  {
    j := if d[5] != 0 then 0 else if d[6] != 0 then 1 else if d[7] != 0 then 2 else 3;
    PartStarts(d, first, 5 + j);
    forall i | 0 <= i < j ensures raw[i] == "" { PartStarts(d, first, 5 + i); }
  }

  lemma EmptySection(d: seq<nat>, first: nat, raw: seq<string>)
    requires Fifteen(d, first) && NoWan(d, first) && raw == RawParts(d, first)[5..]
    ensures raw[0] == raw[1] == raw[2] == "" && raw[3] == ['万']
    ensures FinalParts(d, first)[5..] == raw[3 := ""]
  {
    PartStarts(d, first, 5);
    PartStarts(d, first, 6);
    PartStarts(d, first, 7);
    PartStarts(d, first, 8);
  }

  lemma JoinAfterThree(raw: seq<string>)
    requires |raw| >= 4 && raw[0] == raw[1] == raw[2] == ""
    ensures Join(raw) == raw[3] + Join(raw[4..])
  {
    JoinSplit(raw, 3);
    JoinNothing(raw[..3]);
    assert raw[3..][1..] == raw[4..];
  }

  lemma DropWan(t: string, end: string)
    ensures WithoutWan(['万'] + t + end) == t + end
  {
    assert (['万'] + t + end)[1..] == t + end;
  }

  lemma WithoutFourth(raw: seq<string>)
    requires |raw| >= 4
    ensures raw[3 := ""][4..] == raw[4..] && raw[3 := ""][..3] == raw[..3]
  {}

  lemma AfterYiEmpty(d: seq<nat>, first: nat, raw: seq<string>, end: string)
    requires Fifteen(d, first) && NoWan(d, first) && raw == RawParts(d, first)[5..]
    ensures WithoutWan(Join(raw) + end) == Join(raw[3 := ""]) + end
  {
    EmptySection(d, first, raw);
    WithoutFourth(raw);
    JoinAfterThree(raw);
    JoinAfterThree(raw[3 := ""]);
    DropWan(Join(raw[4..]), end);
    assert "" + Join(raw[4..]) == Join(raw[4..]);
  }

  lemma StartsOtherwise(t: string, end: string)
    requires t != "" && t[0] != '万'
    ensures WithoutWan(t + end) == t + end && t + end != "" && (t + end)[0] != '万'
  {}

  /** What follows the 亿 begins with a 万 exactly if the section between them is empty. */
  lemma AfterYi(d: seq<nat>, first: nat, raw: seq<string>, last: seq<string>, end: string)
    requires Fifteen(d, first) && first <= 4
    requires raw == RawParts(d, first)[5..] && last == FinalParts(d, first)[5..]
    ensures WithoutWan(Join(raw) + end) == Join(last) + end
    ensures Join(last) + end != "" && (Join(last) + end)[0] != '万'
  {
    if NoWan(d, first) {
      AfterYiEmpty(d, first, raw, end);
      EmptySection(d, first, raw);
      NextAfterWan(d, first);
      StartsOtherwise(Join(last), end);
    } else {
      assert raw == last;
      var j := FirstAfterYi(d, first, raw);
      JoinStarts(raw, j);
      StartsOtherwise(Join(raw), end);
    }
  }

  /** The first part from place k on that prints something. */
  lemma JoinStartsFrom(parts: seq<string>, k: nat, j: nat)
    requires k <= j < |parts| && parts[j] != "" && forall i :: k <= i < j ==> parts[i] == ""
    ensures Join(parts[k..]) != "" && Join(parts[k..])[0] == parts[j][0]
  {
    JoinStarts(parts[k..], j - k);
  }

  lemma FinalAt(d: seq<nat>, first: nat, i: nat)
    requires Fifteen(d, first) && NoWan(d, first) && 5 <= i <= 12
    ensures d[i] == 0 && i != 12 ==> FinalParts(d, first)[i] == ""
    ensures d[i] != 0 || i == 12 ==> FinalParts(d, first)[i] != "" && FinalParts(d, first)[i][0] != '万'
  {
    MarkPlaces(i);
    PartStarts(d, first, i);
  }

  /** The first nonzero digit from place k on, or the place of the yuan. */
  lemma {:induction false} FirstPrinting(d: seq<nat>, k: nat) returns (j: nat)
    requires |d| == 15 && k <= 12
    ensures k <= j <= 12 && (d[j] != 0 || j == 12) && forall i :: k <= i < j ==> d[i] == 0
    decreases 12 - k
  {
    if d[k] != 0 || k == 12 { j := k; } else { j := FirstPrinting(d, k + 1); }
  }

  lemma NextAfterWan(d: seq<nat>, first: nat)
    requires Fifteen(d, first) && NoWan(d, first)
    ensures Join(FinalParts(d, first)[5..]) != "" && Join(FinalParts(d, first)[5..])[0] != '万'
  {
    var parts := FinalParts(d, first);
    var j := FirstPrinting(d, 5);
    FinalAt(d, first, j);
    forall i | 5 <= i < j ensures parts[i] == "" { FinalAt(d, first, i); }
    JoinStartsFrom(parts, 5, j);
  }

  lemma CollapsedForm(d: seq<nat>, first: nat, end: string)
    requires Fifteen(d, first) && '亿' !in end
    ensures Collapse(Join(RawParts(d, first)) + end) == Join(FinalParts(d, first)) + end
  {
    if first > 4 {
      NoYi(d, first);
      CollapseNothing(Join(RawParts(d, first)) + end);
      assert RawParts(d, first) == FinalParts(d, first);
    } else {
      CollapsedAtYi(d, first, end);
    }
  }

  lemma NoYi(d: seq<nat>, first: nat)
    requires Fifteen(d, first) && first > 4
    ensures '亿' !in Join(RawParts(d, first))
  {
    var raw := RawParts(d, first);
    forall j | 0 <= j < 15 ensures '亿' !in raw[j] {
      if j != 4 { OnlyYi(d, first, j); }
    }
    JoinHasNo(raw, '亿');
  }

  lemma Regroup(a: string, y: string, b: string)
    ensures a + (y + ['亿']) + b == (a + y) + ['亿'] + b
  {}

  lemma NoYiIn(d: seq<nat>, first: nat, parts: seq<string>, i: nat, j: nat)
    requires Fifteen(d, first) && i <= j <= 15 && (j <= 4 || i >= 5)
    requires parts == RawParts(d, first) || parts == FinalParts(d, first)
    ensures '亿' !in Join(parts[i..j])
  {
    var some := parts[i..j];
    forall k | 0 <= k < |some| ensures '亿' !in some[k] { OnlyYi(d, first, i + k); }
    JoinHasNo(some, '亿');
  }

  lemma JoinAtYi(parts: seq<string>, y: string)
    requires |parts| == 15 && parts[4] == y + ['亿']
    ensures Join(parts) == (Join(parts[..4]) + y) + ['亿'] + Join(parts[5..])
  {
    AroundYi(parts);
    Regroup(Join(parts[..4]), y, Join(parts[5..]));
  }

  /** The text around its only 亿. */
  lemma SplitAtYi(d: seq<nat>, first: nat) returns (p: string)
    requires Fifteen(d, first) && first <= 4
    ensures '亿' !in p && '亿' !in Join(RawParts(d, first)[5..])
    ensures Join(RawParts(d, first)) == p + ['亿'] + Join(RawParts(d, first)[5..])
    ensures Join(FinalParts(d, first)) == p + ['亿'] + Join(FinalParts(d, first)[5..])
  {
    var raw, last := RawParts(d, first), FinalParts(d, first);
    YiEndsPart(d, first);
    var y := raw[4][..|raw[4]| - 1];
    JoinAtYi(raw, y);
    JoinAtYi(last, y);
    assert raw[..4] == last[..4] && raw[..4] == raw[0..4] && raw[5..] == raw[5..15];
    NoYiIn(d, first, raw, 0, 4);
    NoYiIn(d, first, raw, 5, 15);
    p := Join(raw[..4]) + y;
  }

  lemma EndInside(p: string, q: string, end: string)
    requires '亿' !in q && '亿' !in end
    ensures p + ['亿'] + q + end == p + ['亿'] + (q + end) && '亿' !in q + end
  {}

  lemma CollapseAround(whole: string, whole': string, p: string, q: string, q': string, end: string)
    requires whole == p + ['亿'] + q && whole' == p + ['亿'] + q' && WithoutWan(q + end) == q' + end
    requires '亿' !in p && '亿' !in q && '亿' !in end
    ensures Collapse(whole + end) == whole' + end
  {
    EndInside(p, q, end);
    CollapseOnce(p, q + end);
    assert whole' + end == p + ['亿'] + (q' + end);
  }

  lemma CollapsedAtYi(d: seq<nat>, first: nat, end: string)
    requires Fifteen(d, first) && '亿' !in end && first <= 4
    ensures Collapse(Join(RawParts(d, first)) + end) == Join(FinalParts(d, first)) + end
  {
    var raw, last := RawParts(d, first)[5..], FinalParts(d, first)[5..];
    var p := SplitAtYi(d, first);
    AfterYi(d, first, raw, last, end);
    CollapseAround(Join(RawParts(d, first)), Join(FinalParts(d, first)), p, Join(raw), Join(last), end);
  }

  /** The text as the parts that are left, and its ending. */
  lemma TextParts(n: nat) returns (d: seq<nat>, first: nat, end: string)
    requires 0 < n <= MAX_CENTS
    ensures Fifteen(d, first) && Extend(0, d) == n
    ensures Text(n) == Join(FinalParts(d, first)) + end && end == if n % 100 == 0 then ['整'] else ""
  {
    d, first := Padded(n);
    end := if d[13] == 0 && d[14] == 0 then ['整'] else "";
    LastTwoDigits(d, n);
    ClosedForm(d, first);
    CollapsedForm(d, first, end);
  }

  lemma NeverInParts(d: seq<nat>, first: nat, end: string, text: string, k: nat)
    requires Fifteen(d, first) && first <= 4 && '亿' !in end
    requires text == Join(FinalParts(d, first)) + end && k + 1 < |text|
    ensures !(text[k] == '亿' && text[k + 1] == '万')
  {
    var raw, last := RawParts(d, first)[5..], FinalParts(d, first)[5..];
    var p := SplitAtYi(d, first);
    AfterYi(d, first, raw, last, end);
    NoYiIn(d, first, FinalParts(d, first), 5, 15);
    assert last == FinalParts(d, first)[5..15];
    OneYi(text, p, Join(last), end, k);
  }

  /** No text holds a 亿 followed by a 万. */
  lemma NeverYiWan(n: nat, k: nat)
    requires n <= MAX_CENTS && k + 1 < |Text(n)|
    ensures !(Text(n)[k] == '亿' && Text(n)[k + 1] == '万')
  {
    if n > 0 {
      var d, first, end := TextParts(n);
      if first > 4 {
        NoYi(d, first);
        assert RawParts(d, first) == FinalParts(d, first);
      } else {
        NeverInParts(d, first, end, Text(n), k);
      }
    }
  }

  lemma OneYi(text: string, p: string, q: string, end: string, k: nat)
    requires '亿' !in p && '亿' !in q && '亿' !in end && q + end != "" && (q + end)[0] != '万'
    requires text == p + ['亿'] + q + end && k + 1 < |text|
    ensures !(text[k] == '亿' && text[k + 1] == '万')
  {
    assert text == p + ['亿'] + (q + end);
    assert forall c :: c in q + end ==> c in q || c in end;
    if k < |p| { assert text[k] == p[k]; }
    else if k == |p| { assert text[k + 1] == (q + end)[0]; }
    else { assert text[k] == (q + end)[k - |p| - 1] && text[k] in q + end; }
  }

  lemma YiEndsPart(d: seq<nat>, first: nat)
    requires Fifteen(d, first) && first <= 4
    ensures var p := RawPart(d, first, 4); p != "" && p == p[..|p| - 1] + ['亿'] && '亿' !in p[..|p| - 1]
  {}

  lemma AroundYi(parts: seq<string>)
    requires |parts| == 15
    ensures Join(parts) == Join(parts[..4]) + parts[4] + Join(parts[5..])
  {
    JoinSplit(parts, 4);
    assert parts[4..][1..] == parts[5..];
  }

  lemma MarkPlaces(j: nat)
    requires j < 15
    ensures IsMark(Unit(j)) <==> j == 0 || j == 4 || j == 8 || j == 12
  {}

  /** What place j prints: a nonzero digit itself and its unit, with a 零 before it exactly if the place before holds
      a zero that is neither leading nor closes a section; a zero nothing, but at places 4, 8 and 12, once the
      number has begun, the bare unit, unless it is the 万 with nothing between it and the 亿. */
  ghost predicate Shows(d: seq<nat>, first: nat, j: nat, part: string)
    requires Fifteen(d, first) && j < 15 && |UNIT| == 15 && |DIGIT| == 10
  {
    if d[j] != 0 then
      var announced := j > first && d[j - 1] == 0 && j != 1 && j != 5 && j != 9 && j != 13;
      part == (if announced then "零" else "") + [DIGIT[d[j]], UNIT[j]]
    else
      var bare := j > first && (j == 4 || j == 8 || j == 12) && !(j == 8 && NoWan(d, first));
      part == if bare then [UNIT[j]] else ""
  }

  lemma PartForm(d: seq<nat>, first: nat, j: nat)
    requires Fifteen(d, first) && j < 15
    ensures |UNIT| == 15 && |DIGIT| == 10 && Shows(d, first, j, FinalParts(d, first)[j])
  {
    TablesAgree(j, d[j]);
    MarkPlaces(j);
    if j > 0 { MarkPlaces(j - 1); }
  }

  lemma AllPartsForm(d: seq<nat>, first: nat)
    requires Fifteen(d, first)
    ensures |UNIT| == 15 && |DIGIT| == 10
    ensures forall j :: 0 <= j < 15 ==> Shows(d, first, j, FinalParts(d, first)[j])
  {
    PartForm(d, first, 0);
    forall j | 0 <= j < 15 ensures Shows(d, first, j, FinalParts(d, first)[j]) { PartForm(d, first, j); }
  }

  /** The text of every amount from one cent on, place by place over its fifteen digits d, each as `Shows` says;
      it ends in 整 exactly if the cents are zero. */
  lemma TextForm(n: nat) returns (d: seq<nat>, first: nat, parts: seq<string>)
    requires 0 < n <= 999_999_999_999_999
    ensures Fifteen(d, first) && Extend(0, d) == n && |parts| == |UNIT| == 15 && |DIGIT| == 10
    ensures Text(n) == Join(parts) + if n % 100 == 0 then ['整'] else ""
    ensures forall j :: 0 <= j < 15 ==> Shows(d, first, j, parts[j])
  {
    var end;
    d, first, end := TextParts(n);
    parts := FinalParts(d, first);
    AllPartsForm(d, first);
  }
}
