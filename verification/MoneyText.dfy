/** The Chinese money text of an amount, from its integer number of cents, and the proof that the text,
    read by the rules of Chinese numerals, says that amount. */
module MoneyText {

  const UNIT: string := "万千佰拾亿千佰拾万千佰拾圆角分"
  const DIGIT: string := "零壹贰叁肆伍陆柒捌玖"
  const MAX_CENTS: int := 999_999_999_999_999

  /** The unit of position j; positions 0, 4, 8 and 12 close a section of the number. */
  function Unit(j: nat): char
    requires j < 15
  {
    match j
    case 0 => '万' case 1 => '千' case 2 => '佰' case 3 => '拾'
    case 4 => '亿' case 5 => '千' case 6 => '佰' case 7 => '拾'
    case 8 => '万' case 9 => '千' case 10 => '佰' case 11 => '拾'
    case 12 => '圆' case 13 => '角' case _ => '分'
  }

  /** The two tables read as the functions say. */
  lemma TablesAgree(j: nat, d: nat)
    ensures |UNIT| == 15 && |DIGIT| == 10
    ensures j < 15 ==> UNIT[j] == Unit(j)
    ensures d < 10 ==> DIGIT[d] == DigitChar(d)
  {}

  predicate IsMark(c: char) {
    c == '亿' || c == '万' || c == '圆'
  }

  function DigitChar(d: nat): (c: char)
    requires d < 10
    ensures d == 0 <==> c == '零'
    ensures DigitOf(c) == d
  {
    match d
    case 0 => '零' case 1 => '壹' case 2 => '贰' case 3 => '叁' case 4 => '肆'
    case 5 => '伍' case 6 => '陆' case 7 => '柒' case 8 => '捌' case _ => '玖'
  }

  function DigitOf(c: char): nat {
    match c
    case '零' => 0 case '壹' => 1 case '贰' => 2 case '叁' => 3 case '肆' => 4
    case '伍' => 5 case '陆' => 6 case '柒' => 7 case '捌' => 8 case _ => 9
  }

  // ----- decimal digits

  /** The decimal digits of `l + ""`. */
  function Digits(n: nat): (d: seq<nat>)
    ensures |d| >= 1 && forall i :: 0 <= i < |d| ==> d[i] < 10
    ensures n > 0 ==> d[0] > 0
  {
    if n < 10 then [n] else Digits(n / 10) + [n % 10]
  }

  function Pow10(k: nat): nat {
    if k == 0 then 1 else 10 * Pow10(k - 1)
  }

  lemma {:induction false} DigitsLength(n: nat, k: nat)
    requires n < Pow10(k) && k >= 1
    ensures |Digits(n)| <= k
  {
    if n >= 10 { DigitsLength(n / 10, k - 1); }
  }

  lemma FifteenDigits(n: nat)
    requires n <= MAX_CENTS
    ensures |Digits(n)| <= 15
  {
    assert Pow10(5) == 100_000;
    assert Pow10(10) == 100_000 * Pow10(5) == 10_000_000_000;
    assert Pow10(15) == 100_000 * Pow10(10) == 1_000_000_000_000_000;
    DigitsLength(n, 15);
  }

  // ----- the text

  ghost predicate Numeral(d: seq<nat>, j: nat) {
    j + |d| == 15 && forall i :: 0 <= i < |d| ==> d[i] < 10
  }

  /** What one digit at position j appends; `zero` says that an omitted zero is still to be announced. */
  function Piece(digit: nat, j: nat, zero: bool): string
    requires digit < 10 && j < 15
  {
    if digit == 0 then (if IsMark(Unit(j)) then [Unit(j)] else "")
    else (if zero then ['零'] else "") + [DigitChar(digit), Unit(j)]
  }

  /** An omitted zero stays to be announced, unless its place closed a section. */
  predicate Pending(digit: nat, j: nat)
    requires j < 15
  {
    digit == 0 && !IsMark(Unit(j))
  }

  /** What the loop appends for digits d, the first of which stands at position j. */
  function Emit(d: seq<nat>, j: nat, zero: bool): string
    requires Numeral(d, j)
    decreases |d|
  {
    if d == [] then "" else Piece(d[0], j, zero) + Emit(d[1..], j + 1, Pending(d[0], j))
  }

  /** A text that does not end in a unit below the yuan gets the closing character. */
  function Close(s: string): string {
    if s != [] && (s[|s| - 1] == '角' || s[|s| - 1] == '分') then s else s + ['整']
  }

  /** `replaceAll("亿万", "亿")` */
  function Collapse(s: string): string {
    if |s| < 2 then s
    else if s[0] == '亿' && s[1] == '万' then ['亿'] + Collapse(s[2..])
    else [s[0]] + Collapse(s[1..])
  }

  function Start(n: nat): nat
    requires n <= MAX_CENTS
  {
    FifteenDigits(n);
    15 - |Digits(n)|
  }

  function Raw(n: nat): string
    requires n <= MAX_CENTS
  {
    Close(Emit(Digits(n), Start(n), false))
  }

  function Text(n: nat): string
    requires n <= MAX_CENTS
  {
    if n == 0 then "零元整" else Collapse(Raw(n))
  }

  /** The body of the loop. */
  method AppendDigit(rs: string, isZero: bool, digit: nat, j: nat) returns (rs': string, isZero': bool)
    requires digit < 10 && j < 15
    ensures rs' == rs + Piece(digit, j, isZero) && isZero' == Pending(digit, j)
  {
    TablesAgree(j, digit);
    rs', isZero' := rs, isZero;
    if digit == 0 {
      isZero' := true;
      if UNIT[j] == '亿' || UNIT[j] == '万' || UNIT[j] == '圆' {
        rs' := rs' + [UNIT[j]];
        isZero' := false;
      }
    } else {
      if isZero' {
        rs' := rs' + ['零'];
        isZero' := false;
      }
      rs' := rs' + [DIGIT[digit]] + [UNIT[j]];
    }
  }

  /** `getMoneyTextCN`, from the number of cents: the loop keeps its unit index in bounds and builds `Text`. */
  method GetMoneyTextCN(l: int) returns (rs: string)
    ensures l < 0 || l > 999_999_999_999_999 ==> rs == "参数非法!"
    ensures l == 0 ==> rs == "零元整"
    ensures 0 <= l <= 999_999_999_999_999 ==> rs == Text(l)
  {
    if l < 0 || l > MAX_CENTS {
      return "参数非法!";
    }
    if l == 0 {
      return "零元整";
    }
    rs := SpellOut(l);
  }

  method SpellOut(l: nat) returns (rs: string)
    requires l <= MAX_CENTS
    ensures rs == Collapse(Raw(l))
  {
    StartIs(l);
    var value := Digits(l);
    var j := |UNIT| - |value|;
    rs := AppendDigits(value, j);
    rs := Finish(rs);
  }

  lemma StartIs(l: nat)
    requires l <= MAX_CENTS
    ensures |UNIT| - |Digits(l)| == Start(l) && Numeral(Digits(l), Start(l))
  {
    TablesAgree(0, 0);
  }

  /** The two steps after the loop. */
  method Finish(rs: string) returns (rs': string)
    ensures rs' == Collapse(Close(rs))
  {
    rs' := rs;
    if !(rs' != [] && (rs'[|rs'| - 1] == '角' || rs'[|rs'| - 1] == '分')) {
      rs' := rs' + ['整'];
    }
    rs' := Collapse(rs');
  }

  /** The loop over the decimal digits; i is the digit's index, j that of its unit. */
  method AppendDigits(value: seq<nat>, start: nat) returns (rs: string)
    requires Numeral(value, start)
    ensures rs == Emit(value, start, false)
  {
    var i, j: nat := 0, start;
    rs := "";
    var isZero := false;
    ghost var whole := Emit(value, j, false);
    while i < |value|
      invariant 0 <= i <= |value| && Numeral(value[i..], j)
      invariant whole == rs + Emit(value[i..], j, isZero)
    {
      EmitStep(value, i, j, isZero, rs);
      rs, isZero := AppendDigit(rs, isZero, value[i], j);
      i, j := i + 1, j + 1;
    }
  }

  lemma EmitStep(value: seq<nat>, i: nat, j: nat, zero: bool, rs: string)
    requires i < |value| && Numeral(value[i..], j)
    ensures Numeral(value[i + 1..], j + 1) && value[i] < 10
    ensures rs + Emit(value[i..], j, zero)
         == (rs + Piece(value[i], j, zero)) + Emit(value[i + 1..], j + 1, Pending(value[i], j))
  {
    var rest := value[i..];
    assert value[i] == rest[0] && rest[1..] == value[i + 1..];
    assert Numeral(rest[1..], j + 1);
  }

  // ----- reading a text

  /** Reading a money text by the ordinary rules of Chinese numerals: `digit` waits for its unit,
      `section` sums up the thousands, hundreds and tens of the current section, and `total` counts
      yuan up to the yuan mark and cents from there on. */
  datatype Reader = Reader(total: nat, section: nat, digit: nat)

  function ReadChar(r: Reader, c: char): Reader {
    match c
    case '拾' => Reader(r.total, r.section + 10 * r.digit, 0)
    case '佰' => Reader(r.total, r.section + 100 * r.digit, 0)
    case '千' => Reader(r.total, r.section + 1000 * r.digit, 0)
    case '万' => Reader(r.total + 10_000 * (r.section + r.digit), 0, 0)
    case '亿' => Reader(100_000_000 * (r.total + r.section + r.digit), 0, 0)
    case '圆' => Reader(100 * (r.total + r.section + r.digit), 0, 0)
    case '元' => Reader(100 * (r.total + r.section + r.digit), 0, 0)
    case '角' => Reader(r.total + 10 * r.digit, r.section, 0)
    case '分' => Reader(r.total + r.digit, r.section, 0)
    case '整' => r
    case _ => Reader(r.total, r.section, DigitOf(c))
  }

  function ReadFrom(r: Reader, s: string): Reader
    decreases |s|
  {
    if s == [] then r else ReadFrom(ReadChar(r, s[0]), s[1..])
  }

  function Read(s: string): nat {
    ReadFrom(Reader(0, 0, 0), s).total
  }

  lemma {:induction false} ReadConcat(r: Reader, s: string, t: string)
    ensures ReadFrom(r, s + t) == ReadFrom(ReadFrom(r, s), t)
    decreases |s|
  {
    if s == [] {
      assert s + t == t;
    } else {
      assert (s + t)[1..] == s[1..] + t;
      ReadConcat(ReadChar(r, s[0]), s[1..], t);
    }
  }

  /** A 万 right after a 亿 adds nothing, so dropping it does not change what a text says. */
  lemma {:induction false} ReadCollapsed(r: Reader, s: string)
    ensures ReadFrom(r, Collapse(s)) == ReadFrom(r, s)
    decreases |s|
  {
    if |s| >= 2 {
      var t := Collapse(s);
      if s[0] == '亿' && s[1] == '万' {
        assert t[1..] == Collapse(s[2..]) && s[1..][1..] == s[2..];
        ReadCollapsed(ReadChar(r, '亿'), s[2..]);
      } else {
        assert t[1..] == Collapse(s[1..]);
        ReadCollapsed(ReadChar(r, s[0]), s[1..]);
      }
    }
  }

  lemma ReadClosed(r: Reader, s: string)
    ensures ReadFrom(r, Close(s)) == ReadFrom(r, s)
  {
    if Close(s) == s + ['整'] {
      ReadConcat(r, s, ['整']);
      ReadClosing(ReadFrom(r, s));
    }
  }

  lemma ReadClosing(r: Reader)
    ensures ReadFrom(r, ['整']) == r
  {
    ReadOne(r, '整');
  }

  lemma ReadOne(r: Reader, c: char)
    ensures ReadFrom(r, [c]) == ReadChar(r, c)
  {
    assert [c][1..] == [];
  }

  lemma ReadTwo(r: Reader, c: char, e: char)
    ensures ReadFrom(r, [c, e]) == ReadChar(ReadChar(r, c), e)
  {
    assert [c, e][1..] == [e];
    ReadOne(ReadChar(r, c), e);
  }

  // ----- a text says its amount

  /** The reader stands before position j and has read the digits of v. */
  ghost predicate HasRead(r: Reader, v: nat, j: nat) {
    && r.digit == 0
    && match j
       case 0 => r.total == r.section == v == 0
       case 1 => r.total + r.section == 10_000 * v
       case 2 => r.total + r.section == 1000 * v
       case 3 => r.total + r.section == 100 * v
       case 4 => r.total + r.section == 10 * v
       case 5 => r.total + 10_000 * r.section == 100_000_000 * v
       case 6 => r.total + 10_000 * r.section == 10_000_000 * v
       case 7 => r.total + 10_000 * r.section == 1_000_000 * v
       case 8 => r.total + 10_000 * r.section == 100_000 * v
       case 9 => r.total + r.section == 10_000 * v
       case 10 => r.total + r.section == 1000 * v
       case 11 => r.total + r.section == 100 * v
       case 12 => r.total + r.section == 10 * v
       case 13 => r.section == 0 && r.total == 100 * v
       case 14 => r.section == 0 && r.total == 10 * v
       case _ => r.total == v
  }

  lemma ReadYi(r: Reader, digit: nat, j: nat, v: nat)
    requires digit < 10 && j <= 4 && HasRead(r, v, j)
    ensures HasRead(ReadChar(r.(digit := digit), Unit(j)), 10 * v + digit, j + 1)
  {}

  lemma ReadWan(r: Reader, digit: nat, j: nat, v: nat)
    requires digit < 10 && 5 <= j <= 8 && HasRead(r, v, j)
    ensures HasRead(ReadChar(r.(digit := digit), Unit(j)), 10 * v + digit, j + 1)
  {}

  lemma ReadYuan(r: Reader, digit: nat, j: nat, v: nat)
    requires digit < 10 && 9 <= j <= 12 && HasRead(r, v, j)
    ensures HasRead(ReadChar(r.(digit := digit), Unit(j)), 10 * v + digit, j + 1)
  {}

  lemma ReadCents(r: Reader, digit: nat, j: nat, v: nat)
    requires digit < 10 && 13 <= j <= 14 && HasRead(r, v, j)
    ensures HasRead(ReadChar(r.(digit := digit), Unit(j)), 10 * v + digit, j + 1)
  {}

  lemma ReadDigit(r: Reader, digit: nat)
    requires digit < 10 && r.digit == 0
    ensures ReadChar(r, DigitChar(digit)) == r.(digit := digit)
  {}

  lemma ReadDigitUnit(r: Reader, digit: nat, j: nat, v: nat)
    requires digit < 10 && j < 15 && HasRead(r, v, j)
    ensures HasRead(ReadChar(ReadChar(r, DigitChar(digit)), Unit(j)), 10 * v + digit, j + 1)
  {
    ReadDigit(r, digit);
    if j <= 4 { ReadYi(r, digit, j, v); }
    else if j <= 8 { ReadWan(r, digit, j, v); }
    else if j <= 12 { ReadYuan(r, digit, j, v); }
    else { ReadCents(r, digit, j, v); }
  }

  /** The piece of one digit, omitted zeros, announced zeros and bare marks included, says just that digit. */
  lemma ReadPiece(r: Reader, digit: nat, j: nat, zero: bool, v: nat)
    requires digit < 10 && j < 15 && HasRead(r, v, j)
    ensures HasRead(ReadFrom(r, Piece(digit, j, zero)), 10 * v + digit, j + 1)
  {
    ReadDigitUnit(r, digit, j, v);
    if digit == 0 {
      NoDigit(r, j);
      ReadOne(r, Unit(j));
    } else {
      ReadTwo(r, DigitChar(digit), Unit(j));
      ReadConcat(r, ['零'], [DigitChar(digit), Unit(j)]);
      ReadOne(r, '零');
      NoDigit(r, j);
      assert "" + [DigitChar(digit), Unit(j)] == [DigitChar(digit), Unit(j)];
    }
  }

  /** With no digit waiting, a zero says nothing, and neither does a unit that closes no section. */
  lemma NoDigit(r: Reader, j: nat)
    requires r.digit == 0 && j < 15
    ensures ReadChar(r, '零') == r && (!IsMark(Unit(j)) ==> ReadChar(r, Unit(j)) == r)
  {}

  /** The number whose digits are those of v followed by d. */
  function Extend(v: nat, d: seq<nat>): nat
    decreases |d|
  {
    if d == [] then v else Extend(10 * v + d[0], d[1..])
  }

  lemma {:induction false} ExtendLast(v: nat, d: seq<nat>, x: nat)
    ensures Extend(v, d + [x]) == 10 * Extend(v, d) + x
    decreases |d|
  {
    if d == [] {
      assert (d + [x])[1..] == [];
    } else {
      assert (d + [x])[1..] == d[1..] + [x];
      ExtendLast(10 * v + d[0], d[1..], x);
    }
  }

  lemma {:induction false} DigitsSpell(n: nat)
    ensures Extend(0, Digits(n)) == n
  {
    if n < 10 {
      assert [n][1..] == [];
    } else {
      DigitsSpell(n / 10);
      ExtendLast(0, Digits(n / 10), n % 10);
    }
  }

  /** Every piece takes a reader that stands before its position to one that stands after it. */
  ghost predicate PiecesKeep(stands: (Reader, nat, nat) -> bool) {
    forall r: Reader, digit: nat, j: nat, zero: bool, v: nat ::
      digit < 10 && j < 15 && stands(r, v, j) ==> stands(ReadFrom(r, Piece(digit, j, zero)), 10 * v + digit, j + 1)
  }

  lemma {:induction false} ReadEmitted(stands: (Reader, nat, nat) -> bool, r: Reader, d: seq<nat>, j: nat,
                                       zero: bool, v: nat)
    requires PiecesKeep(stands) && Numeral(d, j) && stands(r, v, j)
    ensures stands(ReadFrom(r, Emit(d, j, zero)), Extend(v, d), 15)
    decreases |d|
  {
    if d != [] {
      var piece := Piece(d[0], j, zero);
      ReadConcat(r, piece, Emit(d[1..], j + 1, Pending(d[0], j)));
      ReadEmitted(stands, ReadFrom(r, piece), d[1..], j + 1, Pending(d[0], j), 10 * v + d[0]);
    }
  }

  lemma HasReadKept()
    ensures PiecesKeep((r: Reader, v: nat, j: nat) => HasRead(r, v, j))
  {
    forall r: Reader, digit: nat, j: nat, zero: bool, v: nat | digit < 10 && j < 15 && HasRead(r, v, j)
      ensures HasRead(ReadFrom(r, Piece(digit, j, zero)), 10 * v + digit, j + 1)
    {
      ReadPiece(r, digit, j, zero, v);
    }
  }

  lemma ReadDigits(n: nat)
    requires n <= MAX_CENTS
    ensures Read(Emit(Digits(n), Start(n), false)) == n
  {
    var stands := (r: Reader, v: nat, j: nat) => HasRead(r, v, j);
    HasReadKept();
    ReadEmitted(stands, Reader(0, 0, 0), Digits(n), Start(n), false, 0);
    DigitsSpell(n);
  }

  /** Read by the rules of Chinese numerals, the text of every amount from 0 to 9999999999999.99 says that
      amount: neither omitted zeros, announced zeros, bare section marks nor the collapsed pair change it. */
  lemma TextSaysAmount(n: nat)
    requires n <= MAX_CENTS
    ensures Read(Text(n)) == n
  {
    var start := Reader(0, 0, 0);
    if n == 0 {
      ReadZero();
    } else {
      var emitted := Emit(Digits(n), Start(n), false);
      ReadCollapsed(start, Raw(n));
      ReadClosed(start, emitted);
      ReadDigits(n);
    }
  }

  lemma ReadZero()
    ensures Read("零元整") == 0
  {
    assert "零元整"[1..] == "元整" && "元整"[1..] == "整" && "整"[1..] == "";
  }

  /** Hence no two amounts have the same text. */
  lemma TextInjective(m: nat, n: nat)
    requires m <= MAX_CENTS && n <= MAX_CENTS && Text(m) == Text(n)
    ensures m == n
  {
    TextSaysAmount(m);
    TextSaysAmount(n);
  }
}
