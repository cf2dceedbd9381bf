/**
 What strtol makes of the numbers printf prints: exactly when the value comes back.
 */
module NumberRoundTrip {
  import opened NumberText
  import opened Powers

  // ---------- what the digits spell ----------

  lemma ReversedMore(s: seq<char>, c: char)
    ensures Reversed([c] + s) == Reversed(s) + [c]
  {
    assert ([c] + s)[1..] == s;
  }

  lemma {:induction false} ReversedEnd(s: seq<char>, c: char)
    ensures Reversed(s + [c]) == [c] + Reversed(s)
  {
    ReversedLast(s + [c]);
    assert (s + [c])[..|s|] == s;
  }

  lemma NumberSnoc(s: seq<char>, c: char, base: nat)
    requires AllDigits(s, base) && IsDigit(c, base)
    ensures AllDigits(s + [c], base) && Number(s + [c], base) == Number(s, base) * base + DigitOf(c).value
  {
    assert (s + [c])[..|s|] == s;
  }

  /** A leading zero changes nothing. */
  lemma {:induction false} LeadingZero(s: seq<char>, base: nat)
    requires AllDigits(s, base) && base > 0
    ensures AllDigits(['0'] + s, base) && Number(['0'] + s, base) == Number(s, base)
  {
    if s == [] {
      NumberSnoc([], '0', base);
      assert ['0'] + s == [] + ['0'];
    } else {
      var t, c := s[..|s| - 1], s[|s| - 1];
      assert s == t + [c];
      assert c in s;
      LeadingZero(t, base);
      NumberSnoc(t, c, base);
      NumberSnoc(['0'] + t, c, base);
      assert ['0'] + s == (['0'] + t) + [c];
    }
  }

  lemma QuotientRemainder(value: nat, base: nat)
    requires base > 0
    ensures value == Shifted(value, base) * base + value % base && value % base < base
  {
  }

  /** One more digit: equal exactly when the numbers above it are. */
  lemma OneMoreDigit(m: nat, v: nat, d: nat, base: nat)
    requires m <= v && 0 < base
    ensures m * base + d <= v * base + d
    ensures m * base + d == v * base + d <==> m == v
  {
    Monotone(m, v, base);
    if m < v {
      Monotone(m + 1, v, base);
    }
  }

  /** The digits spell the value when they are enough, and something smaller when they are not. */
  lemma {:induction false} LowDigitsSpell(value: nat, base: nat, n: nat, uppercase: bool)
    requires 2 <= base <= 36 && 0 < n
    ensures var s := Reversed(LowDigits(value, base, n, uppercase));
            && AllDigits(s, base) && Number(s, base) <= value
            && (Number(s, base) == value <==> Fits(value, base, n))
    decreases n
  {
    var v, d := Shifted(value, base), value % base;
    QuotientRemainder(value, base);
    DigitRoundTrip(d, uppercase);
    var c := LastDigit(value, base, uppercase);
    var rest := if v == 0 || n == 1 then [] else LowDigits(v, base, n - 1, uppercase);
    assert LowDigits(value, base, n, uppercase) == [c] + rest;
    assert Fits(value, base, n) <==> v == 0 || (n > 1 && Fits(v, base, n - 1));
    ReversedMore(rest, c);
    assert IsDigit(c, base) && DigitOf(c).value == d;
    hide Shifted, LastDigit, LowDigits, Fits, DigitChar, Reversed, IsDigit;
    if v != 0 && n > 1 {
      LowDigitsSpell(v, base, n - 1, uppercase);
      NumberSnoc(Reversed(rest), c, base);
      OneMoreDigit(Number(Reversed(rest), base), v, d, base);
    } else {
      ReversedNone();
      NumberSnoc([], c, base);
      assert [] + [c] == [c];
      OneMoreDigit(0, v, d, base);
    }
  }

  lemma ReversedNone()
    ensures Reversed([]) == []
  {
  }

  lemma Monotone(a: nat, b: nat, c: nat)
    requires a <= b
    ensures a * c <= b * c
  {
  }

  /** Filling up with zeros changes nothing. */
  lemma {:induction false} FillSpells(buf: seq<char>, n: nat, base: nat)
    requires AllDigits(Reversed(buf), base) && base > 0
    ensures AllDigits(Reversed(FillTo(buf, n)), base)
    ensures Number(Reversed(FillTo(buf, n)), base) == Number(Reversed(buf), base)
    decreases BUFFER_SIZE - |buf|
  {
    if |buf| < n && |buf| < BUFFER_SIZE {
      ReversedEnd(buf, '0');
      LeadingZero(Reversed(buf), base);
      FillSpells(buf + ['0'], n, base);
    }
  }

  lemma FilledSpells(buf: seq<char>, flags: Flags, prec: nat, width: nat, base: nat)
    requires AllDigits(Reversed(buf), base) && base > 0
    ensures AllDigits(Reversed(Filled(buf, flags, prec, width)), base)
    ensures Number(Reversed(Filled(buf, flags, prec, width)), base) == Number(Reversed(buf), base)
  {
    FillSpells(buf, prec, base);
    FillSpells(FillTo(buf, prec), width, base);
  }

  lemma DigitsSpell(value: nat, base: nat, flags: Flags)
    requires 2 <= base <= 36
    ensures var s := Reversed(Digits(value, base, flags));
            && AllDigits(s, base) && Number(s, base) <= value
            && (Number(s, base) == value <==> Fits(value, base, BUFFER_SIZE))
  {
    LowDigitsSpell(value, base, BUFFER_SIZE, flags.uppercase);
    ReversedNone();
  }

  // ---------- reading it back ----------

  predicate AllBlank(s: seq<char>) {
    forall c :: c in s ==> IsBlank(c)
  }

  lemma {:induction false} SpacesBlank(n: int)
    ensures AllBlank(Spaces(n)) && (forall c :: c in Spaces(n) ==> c == ' ')
    decreases if n < 0 then 0 else n
  {
    if n > 0 {
      SpacesBlank(n - 1);
    }
  }

  /** Where the pieces of a number's text are: sign from i, base mark from j, digits from k to e. */
  predicate Pieces(text: seq<char>, i: nat, j: nat, k: nat, e: nat, base: nat, b: nat) {
    && i <= j <= k < e <= |text|
    && (forall x :: 0 <= x < i ==> IsBlank(text[x]))
    && (if j == i then true else j == i + 1 && (text[i] == '-' || text[i] == '+'))
    && 2 <= b <= 16 && AllDigits(text[k..e], b) && (e < |text| ==> text[e] == ' ')
    && if k == j then base == b
       else
         && base == 0 && text[j] == '0'
         && if k == j + 1 then b == 8 else k == j + 2 && b == 16 && (text[j + 1] == 'x' || text[j + 1] == 'X')
  }

  /** The digits begin with a digit, and what follows the first is a digit, a space or nothing. */
  lemma DigitsStart(text: seq<char>, k: nat, e: nat, b: nat)
    requires k < e <= |text| && AllDigits(text[k..e], b) && b <= 16 && (e < |text| ==> text[e] == ' ')
    ensures IsDigit(text[k], b) && !HexAt(text, k)
    ensures text[k] != '-' && text[k] != '+' && !IsBlank(text[k])
  {
    assert text[k..e][0] == text[k];
    assert text[k] in text[k..e];
    if k + 1 < e {
      assert text[k..e][1] == text[k + 1];
      assert text[k + 1] in text[k..e];
    }
  }

  lemma ParseAt(text: seq<char>, i: nat, j: nat, k: nat, e: nat, base: nat, b: nat)
    requires Pieces(text, i, j, k, e, base, b)
    ensures Parse(text, base) ==
            (if i < j && text[i] == '-' then -(Number(text[k..e], b) as int) else Number(text[k..e], b), e)
  {
    DigitsStart(text, k, e, b);
    BlanksEndIs(text, 0, i);
    assert SkipSign(text, i) == j;
    assert Prefix(text, j, base) == (b, k);
    DigitsEndIs(text, k, e, b);
    hide AllDigits, Number, SkipBlanks, DigitsEnd;
  }

  // ---------- printing, then reading ----------

  /** A laid out buffer: blanks, then the buffer from its end, then spaces. */
  lemma LaidParts(buf: seq<char>, flags: Flags, width: nat) returns (lead: seq<char>, tail: seq<char>)
    ensures Laid(buf, flags, width) == lead + Reversed(buf) + tail
    ensures AllBlank(lead) && AllBlank(tail) && (tail != [] ==> tail[0] == ' ' && flags.left)
  {
    var pad := Spaces(width - |buf|);
    SpacesBlank(width - |buf|);
    lead := if !flags.left && !flags.zeropad then pad else [];
    tail := if flags.left then pad else [];
    if tail != [] {
      assert tail[0] in tail;
    }
  }

  /** The sign in front of the digits, when there is room for it. */
  lemma SignedParts(buf: seq<char>, negative: bool, flags: Flags) returns (sign: seq<char>)
    ensures Reversed(Signed(buf, negative, flags)) == sign + Reversed(buf)
    ensures sign == [] || sign == ['-'] || sign == ['+'] || sign == [' ']
    ensures sign == ['-'] <==> negative && |buf| < BUFFER_SIZE
  {
    if |buf| < BUFFER_SIZE && (negative || flags.plus || flags.space) {
      sign := [if negative then '-' else if flags.plus then '+' else ' '];
      ReversedEnd(buf, sign[0]);
    } else {
      sign := [];
      assert [] + Reversed(buf) == Reversed(buf);
    }
  }

  /** Blanks, a sign, digits and spaces read as the number the digits spell. */
  lemma ParseLine(lead: seq<char>, sign: seq<char>, digits: seq<char>, tail: seq<char>, base: nat)
    requires AllBlank(lead) && (tail != [] ==> tail[0] == ' ') && digits != []
    requires sign == [] || sign == ['-'] || sign == ['+'] || sign == [' ']
    requires 2 <= base <= 16 && AllDigits(digits, base)
    ensures Parse(lead + (sign + digits) + tail, base).0 ==
            if sign == ['-'] then -(Number(digits, base) as int) else Number(digits, base)
  {
    var text := lead + (sign + digits) + tail;
    var k := |lead| + |sign|;
    var e := k + |digits|;
    var i := if sign == [' '] then k else |lead|;
    assert text[k..e] == digits;
    assert forall x :: 0 <= x < |lead| ==> text[x] == lead[x] && lead[x] in lead;
    assert sign != [] ==> text[|lead|] == sign[0];
    assert e < |text| ==> text[e] == tail[0];
    hide AllDigits, Number;
    assert Pieces(text, i, k, k, e, base, base);
    ParseAt(text, i, k, k, e, base, base);
  }

  /** Without digits there is nothing to read. */
  lemma ParseEmpty(lead: seq<char>, sign: seq<char>, tail: seq<char>, base: nat)
    requires AllBlank(lead) && AllBlank(tail) && 2 <= base <= 16
    requires sign == [] || sign == ['-'] || sign == ['+'] || sign == [' ']
    ensures Parse(lead + (sign + []) + tail, base).0 == 0
  {
    var text := lead + (sign + []) + tail;
    assert forall x :: 0 <= x < |lead| ==> text[x] == lead[x] && lead[x] in lead;
    assert sign != [] ==> text[|lead|] == sign[0];
    assert forall x :: |lead| + |sign| <= x < |text| ==>
        text[x] == tail[x - |lead| - |sign|] && tail[x - |lead| - |sign|] in tail;
    if sign == ['-'] || sign == ['+'] {
      BlanksEndIs(text, 0, |lead|);
      var k := |lead| + 1;
      assert Prefix(text, k, base) == (base, k) && (k < |text| ==> !IsDigit(text[k], base));
      NothingRead(text, |lead|, k, k, base, base);
    } else {
      BlanksEndIs(text, 0, |text|);
      NothingRead(text, |text|, |text|, |text|, base, base);
    }
  }

  /** Where no digit follows the sign and the mark, nothing is read. */
  lemma NothingRead(text: seq<char>, i: nat, j: nat, k: nat, base: nat, b: nat)
    requires i <= |text| && SkipBlanks(text, 0) == i && SkipSign(text, i) == j && Prefix(text, j, base) == (b, k)
    requires k <= |text| && (k < |text| ==> !IsDigit(text[k], b))
    ensures Parse(text, base) == (0, 0)
  {
    assert text[k..k] == [];
    DigitsEndIs(text, k, k, b);
    hide Prefix, SkipBlanks, DigitsEnd;
  }

  function Signum(value: nat, negative: bool): int {
    if negative then -(value as int) else value
  }

  /** So many zeros that the buffer has no room left for the sign. */
  predicate SignLost(value: nat, negative: bool, base: nat, flags: Flags, prec: nat, width: nat)
    requires 2 <= base <= 36
  {
    && negative && value > 0
    && |Filled(Digits(value, base, flags), flags, prec, InnerWidth(flags, negative, width))| >= BUFFER_SIZE
  }

  /** The text of a number without a base mark, piece by piece. */
  lemma PrintedParts(value: nat, negative: bool, base: nat, flags: Flags, prec: nat, width: nat)
    returns (lead: seq<char>, sign: seq<char>, r: seq<char>, tail: seq<char>)
    requires 2 <= base <= 16 && (flags.hash ==> value == 0)
    ensures Printed(value, negative, base, flags, prec, width) == lead + (sign + r) + tail
    ensures AllBlank(lead) && AllBlank(tail) && (tail != [] ==> tail[0] == ' ')
    ensures sign == [] || sign == ['-'] || sign == ['+'] || sign == [' ']
    ensures AllDigits(r, base) && Number(r, base) <= value
    ensures Number(r, base) == value <==> Fits(value, base, BUFFER_SIZE)
    ensures sign != ['-'] && negative && value > 0 <==> SignLost(value, negative, base, flags, prec, width)
    ensures sign == ['-'] ==> negative
  {
    var inner := InnerWidth(flags, negative, width);
    var f := if value == 0 then flags.(hash := false) else flags;
    var digits := Digits(value, base, f);
    var filled := Filled(digits, f, prec, inner);
    DigitsSpell(value, base, f);
    FilledSpells(digits, f, prec, inner, base);
    NoMark(filled, base, f, prec, inner);
    assert digits == Digits(value, base, flags) && filled == Filled(digits, flags, prec, inner);
    hide Digits, Filled, Number, AllDigits, Fits, LowDigits, Hashed, Laid, Signed;
    sign := SignedParts(filled, negative, f);
    lead, tail := LaidParts(Buffer(value, negative, base, flags, prec, inner), flags, inner);
    r := Reversed(filled);
  }

  /**
   Printing a number without a base mark, with any flags, width and precision, and reading it in the same base gives
   it back exactly when its digits fit the buffer and its sign is not crowded out by zeros.
   */
  lemma PrintThenRead(value: nat, negative: bool, base: nat, flags: Flags, prec: nat, width: nat)
    requires 2 <= base <= 16 && (flags.hash ==> value == 0)
    ensures Parse(Printed(value, negative, base, flags, prec, width), base).0 == Signum(value, negative)
       <==> Fits(value, base, BUFFER_SIZE) && !SignLost(value, negative, base, flags, prec, width)
  {
    var lead, sign, r, tail := PrintedParts(value, negative, base, flags, prec, width);
    assert Signum(value, negative) == if negative then -(value as int) else value;
    NumberNone(base);
    hide *;
    if r == [] {
      ParseEmpty(lead, sign, tail, base);
    } else {
      ParseLine(lead, sign, r, tail, base);
    }
  }

  lemma NumberNone(base: nat)
    ensures AllDigits([], base) && Number([], base) == 0
  {
  }

  // ---------- a long ----------

  lemma EightTimes(n: nat)
    requires n > 0
    ensures Pow2(3 * n) == 8 * Pow2(3 * (n - 1))
  {
    var k := 3 * (n - 1);
    assert Pow2(k + 1) == 2 * Pow2(k);
    assert Pow2(k + 2) == 2 * Pow2(k + 1);
    assert Pow2(k + 3) == 2 * Pow2(k + 2);
  }

  lemma ShiftedSmall(value: nat, base: nat, p: nat)
    requires base >= 8 && value < 8 * p
    ensures Shifted(value, base) < p
  {
    QuotientRemainder(value, base);
    var v := Shifted(value, base);
    Monotone(8, base, v);
    assert 8 * v <= v * base;
  }

  /** In base 8 or more a number below 8^n has at most n digits. */
  lemma {:induction false} FewDigits(value: nat, base: nat, n: nat, room: nat, uppercase: bool)
    requires 8 <= base <= 36 && 0 < n <= room && value < Pow2(3 * n)
    ensures Fits(value, base, room) && |LowDigits(value, base, room, uppercase)| <= n
    decreases n
  {
    var v := Shifted(value, base);
    EightTimes(n);
    ShiftedSmall(value, base, Pow2(3 * (n - 1)));
    if n == 1 {
      assert Pow2(0) == 1;
      assert v == 0;
    } else if v != 0 {
      FewDigits(v, base, n - 1, room - 1, uppercase);
    }
    LowStep(value, base, room, uppercase);
    hide Pow2, Shifted;
  }

  lemma {:induction false} FillLength(buf: seq<char>, n: nat)
    requires |buf| < BUFFER_SIZE
    ensures |FillTo(buf, n)| >= BUFFER_SIZE <==> n >= BUFFER_SIZE
    ensures |FillTo(buf, n)| <= BUFFER_SIZE
    decreases BUFFER_SIZE - |buf|
  {
    if |buf| < n {
      if |buf| + 1 < BUFFER_SIZE {
        FillLength(buf + ['0'], n);
      }
    }
  }

  /** For a long in base 8, 10 or 16 the digits always fit, and whether zeros crowd out the sign shows beforehand. */
  lemma LongFits(value: nat, negative: bool, base: nat, flags: Flags, prec: nat, width: nat)
    requires 8 <= base <= 16 && value < Pow2(63)
    ensures Fits(value, base, BUFFER_SIZE)
    ensures SignLost(value, negative, base, flags, prec, width) <==>
            && negative && value > 0 && !flags.left
            && (prec >= BUFFER_SIZE || (flags.zeropad && InnerWidth(flags, negative, width) >= BUFFER_SIZE))
  {
    FewDigits(value, base, 21, BUFFER_SIZE, flags.uppercase);
    var digits := Digits(value, base, flags);
    assert |digits| < BUFFER_SIZE;
    FillLength(digits, prec);
    if |FillTo(digits, prec)| < BUFFER_SIZE {
      FillLength(FillTo(digits, prec), InnerWidth(flags, negative, width));
    } else {
      assert FillTo(FillTo(digits, prec), InnerWidth(flags, negative, width)) == FillTo(digits, prec);
    }
    hide Fits, Digits, LowDigits;
  }

  /**
   A long printed without a base mark and read back in the same base, for all flags, widths and precisions: the value
   comes back exactly when it is not negative with 32 or more places to be filled with zeros.
   */
  lemma LongRoundTrip(value: int, base: nat, flags: Flags, prec: nat, width: nat)
    requires -(Pow2(63) as int) < value < Pow2(63)
    requires 8 <= base <= 16 && (flags.hash ==> value == 0)
    ensures var text := Printed(if value < 0 then -value else value, value < 0, base, flags, prec, width);
            Parse(text, base).0 == value <==>
            !(value < 0 && !flags.left
              && (prec >= BUFFER_SIZE || (flags.zeropad && InnerWidth(flags, true, width) >= BUFFER_SIZE)))
  {
    var m := if value < 0 then -value else value;
    PrintThenRead(m, value < 0, base, flags, prec, width);
    LongFits(m, value < 0, base, flags, prec, width);
    hide Printed, Parse, Fits, SignLost;
  }

  /** Minus one filled up with zeros to a width of 33: printed as 31 zeros and a one, and read as one. */
  lemma SignCrowdedOut()
    ensures var flags := Flags(true, false, false, false, false, false, false);
            Parse(Printed(1, true, 10, flags, 0, 33), 10).0 == 1 && InnerWidth(flags, true, 33) == BUFFER_SIZE
  {
    var flags := Flags(true, false, false, false, false, false, false);
    assert Pow2(3) == 8;
    LongFits(1, true, 10, flags, 0, 33) by {
      Pow2Monotone(3, 63);
    }
    var lead, sign, r, tail := PrintedParts(1, true, 10, flags, 0, 33);
    NumberNone(10);
    hide *;
    ParseLine(lead, sign, r, tail, 10);
  }

  // ---------- with the base mark ----------

  /** The mark in front of the digits, when there is neither width nor precision. */
  lemma HashedParts(buf: seq<char>, base: nat, flags: Flags) returns (mark: seq<char>)
    requires flags.hash && !flags.precision && 0 < |buf| <= BUFFER_SIZE - 2 && (base == 8 || base == 16)
    ensures Reversed(Hashed(buf, base, flags, 0, 0)) == mark + Reversed(buf)
    ensures mark == if base == 8 then "0" else if flags.uppercase then "0X" else "0x"
  {
    assert buf[..|buf|] == buf;
    var x := if flags.uppercase then 'X' else 'x';
    ReversedEnd(buf, x);
    ReversedEnd(buf, '0');
    ReversedEnd(buf + [x], '0');
    mark := if base == 8 then "0" else ['0', x];
    assert ['0'] + ([x] + Reversed(buf)) == ['0', x] + Reversed(buf);
  }

  /** Blanks, a sign, a base mark, digits: read in the base the mark stands for. */
  lemma ParseMarked(sign: seq<char>, mark: seq<char>, digits: seq<char>, base: nat)
    requires sign == [] || sign == ['+'] || sign == [' ']
    requires (base == 8 && mark == "0") || (base == 16 && (mark == "0x" || mark == "0X"))
    requires AllDigits(digits, base) && digits != []
    ensures Parse(sign + (mark + digits), 0) == (Number(digits, base), |sign| + |mark| + |digits|)
  {
    var text := sign + (mark + digits);
    var i := if sign == [' '] then 1 else 0;
    var j := |sign|;
    var k := j + |mark|;
    assert text[k..|text|] == digits;
    assert sign != [] ==> text[0] == sign[0];
    assert text[j] == mark[0] && (|mark| > 1 ==> text[j + 1] == mark[1]);
    hide AllDigits, Number;
    assert base == 8 ==> !HexAt(text, j) by {
      DigitsStart(text, k, |text|, base);
      NotX(digits, base);
    }
    assert Pieces(text, i, j, k, |text|, 0, base);
    ParseAt(text, i, j, k, |text|, 0, base);
  }

  lemma NotX(digits: seq<char>, base: nat)
    requires AllDigits(digits, base) && digits != [] && base <= 16
    ensures digits[0] != 'x' && digits[0] != 'X'
  {
    assert digits[0] in digits;
  }

  /** The text of a positive number with '#', piece by piece. */
  lemma MarkedParts(value: nat, base: nat, flags: Flags) returns (sign: seq<char>, mark: seq<char>, r: seq<char>)
    requires 0 < value < Pow2(63) && (base == 8 || base == 16) && flags.hash && !flags.precision
    ensures Printed(value, false, base, flags, 0, 0) == sign + (mark + r)
    ensures sign == [] || sign == ['+'] || sign == [' ']
    ensures (base == 8 && mark == "0") || (base == 16 && (mark == "0x" || mark == "0X"))
    ensures AllDigits(r, base) && Number(r, base) == value && r != []
  {
    FewDigits(value, base, 21, BUFFER_SIZE, flags.uppercase);
    LowDigitsSpell(value, base, BUFFER_SIZE, flags.uppercase);
    var digits := LowDigits(value, base, BUFFER_SIZE, flags.uppercase);
    assert Digits(value, base, flags) == digits && Filled(digits, flags, 0, 0) == digits;
    var marked := Hashed(digits, base, flags, 0, 0);
    var buf := Buffer(value, false, base, flags, 0, 0);
    assert buf == Signed(marked, false, flags);
    r := Reversed(digits);
    Bare(buf, flags);
    mark := HashedParts(digits, base, flags);
    sign := SignedParts(marked, false, flags);
    hide LowDigits, Digits, Filled, Hashed, Signed, Laid, Reversed, Buffer, Fits, Number, AllDigits;
  }

  lemma Bare(buf: seq<char>, flags: Flags)
    ensures Laid(buf, flags, 0) == Reversed(buf)
  {
    assert [] + Reversed(buf) + [] == Reversed(buf);
  }

  /** A positive long printed in base 8 or 16 with '#' and read with base 0 comes back, all of it being read. */
  lemma MarkedRoundTrip(value: nat, base: nat, flags: Flags)
    requires 0 < value < Pow2(63) && (base == 8 || base == 16)
    requires flags.hash && !flags.precision
    ensures var text := Printed(value, false, base, flags, 0, 0);
            Parse(text, 0) == (value, |text|)
  {
    hide *;
    var sign, mark, r := MarkedParts(value, base, flags);
    var text := Printed(value, false, base, flags, 0, 0);
    ParseMarked(sign, mark, r, base);
    MarkedLength(text, sign, mark, r);
  }

  lemma MarkedLength(text: seq<char>, sign: seq<char>, mark: seq<char>, r: seq<char>)
    requires text == sign + (mark + r)
    ensures |text| == |sign| + |mark| + |r|
  {
  }

  /** Zero is printed without a mark; read with base 0 it gives zero, but as if nothing had been read. */
  lemma MarkedZero(base: nat, flags: Flags)
    requires (base == 8 || base == 16) && flags.hash && !flags.precision && !flags.plus && !flags.space
    ensures var text := Printed(0, false, base, flags, 0, 0);
            text == "0" && Parse(text, 0) == (0, 0)
  {
    var f := flags.(hash := false);
    assert Shifted(0, base) == 0;
    assert LowDigits(0, base, BUFFER_SIZE, f.uppercase) == ['0'];
    assert Filled(['0'], f, 0, 0) == ['0'];
    assert Buffer(0, false, base, flags, 0, 0) == ['0'];
    assert Reversed(['0']) == "0" by {
      assert ['0'][1..] == [];
      ReversedNone();
    }
    assert [] + "0" + [] == "0";
    BlanksEndIs("0", 0, 0);
    DigitsEndIs("0", 1, 1, 8);
  }
}
