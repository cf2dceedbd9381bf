/** What strtol reads, whoever wrote it: blanks, a sign, a base mark, digits, and anything else behind them. */
module NumberReading {
  import opened NumberText

  /** A space, or a tab, line feed, vertical tab, form feed or carriage return, by its code. */
  predicate Blank(k: int) {
    k == 32 || 9 <= k <= 13
  }

  /** The mark in front of the digits that goes with the base asked for, and the base the digits are then in. */
  predicate Marked(base: nat, mark: seq<char>, digits: seq<char>, tail: seq<char>, b: nat) {
    if base == 0 then
      || (mark == "" && b == 10 && digits != [] && digits[0] != '0')
      || (mark == "0" && b == 8)
      || ((mark == "0x" || mark == "0X") && b == 16)
    else if base == 16 then
      && b == 16
      && (mark == "0x" || mark == "0X" || (mark == "" && !HexAt(digits + tail, 0)))
    else mark == "" && b == base
  }

  /** Where the parts of a text are, and its first character behind the blanks. */
  lemma Parts(lead: seq<char>, sign: seq<char>, mark: seq<char>, digits: seq<char>, tail: seq<char>)
    returns (text: seq<char>, i: nat, j: nat, k: nat, e: nat)
    requires digits != []
    ensures text == lead + sign + mark + digits + tail
    ensures i == |lead| && j == i + |sign| && k == j + |mark| && e == k + |digits| && i < |text| && e <= |text|
    ensures text[..i] == lead && text[j..k] == mark && text[k..e] == digits
    ensures text[k..] == digits + tail && text[e..] == tail
    ensures text[i] == if sign != [] then sign[0] else if mark != [] then mark[0] else digits[0]
  {
    text := lead + sign + mark + digits + tail;
    i := |lead|;
    j := i + |sign|;
    k := j + |mark|;
    e := k + |digits|;
  }

  lemma PrefixMarked(text: seq<char>, j: nat, k: nat, base: nat, b: nat, mark: seq<char>, digits: seq<char>,
        tail: seq<char>)
    requires j <= k <= |text| && text[j..k] == mark && text[k..] == digits + tail && digits != []
    requires Marked(base, mark, digits, tail, b) && IsDigit(digits[0], b)
    ensures Prefix(text, j, base) == (b, k)
  {
    assert text[k] == digits[0];
    assert |mark| > 0 ==> text[j] == mark[0];
    assert |mark| > 1 ==> text[j + 1] == mark[1];
    assert |mark| == 1 ==> text[j + 1] == digits[0];
    if mark == "" {
      assert HexAt(text, j) == HexAt(digits + tail, 0) by {
        assert j + 1 < |text| ==> text[k..][1] == text[j + 1];
      }
    }
  }

  lemma BlankCode(c: char)
    ensures IsBlank(c) <==> Blank(c as int)
  {
  }

  lemma {:induction false} BlanksSkipped(text: seq<char>, from: nat, i: nat)
    requires from <= i < |text| && (forall x :: from <= x < i ==> Blank(text[x] as int)) && !Blank(text[i] as int)
    ensures SkipBlanks(text, from) == i
    decreases i - from
  {
    BlankCode(text[from]);
    hide IsBlank, Blank;
    if from < i {
      BlanksSkipped(text, from + 1, i);
    }
  }

  /** What the digits or their mark start with is no blank and no sign. */
  lemma StartsPlain(mark: seq<char>, digits: seq<char>, tail: seq<char>, base: nat, b: nat)
    requires Marked(base, mark, digits, tail, b) && digits != [] && IsDigit(digits[0], b)
    ensures var c := if mark != [] then mark[0] else digits[0]; !Blank(c as int) && c != '-' && c != '+'
  {
  }

  lemma FirstDigit(digits: seq<char>, b: nat)
    requires digits != [] && AllDigits(digits, b)
    ensures IsDigit(digits[0], b)
  {
    assert digits[0] in digits;
  }

  /** The pieces found where they are, the value is that of the digits. */
  lemma ParsePieces(text: seq<char>, i: nat, j: nat, k: nat, e: nat, base: nat, b: nat)
    requires SkipBlanks(text, 0) == i < |text| && SkipSign(text, i) == j && Prefix(text, j, base) == (b, k)
    requires k < e <= |text| && DigitsEnd(text, k, b) == e
    ensures AllDigits(text[k..e], b)
    ensures Parse(text, base) == (if text[i] == '-' then -(Number(text[k..e], b) as int) else Number(text[k..e], b), e)
  {
    hide SkipBlanks, SkipSign, Prefix, DigitsEnd, Number, AllDigits;
  }

  lemma DigitsRead(text: seq<char>, k: nat, e: nat, b: nat, digits: seq<char>, tail: seq<char>)
    requires k <= e <= |text| && text[k..e] == digits && text[e..] == tail && AllDigits(digits, b)
    requires tail != [] ==> !IsDigit(tail[0], b)
    ensures DigitsEnd(text, k, b) == e
  {
    hide AllDigits, IsDigit;
    assert e < |text| ==> text[e] == tail[0];
    DigitsEndIs(text, k, e, b);
  }

  lemma SignRead(text: seq<char>, i: nat, lead: seq<char>, sign: seq<char>, first: char)
    requires i == |lead| < |text| && text[..i] == lead && forall c :: c in lead ==> Blank(c as int)
    requires sign == [] || sign == ['-'] || sign == ['+']
    requires text[i] == if sign == [] then first else sign[0]
    requires !Blank(first as int) && first != '-' && first != '+'
    ensures SkipBlanks(text, 0) == i && SkipSign(text, i) == i + |sign| && (text[i] == '-' <==> sign == ['-'])
  {
    assert !Blank(text[i] as int);
    hide IsBlank, Blank;
    forall x | 0 <= x < i ensures Blank(text[x] as int) {
      assert text[x] == lead[x] && lead[x] in lead;
    }
    BlanksSkipped(text, 0, i);
  }

  /**
   For every base: the value is that of the digits, negative exactly behind a minus sign, and reading ends behind the
   last of them.
   */
  lemma StrtolReads(lead: seq<char>, sign: seq<char>, mark: seq<char>, digits: seq<char>, tail: seq<char>, base: nat,
        b: nat)
    requires (forall c :: c in lead ==> Blank(c as int)) && (sign == [] || sign == ['-'] || sign == ['+'])
    requires Marked(base, mark, digits, tail, b) && digits != [] && AllDigits(digits, b)
    requires tail != [] ==> !IsDigit(tail[0], b)
    ensures var n: int := Number(digits, b);
            Parse(lead + sign + mark + digits + tail, base) ==
            (if sign == ['-'] then -n else n, |lead| + |sign| + |mark| + |digits|)
  {
    hide *;
    FirstDigit(digits, b);
    var text, i, j, k, e := Parts(lead, sign, mark, digits, tail);
    StartsPlain(mark, digits, tail, base, b);
    PrefixMarked(text, j, k, base, b, mark, digits, tail);
    SignRead(text, i, lead, sign, if mark != [] then mark[0] else digits[0]);
    DigitsRead(text, k, e, b, digits, tail);
    ParsePieces(text, i, j, k, e, base, b);
  }
}
