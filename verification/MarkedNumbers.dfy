/**
 Numbers printed with '#' for any width and precision: exactly when reading them with base 0 gives them back.
 */
module MarkedNumbers {
  import opened Extrema
  import opened NumberRoundTrip
  import opened NumberText
  import opened Powers

  // ---------- the digits that are left ----------

  function Zeros(n: nat): (z: seq<char>)
    ensures |z| == n && forall i :: 0 <= i < n ==> z[i] == '0'
  {
    seq(n, _ => '0')
  }

  lemma {:induction false} FillAdds(buf: seq<char>, n: nat)
    ensures |FillTo(buf, n)| >= |buf| && FillTo(buf, n) == buf + Zeros(|FillTo(buf, n)| - |buf|)
    decreases BUFFER_SIZE - |buf|
  {
    if |buf| < n && |buf| < BUFFER_SIZE {
      FillAdds(buf + ['0'], n);
    }
  }

  lemma FilledAdds(buf: seq<char>, flags: Flags, prec: nat, width: nat)
    ensures |Filled(buf, flags, prec, width)| >= |buf|
    ensures Filled(buf, flags, prec, width) == buf + Zeros(|Filled(buf, flags, prec, width)| - |buf|)
  {
    FillAdds(buf, prec);
    FillAdds(FillTo(buf, prec), width);
  }

  /** With fewer digits than there are, the lowest ones are left, and they are not enough. */
  lemma {:induction false} FewerDigits(value: nat, base: nat, n: nat, k: nat, uppercase: bool)
    requires 2 <= base <= 36 && 0 < k <= n && Fits(value, base, n)
    ensures var s := LowDigits(value, base, n, uppercase);
            && (Fits(value, base, k) <==> |s| <= k)
            && (k <= |s| ==> LowDigits(value, base, k, uppercase) == s[..k])
    decreases n
  {
    var v := Shifted(value, base);
    if v != 0 && n > 1 {
      var s := LowDigits(value, base, n, uppercase);
      if k > 1 {
        FewerDigits(v, base, n - 1, k - 1, uppercase);
      } else {
        assert !Fits(v, base, 0);
      }
    }
    hide Shifted, LastDigit;
  }

  lemma {:induction false} ZerosSpell(buf: seq<char>, m: nat, base: nat)
    requires AllDigits(Reversed(buf), base) && base > 0
    ensures AllDigits(Reversed(buf + Zeros(m)), base)
    ensures Number(Reversed(buf + Zeros(m)), base) == Number(Reversed(buf), base)
    decreases m
  {
    if m == 0 {
      assert buf + Zeros(0) == buf;
    } else {
      ZerosSpell(buf, m - 1, base);
      assert buf + Zeros(m) == (buf + Zeros(m - 1)) + ['0'];
      ReversedEnd(buf + Zeros(m - 1), '0');
      LeadingZero(Reversed(buf + Zeros(m - 1)), base);
    }
  }

  /** The k lowest places of a filled number spell it exactly when they hold all its digits. */
  lemma KeptSpells(value: nat, base: nat, flags: Flags, prec: nat, width: nat, k: nat)
    requires 2 <= base <= 36 && value > 0 && Fits(value, base, BUFFER_SIZE)
    requires 0 < k <= |Filled(Digits(value, base, flags), flags, prec, width)|
    ensures var digits := Digits(value, base, flags);
            var r := Reversed(Filled(digits, flags, prec, width)[..k]);
            && AllDigits(r, base) && Number(r, base) <= value
            && (Number(r, base) == value <==> |digits| <= k)
  {
    var digits := Digits(value, base, flags);
    assert digits == LowDigits(value, base, BUFFER_SIZE, flags.uppercase) && BUFFER_SIZE > 0;
    hide *;
    FilledAdds(digits, flags, prec, width);
    if |digits| <= k {
      KeptAll(value, base, flags.uppercase, digits, Filled(digits, flags, prec, width), k);
    } else {
      FewerDigits(value, base, BUFFER_SIZE, k, flags.uppercase);
      CutInDigits(digits, Filled(digits, flags, prec, width), k);
      LowDigitsSpell(value, base, k, flags.uppercase);
    }
  }

  lemma KeptAll(value: nat, base: nat, uppercase: bool, digits: seq<char>, buf: seq<char>, k: nat)
    requires 2 <= base <= 36 && BUFFER_SIZE > 0 && digits == LowDigits(value, base, BUFFER_SIZE, uppercase)
    requires |digits| <= k <= |buf| && buf == digits + Zeros(|buf| - |digits|) && Fits(value, base, BUFFER_SIZE)
    ensures var r := Reversed(buf[..k]); AllDigits(r, base) && Number(r, base) == value
  {
    hide *;
    CutInZeros(digits, buf, k);
    LowDigitsSpell(value, base, BUFFER_SIZE, uppercase);
    ZerosSpell(digits, k - |digits|, base);
  }

  lemma CutInDigits(digits: seq<char>, buf: seq<char>, k: nat)
    requires k <= |digits| <= |buf| && buf == digits + Zeros(|buf| - |digits|)
    ensures buf[..k] == digits[..k]
  {
  }

  lemma CutInZeros(digits: seq<char>, buf: seq<char>, k: nat)
    requires |digits| <= k <= |buf| && buf == digits + Zeros(|buf| - |digits|)
    ensures buf[..k] == digits + Zeros(k - |digits|)
  {
  }

  // ---------- reading ----------

  /** Blanks, a sign, a base mark, digits and spaces. */
  lemma ParseMarkedLine(lead: seq<char>, sign: seq<char>, mark: seq<char>, digits: seq<char>, tail: seq<char>,
                        base: nat)
    requires AllBlank(lead) && (tail != [] ==> tail[0] == ' ')
    requires sign == [] || sign == ['+'] || sign == [' ']
    requires (base == 8 && mark == "0") || (base == 16 && (mark == "0x" || mark == "0X"))
    requires AllDigits(digits, base)
    ensures Parse(lead + (sign + (mark + digits)) + tail, 0).0 == Number(digits, base)
  {
    if digits == [] {
      ParseMarkAlone(lead, sign, mark, tail, base);
      assert mark + [] == mark;
    } else {
      var text := lead + (sign + (mark + digits)) + tail;
      var i, j := |lead| + (if sign == [' '] then 1 else 0), |lead| + |sign|;
      var k := j + |mark|;
      var e := k + |digits|;
      assert text[k..e] == digits;
      assert forall x :: 0 <= x < |lead| ==> text[x] == lead[x] && lead[x] in lead;
      assert sign != [] ==> text[|lead|] == sign[0];
      assert text[j] == mark[0] && (|mark| > 1 ==> text[j + 1] == mark[1]);
      assert e < |text| ==> text[e] == tail[0];
      hide AllDigits, Number;
      assert Pieces(text, i, j, k, e, 0, base);
      ParseAt(text, i, j, k, e, 0, base);
    }
  }

  /** A mark without digits reads as zero. */
  lemma ParseMarkAlone(lead: seq<char>, sign: seq<char>, mark: seq<char>, tail: seq<char>, base: nat)
    requires AllBlank(lead) && (tail != [] ==> tail[0] == ' ')
    requires sign == [] || sign == ['+'] || sign == [' ']
    requires (base == 8 && mark == "0") || (base == 16 && (mark == "0x" || mark == "0X"))
    ensures Parse(lead + (sign + mark) + tail, 0).0 == 0 && AllDigits([], base) && Number([], base) == 0
  {
    var text := lead + (sign + mark) + tail;
    var i, j := |lead| + (if sign == [' '] then 1 else 0), |lead| + |sign|;
    var k := j + |mark|;
    assert forall x :: 0 <= x < |lead| ==> text[x] == lead[x] && lead[x] in lead;
    assert sign != [] ==> text[|lead|] == sign[0];
    assert text[j] == mark[0] && (|mark| > 1 ==> text[j + 1] == mark[1]);
    assert k < |text| ==> text[k] == tail[0];
    assert (j == i && text[i] != '-' && text[i] != '+') || (j == i + 1 && text[i] == '+');
    assert Prefix(text, j, 0) == (base, k);
    assert k < |text| ==> !IsDigit(text[k], base);
    BlanksEndIs(text, 0, i);
    NumberNone(base);
    hide Prefix, HexAt, IsBlank, IsDigit, SkipBlanks, DigitsEnd, AllDigits, Number, AllBlank;
    NothingRead(text, i, j, k, 0, base);
  }

  /** The 'x' of a mark whose zero found no room: nothing is read. */
  lemma ParseHalfMark(lead: seq<char>, x: char, rest: seq<char>)
    requires AllBlank(lead) && (x == 'x' || x == 'X')
    ensures Parse(lead + ([x] + rest), 0).0 == 0
  {
    var text := lead + ([x] + rest);
    assert forall i :: 0 <= i < |lead| ==> text[i] == lead[i] && lead[i] in lead;
    assert text[|lead|] == x;
    BlanksEndIs(text, 0, |lead|);
    assert Prefix(text, |lead|, 0) == (10, |lead|);
    assert text[|lead|..|lead|] == [];
    DigitsEndIs(text, |lead|, |lead|, 10);
  }

  /** A prefix never spells more than the whole, nor more in a smaller base. */
  lemma {:induction false} OctalSmaller(s: seq<char>, j: nat)
    requires j <= |s| && AllDigits(s, 16) && AllDigits(s[..j], 8)
    ensures Number(s[..j], 8) <= Number(s, 16)
    ensures Number(s, 16) >= 8 ==> Number(s[..j], 8) < Number(s, 16)
    decreases |s|
  {
    if s != [] {
      var t, c := s[..|s| - 1], s[|s| - 1];
      assert s == t + [c] && c in s;
      NumberSnoc(t, c, 16);
      if j == |s| {
        assert s[..j] == s && t[..j - 1] == t;
        NumberSnoc(t, c, 8);
        OctalSmaller(t, j - 1);
      } else {
        assert t[..j] == s[..j];
        OctalSmaller(t, j);
      }
    }
  }

  /** A number below eight spells the same in base 8. */
  lemma {:induction false} SmallIsOctal(s: seq<char>)
    requires AllDigits(s, 16) && Number(s, 16) < 8
    ensures AllDigits(s, 8) && Number(s, 8) == Number(s, 16)
  {
    if s != [] {
      var t, c := s[..|s| - 1], s[|s| - 1];
      assert s == t + [c] && c in s;
      NumberSnoc(t, c, 16);
      SmallIsOctal(t);
      NumberSnoc(t, c, 8);
    }
  }

  /** Two zeros and more without a mark: what follows the first is read as octal, as far as it goes. */
  lemma ReadAsOctal(lead: seq<char>, r: seq<char>) returns (j: nat)
    requires AllBlank(lead) && |r| > 1 && r[0] == '0' && r[1] == '0'
    ensures j <= |r[1..]| && AllDigits(r[1..][..j], 8) && (j < |r[1..]| ==> !IsDigit(r[1..][j], 8))
    ensures Parse(lead + r, 0).0 == Number(r[1..][..j], 8)
  {
    var text, i, digits := lead + r, |lead|, r[1..];
    assert forall x :: 0 <= x < i ==> text[x] == lead[x] && lead[x] in lead;
    assert text[i] == '0' && text[i + 1] == '0';
    BlanksEndIs(text, 0, i);
    assert Prefix(text, i, 0) == (8, i + 1);
    j := DigitsEnd(digits, 0, 8);
    DigitsEndStops(digits, 0, 8);
    assert digits[0] == '0' && j > 0;
    assert i + 1 + j < |text| ==> text[i + 1 + j] == digits[j];
    hide Prefix, SkipBlanks, DigitsEnd, AllDigits, Number, AllBlank, IsDigit;
    SliceBehind(lead, r, j);
    assert digits[0..j] == digits[..j];
    DigitsEndIs(text, i + 1, i + 1 + j, 8);
  }

  lemma SliceBehind(lead: seq<char>, r: seq<char>, j: nat)
    requires 1 + j <= |r|
    ensures (lead + r)[|lead| + 1..|lead| + 1 + j] == r[1..][..j]
  {
  }

  lemma {:induction false} DigitsEndStops(s: seq<char>, i: nat, base: nat)
    requires i <= |s|
    ensures var j := DigitsEnd(s, i, base); j < |s| ==> !IsDigit(s[j], base)
    ensures i < |s| && IsDigit(s[i], base) ==> DigitsEnd(s, i, base) > i
    decreases |s| - i
  {
    if i < |s| && IsDigit(s[i], base) {
      DigitsEndStops(s, i + 1, base);
    }
  }

  /** Hexadecimal digits read as octal are right for a number below eight only. */
  lemma OctalValue(r: seq<char>, j: nat)
    requires |r| > 1 && r[0] == '0' && AllDigits(r, 16)
    requires j <= |r[1..]| && AllDigits(r[1..][..j], 8) && (j < |r[1..]| ==> !IsDigit(r[1..][j], 8))
    ensures Number(r[1..][..j], 8) == Number(r, 16) <==> Number(r, 16) < 8
  {
    var digits := r[1..];
    assert r == ['0'] + digits;
    assert AllDigits(digits, 16) by {
      assert forall c :: c in digits ==> c in r;
    }
    LeadingZero(digits, 16);
    OctalSmaller(digits, j);
    assert j < |digits| ==> digits[j] in digits;
    if Number(digits, 16) < 8 {
      SmallIsOctal(digits);
      assert digits[..j] == digits;
    }
  }

  // ---------- printing, then reading ----------

  /** As much of the mark as there is room for beside k places. */
  function MarkFor(base: nat, k: nat, x: char): (mark: seq<char>)
    ensures k <= BUFFER_SIZE ==> |mark| + k <= BUFFER_SIZE
  {
    if k >= BUFFER_SIZE then "" else if base == 8 then "0" else if k < BUFFER_SIZE - 1 then ['0', x] else [x]
  }

  lemma HashedMark(buf: seq<char>, base: nat, flags: Flags, prec: nat, width: nat, x: char, k: nat)
    requires flags.hash && (base == 8 || base == 16) && |buf| <= BUFFER_SIZE
    requires x == if flags.uppercase then 'X' else 'x'
    requires k == |buf| - Dropped(|buf|, base, flags, prec, width)
    ensures var h := Hashed(buf, base, flags, prec, width);
            Reversed(h) == MarkFor(base, k, x) + Reversed(buf[..k]) && |h| == |MarkFor(base, k, x)| + k
  {
    var b := buf[..k];
    assert [] + Reversed(b) == Reversed(b);
    hide Dropped, Reversed;
    ReversedEnd(b, '0');
    ReversedTwo(b, x);
  }

  lemma ReversedTwo(b: seq<char>, x: char)
    ensures Reversed(b + [x]) == [x] + Reversed(b) && Reversed(b + [x] + ['0']) == ['0', x] + Reversed(b)
  {
    ReversedEnd(b, x);
    ReversedEnd(b + [x], '0');
    hide Reversed;
    assert ['0'] + ([x] + Reversed(b)) == ['0', x] + Reversed(b);
  }

  /** How many places are left beside the mark. */
  function Kept(value: nat, base: nat, flags: Flags, prec: nat, width: nat): nat
    requires 2 <= base <= 36
  {
    var inner := InnerWidth(flags, false, width);
    var places := |Filled(Digits(value, base, flags), flags, prec, inner)|;
    places - Dropped(places, base, flags, prec, inner)
  }

  /** Their digits, the most significant first. */
  function KeptDigits(value: nat, base: nat, flags: Flags, prec: nat, width: nat): (r: seq<char>)
    requires 2 <= base <= 36
    ensures |r| == Kept(value, base, flags, prec, width)
  {
    var inner := InnerWidth(flags, false, width);
    Reversed(Filled(Digits(value, base, flags), flags, prec, inner)[..Kept(value, base, flags, prec, width)])
  }

  /** What the kept places are: zeros, if there are more than digits, and the digits. */
  lemma KeptFacts(value: nat, base: nat, flags: Flags, prec: nat, width: nat)
    requires 0 < value < Pow2(63) && (base == 8 || base == 16)
    ensures var k, r := Kept(value, base, flags, prec, width), KeptDigits(value, base, flags, prec, width);
            && k <= BUFFER_SIZE && |Digits(value, base, flags)| <= 21 && (flags.left ==> k <= 21)
            && AllDigits(r, base) && Number(r, base) <= value
            && (Number(r, base) == value <==> |Digits(value, base, flags)| <= k)
            && (forall i :: 0 <= i < |r| - |Digits(value, base, flags)| ==> r[i] == '0')
  {
    var inner := InnerWidth(flags, false, width);
    var digits := Digits(value, base, flags);
    var buf := Filled(digits, flags, prec, inner);
    var k := Kept(value, base, flags, prec, width);
    FewDigits(value, base, 21, BUFFER_SIZE, flags.uppercase);
    FilledSize(digits, flags, prec, inner);
    FilledAdds(digits, flags, prec, inner);
    hide Digits, Filled, Reversed, Number, AllDigits, Fits, Dropped;
    if k > 0 {
      KeptSpells(value, base, flags, prec, inner, k);
    } else {
      ReversedNone();
      NumberNone(base);
    }
    ZerosInFront(digits, buf, k);
  }

  lemma ZerosInFront(digits: seq<char>, buf: seq<char>, k: nat)
    requires |digits| <= |buf| && k <= |buf| && buf == digits + Zeros(|buf| - |digits|)
    ensures forall i :: 0 <= i < k - |digits| ==> Reversed(buf[..k])[i] == '0'
  {
    ReversedAt(buf[..k]);
    hide Reversed;
  }

  lemma {:induction false} ReversedAt(s: seq<char>)
    ensures forall i :: 0 <= i < |s| ==> Reversed(s)[i] == s[|s| - 1 - i]
  {
    if s != [] {
      ReversedAt(s[1..]);
    }
  }

  /** The text of a positive number with '#', piece by piece. */
  lemma MarkedLineParts(value: nat, base: nat, flags: Flags, prec: nat, width: nat, x: char)
    returns (lead: seq<char>, sign: seq<char>, tail: seq<char>)
    requires 0 < value < Pow2(63) && (base == 8 || base == 16) && flags.hash
    requires x == if flags.uppercase then 'X' else 'x'
    ensures var k, r := Kept(value, base, flags, prec, width), KeptDigits(value, base, flags, prec, width);
            && Printed(value, false, base, flags, prec, width)
                 == lead + (sign + (MarkFor(base, k, x) + r)) + tail
            && (|MarkFor(base, k, x)| + k == BUFFER_SIZE ==> sign == [])
    ensures AllBlank(lead) && (tail != [] ==> tail[0] == ' ' && flags.left)
    ensures sign == [] || sign == ['+'] || sign == [' ']
  {
    var inner, k := InnerWidth(flags, false, width), Kept(value, base, flags, prec, width);
    var buf := Filled(Digits(value, base, flags), flags, prec, inner);
    KeptFacts(value, base, flags, prec, width);
    FilledSize(Digits(value, base, flags), flags, prec, inner);
    HashedMark(buf, base, flags, prec, inner, x, k);
    var hashed := Hashed(buf, base, flags, prec, inner);
    SignedSize(hashed, flags);
    sign := SignedParts(hashed, false, flags);
    lead, tail := LaidParts(Buffer(value, false, base, flags, prec, inner), flags, inner);
    hide Digits, Filled, Hashed, Signed, Laid, Reversed, Number, AllDigits, Dropped, MarkFor;
  }

  lemma FilledSize(buf: seq<char>, flags: Flags, prec: nat, width: nat)
    requires |buf| <= BUFFER_SIZE
    ensures |Filled(buf, flags, prec, width)| <= BUFFER_SIZE && (flags.left ==> Filled(buf, flags, prec, width) == buf)
  {
  }

  lemma SignedSize(buf: seq<char>, flags: Flags)
    ensures |buf| == BUFFER_SIZE ==> Signed(buf, false, flags) == buf
  {
  }

  /** How many digits a number has. */
  function DigitCount(value: nat, base: nat): nat
    requires base >= 2
    decreases value
  {
    if Shifted(value, base) == 0 || Shifted(value, base) >= value then 1 else 1 + DigitCount(Shifted(value, base), base)
  }

  lemma {:induction false} DigitsCounted(value: nat, base: nat, n: nat, uppercase: bool)
    requires 2 <= base <= 36 && 0 < n && Fits(value, base, n)
    ensures |LowDigits(value, base, n, uppercase)| == DigitCount(value, base)
    decreases n
  {
    var v := Shifted(value, base);
    if v != 0 {
      QuotientRemainder(value, base);
      Monotone(2, base, v);
      assert v < value;
      DigitsCounted(v, base, n - 1, uppercase);
    }
    LowStep(value, base, n, uppercase);
    hide Shifted, LowDigits;
  }

  /** How many places they take once zeros have been filled in front of them, up to the precision and the width. */
  function Places(digits: nat, flags: Flags, prec: nat, width: nat): nat {
    if flags.left then digits
    else
      var p := Max(digits, Min(prec, BUFFER_SIZE));
      if flags.zeropad then Max(p, Min(width, BUFFER_SIZE)) else p
  }

  lemma {:induction false} FillPlaces(buf: seq<char>, n: nat)
    requires |buf| <= BUFFER_SIZE
    ensures |FillTo(buf, n)| == Max(|buf|, Min(n, BUFFER_SIZE))
    decreases BUFFER_SIZE - |buf|
  {
    if |buf| < n && |buf| < BUFFER_SIZE {
      FillPlaces(buf + ['0'], n);
    }
  }

  lemma FilledPlaces(buf: seq<char>, flags: Flags, prec: nat, width: nat)
    requires |buf| <= BUFFER_SIZE
    ensures |Filled(buf, flags, prec, width)| == Places(|buf|, flags, prec, width)
  {
    FillPlaces(buf, prec);
    FillPlaces(FillTo(buf, prec), width);
    hide FillTo;
  }

  /** How many of those places the base mark leaves. */
  function Left(digits: nat, base: nat, flags: Flags, prec: nat, width: nat): nat {
    var places := Places(digits, flags, prec, width);
    places - Dropped(places, base, flags, prec, width)
  }

  lemma KeptIsLeft(value: nat, base: nat, flags: Flags, prec: nat, width: nat)
    requires 0 < value < Pow2(63) && (base == 8 || base == 16)
    ensures |Digits(value, base, flags)| == DigitCount(value, base)
    ensures Kept(value, base, flags, prec, width)
         == Left(DigitCount(value, base), base, flags, prec, InnerWidth(flags, false, width))
  {
    FewDigits(value, base, 21, BUFFER_SIZE, flags.uppercase);
    DigitsCounted(value, base, BUFFER_SIZE, flags.uppercase);
    FilledPlaces(Digits(value, base, flags), flags, prec, InnerWidth(flags, false, width));
    hide LowDigits, DigitCount, Filled, Places, Dropped, Fits, Pow2;
  }

  /**
   A positive long printed in base 8 or 16 with '#', for all flags, widths and precisions, and read with base 0: the
   value comes back exactly when the mark takes no digit away, and there is room for all of it, or none at all and the
   number is below eight, the leading zeros then being taken for the mark of base 8.
   */
  lemma MarkedExact(value: nat, base: nat, flags: Flags, prec: nat, width: nat)
    requires 0 < value < Pow2(63) && (base == 8 || base == 16) && flags.hash
    ensures var digits := DigitCount(value, base);
            var left := Left(digits, base, flags, prec, InnerWidth(flags, false, width));
            Parse(Printed(value, false, base, flags, prec, width), 0).0 == value <==>
            digits <= left && (base == 8 || left <= BUFFER_SIZE - 2 || (left == BUFFER_SIZE && value < 8))
  {
    var x := if flags.uppercase then 'X' else 'x';
    var k, r := Kept(value, base, flags, prec, width), KeptDigits(value, base, flags, prec, width);
    var lead, sign, tail := MarkedLineParts(value, base, flags, prec, width, x);
    KeptFacts(value, base, flags, prec, width);
    KeptIsLeft(value, base, flags, prec, width);
    var digits, mark := |Digits(value, base, flags)|, MarkFor(base, k, x);
    assert k >= 24 ==> tail == [] && r[0] == '0' && r[1] == '0' && k > digits;
    assert mark == if k == BUFFER_SIZE then "" else if base == 8 then "0"
                   else if k < BUFFER_SIZE - 1 then ['0', x] else [x];
    hide *;
    ReadBack(lead, sign, mark, r, tail, k, base, value, x);
  }

  /** Eight in octal with '#' fills a width of two, and the mark takes its first digit: it does not come back. */
  lemma DigitTaken()
    ensures var flags := Flags(false, false, false, false, true, false, false);
            Parse(Printed(8, false, 8, flags, 0, 2), 0).0 != 8
  {
    var flags := Flags(false, false, false, false, true, false, false);
    assert Pow2(4) == 16;
    Pow2Monotone(4, 63);
    assert Shifted(8, 8) == 1 && Shifted(1, 8) == 0;
    assert DigitCount(8, 8) == 2;
    MarkedExact(8, 8, flags, 0, 2);
  }

  /** What is read, by the room there is for the mark. */
  lemma ReadBack(lead: seq<char>, sign: seq<char>, mark: seq<char>, r: seq<char>, tail: seq<char>, k: nat, base: nat,
                 value: nat, x: char)
    requires (base == 8 || base == 16) && (x == 'x' || x == 'X') && value > 0
    requires mark == if k == BUFFER_SIZE then "" else if base == 8 then "0"
                     else if k < BUFFER_SIZE - 1 then ['0', x] else [x]
    requires AllBlank(lead) && (tail != [] ==> tail[0] == ' ') && (sign == [] || sign == ['+'] || sign == [' '])
    requires |mark| + k == BUFFER_SIZE ==> sign == []
    requires |r| == k <= BUFFER_SIZE && AllDigits(r, base) && (k >= 24 ==> tail == [] && r[0] == '0' && r[1] == '0')
    requires k >= 24 ==> Number(r, base) == value
    ensures Parse(lead + (sign + (mark + r)) + tail, 0).0 == value <==>
            Number(r, base) == value && (base == 8 || k <= BUFFER_SIZE - 2 || (k == BUFFER_SIZE && value < 8))
  {
    hide Parse, Number, AllDigits, AllBlank;
    if k < BUFFER_SIZE && (base == 8 || k < BUFFER_SIZE - 1) {
      ParseMarkedLine(lead, sign, mark, r, tail, base);
    } else if k == BUFFER_SIZE - 1 {
      assert lead + (sign + (mark + r)) + tail == lead + ([x] + r);
      ParseHalfMark(lead, x, r);
    } else {
      assert lead + (sign + (mark + r)) + tail == lead + r;
      ParseUnmarked(lead, r, base);
    }
  }

  /** A full buffer of places without a mark: the zeros in front are the mark of base 8. */
  lemma ParseUnmarked(lead: seq<char>, r: seq<char>, base: nat)
    requires AllBlank(lead) && |r| > 1 && r[0] == '0' && r[1] == '0' && (base == 8 || base == 16)
    requires AllDigits(r, base)
    ensures Parse(lead + r, 0).0 == Number(r, base) <==> base == 8 || Number(r, base) < 8
  {
    if base == 8 {
      var digits := r[1..];
      assert AllDigits(digits, 8) by {
        assert forall c :: c in digits ==> c in r;
      }
      assert r == ['0'] + digits;
      LeadingZero(digits, 8);
      hide *;
      ParseMarkedLine(lead, [], "0", digits, [], 8);
      assert lead + ([] + ("0" + digits)) + [] == lead + r;
    } else {
      var j := ReadAsOctal(lead, r);
      OctalValue(r, j);
      hide *;
    }
  }
}
