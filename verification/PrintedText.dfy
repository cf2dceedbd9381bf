/** What a printed number looks like: its sign, the case of its letters, its width and on which side it is padded. */
module PrintedText {
  import opened Extrema
  import opened NumberText
  import NumberRoundTrip

  /** No blank and no sign, and letters of one case only; a binary number's mark is always a small b. */
  predicate Shown(c: char, base: nat, uppercase: bool) {
    || '0' <= c <= '9' || (c == 'b' && base == 2)
    || if uppercase then 'A' <= c <= 'Z' else 'a' <= c <= 'z'
  }

  predicate AllShown(s: seq<char>, base: nat, uppercase: bool) {
    forall c :: c in s ==> Shown(c, base, uppercase)
  }

  lemma {:induction false} LowDigitsShown(value: nat, base: nat, n: nat, uppercase: bool)
    requires 2 <= base <= 36 && 0 < n
    ensures AllShown(LowDigits(value, base, n, uppercase), base, uppercase)
    decreases n
  {
    if Shifted(value, base) != 0 && n > 1 {
      LowDigitsShown(Shifted(value, base), base, n - 1, uppercase);
    }
  }

  lemma {:induction false} FillShown(buf: seq<char>, n: nat, base: nat, uppercase: bool)
    requires AllShown(buf, base, uppercase) && |buf| <= BUFFER_SIZE
    ensures AllShown(FillTo(buf, n), base, uppercase)
    ensures Max(|buf|, Min(n, BUFFER_SIZE)) == |FillTo(buf, n)|
    decreases BUFFER_SIZE - |buf|
  {
    if |buf| < n && |buf| < BUFFER_SIZE {
      FillShown(buf + ['0'], n, base, uppercase);
    }
  }

  /** Digits, zeros and base mark: all but the sign. */
  function Unsigned(value: nat, base: nat, flags: Flags, prec: nat, inner: nat): seq<char>
    requires 2 <= base <= 36
  {
    var f := if value == 0 then flags.(hash := false) else flags;
    Hashed(Filled(Digits(value, base, f), f, prec, inner), base, f, prec, inner)
  }

  /** Enough places for the width and the precision, unless a mark takes some back. */
  lemma UnsignedShown(value: nat, base: nat, flags: Flags, prec: nat, inner: nat)
    requires 2 <= base <= 36
    ensures var b := Unsigned(value, base, flags, prec, inner);
            && AllShown(b, base, flags.uppercase) && |b| <= BUFFER_SIZE
            && (!flags.left && (!flags.hash || value == 0) ==>
                  |b| >= Min(prec, BUFFER_SIZE) && (flags.zeropad ==> |b| >= Min(inner, BUFFER_SIZE)))
  {
    var f := if value == 0 then flags.(hash := false) else flags;
    var digits := Digits(value, base, f);
    LowDigitsShown(value, base, BUFFER_SIZE, flags.uppercase);
    if !f.left {
      FillShown(digits, prec, base, flags.uppercase);
      FillShown(FillTo(digits, prec), inner, base, flags.uppercase);
    }
    HashedShown(Filled(digits, f, prec, inner), base, f, prec, inner);
  }

  lemma HashedShown(buf: seq<char>, base: nat, flags: Flags, prec: nat, width: nat)
    requires AllShown(buf, base, flags.uppercase) && |buf| <= BUFFER_SIZE
    ensures AllShown(Hashed(buf, base, flags, prec, width), base, flags.uppercase)
    ensures |Hashed(buf, base, flags, prec, width)| <= BUFFER_SIZE
  {
  }

  lemma {:induction false} ReversedShown(s: seq<char>, base: nat, uppercase: bool)
    requires AllShown(s, base, uppercase)
    ensures AllShown(Reversed(s), base, uppercase)
  {
    if s != [] {
      ReversedShown(s[1..], base, uppercase);
    }
  }

  /** The sign there is to show. */
  function Sign(negative: bool, flags: Flags): seq<char> {
    if negative then ['-'] else if flags.plus then ['+'] else if flags.space then [' '] else []
  }

  lemma {:induction false} ManySpaces(n: int)
    ensures |Spaces(n)| == Max(n, 0) && forall c :: c in Spaces(n) ==> c == ' '
    decreases Max(n, 0)
  {
    if n > 0 {
      ManySpaces(n - 1);
    }
  }

  /** The sign behind the digits in the buffer is in front of them in the text. */
  lemma SignInFront(b: seq<char>, negative: bool, flags: Flags)
    requires |b| <= BUFFER_SIZE
    ensures var sign := if |b| < BUFFER_SIZE then Sign(negative, flags) else [];
            && Reversed(Signed(b, negative, flags)) == sign + Reversed(b)
            && |Signed(b, negative, flags)| == |sign| + |b|
  {
    var sign := if |b| < BUFFER_SIZE then Sign(negative, flags) else [];
    assert Signed(b, negative, flags) == b + sign;
    if sign != [] {
      NumberRoundTrip.ReversedEnd(b, sign[0]);
    }
  }

  /** A text laid out: the blanks are on one side, or nowhere. */
  lemma LaidShape(buf: seq<char>, flags: Flags, width: nat) returns (lead: seq<char>, tail: seq<char>)
    ensures Laid(buf, flags, width) == lead + Reversed(buf) + tail
    ensures (forall c :: c in lead ==> c == ' ') && forall c :: c in tail ==> c == ' '
    ensures |lead| == if flags.left || flags.zeropad then 0 else Max(width - |buf|, 0)
    ensures |tail| == if flags.left then Max(width - |buf|, 0) else 0
  {
    ManySpaces(width - |buf|);
    lead := if !flags.left && !flags.zeropad then Spaces(width - |buf|) else [];
    tail := if flags.left then Spaces(width - |buf|) else [];
    hide Spaces, Reversed;
  }

  lemma PrintedUnsigned(value: nat, negative: bool, base: nat, flags: Flags, prec: nat, width: nat)
    requires 2 <= base <= 36
    ensures var inner := InnerWidth(flags, negative, width);
            Printed(value, negative, base, flags, prec, width) ==
            Laid(Signed(Unsigned(value, base, flags, prec, inner), negative, flags), flags, inner)
  {
    hide Laid, Hashed, Filled, Digits, Signed;
    if value == 0 {
      assert Signed(Unsigned(value, base, flags, prec, InnerWidth(flags, negative, width)), negative, flags) ==
             Signed(Unsigned(value, base, flags, prec, InnerWidth(flags, negative, width)), negative,
                    flags.(hash := false))
      by {
        SignKept(Unsigned(value, base, flags, prec, InnerWidth(flags, negative, width)), negative, flags);
      }
    }
  }

  /** The sign and the digits together are as wide as asked for, and the padding fills up the rest. */
  lemma WideEnough(value: nat, negative: bool, base: nat, flags: Flags, prec: nat, width: nat)
    requires 2 <= base <= 36
    ensures var inner := InnerWidth(flags, negative, width);
            var b := Unsigned(value, base, flags, prec, inner);
            var n := |b| + if |b| < BUFFER_SIZE then |Sign(negative, flags)| else 0;
            && (flags.left || !flags.zeropad ==> inner == width)
            && (!flags.left && (!flags.hash || value == 0) ==>
                  |b| >= Min(prec, BUFFER_SIZE) && (flags.zeropad ==> n >= Min(width, BUFFER_SIZE)))
  {
    UnsignedShown(value, base, flags, prec, InnerWidth(flags, negative, width));
    hide Unsigned;
  }

  lemma FourParts(a: seq<char>, b: seq<char>, c: seq<char>, d: seq<char>)
    ensures a + (b + c) + d == a + b + c + d
  {
  }

  lemma SignKept(b: seq<char>, negative: bool, flags: Flags)
    ensures Signed(b, negative, flags) == Signed(b, negative, flags.(hash := false))
  {
  }

  /**
   For all flags, widths and precisions: the text is blanks, the sign if the buffer has room for it, digits and
   letters of the right case, and blanks; the blanks in front when it is neither left-justified nor zero-padded,
   behind when it is left-justified, and as many as the width asks for.
   */
  lemma PrintedShape(value: nat, negative: bool, base: nat, flags: Flags, prec: nat, width: nat)
    returns (lead: seq<char>, sign: seq<char>, body: seq<char>, tail: seq<char>)
    requires 2 <= base <= 36
    ensures Printed(value, negative, base, flags, prec, width) == lead + sign + body + tail
    ensures AllShown(body, base, flags.uppercase) && |body| <= BUFFER_SIZE
    ensures sign == if |body| < BUFFER_SIZE then Sign(negative, flags) else []
    ensures (forall c :: c in lead ==> c == ' ') && forall c :: c in tail ==> c == ' '
    ensures |lead| == if flags.left || flags.zeropad then 0 else Max(width - |sign + body|, 0)
    ensures |tail| == if flags.left then Max(width - |sign + body|, 0) else 0
    ensures !flags.left && (!flags.hash || value == 0) ==>
              |body| >= Min(prec, BUFFER_SIZE) && (flags.zeropad ==> |sign + body| >= Min(width, BUFFER_SIZE))
  {
    var inner := InnerWidth(flags, negative, width);
    var b := Unsigned(value, base, flags, prec, inner);
    UnsignedShown(value, base, flags, prec, inner);
    PrintedUnsigned(value, negative, base, flags, prec, width);
    SignInFront(b, negative, flags);
    ReversedShown(b, base, flags.uppercase);
    sign := if |b| < BUFFER_SIZE then Sign(negative, flags) else [];
    body := Reversed(b);
    WideEnough(value, negative, base, flags, prec, width);
    var n := |sign| + |b|;
    assert |sign + body| == n;
    hide *;
    lead, tail := LaidShape(Signed(b, negative, flags), flags, inner);
    FourParts(lead, sign, body, tail);
  }
}
