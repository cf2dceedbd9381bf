/**
 Numbers as text: the integer printer behind printf, for every flag, width and precision, against the kernel's own
 strtol.
 */
module NumberText {
  import opened Options

  const BUFFER_SIZE: nat := 32

  datatype Flags = Flags(zeropad: bool, left: bool, plus: bool, space: bool, hash: bool, uppercase: bool,
                         precision: bool)

  // ---------- digits ----------

  function DigitChar(d: nat, uppercase: bool): char
    requires d < 36
  {
    if d < 10 then '0' + d as char else (if uppercase then 'A' else 'a') + (d - 10) as char
  }

  function DigitOf(c: char): Option<nat> {
    if '0' <= c <= '9' then Some((c - '0') as nat)
    else if 'a' <= c <= 'z' then Some((c - 'a') as nat + 10)
    else if 'A' <= c <= 'Z' then Some((c - 'A') as nat + 10)
    else None
  }

  lemma DigitRoundTrip(d: nat, uppercase: bool)
    requires d < 36
    ensures DigitOf(DigitChar(d, uppercase)) == Some(d)
  {
  }

  predicate IsDigit(c: char, base: nat) {
    DigitOf(c).Some? && DigitOf(c).value < base
  }

  predicate AllDigits(s: seq<char>, base: nat) {
    forall c :: c in s ==> IsDigit(c, base)
  }

  /** The number that digits spell, the most significant first. */
  function Number(s: seq<char>, base: nat): (r: nat)
    requires AllDigits(s, base)
  {
    if s == [] then 0
    else
      assert s[|s| - 1] in s;
      Number(s[..|s| - 1], base) * base + DigitOf(s[|s| - 1]).value
  }

  // ---------- strtol ----------

  predicate IsBlank(c: char) {
    c == ' ' || c == '\t' || c == '\n' || c == '\r' || c as int == 12 || c as int == 11
  }

  function SkipBlanks(s: seq<char>, i: nat): (j: nat)
    requires i <= |s|
    ensures i <= j <= |s|
    decreases |s| - i
  {
    if i < |s| && IsBlank(s[i]) then SkipBlanks(s, i + 1) else i
  }

  function SkipSign(s: seq<char>, i: nat): nat {
    if i < |s| && (s[i] == '-' || s[i] == '+') then i + 1 else i
  }

  predicate HexAt(s: seq<char>, i: nat) {
    i + 1 < |s| && s[i] == '0' && (s[i + 1] == 'x' || s[i + 1] == 'X')
  }

  /** The base that counts and where the digits start. */
  function Prefix(s: seq<char>, i: nat, base: nat): (nat, nat) {
    if base == 0 then
      if i < |s| && s[i] == '0' then (if HexAt(s, i) then (16, i + 2) else (8, i + 1)) else (10, i)
    else if base == 16 && HexAt(s, i) then (16, i + 2)
    else (base, i)
  }

  function DigitsEnd(s: seq<char>, i: nat, base: nat): (j: nat)
    requires i <= |s|
    ensures i <= j <= |s| && AllDigits(s[i..j], base)
    decreases |s| - i
  {
    if i < |s| && IsDigit(s[i], base) then
      var j := DigitsEnd(s, i + 1, base);
      assert s[i..j] == [s[i]] + s[i + 1..j];
      j
    else i
  }

  /** The value read, and how far reading came; nothing read leaves the end at the start. */
  function Parse(s: seq<char>, base: nat): (int, nat) {
    var sign := SkipBlanks(s, 0);
    var (b, start) := Prefix(s, SkipSign(s, sign), base);
    if start > |s| then (0, 0)
    else
      var end := DigitsEnd(s, start, b);
      if end == start then (0, 0)
      else
        var n := Number(s[start..end], b);
        (if sign < |s| && s[sign] == '-' then -(n as int) else n, end)
  }

  lemma NumberMore(s: seq<char>, i: nat, j: nat, base: nat)
    requires i <= j < |s| && AllDigits(s[i..j], base) && IsDigit(s[j], base)
    ensures AllDigits(s[i..j + 1], base)
    ensures Number(s[i..j + 1], base) == Number(s[i..j], base) * base + DigitOf(s[j]).value
  {
    var t := s[i..j + 1];
    assert t == s[i..j] + [s[j]];
    assert t[..|t| - 1] == s[i..j];
  }

  lemma {:induction false} DigitsEndIs(s: seq<char>, i: nat, j: nat, base: nat)
    requires i <= j <= |s| && AllDigits(s[i..j], base) && (j < |s| ==> !IsDigit(s[j], base))
    ensures DigitsEnd(s, i, base) == j
    decreases j - i
  {
    if i < j {
      assert s[i..j][0] == s[i];
      assert s[i..j][1..] == s[i + 1..j];
      DigitsEndIs(s, i + 1, j, base);
    }
  }

  lemma {:induction false} BlanksEndIs(s: seq<char>, i: nat, j: nat)
    requires i <= j <= |s| && (forall k :: i <= k < j ==> IsBlank(s[k])) && (j < |s| ==> !IsBlank(s[j]))
    ensures SkipBlanks(s, i) == j
    decreases j - i
  {
    if i < j {
      BlanksEndIs(s, i + 1, j);
    }
  }

  /** strtol's last loop. */
  method ScanDigits(s: seq<char>, start: nat, base: nat) returns (result: nat, end: nat)
    requires start <= |s|
    ensures end == DigitsEnd(s, start, base) && result == Number(s[start..end], base)
  {
    result, end := 0, start;
    while end < |s| && IsDigit(s[end], base)
      invariant start <= end <= |s| && AllDigits(s[start..end], base)
      invariant result == Number(s[start..end], base)
    {
      NumberMore(s, start, end, base);
      result := result * base + DigitOf(s[end]).value;
      end := end + 1;
    }
    DigitsEndIs(s, start, end, base);
  }

  /** strtol's choice of the base. */
  method ScanPrefix(s: seq<char>, i: nat, base: nat) returns (b: nat, start: nat)
    ensures (b, start) == Prefix(s, i, base)
  {
    b, start := base, i;
    if b == 0 {
      if i < |s| && s[i] == '0' {
        if i + 1 < |s| && (s[i + 1] == 'x' || s[i + 1] == 'X') {
          b, start := 16, i + 2;
        } else {
          b, start := 8, i + 1;
        }
      } else {
        b := 10;
      }
    } else if b == 16 && i + 1 < |s| && s[i] == '0' && (s[i + 1] == 'x' || s[i + 1] == 'X') {
      start := i + 2;
    }
  }

  method ScanBlanks(s: seq<char>) returns (i: nat)
    ensures i == SkipBlanks(s, 0)
  {
    i := 0;
    while i < |s| && IsBlank(s[i])
      invariant i <= |s| && forall k :: 0 <= k < i ==> IsBlank(s[k])
    {
      i := i + 1;
    }
    BlanksEndIs(s, 0, i);
  }

  method Strtol(s: seq<char>, base: nat) returns (value: int, end: nat)
    ensures (value, end) == Parse(s, base)
  {
    var i := ScanBlanks(s);
    var neg := i < |s| && s[i] == '-';
    if i < |s| && (s[i] == '-' || s[i] == '+') {
      i := i + 1;
    }
    var b, start := ScanPrefix(s, i, base);
    assert start <= |s|;
    hide *;
    value, end := ScanDigits(s, start, b);
    if end == start {
      return 0, 0;
    }
    if neg {
      value := -value;
    }
  }

  // ---------- the printer ----------

  /** The number without its last digit. */
  function Shifted(value: nat, base: nat): nat
    requires base > 0
  {
    value / base
  }

  function LastDigit(value: nat, base: nat, uppercase: bool): char
    requires 2 <= base <= 36
  {
    DigitChar(value % base, uppercase)
  }

  /** At most n digits of a number, the least significant first. */
  function LowDigits(value: nat, base: nat, n: nat, uppercase: bool): (s: seq<char>)
    requires 2 <= base <= 36 && 0 < n
    ensures 0 < |s| <= n
    decreases n
  {
    [LastDigit(value, base, uppercase)] +
    if Shifted(value, base) == 0 || n == 1 then [] else LowDigits(Shifted(value, base), base, n - 1, uppercase)
  }

  /** n digits are enough. */
  predicate Fits(value: nat, base: nat, n: nat)
    requires 2 <= base
    decreases n
  {
    n > 0 && (Shifted(value, base) == 0 || Fits(Shifted(value, base), base, n - 1))
  }

  function Digits(value: nat, base: nat, flags: Flags): (s: seq<char>)
    requires 2 <= base <= 36
    ensures |s| <= BUFFER_SIZE
  {
    if flags.precision && value == 0 then [] else LowDigits(value, base, BUFFER_SIZE, flags.uppercase)
  }

  /** Zeros up to a length, as far as the buffer goes. */
  function FillTo(buf: seq<char>, n: nat): (r: seq<char>)
    ensures |r| <= |buf| || |r| <= BUFFER_SIZE
    decreases BUFFER_SIZE - |buf|
  {
    if |buf| < n && |buf| < BUFFER_SIZE then FillTo(buf + ['0'], n) else buf
  }

  function InnerWidth(flags: Flags, negative: bool, width: nat): nat {
    if !flags.left && width > 0 && flags.zeropad && (negative || flags.plus || flags.space) then width - 1 else width
  }

  function Filled(buf: seq<char>, flags: Flags, prec: nat, width: nat): seq<char> {
    if flags.left then buf
    else
      var b := FillTo(buf, prec);
      if flags.zeropad then FillTo(b, width) else b
  }

  function PutIn(buf: seq<char>, c: char): seq<char> {
    if |buf| < BUFFER_SIZE then buf + [c] else buf
  }

  /** How many digits a '#' conversion takes back when they fill the precision or the width. */
  function Dropped(len: nat, base: nat, flags: Flags, prec: nat, width: nat): (d: nat)
    ensures d <= len
  {
    if flags.precision || len == 0 || (len != prec && len != width) then 0
    else if len > 1 && base == 16 then 2
    else 1
  }

  /** The base mark of a '#' conversion. */
  function Hashed(buf: seq<char>, base: nat, flags: Flags, prec: nat, width: nat): seq<char> {
    if !flags.hash then buf
    else
      var b := buf[..|buf| - Dropped(|buf|, base, flags, prec, width)];
      var marked := if base == 16 then PutIn(b, if flags.uppercase then 'X' else 'x')
                    else if base == 2 then PutIn(b, 'b') else b;
      PutIn(marked, '0')
  }

  function Signed(buf: seq<char>, negative: bool, flags: Flags): seq<char> {
    if negative then PutIn(buf, '-')
    else if flags.plus then PutIn(buf, '+')
    else if flags.space then PutIn(buf, ' ')
    else buf
  }

  function Reversed(s: seq<char>): (r: seq<char>)
    ensures |r| == |s|
  {
    if s == [] then [] else Reversed(s[1..]) + [s[0]]
  }

  function Spaces(n: int): seq<char> {
    if n <= 0 then [] else [' '] + Spaces(n - 1)
  }

  function Laid(buf: seq<char>, flags: Flags, width: nat): seq<char> {
    var pad := Spaces(width - |buf|);
    (if !flags.left && !flags.zeropad then pad else []) + Reversed(buf) + if flags.left then pad else []
  }

  /** The buffer before it is put out, the last character first. */
  function Buffer(value: nat, negative: bool, base: nat, flags: Flags, prec: nat, width: nat): seq<char>
    requires 2 <= base <= 36
  {
    var f := if value == 0 then flags.(hash := false) else flags;
    Signed(Hashed(Filled(Digits(value, base, f), f, prec, width), base, f, prec, width), negative, f)
  }

  function Printed(value: nat, negative: bool, base: nat, flags: Flags, prec: nat, width: nat): seq<char>
    requires 2 <= base <= 36
  {
    var inner := InnerWidth(flags, negative, width);
    Laid(Buffer(value, negative, base, flags, prec, inner), flags, inner)
  }

  // ---------- the printer's loops ----------

  /** The loop of _ntoa_long; the buffer is never overrun. */
  method WriteDigits(value: nat, base: nat, uppercase: bool, buf: array<char>) returns (len: nat)
    requires 2 <= base <= 36 && buf.Length > 0
    modifies buf
    ensures len <= buf.Length && buf[..len] == LowDigits(value, base, buf.Length, uppercase)
  {
    ghost var all := LowDigits(value, base, buf.Length, uppercase);
    var v: nat := value;
    len := 0;
    ghost var left: nat := buf.Length;
    ghost var rest := all;
    hide LowDigits, LastDigit, Shifted;
    while len == 0 || (v != 0 && len < buf.Length)
      invariant len + left == buf.Length && (len == 0 ==> rest == all)
      invariant len <= |all| && rest == all[len..]
      invariant forall k :: 0 <= k < len ==> buf[k] == all[k]
      invariant rest == if len > 0 && (v == 0 || left == 0) then [] else LowDigits(v, base, left, uppercase)
      decreases left
    {
      LowStep(v, base, left, uppercase);
      buf[len] := LastDigit(v, base, uppercase);
      RestStep(all, rest, len);
      rest := rest[1..];
      v := Shifted(v, base);
      len := len + 1;
      left := left - 1;
    }
    assert |all| == len;
    assert buf[..len] == all;
  }

  lemma RestStep(all: seq<char>, rest: seq<char>, len: nat)
    requires len <= |all| && rest == all[len..] && rest != []
    ensures len < |all| && all[len] == rest[0] && rest[1..] == all[len + 1..]
  {
  }

  lemma LowStep(value: nat, base: nat, n: nat, uppercase: bool)
    requires 2 <= base <= 36 && 0 < n
    ensures var s, v := LowDigits(value, base, n, uppercase), Shifted(value, base);
            && s[0] == LastDigit(value, base, uppercase)
            && s[1..] == if v == 0 || n == 1 then [] else LowDigits(v, base, n - 1, uppercase)
  {
  }

  /** One of the loops of _ntoa_format that fill up with zeros. */
  method FillZeros(buf: array<char>, len: nat, n: nat) returns (len': nat)
    requires buf.Length == BUFFER_SIZE && len <= BUFFER_SIZE
    modifies buf
    ensures len' <= BUFFER_SIZE && buf[..len'] == FillTo(old(buf[..len]), n)
  {
    len' := len;
    while len' < n && len' < BUFFER_SIZE
      invariant len <= len' <= BUFFER_SIZE
      invariant FillTo(old(buf[..len]), n) == FillTo(buf[..len'], n)
      decreases BUFFER_SIZE - len'
    {
      ghost var done := buf[..len'];
      buf[len'] := '0';
      assert buf[..len' + 1] == done + ['0'];
      len' := len' + 1;
    }
  }

  method PutChar(buf: array<char>, len: nat, c: char) returns (len': nat)
    requires buf.Length == BUFFER_SIZE && len <= BUFFER_SIZE
    modifies buf
    ensures len' <= BUFFER_SIZE && buf[..len'] == PutIn(old(buf[..len]), c)
  {
    len' := len;
    if len < BUFFER_SIZE {
      ghost var done := buf[..len];
      buf[len] := c;
      assert buf[..len + 1] == done + [c];
      len' := len + 1;
    }
  }

  /** What _ntoa_format does for '#'. */
  method PutMark(buf: array<char>, len: nat, base: nat, prec: nat, width: nat, flags: Flags) returns (len': nat)
    requires buf.Length == BUFFER_SIZE && len <= BUFFER_SIZE && flags.hash
    modifies buf
    ensures len' <= BUFFER_SIZE && buf[..len'] == Hashed(old(buf[..len]), base, flags, prec, width)
  {
    len' := len;
    if !flags.precision && len' > 0 && (len' == prec || len' == width) {
      len' := len' - 1;
      if len' > 0 && base == 16 {
        len' := len' - 1;
      }
    }
    assert buf[..len'] == old(buf[..len])[..len'];
    hide PutIn;
    if base == 16 {
      len' := PutChar(buf, len', if flags.uppercase then 'X' else 'x');
    } else if base == 2 {
      len' := PutChar(buf, len', 'b');
    }
    len' := PutChar(buf, len', '0');
  }

  method PutSign(buf: array<char>, len: nat, negative: bool, flags: Flags) returns (len': nat)
    requires buf.Length == BUFFER_SIZE && len <= BUFFER_SIZE
    modifies buf
    ensures len' <= BUFFER_SIZE && buf[..len'] == Signed(old(buf[..len]), negative, flags)
  {
    hide PutIn;
    len' := len;
    if negative {
      len' := PutChar(buf, len', '-');
    } else if flags.plus {
      len' := PutChar(buf, len', '+');
    } else if flags.space {
      len' := PutChar(buf, len', ' ');
    }
  }

  /** One of the loops of _out_rev that pad with spaces. */
  method PutSpaces(out: seq<char>, len: nat, width: nat) returns (out': seq<char>)
    ensures out' == out + Spaces(width - len)
  {
    out' := out;
    var i := len;
    while i < width
      invariant len <= i && (i <= width || i == len)
      invariant out' + Spaces(width - i) == out + Spaces(width - len)
    {
      SpacesShift(width - i);
      out' := out' + [' '];
      i := i + 1;
    }
  }

  method PutReversed(out: seq<char>, buf: array<char>, len: nat) returns (out': seq<char>)
    requires len <= buf.Length
    ensures out' == out + Reversed(buf[..len])
  {
    out' := out;
    var k: nat := len;
    while k > 0
      invariant k <= len
      invariant out + Reversed(buf[..len]) == out' + Reversed(buf[..k])
    {
      ReversedLast(buf[..k]);
      k := k - 1;
      assert buf[..k + 1][..k] == buf[..k];
      out' := out' + [buf[k]];
    }
  }

  /** _out_rev: what reaches the output. */
  method PutOut(buf: array<char>, len: nat, width: nat, flags: Flags) returns (out: seq<char>)
    requires len <= buf.Length
    ensures out == Laid(buf[..len], flags, width)
  {
    out := [];
    if !flags.left && !flags.zeropad {
      out := PutSpaces(out, len, width);
    }
    out := PutReversed(out, buf, len);
    if flags.left {
      out := PutSpaces(out, len, width);
    }
    hide Spaces, Reversed;
  }

  lemma SpacesShift(n: int)
    requires n > 0
    ensures Spaces(n) == [' '] + Spaces(n - 1)
  {
  }

  lemma {:induction false} ReversedLast(s: seq<char>)
    requires s != []
    ensures Reversed(s) == [s[|s| - 1]] + Reversed(s[..|s| - 1])
  {
    if |s| > 1 {
      ReversedLast(s[1..]);
      assert s[1..][..|s| - 2] == s[..|s| - 1][1..];
    }
  }

  /** _ntoa_format up to the reversal: zeros, base mark and sign. */
  method Format(buf: array<char>, len: nat, negative: bool, base: nat, prec: nat, width: nat, flags: Flags)
    returns (len': nat, inner: nat)
    requires buf.Length == BUFFER_SIZE && len <= BUFFER_SIZE
    modifies buf
    ensures inner == InnerWidth(flags, negative, width) && len' <= BUFFER_SIZE
    ensures buf[..len'] ==
            Signed(Hashed(Filled(old(buf[..len]), flags, prec, inner), base, flags, prec, inner), negative, flags)
  {
    len', inner := len, width;
    ghost var start := buf[..len];
    hide Hashed, Signed, FillTo;
    if !flags.left {
      if inner > 0 && flags.zeropad && (negative || flags.plus || flags.space) {
        inner := inner - 1;
      }
      len' := FillZeros(buf, len', prec);
      if flags.zeropad {
        len' := FillZeros(buf, len', inner);
      }
    }
    assert buf[..len'] == Filled(start, flags, prec, inner);
    if flags.hash {
      len' := PutMark(buf, len', base, prec, inner, flags);
    } else {
      NoMark(buf[..len'], base, flags, prec, inner);
    }
    len' := PutSign(buf, len', negative, flags);
  }

  /** _ntoa_long: the text of a number. */
  method Print(value: nat, negative: bool, base: nat, prec: nat, width: nat, flags: Flags) returns (out: seq<char>)
    requires 2 <= base <= 36
    ensures out == Printed(value, negative, base, flags, prec, width)
  {
    var buf := new char[BUFFER_SIZE];
    var f := if value == 0 then flags.(hash := false) else flags;
    var len := 0;
    if !f.precision || value != 0 {
      len := WriteDigits(value, base, f.uppercase, buf);
    }
    assert buf[..len] == Digits(value, base, f);
    hide Digits, LowDigits, Hashed, Signed, Filled, Laid;
    var inner;
    len, inner := Format(buf, len, negative, base, prec, width, f);
    out := PutOut(buf, len, inner, f);
    LaidSame(buf[..len], f, flags, inner);
  }

  lemma NoMark(buf: seq<char>, base: nat, flags: Flags, prec: nat, width: nat)
    requires !flags.hash
    ensures Hashed(buf, base, flags, prec, width) == buf
  {
  }

  lemma LaidSame(buf: seq<char>, f: Flags, g: Flags, width: nat)
    requires f.left == g.left && f.zeropad == g.zeropad
    ensures Laid(buf, f, width) == Laid(buf, g, width)
  {
  }
}
