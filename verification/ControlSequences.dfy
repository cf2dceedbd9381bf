/**
 Whole control sequences, byte by byte through the terminal: an escape, a bracket, any decimal numbers and a final byte
 do what the final byte means with those numbers.
 */
module ControlSequences {
  import opened Commands
  import opened Terminal
  import opened Utf8

  const ESC: bv8 := 0x1b
  const BRACKET: bv8 := 0x5b
  const SEMICOLON: bv8 := 0x3b

  // ---------- one byte ----------

  /** Between sequences of bytes, and with nothing to discard. */
  ghost predicate Ready(t: Terminal)
    reads t, t.values
  {
    t.Valid() && t.decoder == Run(t.stream) == AT_REST && !t.parser.discardNext
  }

  /** Bytes of which none is discarded. */
  function Inputs(bytes: seq<bv8>): seq<Input> {
    seq(|bytes|, i requires 0 <= i < |bytes| => Input(bytes[i], false))
  }

  lemma InputsJoin(xs: seq<Input>, a: seq<bv8>, b: seq<bv8>)
    ensures xs + Inputs(a) + Inputs(b) == xs + Inputs(a + b)
  {
  }

  /** Bounds the terminal always keeps. */
  predicate Bounded(a: View) {
    && |a.values| == MAX_ESC_VALUES && a.count <= MAX_ESC_VALUES && (a.parser.rrr ==> a.count < MAX_ESC_VALUES)
    && a.settings.tabSize > 0 && a.settings.charsets.select <= |a.settings.charsets.sets|
  }

  lemma AsciiStep(xs: seq<Input>, c: bv8)
    requires Run(xs) == AT_REST && c < 0x80
    ensures Run(xs + [Input(c, false)]) == AT_REST && Dispatched(xs + [Input(c, false)]).None?
  {
    RunMore(xs, Input(c, false));
  }

  lemma AsciiMeant(g: Grid, a: View, c: bv8, width: nat, b: View)
    requires Bounded(a) && !a.parser.discardNext && c != 0x18 && c != 0x1a
    requires Meant(g, a, c, false, true, false, width, b)
    ensures Single(g, a, c as nat, b)
  {
    hide Single;
    var l :| RoomMade(g, a.settings.modes.insert, 0, a.log, l) && Single(g, a.(log := l), c as nat, b);
    assert a.(log := l) == a;
  }

  /** An ASCII byte that does not cancel is taken by itself. */
  method PutAscii(t: Terminal, c: bv8)
    requires Ready(t) && c < 0x80 && c != 0x18 && c != 0x1a
    modifies t, t.values
    ensures t.Valid() && t.values == old(t.values) && t.decoder == Run(t.stream) == AT_REST
    ensures t.stream == old(t.stream) + Inputs([c])
    ensures Bounded(old(t.Now())) && Single(t.Size(), old(t.Now()), c as nat, t.Now())
  {
    NowBounded(t);
    AsciiStep(t.stream, c);
    ghost var a := t.Now();
    hide Single, Meant, Run, Dispatched;
    var _ := t.PutChar(c, 0);
    AsciiMeant(t.Size(), a, c, 0, t.Now());
  }

  lemma NowBounded(t: Terminal)
    requires t.Valid()
    ensures Bounded(t.Now())
  {
  }

  // ---------- a number ----------

  /** Within a control sequence. */
  predicate Within(ps: Parser) {
    ps.escape && ps.controlSequence && !ps.osc && !ps.discardNext && ps.escapeOffset > 0
  }

  lemma DigitRead(g: Grid, a: View, c: nat, b: View)
    requires Bounded(a) && Within(a.parser) && '0' as nat <= c <= '9' as nat && Single(g, a, c, b)
    requires a.count < MAX_ESC_VALUES && 10 * a.values[a.count] + c - '0' as nat <= UINT32_MAX
    ensures b == a.(parser := a.parser.(rrr := true, escapeOffset := a.parser.escapeOffset + 1),
                    values := a.values[a.count := 10 * a.values[a.count] + c - '0' as nat])
  {
    hide InEscape, NumberEnded, Controlled, InCommand;
    var was := a.(parser := a.parser.(escapeOffset := a.parser.escapeOffset + 1));
    assert InSequence(g, was, c as char, b);
  }

  lemma SemicolonRead(g: Grid, a: View, b: View)
    requires Bounded(a) && Within(a.parser) && a.parser.rrr && Single(g, a, ';' as nat, b)
    ensures b == a.(parser := a.parser.(rrr := false, escapeOffset := a.parser.escapeOffset + 1), count := a.count + 1)
  {
    hide InEscape, Controlled, InCommand, Ended, Filled;
    var was := a.(parser := a.parser.(escapeOffset := a.parser.escapeOffset + 1));
    assert InSequence(g, was, ';', b);
  }

  function Digit(d: nat): (c: bv8)
    requires d < 10
    ensures c < 0x80 && c != 0x18 && c != 0x1a && c as nat == '0' as nat + d
  {
    if d == 0 then 0x30 else if d == 1 then 0x31 else if d == 2 then 0x32 else if d == 3 then 0x33
    else if d == 4 then 0x34 else if d == 5 then 0x35 else if d == 6 then 0x36 else if d == 7 then 0x37
    else if d == 8 then 0x38 else 0x39
  }

  /** The decimal digits of a number, the most significant first. */
  function Decimal(n: nat): seq<bv8> {
    (if n < 10 then [] else Decimal(n / 10)) + [Digit(n % 10)]
  }

  /** The view after one more digit. */
  function MoreDigit(a: View, digit: nat, offset: nat): View
    requires a.count < |a.values|
  {
    a.(parser := a.parser.(rrr := true, escapeOffset := offset),
       values := a.values[a.count := 10 * a.values[a.count] + digit])
  }

  method SendDigit(t: Terminal, digit: nat)
    requires Ready(t) && Bounded(t.Now()) && Within(t.Now().parser) && digit < 10
    requires t.Now().count < MAX_ESC_VALUES && 10 * t.Now().values[t.Now().count] + digit <= UINT32_MAX
    modifies t, t.values
    ensures Ready(t) && Bounded(t.Now()) && t.values == old(t.values)
    ensures t.stream == old(t.stream) + Inputs([Digit(digit)])
    ensures t.Now() == MoreDigit(old(t.Now()), digit, old(t.Now()).parser.escapeOffset + 1)
  {
    hide Single, Bounded, Within, Inputs, Digit;
    ghost var a := t.Now();
    PutAscii(t, Digit(digit));
    NowBounded(t);
    DigitRead(t.Size(), a, '0' as nat + digit, t.Now());
    assert Within(a.parser) ==> !t.parser.discardNext by {
      assert Within(a.parser) ==> !a.parser.discardNext;
    }
  }

  /** They are read as that number. */
  method SendNumber(t: Terminal, n: nat)
    requires Ready(t) && Bounded(t.Now()) && Within(t.Now().parser) && n <= UINT32_MAX
    requires t.Now().count < MAX_ESC_VALUES && t.Now().values[t.Now().count] == 0
    modifies t, t.values
    ensures Ready(t) && Bounded(t.Now()) && t.values == old(t.values)
    ensures t.stream == old(t.stream) + Inputs(Decimal(n))
    ensures var a, ps := old(t.Now()), t.Now().parser;
            && ps.escapeOffset > a.parser.escapeOffset
            && t.Now() == a.(parser := a.parser.(rrr := true, escapeOffset := ps.escapeOffset),
                             values := a.values[a.count := n])
    decreases n
  {
    hide Ready, Inputs, Digit;
    assert n < 10 ==> Decimal(n) == [Digit(n % 10)];
    if n >= 10 {
      SendNumber(t, n / 10);
    }
    ghost var was := old(t.stream);
    SendDigit(t, n % 10);
    if n >= 10 {
      InputsJoin(was, Decimal(n / 10), [Digit(n % 10)]);
    }
  }

  // ---------- the values ----------

  /** Numbers with semicolons between them. */
  function Values(numbers: seq<nat>): seq<bv8> {
    if numbers == [] then []
    else
      Values(numbers[..|numbers| - 1]) + (if |numbers| > 1 then [SEMICOLON] else [])
      + Decimal(numbers[|numbers| - 1])
  }

  /** What they leave: the last number is still being read. */
  function ValuesRead(a: View, numbers: seq<nat>, offset: nat): View
    requires |a.values| == MAX_ESC_VALUES >= |numbers|
  {
    if numbers == [] then a.(parser := a.parser.(escapeOffset := offset))
    else
      a.(parser := a.parser.(rrr := true, escapeOffset := offset), count := |numbers| - 1,
         values := numbers + seq(MAX_ESC_VALUES - |numbers|, _ => 0))
  }

  /** A terminal that has just seen the bracket. */
  predicate Opened(a: View) {
    && Within(a.parser) && !a.parser.rrr && !a.parser.csiUnhandled && a.count == 0
    && a.values == seq(MAX_ESC_VALUES, _ => 0)
  }

  method SendSemicolon(t: Terminal)
    requires Ready(t) && Within(t.Now().parser) && t.Now().parser.rrr
    modifies t, t.values
    ensures Ready(t) && Bounded(t.Now()) && t.values == old(t.values)
    ensures t.stream == old(t.stream) + Inputs([SEMICOLON])
    ensures var a := old(t.Now());
            t.Now() == a.(parser := a.parser.(rrr := false, escapeOffset := a.parser.escapeOffset + 1),
                          count := a.count + 1)
  {
    hide Single, Bounded, Within, Inputs;
    ghost var a := t.Now();
    PutAscii(t, SEMICOLON);
    NowBounded(t);
    SemicolonRead(t.Size(), a, t.Now());
    assert Within(a.parser) ==> !t.parser.discardNext by {
      assert Within(a.parser) ==> !a.parser.discardNext;
    }
  }

  /** One more number behind those read, and what the values then are. */
  lemma OneMore(a: View, numbers: seq<nat>, offset: nat, later: nat)
    requires |a.values| == MAX_ESC_VALUES >= |numbers| > 0
    requires |numbers| == 1 ==> Opened(a)
    ensures var was := ValuesRead(a, numbers[..|numbers| - 1], offset);
            var count := was.count + if |numbers| > 1 then 1 else 0;
            && count < |was.values| && was.values[count] == 0
            && ValuesRead(a, numbers, later) ==
               was.(parser := was.parser.(rrr := true, escapeOffset := later), count := count,
                    values := was.values[count := numbers[|numbers| - 1]])
  {
    var init := numbers[..|numbers| - 1];
    assert numbers == init + [numbers[|numbers| - 1]];
  }

  /** Numbers with semicolons between them are read as those numbers. */
  method SendValues(t: Terminal, numbers: seq<nat>)
    requires Ready(t) && Bounded(t.Now()) && Opened(t.Now())
    requires |numbers| <= MAX_ESC_VALUES && forall i :: 0 <= i < |numbers| ==> numbers[i] <= UINT32_MAX
    modifies t, t.values
    ensures Ready(t) && Bounded(t.Now()) && t.values == old(t.values)
    ensures t.stream == old(t.stream) + Inputs(Values(numbers))
    ensures var offset := t.Now().parser.escapeOffset;
            && t.Now() == ValuesRead(old(t.Now()), numbers, offset)
            && if numbers == [] then offset == old(t.Now()).parser.escapeOffset
               else offset > old(t.Now()).parser.escapeOffset
    decreases numbers
  {
    hide Ready, Inputs, Decimal;
    if numbers == [] {
      NoInputs();
    } else {
      ghost var a := t.Now();
      var init := numbers[..|numbers| - 1];
      SendValues(t, init);
      OneMore(a, numbers, t.Now().parser.escapeOffset, 0);
      ghost var before := Values(init);
      if |numbers| > 1 {
        SendSemicolon(t);
        InputsJoin(old(t.stream), before, [SEMICOLON]);
        before := before + [SEMICOLON];
      }
      SendNumber(t, numbers[|numbers| - 1]);
      OneMore(a, numbers, 0, t.Now().parser.escapeOffset);
      InputsJoin(old(t.stream), before, Decimal(numbers[|numbers| - 1]));
    }
  }

  lemma NoInputs()
    ensures Inputs([]) == []
  {
  }

  // ---------- a whole sequence ----------

  /** The view behind an escape and a bracket, the backend having reported its cursor at p. */
  function Bracketed(a: View, p: Position): View {
    a.(parser := a.parser.(escape := true, controlSequence := true, rrr := false, csiUnhandled := false,
                           escapeOffset := 1),
       values := seq(MAX_ESC_VALUES, _ => 0), count := 0, log := a.log.(reports := a.log.reports + [p]),
       settings := a.settings.(charsets := a.settings.charsets.(select := 0)))
  }

  /** Outside escape sequences and commands. */
  predicate Outside(ps: Parser) {
    !ps.escape && !ps.controlSequence && !ps.osc && !ps.discardNext
  }

  lemma EscapeRead(g: Grid, a: View, b: View)
    requires Bounded(a) && Outside(a.parser) && Single(g, a, 0x1b, b)
    ensures b == a.(parser := a.parser.(escape := true, escapeOffset := 0),
                    settings := a.settings.(charsets := a.settings.charsets.(select := 0)))
  {
    hide Escaping, Controlled, RoomMade;
  }

  lemma BracketRead(g: Grid, a: View, b: View) returns (p: Position)
    requires Bounded(a) && a.parser.escape && !a.parser.controlSequence && !a.parser.osc && Single(g, a, '[' as nat, b)
    ensures b == a.(parser := a.parser.(rrr := false, csiUnhandled := false, controlSequence := true,
                                        escapeOffset := a.parser.escapeOffset + 1),
                    values := seq(MAX_ESC_VALUES, _ => 0), count := 0,
                    log := a.log.(reports := a.log.reports + [p]))
  {
    hide InSequence, InCommand, Escaped;
    var was := a.(parser := a.parser.(escapeOffset := a.parser.escapeOffset + 1));
    assert InEscape(g, was, '[', b);
    p := b.log.reports[|a.log.reports|];
  }

  method OpenSequence(t: Terminal) returns (ghost p: Position)
    requires Ready(t) && Outside(t.Now().parser)
    modifies t, t.values
    ensures Ready(t) && Bounded(t.Now()) && Opened(t.Now()) && t.values == old(t.values)
    ensures t.stream == old(t.stream) + Inputs([ESC, BRACKET])
    ensures t.Now() == Bracketed(old(t.Now()), p)
  {
    hide Single, Bounded, Inputs;
    ghost var a := t.Now();
    PutAscii(t, ESC);
    EscapeRead(t.Size(), a, t.Now());
    ghost var b := t.Now();
    PutAscii(t, BRACKET);
    p := BracketRead(t.Size(), b, t.Now());
    NowBounded(t);
    InputsJoin(old(t.stream), [ESC], [BRACKET]);
    assert [ESC] + [BRACKET] == [ESC, BRACKET];
  }

  /** The values a final byte finds: zeros and values not given are ones, or zeros for the bytes that take zeros. */
  function Arguments(ch: char, numbers: seq<nat>): seq<nat> {
    seq(MAX_ESC_VALUES, i requires 0 <= i < MAX_ESC_VALUES =>
      if i < |numbers| && numbers[i] != 0 then numbers[i] else if ch in "JKqmc]" then 0 else 1)
  }

  /** A view whose values are these, the last of them still being read. */
  predicate Holds(a: View, numbers: seq<nat>) {
    && |a.values| == MAX_ESC_VALUES >= |numbers| && numbers <= a.values
    && a.count + (if a.parser.rrr then 1 else 0) == |numbers|
  }

  lemma ReadHolds(a: View, numbers: seq<nat>, offset: nat)
    requires Opened(a) && |numbers| <= MAX_ESC_VALUES
    ensures Holds(ValuesRead(a, numbers, offset), numbers)
  {
  }

  lemma FilledArguments(a: View, ch: char, numbers: seq<nat>, v: seq<nat>)
    requires Holds(a, numbers) && |v| == MAX_ESC_VALUES && Filled(ch, a.values, |numbers|, v)
    ensures v == Arguments(ch, numbers)
  {
    forall i | 0 <= i < MAX_ESC_VALUES ensures v[i] == Arguments(ch, numbers)[i] {
      assert i < |numbers| ==> a.values[i] == numbers[i];
    }
  }

  /** What a final byte does to a terminal that holds these values. */
  ghost predicate Ending(g: Grid, a: View, ch: char, numbers: seq<nat>, b: View)
    requires |numbers| <= MAX_ESC_VALUES
  {
    && b.parser == a.parser.(rrr := false, decPrivate := false, controlSequence := false, escape := false,
                             escapeOffset := b.parser.escapeOffset)
    && if a.parser.decPrivate then
         PrivateSet(g, ch, Arguments(ch, numbers)[..|numbers|], a.settings, a.log, b.settings, b.log)
       else Commanded(g, ch, Arguments(ch, numbers), |numbers|, a.graphic, a.settings, a.log, b.settings, b.log)
  }

  lemma FinalRead(g: Grid, a: View, ch: char, numbers: seq<nat>, b: View)
    requires Bounded(a) && Within(a.parser) && !a.parser.csiUnhandled && Holds(a, numbers)
    requires 0x40 <= ch as int <= 0x7E && (ch == '[' ==> a.parser.escapeOffset > 1) && Single(g, a, ch as nat, b)
    ensures Ending(g, a, ch, numbers, b)
  {
    hide InEscape, Controlled, InCommand, Commanded, PrivateSet, Filled;
    var ps := a.parser.(escapeOffset := a.parser.escapeOffset + 1);
    assert NumberEnded(g, a.(parser := ps), ch, b);
    var v: seq<nat> :| |v| == MAX_ESC_VALUES && Filled(ch, a.values, |numbers|, v) &&
      Ended(g, a.(parser := ps.(rrr := false), count := |numbers|), ch, v, b);
    FilledArguments(a, ch, numbers, v);
  }

  lemma FinalRange(c: bv8)
    requires 0x40 <= c <= 0x7e
    ensures 0x40 <= c as nat <= 0x7E && (c as nat == '[' as nat ==> c == BRACKET)
  {
  }

  /**
   A whole control sequence: whatever the numbers, the final byte does what it means with them. If a private sequence
   was cancelled before, it does what it means in a private sequence instead.
   */
  method SendCommand(t: Terminal, numbers: seq<nat>, c: bv8) returns (ghost p: Position)
    requires Ready(t) && Outside(t.Now().parser)
    requires |numbers| <= MAX_ESC_VALUES && forall i :: 0 <= i < |numbers| ==> numbers[i] <= UINT32_MAX
    requires 0x40 <= c <= 0x7e && (c == BRACKET ==> numbers != [])
    modifies t, t.values
    ensures Ready(t) && Outside(t.Now().parser) && !t.Now().parser.decPrivate && t.values == old(t.values)
    ensures t.stream == old(t.stream) + Inputs([ESC, BRACKET] + Values(numbers) + [c])
    ensures var a, b, ch := old(t.Now()), t.Now(), c as char;
            var s, l := a.settings.(charsets := a.settings.charsets.(select := 0)),
                        a.log.(reports := a.log.reports + [p]);
            if a.parser.decPrivate then
              PrivateSet(t.Size(), ch, Arguments(ch, numbers)[..|numbers|], s, l, b.settings, b.log)
            else Commanded(t.Size(), ch, Arguments(ch, numbers), |numbers|, a.graphic, s, l, b.settings, b.log)
  {
    hide Single, Bounded, Inputs, Values, Arguments, Commanded, PrivateSet, Filled;
    p := OpenSequence(t);
    ghost var a := t.Now();
    SendValues(t, numbers);
    ghost var b := t.Now();
    ReadHolds(a, numbers, b.parser.escapeOffset);
    PutAscii(t, c);
    FinalRange(c);
    FinalRead(t.Size(), b, c as char, numbers, t.Now());
    InputsJoin(old(t.stream), [ESC, BRACKET], Values(numbers));
    InputsJoin(old(t.stream), [ESC, BRACKET] + Values(numbers), [c]);
  }

  lemma MarkRead(g: Grid, a: View, b: View)
    requires Bounded(a) && Opened(a) && a.parser.escapeOffset == 1 && Single(g, a, '?' as nat, b)
    ensures b == a.(parser := a.parser.(decPrivate := true, escapeOffset := 2))
  {
    hide InEscape, Controlled, InCommand, NumberEnded;
    assert InSequence(g, a.(parser := a.parser.(escapeOffset := 2)), '?', b);
  }

  /** CSI ? cancelled by the byte 0x18 leaves its mark: the next control sequence, to go five lines up, does nothing. */
  method MarkOutlivesCancel(t: Terminal)
    requires Ready(t) && Outside(t.Now().parser)
    modifies t, t.values
    ensures Ready(t) && t.positions == old(t.positions) && t.scrolls == old(t.scrolls)
  {
    hide Single, Bounded, Inputs, Values, Commanded;
    var _ := OpenSequence(t);
    ghost var a := t.Now();
    PutAscii(t, 0x3f);
    MarkRead(t.Size(), a, t.Now());
    RunMore(t.stream, Input(0x18, false));
    var _ := t.PutChar(0x18, 0);
    var _ := SendCommand(t, [5], 0x41);
  }
}
