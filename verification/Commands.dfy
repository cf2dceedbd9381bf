/**
 What each control byte, escape and control sequence means to the terminal, as a relation between what it is before the
 byte and after it: the cursor positions and scrollings asked of the backend, the margins, modes, character sets and
 saved states, and where the parser then is.
 */
module Commands {
  import opened Extrema

  const MAX_ESC_VALUES: nat := 16
  const OSC_BUFFER: nat := 256
  const UINT32_MAX: nat := 0xFFFF_FFFF

  datatype Position = Position(x: nat, y: nat)

  datatype Modes = Modes(wrap: bool, scroll: bool, origin: bool, insert: bool)

  /** Where the parser is in an escape sequence; `rrr` while a number is being read. */
  datatype Parser = Parser(escape: bool, controlSequence: bool, csiUnhandled: bool, decPrivate: bool,
                           discardNext: bool, osc: bool, oscEscape: bool, rrr: bool, escapeOffset: nat)

  /** The selected slot, one past it while its character set is awaited, the sets, and the current slot. */
  datatype Charsets = Charsets(select: nat, sets: seq<nat>, current: nat)

  datatype Margins = Margins(top: nat, bottom: nat)

  /** The margins, modes and character sets that ESC 7 and mode 1049 put aside. */
  datatype Saved = Saved(margins: Margins, origin: bool, wrap: bool, charset: nat, sets: seq<nat>)

  /** One call of the backend's scroll or revscroll, and the margins it finds. */
  datatype Scrolling = Scrolling(forward: bool, margins: Margins)

  /** Every position the backend has reported, every one it has been given, and every scrolling asked of it. */
  datatype Log = Log(reports: seq<Position>, positions: seq<Position>, scrolls: seq<Scrolling>)

  datatype Settings = Settings(tabSize: nat, modes: Modes, margins: Margins, charsets: Charsets, savedCursor: Position,
                               saved: Saved)

  /** All of the terminal but its decoder. */
  datatype View = View(parser: Parser, values: seq<nat>, count: nat, oscCount: nat, graphic: bool, settings: Settings,
                       log: Log)

  datatype Grid = Grid(cols: nat, rows: nat)

  const IDLE := Parser(false, false, false, false, false, false, false, false, 0)

  // ---------- the cursor ----------

  /** The backend is given one more position and nothing else. */
  ghost predicate Given(l: Log, x: int, y: int, l': Log) {
    x >= 0 && y >= 0 && l' == l.(positions := l.positions + [Position(x, y)])
  }

  /** A row or column counted from one, and zero like one. */
  function FromOne(v: nat): nat {
    if v == 0 then 0 else v - 1
  }

  /**
   CSI A to H and their synonyms, from a cursor at p: up, down, right and left by the first value, to the start of a
   line that far down or up, to a column, to a row, to both; rows and columns counted from one, within the grid and,
   in origin mode, the margins.
   */
  ghost predicate Moved(g: Grid, ch: char, v: seq<nat>, s: Settings, p: Position, l: Log, l': Log)
    requires |v| >= 2
  {
    var low, high := if s.modes.origin then s.margins.top else 0, if s.modes.origin then s.margins.bottom else g.rows;
    match ch
    case 'A' => Given(l, p.x, Max(p.y - v[0], low), l')
    case 'F' => Given(l, 0, Max(p.y - v[0], low), l')
    case 'B' => Given(l, p.x, Min(p.y + v[0], high - 1), l')
    case 'e' => Given(l, p.x, Min(p.y + v[0], high - 1), l')
    case 'E' => Given(l, 0, Min(p.y + v[0], high - 1), l')
    case 'C' => Given(l, Min(p.x + v[0], g.cols - 1), p.y, l')
    case 'a' => Given(l, Min(p.x + v[0], g.cols - 1), p.y, l')
    case 'D' => Given(l, Max(p.x - v[0], 0), p.y, l')
    case 'G' => Given(l, Min(FromOne(v[0]), g.cols - 1), p.y, l')
    case '`' => Given(l, Min(FromOne(v[0]), g.cols - 1), p.y, l')
    case 'd' => Given(l, p.x, Min(low + FromOne(v[0]), high - 1), l')
    case 'H' => Given(l, Min(FromOne(v[1]), g.cols - 1), Min(low + FromOne(v[0]), high - 1), l')
    case 'f' => Given(l, Min(FromOne(v[1]), g.cols - 1), Min(low + FromOne(v[0]), high - 1), l')
    case _ => false
  }

  // ---------- scrolling ----------

  /** The same call so many times. */
  function Times(scroll: Scrolling, count: int): (s: seq<Scrolling>)
    ensures |s| == Max(count, 0) && forall i :: 0 <= i < |s| ==> s[i] == scroll
  {
    seq(Max(count, 0), _ => scroll)
  }

  /**
   CSI M and L scroll the lines from the cursor's to the bottom margin up and down, if the cursor is within the margins;
   CSI S and T those between the margins. No more often than there are lines.
   */
  ghost predicate Scrolled(ch: char, v: seq<nat>, m: Margins, p: Position, l: Log, l': Log)
    requires |v| >= 2
  {
    var within := m.top <= p.y < m.bottom;
    match ch
    case 'M' =>
      l' == if within then l.(scrolls := l.scrolls + Times(Scrolling(true, Margins(p.y, m.bottom)),
                                                           Min(v[0], m.bottom - p.y))) else l
    case 'L' =>
      l' == if within then l.(scrolls := l.scrolls + Times(Scrolling(false, Margins(p.y, m.bottom)),
                                                           Min(v[0], m.bottom - p.y))) else l
    case 'S' => l' == l.(scrolls := l.scrolls + Times(Scrolling(true, m), Min(v[0], m.bottom - m.top)))
    case 'T' => l' == l.(scrolls := l.scrolls + Times(Scrolling(false, m), Min(v[0], m.bottom - m.top)))
    case _ => false
  }

  // ---------- erasing, inserting, deleting ----------

  function LineStarts(from: nat, to: nat): seq<Position>
    decreases if from < to then to - from else 0
  {
    if from < to then [Position(0, from)] + LineStarts(from + 1, to) else []
  }

  lemma {:induction false} LineStartsMore(from: nat, to: nat)
    requires from <= to
    ensures LineStarts(from, to + 1) == LineStarts(from, to) + [Position(0, to)]
    decreases if from < to then to - from else 0
  {
    if from < to {
      LineStartsMore(from + 1, to);
    }
  }

  /**
   The characters of a line moving right by `count` from column x on, the last first: each target, then its source.
   */
  ghost predicate ShiftedRight(moves: seq<Position>, x: nat, y: nat, count: nat, cols: nat) {
    && x + count <= cols && |moves| == 2 * (cols - x - count)
    && forall i :: 0 <= i < cols - x - count ==>
         moves[2 * i] == Position(cols - 1 - i, y) && moves[2 * i + 1] == Position(cols - 1 - i - count, y)
  }

  /** The characters of a line moving left by `count` onto column x, the first first. */
  ghost predicate ShiftedLeft(moves: seq<Position>, x: nat, y: nat, count: nat, cols: nat) {
    && x + count <= cols && |moves| == 2 * (cols - x - count)
    && forall i :: 0 <= i < cols - x - count ==>
         moves[2 * i] == Position(x + i, y) && moves[2 * i + 1] == Position(x + i + count, y)
  }

  /** A line shifted to the right, then the cursor set before and after the blanks are put. */
  ghost predicate BlanksInserted(moves: seq<Position>, p: Position, count: int, cols: nat) {
    && count >= 0 && |moves| >= 2 && moves[|moves| - 2] == p && moves[|moves| - 1] == p
    && ShiftedRight(moves[..|moves| - 2], p.x, p.y, count, cols)
  }

  /** A line shifted to the left, its end, where the backend then says the cursor is, and the cursor set back. */
  ghost predicate CharactersDeleted(moves: seq<Position>, p: Position, now: Position, count: int, cols: nat) {
    && 0 <= count <= cols && |moves| >= 3
    && moves[|moves| - 3..] == [Position(cols - count, p.y), now, p]
    && ShiftedLeft(moves[..|moves| - 3], p.x, p.y, count, cols)
  }

  /**
   CSI J and K set the cursor to what is erased, below or above it or in its line, and back; CSI @ and P shift the line
   right or left; CSI P and X erase where the cursor is and set it back.
   */
  ghost predicate Erased(g: Grid, ch: char, v: seq<nat>, p: Position, l: Log, l': Log)
    requires |v| >= 2
  {
    && l'.scrolls == l.scrolls && l.positions <= l'.positions
    && var moves := l'.positions[|l.positions|..];
       match ch
       case 'J' =>
         && l'.reports == l.reports
         && moves == if v[0] == 0 then [p] + LineStarts(p.y + 1, g.rows) + [p]
                     else if v[0] == 1 then LineStarts(0, p.y + 1) + [p] else []
       case 'K' =>
         && l'.reports == l.reports
         && moves == if v[0] == 0 then [p, p]
                     else if v[0] == 1 || v[0] == 2 then [Position(0, p.y), p] else []
       case '@' =>
         && l'.reports == l.reports
         && if v[0] == 0 then moves == [] else BlanksInserted(moves, p, Min(v[0], g.cols - p.x), g.cols)
       case 'P' =>
         && |l'.reports| == |l.reports| + 1 && l.reports <= l'.reports
         && CharactersDeleted(moves, p, l'.reports[|l.reports|], Min(v[0], g.cols - p.x), g.cols)
       case 'X' =>
         && |l'.reports| == |l.reports| + 1 && l.reports <= l'.reports
         && moves == [l'.reports[|l.reports|], p]
       case _ => false
  }

  // ---------- state ----------

  /** A line moving right by one from column x on. */
  function LineShift(p: Position, cols: nat): seq<Position>
    decreases cols
  {
    if p.x + 1 < cols then [Position(cols - 1, p.y), Position(cols - 2, p.y)] + LineShift(p, cols - 1) else []
  }

  /** So at each of these positions in turn. */
  function LineShifts(ps: seq<Position>, cols: nat): seq<Position> {
    if ps == [] then [] else LineShifts(ps[..|ps| - 1], cols) + LineShift(ps[|ps| - 1], cols)
  }

  /** The last character again, so often: in insert mode the line makes room each time. */
  ghost predicate Repeated(g: Grid, count: int, insert: bool, l: Log, l': Log) {
    && l'.scrolls == l.scrolls && l.reports <= l'.reports
    && var seen := l'.reports[|l.reports|..];
       |seen| == (if insert then count else 0) && l'.positions == l.positions + LineShifts(seen, g.cols)
  }

  /**
   CSI s and u keep the cursor's position and go back to it; CSI r sets the margins, if they leave two lines at least,
   and goes to their top or the grid's; CSI 4 h and l switch insert mode; CSI b repeats a character.
   */
  ghost predicate SetTo(g: Grid, ch: char, v: seq<nat>, count: nat, graphic: bool, s: Settings, l: Log, s': Settings,
                        l': Log)
    requires |v| >= 2
  {
    match ch
    case 's' =>
      && |l'.reports| == |l.reports| + 1 && l' == l.(reports := l'.reports) && l.reports <= l'.reports
      && s' == s.(savedCursor := l'.reports[|l.reports|])
    case 'u' => s' == s && Given(l, s.savedCursor.x, s.savedCursor.y, l')
    case 'r' =>
      var top, bottom := if count > 0 then FromOne(v[0]) else 0, if count > 1 then v[1] else g.rows;
      var ok := top + 1 < bottom <= g.rows;
      && s' == s.(margins := if ok then Margins(top, bottom) else Margins(0, g.rows))
      && Given(l, 0, if s.modes.origin && ok then top else 0, l')
    case 'h' => l' == l && s' == if count > 0 && v[0] == 4 then s.(modes := s.modes.(insert := true)) else s
    case 'l' => l' == l && s' == if count > 0 && v[0] == 4 then s.(modes := s.modes.(insert := false)) else s
    case 'b' => s' == s && if graphic then Repeated(g, Min(v[0], 65535), s.modes.insert, l, l') else l' == l
    case _ => false
  }

  // ---------- a control sequence ----------

  predicate Moves(ch: char) {
    'A' <= ch <= 'H' || ch == '`' || ch == 'a' || ch == 'd' || ch == 'e' || ch == 'f'
  }

  predicate Scrolls(ch: char) {
    ch == 'L' || ch == 'M' || ch == 'S' || ch == 'T'
  }

  predicate Erases(ch: char) {
    ch == 'J' || ch == 'K' || ch == '@' || ch == 'P' || ch == 'X'
  }

  predicate Sets(ch: char) {
    ch == 's' || ch == 'u' || ch == 'r' || ch == 'h' || ch == 'l' || ch == 'b'
  }

  /** A control sequence with this final byte and these values, from what the backend has just said is the cursor. */
  ghost predicate Command(g: Grid, ch: char, v: seq<nat>, count: nat, graphic: bool, s: Settings, p: Position, l: Log,
                          s': Settings, l': Log)
    requires |v| >= 2
  {
    if Moves(ch) then s' == s && Moved(g, ch, v, s, p, l, l')
    else if Scrolls(ch) then s' == s && Scrolled(ch, v, s.margins, p, l, l')
    else if Erases(ch) then s' == s && Erased(g, ch, v, p, l, l')
    else if Sets(ch) then SetTo(g, ch, v, count, graphic, s, l, s', l')
    else s' == s && l' == l
  }

  /** The backend reports one more position. */
  ghost predicate Reported(l: Log, p: Position, l': Log) {
    l' == l.(reports := l.reports + [p])
  }

  /** A control sequence from the report of the cursor on. */
  ghost predicate Commanded(g: Grid, ch: char, v: seq<nat>, count: nat, graphic: bool, s: Settings, l: Log,
                            s': Settings, l': Log)
    requires |v| >= 2
  {
    && |l.reports| < |l'.reports|
    && var p := l'.reports[|l.reports|];
       && p.x < g.cols && p.y < g.rows
       && Command(g, ch, v, count, graphic, s, p, l.(reports := l.reports + [p]), s', l')
  }

  // ---------- private modes ----------

  /** CSI ? 6, 7 and 1049 with h or l. */
  function Private(g: Grid, n: nat, on: bool, s: Settings): Settings {
    if n == 6 then s.(modes := s.modes.(origin := on))
    else if n == 7 then s.(modes := s.modes.(wrap := on))
    else if n != 1049 then s
    else if on then s.(saved := Put(s), margins := Margins(0, g.rows))
    else TakenBack(s)
  }

  /** What is put aside. */
  function Put(s: Settings): Saved {
    Saved(s.margins, s.modes.origin, s.modes.wrap, s.charsets.current, s.charsets.sets)
  }

  /** What was put aside, back again. */
  function TakenBack(s: Settings): Settings {
    s.(margins := s.saved.margins, modes := s.modes.(origin := s.saved.origin, wrap := s.saved.wrap),
       charsets := s.charsets.(current := s.saved.charset, sets := s.saved.sets))
  }

  /** One after the other. */
  function Privates(g: Grid, ns: seq<nat>, on: bool, s: Settings): Settings {
    if ns == [] then s else Private(g, ns[|ns| - 1], on, Privates(g, ns[..|ns| - 1], on, s))
  }

  /** Each change of the origin mode sets the cursor to the origin. */
  function Origins(g: Grid, ns: seq<nat>, on: bool, s: Settings): seq<Position> {
    if ns == [] then []
    else
      var before := Privates(g, ns[..|ns| - 1], on, s);
      Origins(g, ns[..|ns| - 1], on, s)
      + (if ns[|ns| - 1] == 6 then [Position(0, if on then before.margins.top else 0)] else [])
  }

  /** Nothing but h and l does anything. */
  ghost predicate PrivateSet(g: Grid, ch: char, ns: seq<nat>, s: Settings, l: Log, s': Settings, l': Log) {
    if ch == 'h' || ch == 'l' then
      && s' == Privates(g, ns, ch == 'h', s)
      && l' == l.(positions := l.positions + Origins(g, ns, ch == 'h', s))
    else s' == s && l' == l
  }

  // ---------- control bytes ----------

  /** A line feed: scroll at the bottom margin, else one line down while there is one; then to column x. */
  ghost predicate LineFed(g: Grid, m: Margins, p: Position, x: nat, l: Log, l': Log) {
    if p.y + 1 == m.bottom then
      l' == l.(positions := l.positions + [Position(x, p.y)], scrolls := l.scrolls + [Scrolling(true, m)])
    else if p.y + 1 < g.rows then l' == l.(positions := l.positions + [Position(x, p.y + 1)])
    else l' == l
  }

  /** Backspace, tab, line feeds and carriage return, with the cursor where the backend has just said. */
  ghost predicate ControlMoved(g: Grid, k: int, s: Settings, p: Position, l: Log, l': Log)
    requires s.tabSize > 0
  {
    if k == 8 then if p.x == 0 then l' == l else Given(l, p.x - 1, p.y, l')
    else if k == 9 then Given(l, Min(p.x + s.tabSize - p.x % s.tabSize, g.cols - 1), p.y, l')
    else if k == 13 then Given(l, 0, p.y, l')
    else LineFed(g, s.margins, p, p.x, l, l')
  }

  /** Those, shift out and shift in; the others do nothing. */
  ghost predicate Controlled(g: Grid, ch: char, s: Settings, l: Log, s': Settings, l': Log)
    requires s.tabSize > 0
  {
    var k := ch as int;
    if 8 <= k <= 13 then
      && s' == s && |l.reports| < |l'.reports|
      && var p := l'.reports[|l.reports|];
         p.x < g.cols && p.y < g.rows && ControlMoved(g, k, s, p, l.(reports := l.reports + [p]), l')
    else
      && l' == l
      && s' == if k == 14 then s.(charsets := s.charsets.(current := 1))
               else if k == 15 then s.(charsets := s.charsets.(current := 0)) else s
  }

  // ---------- escapes ----------

  /** What ESC c leaves. */
  function Fresh(g: Grid): Settings {
    Settings(8, Modes(true, true, false, false), Margins(0, g.rows), Charsets(0, [0, 1], 0), Position(0, 0),
             Saved(Margins(0, g.rows), false, true, 0, [0, 1]))
  }

  /** ESC M: up, scrolling at the top margin. */
  ghost predicate LineUp(m: Margins, p: Position, l: Log, l': Log) {
    if p.y == m.top then
      l' == l.(positions := l.positions + [p], scrolls := l.scrolls + [Scrolling(false, m)])
    else if p.y > 0 then l' == l.(positions := l.positions + [Position(p.x, p.y - 1)])
    else l' == l
  }

  /** The byte behind an escape, with the cursor where the backend has just said. */
  ghost predicate Escaped(g: Grid, ch: char, s: Settings, p: Position, l: Log, s': Settings, l': Log) {
    match ch
    case 'D' => s' == s && LineFed(g, s.margins, p, p.x, l, l')
    case 'E' =>
      s' == s && if p.y + 1 == g.rows != s.margins.bottom then Given(l, 0, p.y, l')
                 else LineFed(g, s.margins, p, 0, l, l')
    case 'M' => s' == s && LineUp(s.margins, p, l, l')
    case '7' => l' == l && s' == s.(saved := Put(s))
    case '8' => l' == l && s' == TakenBack(s)
    case 'c' => l' == l && s' == Fresh(g)
    case '(' => l' == l && s' == s.(charsets := s.charsets.(select := 1))
    case ')' => l' == l && s' == s.(charsets := s.charsets.(select := 2))
    case _ => l' == l && s' == s
  }

  // ---------- the parser ----------

  /** One more digit of a number that stops growing when it would no longer fit 32 bits. */
  function OneMoreDigit(v: nat, digit: nat): int {
    if v > UINT32_MAX / 10 then v else Min(10 * v + digit, UINT32_MAX)
  }

  /** Values not given are one, and so are zeros, but for these final bytes they are zero. */
  ghost predicate Filled(ch: char, given: seq<nat>, count: nat, v: seq<nat>) {
    && |v| == |given|
    && forall i :: 0 <= i < |v| ==>
         v[i] == if ch in "JKqmc]" then (if i < count then given[i] else 0)
                 else if i < count && given[i] != 0 then given[i] else 1
  }

  /** The byte that ends the values, outside private and unknown sequences. */
  ghost predicate EndedPlain(g: Grid, a: View, ch: char, v: seq<nat>, b: View)
    requires |v| >= MAX_ESC_VALUES
  {
    var ps, k := a.parser, ch as int;
    if 0x40 <= k <= 0x7E then
      && Commanded(g, ch, v, a.count, a.graphic, a.settings, a.log, b.settings, b.log)
      && b.parser == ps.(controlSequence := false, escape := false)
    else
      && b.settings == a.settings && (exists p :: Reported(a.log, p, b.log))
      && b.parser == if k == 0x1b then ps.(controlSequence := false, escapeOffset := 0) else ps.(csiUnhandled := true)
  }

  /** The byte that ends the values. */
  ghost predicate Ended(g: Grid, a: View, ch: char, v: seq<nat>, b: View)
    requires |v| >= MAX_ESC_VALUES && a.count <= MAX_ESC_VALUES
  {
    var ps, k := a.parser, ch as int;
    && b.count == a.count && b.oscCount == a.oscCount && b.graphic == a.graphic && |b.values| == |a.values|
    && if ps.decPrivate then
         && PrivateSet(g, ch, v[..a.count], a.settings, a.log, b.settings, b.log)
         && b.parser == ps.(decPrivate := false, controlSequence := false, escape := false)
       else if ps.csiUnhandled then
         && b.settings == a.settings && b.log == a.log
         && b.parser == if k == 0x1b then ps.(csiUnhandled := false, controlSequence := false, escapeOffset := 0)
                        else if 0x40 <= k <= 0x7E
                        then ps.(csiUnhandled := false, controlSequence := false, escape := false)
                        else ps
       else EndedPlain(g, a, ch, v, b)
  }

  /** A number, or none, is followed by a ';' or by the byte that ends the values. */
  ghost predicate NumberEnded(g: Grid, a: View, ch: char, b: View)
    requires |a.values| == MAX_ESC_VALUES && a.count <= MAX_ESC_VALUES && (a.parser.rrr ==> a.count < MAX_ESC_VALUES)
  {
    var ps, count := a.parser.(rrr := false), a.count + if a.parser.rrr then 1 else 0;
    if ch == ';' then
      b == if a.parser.rrr then a.(parser := ps, count := count)
           else if a.count < MAX_ESC_VALUES then a.(values := a.values[a.count := 0], count := a.count + 1)
           else a
    else
      exists v: seq<nat> :: |v| == MAX_ESC_VALUES && Filled(ch, a.values, count, v) &&
        Ended(g, a.(parser := ps, count := count), ch, v, b)
  }

  /** A byte of a control sequence, `[` having been the first; a's offset counts this byte. */
  ghost predicate InSequence(g: Grid, a: View, ch: char, b: View)
    requires |a.values| == MAX_ESC_VALUES && a.count <= MAX_ESC_VALUES && (a.parser.rrr ==> a.count < MAX_ESC_VALUES)
    requires a.settings.tabSize > 0
  {
    var ps := a.parser;
    if ps.escapeOffset == 2 && ch == '[' then
      b == a.(parser := ps.(discardNext := true, controlSequence := false, escape := false))
    else if ps.escapeOffset == 2 && ch == '?' then b == a.(parser := ps.(decPrivate := true))
    else if (ch as int) < 0x20 && ch as int != 0x1b then
      && Controlled(g, ch, a.settings, a.log, b.settings, b.log)
      && b == a.(settings := b.settings, log := b.log)
    else if '0' <= ch <= '9' then
      if a.count == MAX_ESC_VALUES then b == a
      else
        var n := OneMoreDigit(a.values[a.count], (ch - '0') as nat);
        n >= 0 && b == a.(parser := ps.(rrr := true), values := a.values[a.count := n])
    else NumberEnded(g, a, ch, b)
  }

  /** A byte of an operating system command that belongs to it; its buffer takes 256 bytes at most. */
  ghost predicate InCommand(a: View, ch: char, b: View) {
    var ps, k := a.parser, ch as int;
    if ps.oscEscape then b == a.(parser := ps.(oscEscape := false, osc := false, escape := false))
    else if k == 0x1b then b == a.(parser := ps.(oscEscape := true))
    else if k == 7 then b == a.(parser := ps.(osc := false, escape := false))
    else b == a.(oscCount := Min(a.oscCount + 1, OSC_BUFFER))
  }

  /** A byte behind an escape; the offset counts it already. */
  ghost predicate InEscape(g: Grid, a: View, ch: char, b: View)
    requires |a.values| == MAX_ESC_VALUES
  {
    && |a.log.reports| < |b.log.reports|
    && var p, ps := b.log.reports[|a.log.reports|], a.parser;
       var l := a.log.(reports := a.log.reports + [p]);
       && p.x < g.cols && p.y < g.rows
       && if ch as int == 0x1b then b == a.(log := l, parser := ps.(escapeOffset := 0))
          else if ch == ']' then b == a.(log := l, parser := ps.(osc := true, oscEscape := false), oscCount := 0)
          else if ch == '[' then
            b == a.(log := l, parser := ps.(rrr := false, csiUnhandled := false, controlSequence := true),
                    values := seq(MAX_ESC_VALUES, _ => 0), count := 0)
          else
            && Escaped(g, ch, a.settings, p, l, b.settings, b.log)
            && b == a.(settings := b.settings, log := b.log, parser := if ch == 'c' then IDLE else ps.(escape := false),
                       count := if ch == 'c' then 0 else a.count, graphic := a.graphic && ch != 'c')
  }

  /** Any byte of an escape sequence. */
  ghost predicate Escaping(g: Grid, was: View, ch: char, b: View)
    requires |was.values| == MAX_ESC_VALUES && was.count <= MAX_ESC_VALUES
    requires (was.parser.rrr ==> was.count < MAX_ESC_VALUES) && was.settings.tabSize > 0
  {
    var ps := was.parser.(escapeOffset := was.parser.escapeOffset + 1);
    if ps.osc && !(ps.oscEscape && ch != '\\') then InCommand(was.(parser := ps), ch, b)
    else
      var a := was.(parser := if ps.osc then ps.(osc := false, oscEscape := false, escapeOffset := 1) else ps);
      if a.parser.controlSequence then InSequence(g, a, ch, b) else InEscape(g, a, ch, b)
  }

  // ---------- outside escape sequences ----------

  /** Room for a glyph of this width, in insert mode. */
  ghost predicate RoomMade(g: Grid, insert: bool, width: nat, l: Log, l': Log) {
    if !insert || width == 0 then l' == l
    else
      && |l'.reports| == |l.reports| + 1 && l.reports <= l'.reports && l'.scrolls == l.scrolls
      && l.positions <= l'.positions
      && var p := l'.reports[|l.reports|];
         p.x < g.cols && ShiftedRight(l'.positions[|l.positions|..], p.x, p.y, Min(width, g.cols - p.x), g.cols)
  }

  lemma NoRoom(g: Grid, insert: bool, l: Log)
    ensures RoomMade(g, insert, 0, l, l)
  {
  }

  /** A control byte or a character, outside escape sequences. */
  ghost predicate Plain(g: Grid, a: View, k: nat, b: View)
    requires k < 256 && a.settings.tabSize > 0
  {
    if k == 0x1b then b == a.(parser := a.parser.(escape := true, escapeOffset := 0))
    else if k == 0x7f then b == a.(graphic := false)
    else if k < 0x20 then
      && Controlled(g, k as char, a.settings, a.log, b.settings, b.log)
      && b == a.(settings := b.settings, log := b.log, graphic := false)
    else RoomMade(g, a.settings.modes.insert, 1, a.log, b.log) && b == a.(log := b.log, graphic := true)
  }

  /** A byte that is no part of a longer sequence of bytes. */
  ghost predicate Single(g: Grid, a: View, k: nat, b: View)
    requires |a.values| == MAX_ESC_VALUES && a.count <= MAX_ESC_VALUES && k < 256
    requires (a.parser.rrr ==> a.count < MAX_ESC_VALUES) && a.settings.tabSize > 0
    requires a.settings.charsets.select <= |a.settings.charsets.sets|
  {
    var cs := a.settings.charsets;
    if a.parser.escape then Escaping(g, a, k as char, b)
    else if cs.select > 0 && k > 0x1f && k != 0x7f then
      var sets := if k == 'B' as int then cs.sets[cs.select - 1 := 0]
                  else if k == '0' as int then cs.sets[cs.select - 1 := 1] else cs.sets;
      b == a.(settings := a.settings.(charsets := cs.(select := 0, sets := sets)))
    else Plain(g, a.(settings := a.settings.(charsets := cs.(select := 0))), k, b)
  }
}
