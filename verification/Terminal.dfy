/**
 The terminal's escape-sequence parser, byte by byte, over a backend that may report any cursor position inside the
 grid: whatever the bytes, every position handed to the backend is inside the grid, and the parser's margins, values
 and buffers stay within their bounds. Colours and callbacks are not modelled; glyph tables are left open.
 */
module Terminal {
  import opened Commands
  import opened Extrema
  import opened Options
  import opened Utf8

  ghost predicate AllScrollable(scrolls: seq<Scrolling>, rows: nat) {
    forall i :: 0 <= i < |scrolls| ==> scrolls[i].margins.top < scrolls[i].margins.bottom <= rows
  }

  predicate Inside(p: Position, cols: nat, rows: nat) {
    p.x < cols && p.y < rows
  }

  ghost predicate AllInside(positions: seq<Position>, cols: nat, rows: nat) {
    forall p :: p in positions ==> Inside(p, cols, rows)
  }

  ghost predicate AllWords(values: seq<nat>) {
    forall i :: 0 <= i < |values| ==> values[i] <= UINT32_MAX
  }

  lemma NothingControlled(g: Grid, s: Settings, l: Log)
    requires s.tabSize > 0
    ensures Controlled(g, 0 as char, s, l, s, l)
  {
  }

  lemma NextStop(x: nat, t: nat)
    requires t > 0
    ensures (x / t + 1) * t == x + t - x % t
  {
    assert x == x / t * t + x % t;
  }

  lemma ThreeTail(before: seq<Position>, after: seq<Position>, moves: seq<Position>, a: Position, b: Position,
        c: Position)
    requires after == before + moves + [a] + [b, c]
    ensures before <= after && |after[|before|..]| == |moves| + 3
    ensures var s := after[|before|..]; s[..|s| - 3] == moves && s[|s| - 3..] == [a, b, c]
  {
  }

  lemma TailMore(before: seq<Position>, after: seq<Position>, moves: seq<Position>, p: Position)
    requires after == before + moves + [p] + [p]
    ensures before <= after && after[|before|..] == moves + [p, p]
  {
  }

  function Code(c: bv8): (k: nat)
    ensures k < 256
  {
    c as nat
  }

  class Terminal {
    const cols: nat
    const rows: nat
    var tabSize: nat
    var modes: Modes
    var parser: Parser
    var oscCount: nat
    var valuesCount: nat
    var values: array<nat>
    var charsets: Charsets
    var margins: Margins
    var savedCursor: Position
    var saved: Saved
    var lastWasGraphic: bool
    var decoder: Decoder
    ghost var reports: seq<Position>    // every position the backend has said its cursor is at
    ghost var positions: seq<Position>  // every position the backend has been given
    ghost var scrolls: seq<Scrolling>      // every scrolling it has been asked for
    ghost var stream: seq<Input>        // every byte so far, and whether its discarding was pending

    ghost predicate Valid()
      reads this, values
    {
      && tabSize > 0
      && margins.top < margins.bottom <= rows
      && saved.margins.top < saved.margins.bottom <= rows && saved.charset < 2 && |saved.sets| == 2
      && Inside(savedCursor, cols, rows)
      && values.Length == MAX_ESC_VALUES && valuesCount <= MAX_ESC_VALUES
      && (parser.rrr ==> valuesCount < MAX_ESC_VALUES)
      && AllWords(values[..])
      && oscCount <= OSC_BUFFER
      && charsets.select <= 2 && |charsets.sets| == 2 && charsets.current < 2
      && decoder.remaining <= 3
      && AllInside(reports, cols, rows) && AllInside(positions, cols, rows) && AllScrollable(scrolls, rows)
    }

    ghost function Size(): Grid {
      Grid(cols, rows)
    }

    /** What has passed between the terminal and the backend. */
    ghost function Logged(): Log
      reads this
    {
      Log(reports, positions, scrolls)
    }

    ghost function Kept(): Settings
      reads this
    {
      Settings(tabSize, modes, margins, charsets, savedCursor, saved)
    }

    ghost function Now(): View
      reads this, values
    {
      View(parser, values[..], valuesCount, oscCount, lastWasGraphic, Kept(), Logged())
    }

    // ---------- the backend ----------

    /** The backend reports some position inside the grid. */
    method GetCursorPos() returns (p: Position)
      requires Valid()
      modifies this`reports
      ensures Valid() && Inside(p, cols, rows) && reports == old(reports) + [p]
    {
      assert Inside(Position(0, 0), cols, rows);
      p :| Inside(p, cols, rows);
      reports := reports + [p];
    }

    method SetCursorPos(x: nat, y: nat)
      requires Valid() && x < cols && y < rows
      modifies this`positions
      ensures Valid() && positions == old(positions) + [Position(x, y)]
    {
      positions := positions + [Position(x, y)];
    }

    method MoveCharacter(newX: nat, newY: nat, oldX: nat, oldY: nat)
      requires Valid() && newX < cols && newY < rows && oldX < cols && oldY < rows
      modifies this`positions
      ensures Valid() && positions == old(positions) + [Position(newX, newY), Position(oldX, oldY)]
    {
      positions := positions + [Position(newX, newY), Position(oldX, oldY)];
    }

    /** The backend's scroll, or its revscroll. */
    method Scroll(forward: bool)
      requires Valid()
      modifies this`scrolls
      ensures Valid() && scrolls == old(scrolls) + [Scrolling(forward, margins)]
    {
      scrolls := scrolls + [Scrolling(forward, margins)];
    }

    method ScrollBy(forward: bool, count: nat)
      requires Valid()
      modifies this`scrolls
      ensures Valid() && scrolls == old(scrolls) + Times(Scrolling(forward, margins), count)
    {
      var i := 0;
      while i < count
        invariant Valid() && i <= count && scrolls == old(scrolls) + Times(Scrolling(forward, margins), i)
      {
        Scroll(forward);
        i := i + 1;
      }
    }

    // ---------- state ----------

    constructor (cols: nat, rows: nat)
      requires cols > 0 && rows > 0
      ensures Valid() && fresh(values) && this.cols == cols && this.rows == rows
      ensures Kept() == Fresh(Size()) && Logged() == Log([], [], []) && stream == []
      ensures parser == IDLE && decoder == Run(stream)
    {
      this.cols, this.rows := cols, rows;
      tabSize, modes, parser, oscCount := 8, Modes(true, true, false, false), IDLE, 0;
      valuesCount, values := 0, new nat[MAX_ESC_VALUES](i => 0);
      charsets, margins, savedCursor := Charsets(0, [0, 1], 0), Margins(0, rows), Position(0, 0);
      saved := Saved(Margins(0, rows), false, true, 0, [0, 1]);
      lastWasGraphic, decoder, reports, positions, scrolls, stream := false, AT_REST, [], [], [], [];
    }

    /** flanterm_context_reinit. */
    method Reinit()
      requires Valid()
      modifies this`tabSize, this`modes, this`parser, this`valuesCount, this`charsets, this`margins, this`savedCursor,
               this`saved, this`lastWasGraphic, this`decoder
      ensures Valid() && decoder == AT_REST && parser == IDLE && valuesCount == 0 && !lastWasGraphic
      ensures Kept() == Fresh(Size()).(saved := saved)
    {
      ResetParser();
      hide AllInside, AllWords, AllScrollable;
      charsets, margins, savedCursor := Charsets(0, [0, 1], 0), Margins(0, rows), Position(0, 0);
      saved := saved.(margins := Margins(0, rows), wrap := true, sets := [0, 1]);
    }

    method ResetParser()
      requires Valid()
      modifies this`tabSize, this`modes, this`parser, this`valuesCount, this`lastWasGraphic, this`decoder
      ensures Valid() && decoder == AT_REST && parser == IDLE && valuesCount == 0 && !lastWasGraphic
      ensures tabSize == 8 && modes == Modes(true, true, false, false)
    {
      hide AllInside, AllWords, AllScrollable;
      tabSize, modes, parser := 8, Modes(true, true, false, false), IDLE;
      valuesCount, lastWasGraphic, decoder := 0, false, AT_REST;
    }

    method SaveState()
      requires Valid()
      modifies this`saved
      ensures Valid() && saved == Saved(margins, modes.origin, modes.wrap, charsets.current, charsets.sets)
      ensures Kept() == old(Kept()).(saved := Put(old(Kept())))
    {
      saved := Saved(margins, modes.origin, modes.wrap, charsets.current, charsets.sets);
    }

    method RestoreState()
      requires Valid()
      modifies this`margins, this`modes, this`charsets
      ensures Valid() && saved == Saved(margins, modes.origin, modes.wrap, charsets.current, charsets.sets)
      ensures Kept() == TakenBack(old(Kept()))
    {
      margins := saved.margins;
      modes := modes.(origin := saved.origin, wrap := saved.wrap);
      charsets := charsets.(current := saved.charset, sets := saved.sets);
    }

    /** insert_shift: in insert mode the rest of the line moves right to make room. */
    method InsertShift(count: nat)
      requires Valid()
      modifies this`reports, this`positions
      ensures Valid() && RoomMade(Size(), modes.insert, count, old(Logged()), Logged())
    {
      if modes.insert && count > 0 {
        var p := GetCursorPos();
        ShiftRight(p, if count > cols - p.x then cols - p.x else count);
      }
    }

    method ShiftRight(p: Position, count: nat)
      requires Valid() && Inside(p, cols, rows) && 0 < count <= cols - p.x
      modifies this`positions
      ensures Valid() && old(positions) <= positions
      ensures ShiftedRight(positions[|old(positions)|..], p.x, p.y, count, cols)
    {
      var i := cols - 1;
      ghost var moves: seq<Position> := [];
      while i >= p.x + count
        invariant Valid() && p.x + count - 1 <= i < cols
        invariant positions == old(positions) + moves && |moves| == 2 * (cols - 1 - i)
        invariant forall k :: 0 <= k < cols - 1 - i ==>
            moves[2 * k] == Position(cols - 1 - k, p.y) && moves[2 * k + 1] == Position(cols - 1 - k - count, p.y)
      {
        MoveCharacter(i, p.y, i - count, p.y);
        moves := moves + [Position(i, p.y), Position(i - count, p.y)];
        i := i - 1;
      }
      assert positions[|old(positions)|..] == moves;
    }

    /** A line feed. */
    method LineFeed(p: Position, x: nat)
      requires Valid() && Inside(p, cols, rows) && x < cols
      modifies this`positions, this`scrolls
      ensures Valid() && LineFed(Size(), margins, p, x, old(Logged()), Logged())
    {
      if p.y == margins.bottom - 1 {
        Scroll(true);
        SetCursorPos(x, p.y);
      } else if p.y < rows - 1 {
        SetCursorPos(x, p.y + 1);
      }
    }

    method ExecuteC0(ch: char) returns (known: bool)
      requires Valid()
      modifies this`reports, this`positions, this`scrolls, this`charsets
      ensures Valid() && Controlled(Size(), ch, old(Kept()), old(Logged()), Kept(), Logged())
      ensures known <==> 7 <= ch as int <= 15
    {
      hide AllInside, AllWords, AllScrollable, Inside, LineFed;
      var k := ch as int;
      if 8 <= k <= 13 {
        var p := GetCursorPos();
        ControlMove(k, p);
      } else if k == 14 {
        charsets := charsets.(current := 1);
      } else if k == 15 {
        charsets := charsets.(current := 0);
      }
      return 7 <= k <= 15;
    }

    /** execute_c0, for the bytes that move the cursor. */
    method ControlMove(k: int, p: Position)
      requires Valid() && 8 <= k <= 13 && Inside(p, cols, rows)
      modifies this`positions, this`scrolls
      ensures Valid() && ControlMoved(Size(), k, Kept(), p, old(Logged()), Logged())
    {
      if k == 8 {
        if p.x > 0 {
          SetCursorPos(p.x - 1, p.y);
        }
      } else if k == 9 {
        var x := (p.x / tabSize + 1) * tabSize;
        NextStop(p.x, tabSize);
        if x >= cols {
          x := cols - 1;
        }
        SetCursorPos(x, p.y);
      } else if k == 13 {
        SetCursorPos(0, p.y);
      } else {
        LineFeed(p, p.x);
      }
    }

    /** dec_private_parse. */
    method DecPrivateParse(ch: char)
      requires Valid()
      modifies this`parser, this`modes, this`saved, this`margins, this`charsets, this`positions
      ensures Valid() && parser == old(parser).(decPrivate := false)
      ensures PrivateSet(Size(), ch, values[..valuesCount], old(Kept()), old(Logged()), Kept(), Logged())
    {
      hide AllInside, AllWords, AllScrollable;
      parser := parser.(decPrivate := false);
      if valuesCount == 0 || (ch != 'h' && ch != 'l') {
        return;
      }
      var set_ := ch == 'h';
      var i := 0;
      ghost var ns := values[..valuesCount];
      while i < valuesCount
        invariant Valid() && i <= valuesCount && parser == old(parser).(decPrivate := false)
        invariant Kept() == Privates(Size(), ns[..i], set_, old(Kept()))
        invariant positions == old(positions) + Origins(Size(), ns[..i], set_, old(Kept()))
      {
        assert ns[..i + 1][..i] == ns[..i];
        ghost var s := Kept();
        PrivateMode(values[i], set_);
        i := i + 1;
      }
      assert ns[..i] == ns;
    }

    /** One of them. */
    method PrivateMode(n: nat, set_: bool)
      requires Valid()
      modifies this`modes, this`saved, this`margins, this`charsets, this`positions
      ensures Valid() && Kept() == Private(Size(), n, set_, old(Kept()))
      ensures positions == old(positions) +
                if n == 6 then [Position(0, if set_ then old(margins).top else 0)] else []
    {
      hide AllInside, AllWords, AllScrollable;
      if n == 6 {
        modes := modes.(origin := set_);
        SetCursorPos(0, if set_ then margins.top else 0);
      } else if n == 7 {
        modes := modes.(wrap := set_);
      } else if n == 1049 {
        if set_ {
          SaveState();
          margins := Margins(0, rows);
        } else {
          RestoreState();
        }
      }
    }

    /** osc_parse: whether the byte belonged to the operating system command. */
    method OscParse(ch: char) returns (taken: bool)
      requires Valid() && parser.osc
      modifies this`parser, this`oscCount
      ensures Valid() && (taken <==> !(old(parser).oscEscape && ch != '\\'))
      ensures taken ==> InCommand(old(Now()), ch, Now())
      ensures !taken ==> Now() == old(Now()).(parser := old(parser).(osc := false, oscEscape := false))
    {
      hide AllInside, AllWords, AllScrollable, Inside;
      if parser.oscEscape {
        parser := parser.(oscEscape := false, osc := false);
        if ch == '\\' {
          parser := parser.(escape := false);
          return true;
        }
        return false;
      }
      if ch as int == 0x1b {
        parser := parser.(oscEscape := true);
      } else if ch as int == 7 {
        parser := parser.(oscEscape := false, osc := false, escape := false);
      } else if oscCount < OSC_BUFFER {
        oscCount := oscCount + 1;
      }
      return true;
    }

    // ---------- control sequences ----------

    /** A digit of the number being read; it stops short of overflowing 32 bits. */
    method ReadDigit(ch: char)
      requires Valid() && '0' <= ch <= '9'
      modifies this`parser, values
      ensures Valid()
      ensures valuesCount == MAX_ESC_VALUES ==> Now() == old(Now())
      ensures valuesCount < MAX_ESC_VALUES ==>
                && parser == old(parser).(rrr := true)
                && var n := OneMoreDigit(old(values[valuesCount]), (ch - '0') as nat);
                   n >= 0 && values[..] == old(values[..])[valuesCount := n]
    {
      if valuesCount == MAX_ESC_VALUES {
        return;
      }
      parser := parser.(rrr := true);
      var v := values[valuesCount];
      if v > UINT32_MAX / 10 {
        assert values[..] == old(values[..])[valuesCount := v];
        return;
      }
      v := v * 10;
      var digit := (ch - '0') as nat;
      if v > UINT32_MAX - digit {
        values[valuesCount] := UINT32_MAX;
        assert values[..] == old(values[..])[valuesCount := UINT32_MAX];
        return;
      }
      values[valuesCount] := v + digit;
      assert values[..] == old(values[..])[valuesCount := v + digit];
    }

    /** Values not given take their default, and so do zeros when the default is not zero. */
    method FillDefaults(d: nat)
      requires Valid() && d <= 1
      modifies values
      ensures Valid()
      ensures forall i :: 0 <= i < MAX_ESC_VALUES ==>
                values[i] == if i >= valuesCount || (d != 0 && old(values[i]) == 0) then d else old(values[i])
    {
      var i := valuesCount;
      while i < MAX_ESC_VALUES
        invariant Valid() && valuesCount <= i <= MAX_ESC_VALUES
        invariant forall k :: 0 <= k < MAX_ESC_VALUES ==>
            values[k] == if valuesCount <= k < i then d else old(values[k])
      {
        values[i] := d;
        i := i + 1;
      }
      if d != 0 {
        i := 0;
        while i < valuesCount
          invariant Valid() && i <= valuesCount
          invariant forall k :: 0 <= k < MAX_ESC_VALUES ==>
              values[k] == if k >= valuesCount || (k < i && old(values[k]) == 0) then d else old(values[k])
        {
          if values[i] == 0 {
            values[i] := d;
          }
          i := i + 1;
        }
      }
    }

    /** A row counted from one, within the grid or, in origin mode, within the margins. */
    function RowValue(v: nat): (r: nat)
      requires Valid()
      reads this, values
      ensures r <= v
      ensures r == Min(FromOne(v), (if modes.origin then margins.bottom - margins.top else rows) - 1)
    {
      var w := if v != 0 then v - 1 else 0;
      var max := if modes.origin then margins.bottom - margins.top else rows;
      if w >= max then max - 1 else w
    }

    /** CSI A and F: up. */
    method MoveUp(ch: char, p: Position)
      requires Valid() && Inside(p, cols, rows) && (ch == 'A' || ch == 'F')
      modifies this`positions, values
      ensures Valid() && Moved(Size(), ch, old(values[..]), Kept(), p, old(Logged()), Logged())
    {
      hide AllInside, AllWords, AllScrollable;
      var v := values[0];
      if v > p.y {
        v := p.y;
      }
      var destY := p.y - v;
      var minY := if modes.origin then margins.top else 0;
      SetCursorPos(if ch == 'F' then 0 else p.x, if destY < minY then minY else destY);
      SetValue(0, v);
    }

    /** CSI B, E and e: down. */
    method MoveDown(ch: char, p: Position)
      requires Valid() && Inside(p, cols, rows) && (ch == 'B' || ch == 'E' || ch == 'e')
      modifies this`positions, values
      ensures Valid() && Moved(Size(), ch, old(values[..]), Kept(), p, old(Logged()), Logged())
    {
      hide AllInside, AllWords, AllScrollable;
      var v := values[0];
      if p.y + v > rows - 1 {
        v := rows - 1 - p.y;
      }
      var destY := p.y + v;
      var maxY := if modes.origin then margins.bottom else rows;
      SetCursorPos(if ch == 'E' then 0 else p.x, if destY >= maxY then maxY - 1 else destY);
      SetValue(0, v);
    }

    /** CSI d: to a row counted from one. */
    method MoveToRow(p: Position)
      requires Valid() && Inside(p, cols, rows)
      modifies this`positions, values
      ensures Valid() && Moved(Size(), 'd', old(values[..]), Kept(), p, old(Logged()), Logged())
    {
      hide AllInside, AllWords, AllScrollable;
      var v := RowValue(values[0]);
      SetCursorPos(p.x, v + if modes.origin then margins.top else 0);
      SetValue(0, v);
    }

    method SetValue(i: nat, v: nat)
      requires Valid() && i < MAX_ESC_VALUES && v <= values[i]
      modifies values
      ensures Valid() && values[i] == v && forall k :: 0 <= k < MAX_ESC_VALUES && k != i ==> values[k] == old(values[k])
    {
      assert values[..][i] <= UINT32_MAX;
      values[i] := v;
      assert values[..] == old(values[..])[i := v];
    }

    /** CSI C, D, G and their synonyms: within the line. */
    method MoveColumn(ch: char, p: Position)
      requires Valid() && Inside(p, cols, rows) && ch in "CDGa`"
      modifies this`positions, values
      ensures Valid() && Moved(Size(), ch, old(values[..]), Kept(), p, old(Logged()), Logged())
    {
      hide AllInside, AllWords, AllScrollable;
      var v := values[0];
      if ch == 'a' || ch == 'C' {
        if p.x + v > cols - 1 {
          v := cols - 1 - p.x;
        }
        SetCursorPos(p.x + v, p.y);
      } else if ch == 'D' {
        if v > p.x {
          v := p.x;
        }
        SetCursorPos(p.x - v, p.y);
      } else {
        if v != 0 {
          v := v - 1;
        }
        if v >= cols {
          v := cols - 1;
        }
        SetCursorPos(v, p.y);
      }
      SetValue(0, v);
    }

    /** CSI H and f: to a row and a column, both counted from one. */
    method MoveTo(ch: char, p: Position)
      requires Valid() && (ch == 'H' || ch == 'f')
      modifies this`positions, values
      ensures Valid() && Moved(Size(), ch, old(values[..]), Kept(), p, old(Logged()), Logged())
    {
      hide AllInside, AllWords, AllScrollable;
      var x := values[1];
      if x != 0 {
        x := x - 1;
      }
      if x >= cols {
        x := cols - 1;
      }
      var y := RowValue(values[0]);
      SetValue(1, x);
      SetValue(0, y);
      SetCursorPos(x, y + if modes.origin then margins.top else 0);
    }

    // ---------- erasing, inserting, deleting ----------

    /** CSI J: the lines below the cursor, or above it, one after the other, and back to the cursor. */
    method EraseDisplay(p: Position)
      requires Valid() && Inside(p, cols, rows)
      modifies this`positions
      ensures Valid() && Erased(Size(), 'J', old(values[..]), p, old(Logged()), Logged())
    {
      if values[0] == 0 {
        SetCursorPos(p.x, p.y);
        EraseLines(p.y + 1, rows);
        SetCursorPos(p.x, p.y);
      } else if values[0] == 1 {
        EraseLines(0, p.y);
        LineStartsMore(0, p.y);
        SetCursorPos(0, p.y);
        SetCursorPos(p.x, p.y);
      }
    }

    method EraseLines(from: nat, to: nat)
      requires Valid() && from <= to <= rows
      modifies this`positions
      ensures Valid() && positions == old(positions) + LineStarts(from, to)
    {
      var y := from;
      while y < to
        invariant Valid() && from <= y <= to && positions == old(positions) + LineStarts(from, y)
      {
        LineStartsMore(from, y);
        SetCursorPos(0, y);
        y := y + 1;
      }
    }

    /** CSI K. */
    method EraseLine(p: Position)
      requires Valid() && Inside(p, cols, rows)
      modifies this`positions
      ensures Valid() && Erased(Size(), 'K', old(values[..]), p, old(Logged()), Logged())
    {
      if values[0] <= 2 {
        SetCursorPos(if values[0] == 0 then p.x else 0, p.y);
        SetCursorPos(p.x, p.y);
      }
    }

    /** CSI @: blanks are inserted at the cursor, to which it returns. */
    method InsertBlanks(p: Position)
      requires Valid() && Inside(p, cols, rows)
      modifies this`positions
      ensures Valid() && Erased(Size(), '@', old(values[..]), p, old(Logged()), Logged())
    {
      var n := values[0];
      if n == 0 {
        return;
      }
      if n > cols - p.x {
        n := cols - p.x;
      }
      ShiftRight(p, n);
      ghost var moves := positions[|old(positions)|..];
      SetCursorPos(p.x, p.y);
      SetCursorPos(p.x, p.y);
      TailMore(old(positions), positions, moves, p);
      hide ShiftedRight;
      assert (moves + [p, p])[..|moves|] == moves;
    }

    /** CSI P: characters are deleted at the cursor; the first value is never zero here. */
    method DeleteCharacters(p: Position)
      requires Valid() && Inside(p, cols, rows) && values[0] > 0
      modifies this`reports, this`positions, values
      ensures Valid() && Erased(Size(), 'P', old(values[..]), p, old(Logged()), Logged())
    {
      hide AllInside, AllWords, AllScrollable;
      var v := values[0];
      if v > cols - p.x {
        v := cols - p.x;
      }
      ShiftLeft(p, v);
      ghost var moves := positions[|old(positions)|..];
      SetValue(0, v);
      SetCursorPos(cols - v, p.y);
      EraseCharacters(p);
      hide ShiftedLeft;
      ThreeTail(old(positions), positions, moves, Position(cols - v, p.y), reports[|old(reports)|], p);
    }

    method ShiftLeft(p: Position, v: nat)
      requires Valid() && Inside(p, cols, rows) && p.x + v <= cols
      modifies this`positions
      ensures Valid() && old(positions) <= positions
      ensures ShiftedLeft(positions[|old(positions)|..], p.x, p.y, v, cols)
    {
      var i := p.x + v;
      ghost var moves: seq<Position> := [];
      while i < cols
        invariant Valid() && p.x + v <= i <= cols
        invariant positions == old(positions) + moves && |moves| == 2 * (i - p.x - v)
        invariant forall k :: 0 <= k < i - p.x - v ==>
            moves[2 * k] == Position(p.x + k, p.y) && moves[2 * k + 1] == Position(p.x + k + v, p.y)
      {
        MoveCharacter(i - v, p.y, i, p.y);
        moves := moves + [Position(i - v, p.y), Position(i, p.y)];
        i := i + 1;
      }
      assert positions[|old(positions)|..] == moves;
    }

    /** CSI X, which CSI P falls into: from wherever the backend is, and back to the cursor. */
    method EraseCharacters(p: Position)
      requires Valid() && Inside(p, cols, rows)
      modifies this`reports, this`positions
      ensures Valid() && |reports| == |old(reports)| + 1 && old(reports) <= reports
      ensures positions == old(positions) + [reports[|old(reports)|], p]
    {
      var c := GetCursorPos();
      SetCursorPos(c.x, c.y);
      SetCursorPos(p.x, p.y);
    }

    /**
     CSI M and L: the lines from the cursor's down to the bottom margin scroll, no more often than there are of them;
     outside the margins nothing does. The top margin is on the cursor's line for so long.
     */
    method ScrollLines(ch: char, p: Position)
      requires Valid() && Inside(p, cols, rows) && (ch == 'M' || ch == 'L')
      modifies this`margins, this`scrolls
      ensures Valid() && Kept() == old(Kept())
      ensures Scrolled(ch, values[..], margins, p, old(Logged()), Logged())
    {
      if p.y < margins.top || p.y >= margins.bottom {
        return;
      }
      var oldTop := margins.top;
      margins := margins.(top := p.y);
      var maxCount := margins.bottom - p.y;
      ScrollBy(ch == 'M', if values[0] > maxCount then maxCount else values[0]);
      margins := margins.(top := oldTop);
    }

    /** CSI S and T: the lines within the margins scroll, no more often than there are of them. */
    method ScrollRegion(ch: char, p: Position)
      requires Valid() && (ch == 'S' || ch == 'T')
      modifies this`scrolls
      ensures Valid() && Kept() == old(Kept())
      ensures Scrolled(ch, values[..], margins, p, old(Logged()), Logged())
    {
      var region := margins.bottom - margins.top;
      ScrollBy(ch == 'S', if values[0] > region then region else values[0]);
    }

    /** CSI b: the last character again, shifting the line before each in insert mode. */
    method RepeatCharacter()
      requires Valid()
      modifies this`reports, this`positions
      ensures Valid() && Repeated(Size(), Min(values[0], 65535), modes.insert, old(Logged()), Logged())
      ensures old(reports) <= reports
    {
      hide AllInside, AllWords, AllScrollable, LineShift, Inside;
      var count := if values[0] > 65535 then 65535 else values[0];
      var i := 0;
      ghost var seen: seq<Position> := [];
      while i < count
        invariant Valid() && i <= count && |seen| == if modes.insert then i else 0
        invariant reports == old(reports) + seen && positions == old(positions) + LineShifts(seen, cols)
      {
        if modes.insert {
          var p := GetCursorPos();
          ShiftLine(p);
          assert (seen + [p])[..|seen|] == seen;
          seen := seen + [p];
        }
        i := i + 1;
      }
      assert reports[|old(reports)|..] == seen;
    }

    method ShiftLine(p: Position)
      requires Valid() && Inside(p, cols, rows)
      modifies this`positions
      ensures Valid() && positions == old(positions) + LineShift(p, cols)
    {
      var j := cols - 1;
      while j > p.x
        invariant Valid() && p.x <= j < cols
        invariant positions + LineShift(p, j + 1) == old(positions) + LineShift(p, cols)
      {
        MoveCharacter(j, p.y, j - 1, p.y);
        j := j - 1;
      }
    }

    /** CSI r: new margins, or the whole grid when they do not make sense. */
    method SetMargins()
      requires Valid() && values[0] > 0 && values[1] > 0
      modifies this`margins, this`positions
      ensures Valid()
      ensures SetTo(Size(), 'r', values[..], valuesCount, lastWasGraphic, old(Kept()), old(Logged()), Kept(), Logged())
    {
      var t, b := 0, rows;
      if valuesCount > 0 {
        t := values[0] - 1;
      }
      if valuesCount > 1 {
        b := values[1];
      }
      assert b > 0;  // so that b - 1 does not wrap around
      if t >= rows || b > rows || t >= b - 1 {
        t, b := 0, rows;
      }
      margins := Margins(t, b);
      SetCursorPos(0, if modes.origin then margins.top else 0);
    }

    // ---------- the parser ----------

    /** mode_toggle, without its callback. */
    method ModeToggle(ch: char)
      requires Valid() && (ch == 'h' || ch == 'l')
      modifies this`modes
      ensures Valid()
      ensures SetTo(Size(), ch, values[..], valuesCount, lastWasGraphic, old(Kept()), old(Logged()), Kept(), Logged())
    {
      if valuesCount > 0 && values[0] == 4 {
        modes := modes.(insert := ch == 'h');
      }
    }

    /** The final bytes that move the cursor. */
    method FinishMove(ch: char, p: Position)
      requires Valid() && Inside(p, cols, rows) && Moves(ch)
      modifies this`positions, values
      ensures Valid() && Moved(Size(), ch, old(values[..]), Kept(), p, old(Logged()), Logged())
    {
      hide Moved, Inside, AllInside, AllWords, AllScrollable;
      match ch {
        case 'F' | 'A' => MoveUp(ch, p);
        case 'E' | 'e' | 'B' => MoveDown(ch, p);
        case 'd' => MoveToRow(p);
        case 'H' | 'f' => MoveTo(ch, p);
        case _ => MoveColumn(ch, p);
      }
    }

    /** Those that scroll. */
    method FinishScroll(ch: char, p: Position)
      requires Valid() && Inside(p, cols, rows) && Scrolls(ch)
      modifies this`margins, this`scrolls
      ensures Valid() && Kept() == old(Kept()) && Scrolled(ch, values[..], margins, p, old(Logged()), Logged())
    {
      if ch == 'M' || ch == 'L' {
        ScrollLines(ch, p);
      } else {
        ScrollRegion(ch, p);
      }
    }

    /** Those that erase, insert and delete. */
    method FinishErase(ch: char, p: Position)
      requires Valid() && Inside(p, cols, rows) && Erases(ch) && (ch == 'P' ==> values[0] > 0)
      modifies this`reports, this`positions, values
      ensures Valid() && Erased(Size(), ch, old(values[..]), p, old(Logged()), Logged()) && old(reports) <= reports
    {
      hide Inside, AllInside, AllWords, AllScrollable;
      if ch == 'X' {
        EraseCharacters(p);
        return;
      }
      hide Erased;
      match ch {
        case 'J' => EraseDisplay(p);
        case 'K' => EraseLine(p);
        case '@' => InsertBlanks(p);
        case _ => DeleteCharacters(p);
      }
    }

    /** Those that save, restore, set and repeat. */
    method FinishState(ch: char)
      requires Valid() && Sets(ch) && (ch == 'r' ==> values[0] > 0 && values[1] > 0)
      modifies this`reports, this`positions, this`margins, this`modes, this`savedCursor
      ensures Valid() && old(reports) <= reports
      ensures SetTo(Size(), ch, values[..], valuesCount, lastWasGraphic, old(Kept()), old(Logged()), Kept(), Logged())
    {
      hide AllInside, AllWords, AllScrollable, Repeated;
      match ch {
        case 's' => savedCursor := GetCursorPos();
        case 'u' => SetCursorPos(savedCursor.x, savedCursor.y);
        case 'r' => SetMargins();
        case 'b' =>
          if lastWasGraphic {
            RepeatCharacter();
          }
        case _ => ModeToggle(ch);
      }
    }

    /** The final byte of a control sequence; false when it is not one. */
    method Finish(ch: char, p: Position) returns (known: bool)
      requires Valid() && Inside(p, cols, rows)
      requires DefaultValue(ch) != 0 ==> forall i :: 0 <= i < MAX_ESC_VALUES ==> values[i] > 0
      modifies this`reports, this`positions, this`scrolls, this`margins, this`modes, this`savedCursor, values
      ensures Valid() && (known <==> 0x40 <= ch as int <= 0x7E) && old(reports) <= reports
      ensures known ==> Command(Size(), ch, old(values[..]), valuesCount, lastWasGraphic, old(Kept()), p, old(Logged()),
                                Kept(), Logged())
      ensures !known ==> Kept() == old(Kept()) && Logged() == old(Logged())
    {
      assert values.Length == MAX_ESC_VALUES;
      hide Valid, Moved, Scrolled, Erased, SetTo, Inside;
      known := true;
      if Moves(ch) {
        FinishMove(ch, p);
      } else if Scrolls(ch) {
        FinishScroll(ch, p);
      } else if Erases(ch) {
        FinishErase(ch, p);
      } else if Sets(ch) {
        FinishState(ch);
      } else {
        known := 0x40 <= ch as int <= 0x7E;
      }
    }

    /** What a value that was not given stands for. */
    function DefaultValue(ch: char): nat {
      if ch == 'J' || ch == 'K' || ch == 'q' || ch == 'm' || ch == 'c' || ch == ']' then 0 else 1
    }

    method SetParser(ps: Parser)
      requires Valid() && (ps.rrr ==> valuesCount < MAX_ESC_VALUES)
      modifies this`parser
      ensures Valid() && parser == ps
    {
      parser := ps;
    }

    method LeaveSequence(escape: bool)
      requires Valid()
      modifies this`parser
      ensures Valid() && parser == old(parser).(controlSequence := false, escape := escape)
    {
      parser := parser.(controlSequence := false, escape := escape);
    }

    method NotGraphic()
      requires Valid()
      modifies this`lastWasGraphic
      ensures Valid() && !lastWasGraphic
    {
      lastWasGraphic := false;
    }

    method SetCharsets(cs: Charsets)
      requires Valid() && cs.select <= 2 && |cs.sets| == 2 && cs.current < 2
      modifies this`charsets
      ensures Valid() && charsets == cs
    {
      charsets := cs;
    }

    /** A ';' or the byte that ends the values: a number being read is finished; whether it is the latter. */
    method FinishNumber(ch: char) returns (ended: bool)
      requires Valid()
      modifies this`parser, this`valuesCount, values
      ensures Valid() && (ended <==> ch != ';')
      ensures var ps, count := old(parser).(rrr := false), old(valuesCount) + if old(parser).rrr then 1 else 0;
              if ended || old(parser).rrr then Now() == old(Now()).(parser := ps, count := count)
              else Now() == if old(valuesCount) < MAX_ESC_VALUES
                            then old(Now()).(values := old(values[..])[old(valuesCount) := 0],
                                             count := old(valuesCount) + 1)
                            else old(Now())
    {
      if parser.rrr {
        valuesCount := valuesCount + 1;
        parser := parser.(rrr := false);
        return ch != ';';
      }
      if ch == ';' {
        NextValue();
        return false;
      }
      return true;
    }

    /** control_sequence_parse, from the values on, outside private and unknown sequences. */
    method EndPlain(ch: char)
      requires Valid()
      requires DefaultValue(ch) != 0 ==> forall i :: 0 <= i < MAX_ESC_VALUES ==> values[i] > 0
      modifies this`parser, this`reports, this`positions, this`scrolls, this`modes, this`margins, this`savedCursor,
               values
      ensures Valid() && EndedPlain(Size(), old(Now()), ch, old(values[..]), Now())
    {
      hide Command;
      var p := GetCursorPos();
      assert Reported(old(Logged()), p, Logged()) && p.x < cols && p.y < rows;
      assert !parser.rrr || valuesCount < MAX_ESC_VALUES;
      if ch as int == 0x1b {
        parser := parser.(controlSequence := false, escapeOffset := 0);
        return;
      }
      assert Logged() == old(Logged()).(reports := old(reports) + [p]);
      hide Valid, Inside;
      var known := Finish(ch, p);
      if known {
        LeaveSequence(false);
      } else {
        SetParser(parser.(csiUnhandled := true));
      }
    }

    /** And in those. */
    method EndOther(ch: char)
      requires Valid() && (parser.decPrivate || parser.csiUnhandled)
      modifies this`parser, this`reports, this`positions, this`scrolls, this`charsets, this`modes, this`saved,
               this`margins
      ensures Valid() && Ended(Size(), old(Now()), ch, values[..], Now())
    {
      hide Inside, AllInside, AllWords, AllScrollable, EndedPlain, PrivateSet;
      if parser.decPrivate {
        DecPrivateParse(ch);
        LeaveSequence(false);
      } else if ch as int == 0x1b {
        parser := parser.(csiUnhandled := false, controlSequence := false, escapeOffset := 0);
      } else if 0x40 <= ch as int <= 0x7E {
        parser := parser.(csiUnhandled := false);
        LeaveSequence(false);
      }
    }

    /** control_sequence_parse, from the values on. */
    method EndSequence(ch: char) returns (ghost v: seq<nat>)
      requires Valid()
      modifies this`parser, this`reports, this`positions, this`scrolls, this`charsets, this`modes, this`saved,
               this`margins, this`savedCursor, values
      ensures Valid()
      ensures |v| == MAX_ESC_VALUES && Filled(ch, old(values[..]), old(valuesCount), v)
      ensures Ended(Size(), old(Now()), ch, v, Now())
    {
      FillDefaults(DefaultValue(ch));
      v := values[..];
      assert Filled(ch, old(values[..]), valuesCount, v) && |v| == MAX_ESC_VALUES;
      hide Valid, Filled, EndedPlain, PrivateSet;
      if parser.decPrivate || parser.csiUnhandled {
        EndOther(ch);
      } else {
        EndPlain(ch);
      }
      assert Ended(Size(), old(Now()), ch, v, Now());
    }

    method ControlSequenceParse(ch: char)
      requires Valid()
      modifies this`parser, this`reports, this`positions, this`scrolls, this`charsets, this`valuesCount, this`modes,
               this`saved, this`margins, this`savedCursor, values
      ensures Valid() && InSequence(Size(), old(Now()), ch, Now())
    {
      assert valuesCount <= MAX_ESC_VALUES == values.Length;
      hide Valid, Controlled, OneMoreDigit, NumberEnded;
      if parser.escapeOffset == 2 && ch == '[' {
        SetParser(parser.(discardNext := true, controlSequence := false, escape := false));
      } else if parser.escapeOffset == 2 && ch == '?' {
        SetParser(parser.(decPrivate := true));
      } else if (ch as int) < 0x20 && ch as int != 0x1b {
        var _ := ExecuteC0(ch);
      } else if '0' <= ch <= '9' {
        ReadDigit(ch);
      } else {
        NumberParse(ch);
      }
    }

    /** control_sequence_parse, for a ';' or the byte that ends the values. */
    method NumberParse(ch: char)
      requires Valid()
      modifies this`parser, this`reports, this`positions, this`scrolls, this`charsets, this`valuesCount, this`modes,
               this`saved, this`margins, this`savedCursor, values
      ensures Valid() && NumberEnded(Size(), old(Now()), ch, Now())
    {
      assert valuesCount <= MAX_ESC_VALUES == values.Length && (parser.rrr ==> valuesCount < MAX_ESC_VALUES);
      hide Valid, Filled, Ended;
      var ended := FinishNumber(ch);
      if ended {
        ghost var v := EndSequence(ch);
      }
    }

    /** A ';' without a number in front of it: the value is zero. */
    method NextValue()
      requires Valid() && !parser.rrr
      modifies this`valuesCount, values
      ensures Valid()
      ensures Now() == if old(valuesCount) < MAX_ESC_VALUES
                       then old(Now()).(values := old(values[..])[old(valuesCount) := 0], count := old(valuesCount) + 1)
                       else old(Now())
    {
      if valuesCount < MAX_ESC_VALUES {
        ghost var was := values[..];
        values[valuesCount] := 0;
        assert values[..] == was[valuesCount := 0];
        valuesCount := valuesCount + 1;
      }
    }

    /** escape_parse's '[': the values start again. */
    method BeginSequence()
      requires Valid()
      modifies this`valuesCount, this`parser, values
      ensures Valid()
      ensures Now() == old(Now()).(values := seq(MAX_ESC_VALUES, _ => 0), count := 0,
                                   parser := old(parser).(rrr := false, csiUnhandled := false, controlSequence := true))
    {
      var i := 0;
      while i < MAX_ESC_VALUES
        invariant Valid() && i <= MAX_ESC_VALUES && parser == old(parser)
        invariant forall k :: 0 <= k < i ==> values[k] == 0
      {
        ghost var was := values[..];
        values[i] := 0;
        assert values[..] == was[i := 0];
        i := i + 1;
      }
      valuesCount := 0;
      parser := parser.(rrr := false, csiUnhandled := false, controlSequence := true);
    }

    /** ESC D, E and M: a line further down or up, and what scrolls when there is none within the margins. */
    method ChangeLine(ch: char, p: Position)
      requires Valid() && Inside(p, cols, rows) && (ch == 'D' || ch == 'E' || ch == 'M')
      modifies this`positions, this`scrolls
      ensures Valid() && Escaped(Size(), ch, Kept(), p, old(Logged()), Kept(), Logged())
    {
      hide AllInside, AllWords, AllScrollable;
      if ch == 'M' {
        if p.y == margins.top {
          Scroll(false);
          SetCursorPos(p.x, p.y);
        } else if p.y > 0 {
          SetCursorPos(p.x, p.y - 1);
        }
      } else if ch == 'E' && p.y == rows - 1 && p.y != margins.bottom - 1 {
        SetCursorPos(0, p.y);
      } else {
        LineFeed(p, if ch == 'E' then 0 else p.x);
      }
    }

    /** escape_parse, for a byte behind the escape that ends it. */
    method SimpleEscape(ch: char, p: Position)
      requires Valid() && decoder == AT_REST && Inside(p, cols, rows)
      modifies this`tabSize, this`modes, this`parser, this`valuesCount, this`charsets, this`margins, this`savedCursor,
               this`saved, this`lastWasGraphic, this`decoder, this`positions, this`scrolls
      ensures Valid() && decoder == AT_REST && Escaped(Size(), ch, old(Kept()), p, old(Logged()), Kept(), Logged())
      ensures parser == if ch == 'c' then IDLE else old(parser).(escape := false)
      ensures valuesCount == if ch == 'c' then 0 else old(valuesCount)
      ensures lastWasGraphic == (old(lastWasGraphic) && ch != 'c')
    {
      assert parser.rrr ==> valuesCount < MAX_ESC_VALUES;
      hide Valid, Inside, Escaped;
      RunEscape(ch, p);
      SetParser(parser.(escape := false));
    }

    /** All of it but the end of the escape. */
    method RunEscape(ch: char, p: Position)
      requires Valid() && decoder == AT_REST && Inside(p, cols, rows)
      modifies this`tabSize, this`modes, this`parser, this`valuesCount, this`charsets, this`margins, this`savedCursor,
               this`saved, this`lastWasGraphic, this`decoder, this`positions, this`scrolls
      ensures Valid() && decoder == AT_REST && Escaped(Size(), ch, old(Kept()), p, old(Logged()), Kept(), Logged())
      ensures parser == if ch == 'c' then IDLE else old(parser)
      ensures valuesCount == if ch == 'c' then 0 else old(valuesCount)
      ensures lastWasGraphic == (old(lastWasGraphic) && ch != 'c')
    {
      hide Valid, Inside, Escaped;
      if ch == 'c' {
        Reset();
      } else if ch == 'D' || ch == 'E' || ch == 'M' {
        ChangeLine(ch, p);
      } else {
        SwitchState(ch, p);
      }
    }

    /** ESC c. */
    method Reset()
      requires Valid()
      modifies this`tabSize, this`modes, this`parser, this`valuesCount, this`charsets, this`margins, this`savedCursor,
               this`saved, this`lastWasGraphic, this`decoder
      ensures Valid() && decoder == AT_REST && parser == IDLE && valuesCount == 0 && !lastWasGraphic
      ensures forall p: Position :: Escaped(Size(), 'c', old(Kept()), p, old(Logged()), Kept(), Logged())
    {
      hide Valid;
      Reinit();
      SaveState();
    }

    /** ESC 7, 8, ( and ), and those that mean nothing. */
    method SwitchState(ch: char, p: Position)
      requires Valid() && ch != 'c' && ch != 'D' && ch != 'E' && ch != 'M'
      modifies this`modes, this`charsets, this`margins, this`saved
      ensures Valid() && Escaped(Size(), ch, old(Kept()), p, old(Logged()), Kept(), Logged())
    {
      hide AllInside, AllWords, AllScrollable;
      match ch {
        case '7' => SaveState();
        case '8' => RestoreState();
        case '(' => charsets := charsets.(select := 1);
        case ')' => charsets := charsets.(select := 2);
        case _ =>
      }
    }

    /** escape_parse, outside control sequences and commands. */
    method BehindEscape(ch: char)
      requires Valid() && decoder == AT_REST
      modifies this, values
      ensures Valid() && decoder == AT_REST && values == old(values) && stream == old(stream)
      ensures InEscape(Size(), old(Now()), ch, Now())
    {
      hide Escaped, AllInside, AllWords, AllScrollable;
      var p := GetCursorPos();
      if ch as int == 0x1b {
        parser := parser.(escapeOffset := 0);
      } else if ch == ']' {
        parser := parser.(oscEscape := false, osc := true);
        oscCount := 0;
      } else if ch == '[' {
        BeginSequence();
      } else {
        SimpleEscape(ch, p);
      }
    }

    /** escape_parse. */
    method EscapeParse(ch: char)
      requires Valid() && decoder == AT_REST
      modifies this, values
      ensures Valid() && decoder == AT_REST && values == old(values) && stream == old(stream)
      ensures Escaping(Size(), old(Now()), ch, Now())
    {
      hide InEscape, InSequence, InCommand, AllInside, AllWords, AllScrollable;
      parser := parser.(escapeOffset := parser.escapeOffset + 1);
      if parser.osc {
        var taken := OscParse(ch);
        if taken {
          return;
        }
        parser := parser.(escapeOffset := 1);
      }
      ParseFurther(ch);
    }

    /** escape_parse, outside operating system commands. */
    method ParseFurther(ch: char)
      requires Valid() && decoder == AT_REST
      modifies this, values
      ensures Valid() && decoder == AT_REST && values == old(values) && stream == old(stream)
      ensures if old(parser).controlSequence then InSequence(Size(), old(Now()), ch, Now())
              else InEscape(Size(), old(Now()), ch, Now())
    {
      hide Valid, InEscape, InSequence;
      if parser.controlSequence {
        ControlSequenceParse(ch);
      } else {
        BehindEscape(ch);
      }
    }

    // ---------- one byte ----------

    /** Putting a glyph out, after making room for it. */
    method PutGlyph(width: nat)
      requires Valid()
      modifies this`reports, this`positions, this`lastWasGraphic
      ensures Valid() && lastWasGraphic && RoomMade(Size(), modes.insert, width, old(Logged()), Logged())
    {
      InsertShift(width);
      lastWasGraphic := true;
    }

    /** The byte behind ESC ( or ESC ), which chooses a character set for that slot. */
    method SelectSet(k: nat)
      requires Valid() && charsets.select > 0
      modifies this`charsets
      ensures Valid()
      ensures var cs := old(charsets);
              charsets == Charsets(0, if k == 'B' as int then cs.sets[cs.select - 1 := 0]
                                      else if k == '0' as int then cs.sets[cs.select - 1 := 1] else cs.sets, cs.current)
    {
      var slot := charsets.select - 1;
      if k == 'B' as int {
        charsets := charsets.(sets := charsets.sets[slot := 0]);
      } else if k == '0' as int {
        charsets := charsets.(sets := charsets.sets[slot := 1]);
      }
      charsets := charsets.(select := 0);
    }

    /** flanterm_putchar for a byte that is not part of a multi-byte sequence. */
    method PutSingle(c: bv8)
      requires Valid() && decoder == AT_REST
      modifies this, values
      ensures Valid() && decoder == AT_REST && values == old(values) && stream == old(stream)
      ensures Single(Size(), old(Now()), c as nat, Now())
    {
      assert valuesCount <= MAX_ESC_VALUES == values.Length && (parser.rrr ==> valuesCount < MAX_ESC_VALUES);
      assert charsets.select <= 2 == |charsets.sets| && tabSize > 0;
      hide Valid, Escaping, Plain;
      var k := Code(c);
      if parser.escape {
        EscapeParse(k as char);
      } else {
        PutOutside(k);
      }
    }

    /** Outside escape sequences, but perhaps behind ESC ( or ESC ). */
    method PutOutside(k: nat)
      requires Valid() && !parser.escape && k < 256
      modifies this`parser, this`charsets, this`reports, this`positions, this`scrolls, this`lastWasGraphic
      ensures Valid() && Single(Size(), old(Now()), k, Now())
    {
      assert |charsets.sets| == 2 && charsets.current < 2;
      hide Valid, Plain;
      if charsets.select > 0 {
        if k <= 0x1f || k == 0x7f {
          SetCharsets(charsets.(select := 0));
        } else {
          SelectSet(k);
          return;
        }
      }
      PutPlain(k);
    }

    /** And outside escape sequences. */
    method PutPlain(k: nat)
      requires Valid() && k < 256
      modifies this`parser, this`charsets, this`reports, this`positions, this`scrolls, this`lastWasGraphic
      ensures Valid() && Plain(Size(), old(Now()), k, Now())
    {
      assert (parser.rrr ==> valuesCount < MAX_ESC_VALUES) && tabSize > 0;
      hide Valid, Controlled, RoomMade;
      if (k <= 0x1f && k != 0x1b) || k == 0x7f {
        NotGraphic();
      }
      if k == 0x1b {
        SetParser(parser.(escapeOffset := 0, escape := true));
      } else if k < 0x20 {
        if k == 0 {
          NothingControlled(Size(), Kept(), Logged());
          return;
        }
        var _ := ExecuteC0(k as char);
      } else if k != 0x7f {
        PutGlyph(1);
      }
    }

    /**
     flanterm_putchar: whatever the byte, everything stays within its bounds, it does what it means, and a code point
     is dispatched exactly when the decoder dispatches one on the stream so far. `width` is the width of its glyph,
     zero for none.
     */
    method PutChar(c: bv8, width: nat) returns (dispatched: Option<bv32>)
      requires Valid() && decoder == Run(stream)
      modifies this, values
      ensures Valid() && values == old(values) && decoder == Run(stream)
      ensures stream == old(stream) + [Input(c, old(parser.discardNext))]
      ensures dispatched == Dispatched(stream)
      ensures Meant(Size(), old(Now()), c, old(decoder).remaining != 0, decoder == AT_REST, dispatched.Some?, width,
                    Now())
    {
      hide Decoded, Cancelled, AllInside, AllWords, AllScrollable;
      var discard := parser.discardNext;
      var before := decoder;
      var r := Step(before, Input(c, discard));
      StepRange(before, Input(c, discard));
      RunMore(stream, Input(c, discard));
      stream := stream + [Input(c, discard)];
      dispatched := r.1;
      decoder := r.0;
      hide Step, Run, Dispatched;
      if discard || c == 0x18 || c == 0x1a {
        Cancel();
      } else {
        PutDecoded(c, before.remaining != 0, r.1.Some?, width);
      }
    }

    /** A discarded byte, or one that cancels, ends whatever was under way. */
    method Cancel()
      requires Valid()
      modifies this`parser, this`charsets, this`lastWasGraphic
      ensures Valid() && Cancelled(old(Now()), Now())
    {
      parser := parser.(discardNext := false, escape := false, controlSequence := false, osc := false,
                        oscEscape := false);
      charsets := charsets.(select := 0);
      lastWasGraphic := false;
    }

    /** flanterm_putchar once the decoder has made its step. */
    method PutDecoded(c: bv8, waiting: bool, dispatched: bool, width: nat)
      requires Valid()
      modifies this, values
      ensures Valid() && decoder == old(decoder) && values == old(values) && stream == old(stream)
      ensures Decoded(Size(), old(Now()), c, waiting, decoder == AT_REST, dispatched, width, Now())
    {
      assert charsets.select <= 2 == |charsets.sets| && charsets.current < 2 && tabSize > 0;
      assert valuesCount <= MAX_ESC_VALUES == values.Length && (parser.rrr ==> valuesCount < MAX_ESC_VALUES);
      hide Valid, Single, RoomMade;
      NoRoom(Size(), modes.insert, Logged());
      if waiting {
        if c & 0xc0 != 0x80 {
          InsertShift(1);
        } else if dispatched {
          if width > 0 {
            PutGlyph(width);
          }
          return;
        }
      }
      ghost var l := Logged();
      assert RoomMade(Size(), modes.insert, if waiting && c & 0xc0 != 0x80 then 1 else 0, old(Logged()), l);
      if decoder == AT_REST {
        PutSingle(c);
      } else if 0xc2 <= c <= 0xf4 {
        SetCharsets(charsets.(select := 0));
      }
    }

    /** flanterm_write: any bytes at all, glyph widths as they may be. */
    method Write(bytes: seq<bv8>, widths: seq<nat>)
      requires Valid() && decoder == Run(stream) && |widths| == |bytes|
      modifies this, values
      ensures Valid() && values == old(values) && decoder == Run(stream)
      ensures |stream| == |old(stream)| + |bytes| && old(stream) <= stream
      ensures forall i :: 0 <= i < |bytes| ==> stream[|old(stream)| + i].byte == bytes[i]
    {
      var i := 0;
      while i < |bytes|
        invariant i <= |bytes| && Valid() && values == old(values) && decoder == Run(stream)
        invariant |stream| == |old(stream)| + i && old(stream) <= stream
        invariant forall k :: 0 <= k < i ==> stream[|old(stream)| + k].byte == bytes[k]
      {
        var _ := PutChar(bytes[i], widths[i]);
        i := i + 1;
      }
    }
  }

  // ---------- what a byte means ----------

  /** A discarded byte, or one that cancels, ends every sequence. */
  predicate Cancelled(a: View, b: View) {
    b == a.(parser := a.parser.(discardNext := false, escape := false, controlSequence := false, osc := false,
                                oscEscape := false),
            settings := a.settings.(charsets := a.settings.charsets.(select := 0)), graphic := false)
  }

  /**
   A byte in the middle of a sequence of bytes or not: a code point makes room for its glyph; a sequence broken off
   makes room for the sign put in its place, and its byte is then looked at afresh; one that begins or goes on a
   sequence does nothing more; any other is taken by itself.
   */
  ghost predicate Decoded(g: Grid, a: View, c: bv8, waiting: bool, atRest: bool, dispatched: bool, width: nat, b: View)
    requires |a.values| == MAX_ESC_VALUES && a.count <= MAX_ESC_VALUES
    requires (a.parser.rrr ==> a.count < MAX_ESC_VALUES) && a.settings.tabSize > 0
    requires a.settings.charsets.select <= |a.settings.charsets.sets|
  {
    var broken := waiting && c & 0xc0 != 0x80;
    if waiting && !broken && dispatched then
      && RoomMade(g, a.settings.modes.insert, width, a.log, b.log)
      && b == a.(log := b.log, graphic := a.graphic || width > 0)
    else if atRest then
      exists l :: RoomMade(g, a.settings.modes.insert, if broken then 1 else 0, a.log, l) &&
        Single(g, a.(log := l), c as nat, b)
    else
      && RoomMade(g, a.settings.modes.insert, if broken then 1 else 0, a.log, b.log)
      && b == a.(log := b.log,
                 settings := if 0xc2 <= c <= 0xf4 then a.settings.(charsets := a.settings.charsets.(select := 0))
                             else a.settings)
  }

  /** Any byte. */
  ghost predicate Meant(g: Grid, a: View, c: bv8, waiting: bool, atRest: bool, dispatched: bool, width: nat, b: View)
    requires |a.values| == MAX_ESC_VALUES && a.count <= MAX_ESC_VALUES
    requires (a.parser.rrr ==> a.count < MAX_ESC_VALUES) && a.settings.tabSize > 0
    requires a.settings.charsets.select <= |a.settings.charsets.sets|
  {
    if a.parser.discardNext || c == 0x18 || c == 0x1a then Cancelled(a, b)
    else Decoded(g, a, c, waiting, atRest, dispatched, width, b)
  }

  /** The run and the dispatch one byte further on. */
  lemma RunMore(xs: seq<Input>, x: Input)
    ensures Run(xs + [x]) == Step(Run(xs), x).0 && Dispatched(xs + [x]) == Step(Run(xs), x).1
  {
    assert (xs + [x])[..|xs|] == xs;
  }

  /** A step never leaves more than three bytes to come; what is discarded or cancelled leaves none. */
  lemma StepRange(d: Decoder, x: Input)
    requires d.remaining <= 3
    ensures var r := Step(d, x);
            && r.0.remaining <= 3
            && (x.discard || x.byte == 0x18 || x.byte == 0x1a ==> r == (AT_REST, None))
            && (r.1.Some? ==> d.remaining != 0 && x.byte & 0xc0 == 0x80)
  {
  }
}
