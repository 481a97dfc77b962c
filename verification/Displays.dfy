/** One terminal as a display of its own: an 80x25 screen, a cursor, a line editor. `Console`
    multiplexes three of these over one video page. */
module Displays {
  import opened Common
  import opened Strings

  const COLS := 80
  const ROWS := 25
  const CELLS := 2000
  const PAGE_CELLS := 2048
  const ATTRIB: byte := 7
  const CARRIAGE: byte := 13

  /** A character and its attribute, two bytes of text memory. */
  datatype Cell = Cell(ch: byte, attr: byte)

  const BLANK := Cell(SPACE, ATTRIB)

  /** A 4 KB page of text memory; the screen is its first 2000 cells. */
  type Page = seq<Cell>

  datatype Term = Term(x: int, y: int, kb: Bytes, flag: bool, index: nat,
                       shift: bool, caps: bool, ctrl: bool, alt: bool)

  datatype Display = Display(page: Page, term: Term) {

    function Linear(): int { COLS * term.y + term.x }

    ghost predicate LineOk() {
      |page| == PAGE_CELLS && |term.kb| == BUF_LENGTH && 0 <= term.x <= COLS && 0 <= term.y < ROWS
    }

    ghost predicate CursorOk() { LineOk() && term.x < COLS }

    /** The line editor is within its buffer and never further than the cursor has come: there is
        always a cell on the screen for every character that backspace may take back. */
    ghost predicate Ok() {
      && CursorOk()
      && term.index <= BUF_LENGTH && (!term.flag ==> term.index < BUF_LENGTH)
      && term.index <= Linear()
    }
  }

  // ----- output -----

  function Scroll(p: Page): (r: Page)
    requires |p| == PAGE_CELLS
    ensures |r| == PAGE_CELLS
  {
    seq(PAGE_CELLS, i requires 0 <= i < PAGE_CELLS =>
      if i < CELLS - COLS then Cell(p[i + COLS].ch, ATTRIB) else if i < CELLS then BLANK else p[i])
  }

  function Cleared(p: Page): (r: Page)
    requires |p| == PAGE_CELLS
    ensures |r| == PAGE_CELLS
  {
    seq(PAGE_CELLS, i requires 0 <= i < PAGE_CELLS => if i < CELLS then BLANK else p[i])
  }

  /** `new_line`, also called with the cursor one past the last column. */
  ghost function NewLine(d: Display): (r: Display)
    requires d.LineOk()
    ensures r.CursorOk() && r.term == d.term.(x := 0, y := r.term.y)
    ensures r.Linear() >= d.Linear() || r.Linear() == CELLS - COLS
    ensures d.CursorOk() ==> r.Linear() > d.Linear() || r.Linear() == CELLS - COLS
  {
    if d.term.y == ROWS - 1 then Display(Scroll(d.page), d.term.(x := 0))
    else d.(term := d.term.(x := 0, y := d.term.y + 1))
  }

  ghost function Put(d: Display, c: byte): (r: Display)
    requires d.CursorOk()
    ensures r.CursorOk() && r.term == d.term.(x := r.term.x, y := r.term.y)
    ensures r.Linear() > d.Linear() || r.Linear() == CELLS - COLS
  {
    if c == NEWLINE || c == CARRIAGE then NewLine(d)
    else
      var e := Display(d.page[d.Linear() := Cell(c, ATTRIB)], d.term.(x := d.term.x + 1));
      if e.term.x == COLS then NewLine(e) else e
  }

  ghost function PutAll(d: Display, s: Bytes): (r: Display)
    requires d.CursorOk()
    ensures r.CursorOk() && r.term == d.term.(x := r.term.x, y := r.term.y)
    ensures r.Linear() >= d.Linear() + |s| || r.Linear() >= CELLS - COLS
    decreases |s|
  {
    if s == [] then d else PutAll(Put(d, s[0]), s[1..])
  }

  /** Writing to a terminal keeps its line editor in order. */
  lemma PutAllOk(d: Display, s: Bytes)
    requires d.Ok()
    ensures PutAll(d, s).Ok()
  {
  }

  // ----- keys -----

  const CTRL := 29
  const ALT := 56
  const L_KEY := 38
  const BACK_SPACE := 14
  const ENTER := 28
  const LEFT_SHIFT := 42
  const RIGHT_SHIFT := 54
  const CAPS_LOCK := 58
  const F1 := 59
  const F2 := 60
  const F3 := 61
  const CAP_OFFSET := 90
  const RELEASE := 128

  /** A row of the key table: the codes of consecutive keys, the first of them `first`. */
  function InRow(first: nat, row: Bytes, key: nat): byte
    requires first <= key < first + |row|
  {
    row[key - first]
  }

  /** The first half of `kbdus`. */
  function PlainKey(key: nat): byte {
    if 2 <= key < 14 then InRow(2, [49, 50, 51, 52, 53, 54, 55, 56, 57, 48, 45, 61], key)
    else if 16 <= key < 29 then InRow(16, [113, 119, 101, 114, 116, 121, 117, 105, 111, 112, 91, 93, 10], key)
    else if 30 <= key < 42 then InRow(30, [97, 115, 100, 102, 103, 104, 106, 107, 108, 59, 39, 96], key)
    else if 43 <= key < 54 then InRow(43, [92, 122, 120, 99, 118, 98, 110, 109, 44, 46, 47], key)
    else OtherKey(key)
  }

  /** The second half, from entry 90 on. */
  function ShiftedKey(key: nat): byte {
    if 2 <= key < 14 then InRow(2, [33, 64, 35, 36, 37, 94, 38, 42, 40, 41, 95, 43], key)
    else if 16 <= key < 29 then InRow(16, [81, 87, 69, 82, 84, 89, 85, 73, 79, 80, 123, 125, 10], key)
    else if 30 <= key < 42 then InRow(30, [65, 83, 68, 70, 71, 72, 74, 75, 76, 58, 34, 126], key)
    else if 43 <= key < 54 then InRow(43, [124, 90, 88, 67, 86, 66, 78, 77, 60, 62, 63], key)
    else OtherKey(key)
  }

  /** Keys with the same entry in both halves. */
  function OtherKey(key: nat): byte {
    match key
    case 1 => 27
    case 14 => 8
    case 15 => 9
    case 55 => 42
    case 57 => 32
    case 74 => 45
    case 78 => 43
    case _ => 0
  }

  function Kbdus(code: nat): byte {
    if code < CAP_OFFSET then PlainKey(code)
    else if code < 2 * CAP_OFFSET then ShiftedKey(code - CAP_OFFSET)
    else 0
  }

  predicate InCharRange(sc: nat) { 16 <= sc <= 25 || 30 <= sc <= 38 || 44 <= sc <= 50 }

  /** `print_scancode`: echoes a character and stores it, unless the buffer is full or the line done. */
  ghost function PrintScancode(d: Display, code: nat): (r: Display)
    requires d.Ok()
    ensures r.CursorOk() && r.term.flag == d.term.flag
    ensures r.term.index <= BUF_LENGTH && r.term.index <= r.Linear()
    ensures code != ENTER ==> r.Ok()
  {
    if (d.term.index >= BUF_LENGTH - 1 && code != ENTER) || d.term.flag then d
    else
      var e := Put(d, Kbdus(code));
      e.(term := e.term.(kb := e.term.kb[e.term.index := Kbdus(code)], index := e.term.index + 1))
  }

  ghost function BackSpace(d: Display): (r: Display)
    requires d.CursorOk() && d.Linear() > 0
    ensures r.CursorOk() && r.Linear() == d.Linear() - 1
    ensures r.term == d.term.(x := r.term.x, y := r.term.y)
    ensures r.page == d.page[r.Linear() := d.page[r.Linear()].(ch := SPACE)]
  {
    var t := if d.term.x == 0 then d.term.(x := COLS - 1, y := d.term.y - 1) else d.term.(x := d.term.x - 1);
    var at := COLS * t.y + t.x;
    Display(d.page[at := d.page[at].(ch := SPACE)], t)
  }

  /** Ctrl-L: clears the screen and echoes the pending line at the top. */
  ghost function Redraw(d: Display): (r: Display)
    requires d.Ok()
    ensures r.Ok()
  {
    PutAll(Display(Cleared(d.page), d.term.(x := 0, y := 0)), d.term.kb[..d.term.index])
  }

  /** Text without line breaks that ends before the last cell is written cell by cell. */
  lemma {:induction false} PutAllPlain(d: Display, s: Bytes)
    requires d.CursorOk() && d.Linear() + |s| < CELLS && NEWLINE !in s && CARRIAGE !in s
    ensures var r := PutAll(d, s);
            && r.Linear() == d.Linear() + |s|
            && forall i :: 0 <= i < PAGE_CELLS ==>
                 r.page[i] == if d.Linear() <= i < d.Linear() + |s| then Cell(s[i - d.Linear()], ATTRIB) else d.page[i]
    decreases |s|
  {
    if s != [] {
      assert s[0] in s;
      var e := Put(d, s[0]);
      assert e.Linear() == d.Linear() + 1 && e.page == d.page[d.Linear() := Cell(s[0], ATTRIB)];
      hide Put;
      PutAllPlain(e, s[1..]);
      forall i | 0 <= i < PAGE_CELLS
        ensures PutAll(d, s).page[i]
                == if d.Linear() <= i < d.Linear() + |s| then Cell(s[i - d.Linear()], ATTRIB) else d.page[i]
      {
        if d.Linear() < i < d.Linear() + |s| { assert s[1..][i - d.Linear() - 1] == s[i - d.Linear()]; }
      }
    }
  }

  /** After Ctrl-L the screen shows the pending line, nothing else, and the cursor is behind it. */
  lemma RedrawShows(d: Display)
    requires d.Ok() && NEWLINE !in d.term.kb[..d.term.index] && CARRIAGE !in d.term.kb[..d.term.index]
    ensures Redraw(d).Linear() == d.term.index
    ensures forall i :: 0 <= i < CELLS ==>
              Redraw(d).page[i] == if i < d.term.index then Cell(d.term.kb[i], ATTRIB) else BLANK
  {
    hide PutAll;
    PutAllPlain(Display(Cleared(d.page), d.term.(x := 0, y := 0)), d.term.kb[..d.term.index]);
  }

  lemma {:induction false} PutAllAppend(d: Display, s: Bytes, t: Bytes)
    requires d.CursorOk()
    ensures PutAll(d, s + t) == PutAll(PutAll(d, s), t)
    decreases |s|
  {
    if s == [] {
      assert s + t == t;
    } else {
      hide Put;
      assert (s + t)[1..] == s[1..] + t;
      PutAllAppend(Put(d, s[0]), s[1..], t);
    }
  }

  /** A line that was finished before its read is still pending, with its line break: Ctrl-L shows it
      and puts the cursor at the start of the next row. */
  lemma RedrawFinished(d: Display)
    requires d.Ok() && d.term.index > 0 && d.term.kb[d.term.index - 1] == NEWLINE
    requires NEWLINE !in d.term.kb[..d.term.index - 1] && CARRIAGE !in d.term.kb[..d.term.index - 1]
    ensures Redraw(d).Linear() == COLS * ((d.term.index - 1) / COLS + 1)
    ensures forall i :: 0 <= i < CELLS ==>
              Redraw(d).page[i] == if i < d.term.index - 1 then Cell(d.term.kb[i], ATTRIB) else BLANK
  {
    hide PutAll, Put, Cleared;
    var start, line := Display(Cleared(d.page), d.term.(x := 0, y := 0)), d.term.kb[..d.term.index - 1];
    assert d.term.kb[..d.term.index] == line + [NEWLINE];
    PutAllPlain(start, line);
    PutAllAppend(start, line, [NEWLINE]);
    var e := PutAll(start, line);
    OneByte(e, NEWLINE);
    Break(e);
    ClearedBlank(d.page);
  }

  lemma ClearedBlank(p: Page)
    requires |p| == PAGE_CELLS
    ensures forall i :: 0 <= i < CELLS ==> Cleared(p)[i] == BLANK
  {
  }

  /** A line break before the last row. */
  lemma Break(d: Display)
    requires d.CursorOk() && d.term.y < ROWS - 1
    ensures Put(d, NEWLINE).page == d.page && d.Linear() / COLS == d.term.y
    ensures Put(d, NEWLINE).Linear() == COLS * (d.term.y + 1)
  {
  }

  lemma OneByte(d: Display, c: byte)
    requires d.CursorOk()
    ensures PutAll(d, [c]) == Put(d, c)
  {
    hide Put;
    assert PutAll(Put(d, c), [c][1..]) == Put(d, c);
  }

  /** The index a character key passes to `print_scancode`. */
  function CharCode(t: Term, sc: nat): nat {
    if t.caps && t.shift && InCharRange(sc) then sc
    else if t.caps && !t.shift && InCharRange(sc) then sc + CAP_OFFSET
    else if t.shift then sc + CAP_OFFSET
    else sc
  }

  predicate SwitchKey(t: Term, sc: nat) { sc != CTRL && t.alt && F1 <= sc <= F3 }

  /** Keys that are not characters, apart from the terminal switch. */
  predicate ControlKey(t: Term, sc: nat) {
    sc == CTRL || (sc == L_KEY && t.ctrl) || sc == BACK_SPACE || sc == ALT || sc == ENTER
    || sc == LEFT_SHIFT || sc == RIGHT_SHIFT || sc == CAPS_LOCK
  }

  /** `recent_release_exec` on the terminal on display, for every key but a terminal switch. */
  ghost function KeyDown(d: Display, sc: nat): (r: Display)
    requires d.Ok() && !SwitchKey(d.term, sc)
    ensures r.Ok()
  {
    hide PrintScancode, Redraw, BackSpace;
    if sc == CTRL then d.(term := d.term.(ctrl := true))
    else if sc == L_KEY && d.term.ctrl then Redraw(d)
    else if sc == BACK_SPACE then
      (if d.term.index == 0 then d
       else BackSpace(d.(term := d.term.(index := d.term.index - 1))))
    else if sc == ALT then d.(term := d.term.(alt := true))
    else if sc == ENTER then
      var e := PrintScancode(d, ENTER);
      e.(term := e.term.(flag := true))
    else if sc == LEFT_SHIFT || sc == RIGHT_SHIFT then d.(term := d.term.(shift := true))
    else if sc == CAPS_LOCK then d.(term := d.term.(caps := !d.term.caps))
    else PrintScancode(d, CharCode(d.term, sc))
  }

  /** `after_release_exec`. */
  ghost function KeyUp(d: Display, sc: nat): (r: Display)
    requires d.Ok()
    ensures r.Ok()
  {
    if sc == LEFT_SHIFT + RELEASE || sc == RIGHT_SHIFT + RELEASE then d.(term := d.term.(shift := false))
    else if sc == CTRL + RELEASE then d.(term := d.term.(ctrl := false))
    else if sc == ALT + RELEASE then d.(term := d.term.(alt := false))
    else d
  }

  // ----- what keys and output mean -----

  /** A line break, of either kind, starts the next row; in the last row everything moves up by one row
      and the cursor stays in the last one, whose cells are blank. */
  lemma PutBreak(d: Display, c: byte)
    requires d.CursorOk() && c in {10, 13}
    ensures Put(d, c).term == d.term.(x := 0, y := if d.term.y == 24 then 24 else d.term.y + 1)
    ensures d.term.y < 24 ==> Put(d, c).page == d.page
    ensures d.term.y == 24 ==> MovedUp(d.page, Put(d, c).page)
  {
  }

  /** Any other byte goes under the cursor, which moves right; behind the last column a row begins. */
  lemma PutOther(d: Display, c: byte)
    requires d.CursorOk() && c !in {10, 13}
    ensures var r, written := Put(d, c), d.page[80 * d.term.y + d.term.x := Cell(c, 7)];
            if d.term.x < 79 then r == Display(written, d.term.(x := d.term.x + 1))
            else if d.term.y < 24 then r == Display(written, d.term.(x := 0, y := d.term.y + 1))
            else MovedUp(written, r.page) && r.term == d.term.(x := 0)
  {
  }

  ghost predicate MovedUp(p: Page, q: Page) {
    && |p| == |q| == 2048
    && (forall i :: 0 <= i < 1920 ==> q[i] == Cell(p[i + 80].ch, 7))
    && (forall i :: 1920 <= i < 2000 ==> q[i] == Cell(32, 7))
    && (forall i :: 2000 <= i < 2048 ==> q[i] == p[i])
  }

  predicate KeyRow(sc: nat, plain: string, shifted: string) {
    |plain| == |shifted| &&
    forall i :: 0 <= i < |plain| ==> Kbdus(sc + i) == Ascii(plain)[i] && Kbdus(sc + i + 90) == Ascii(shifted)[i]
  }

  /** The rows of the keyboard. */
  lemma KeyRows()
    ensures KeyRow(2, "1234567890-=", "!@#$%^&*()_+")
    ensures KeyRow(16, "qwertyuiop[]\n", "QWERTYUIOP{}\n")
    ensures KeyRow(30, "asdfghjkl;'`", "ASDFGHJKL:\"~")
    ensures KeyRow(43, "\\zxcvbnm,./", "|ZXCVBNM<>?")
    ensures KeyRow(57, " ", " ")
  {
    hide KeyRow, Kbdus;
    FirstRow();
    SecondRow();
    ThirdRow();
    FourthRow();
  }

  lemma FirstRow()
    ensures KeyRow(2, "1234567890-=", "!@#$%^&*()_+")
  {
  }

  lemma SecondRow()
    ensures KeyRow(16, "qwertyuiop[]\n", "QWERTYUIOP{}\n")
  {
  }

  lemma ThirdRow()
    ensures KeyRow(30, "asdfghjkl;'`", "ASDFGHJKL:\"~")
  {
  }

  lemma FourthRow()
    ensures KeyRow(43, "\\zxcvbnm,./", "|ZXCVBNM<>?") && KeyRow(57, " ", " ")
  {
  }

  predicate Letter(sc: nat) { 16 <= sc <= 25 || 30 <= sc <= 38 || 44 <= sc <= 50 }

  /** A letter key gives the capital exactly when one of shift and caps lock is on; for every other key
      caps lock makes no difference. */
  lemma KeyCharacter(t: Term, sc: nat)
    requires sc < 90
    ensures Letter(sc) ==> 97 <= Kbdus(sc) <= 122 && Kbdus(sc + 90) == Kbdus(sc) - 32
                           && Kbdus(CharCode(t, sc)) == if t.caps != t.shift then Kbdus(sc) - 32 else Kbdus(sc)
    ensures !Letter(sc) ==> Kbdus(CharCode(t, sc)) == if t.shift then Kbdus(sc + 90) else Kbdus(sc)
  {
    hide Kbdus;
    if Letter(sc) { LetterCodes(sc); }
  }

  lemma LetterCodes(sc: nat)
    requires Letter(sc)
    ensures 97 <= Kbdus(sc) <= 122 && Kbdus(sc + 90) == Kbdus(sc) - 32
  {
  }

  /** Modifier keys change their own flag and nothing else: left and right shift, control and alt are on
      from press to release, caps lock toggles with every press. */
  lemma Modifiers(d: Display)
    requires d.Ok() && !SwitchKey(d.term, 42)
    ensures KeyDown(d, 42) == KeyDown(d, 54) == d.(term := d.term.(shift := true))
    ensures KeyUp(d, 42 + 128) == KeyUp(d, 54 + 128) == d.(term := d.term.(shift := false))
    ensures KeyDown(d, 29) == d.(term := d.term.(ctrl := true))
    ensures KeyUp(d, 29 + 128) == d.(term := d.term.(ctrl := false))
    ensures KeyDown(d, 56) == d.(term := d.term.(alt := true))
    ensures KeyUp(d, 56 + 128) == d.(term := d.term.(alt := false))
    ensures KeyDown(d, 58) == d.(term := d.term.(caps := !d.term.caps))
  {
    hide PrintScancode, Redraw, BackSpace;
  }

  /** No other release does anything. */
  lemma OtherReleases(d: Display, code: nat)
    requires d.Ok() && code !in {42 + 128, 54 + 128, 29 + 128, 56 + 128}
    ensures KeyUp(d, code) == d
  {
  }

  /** Enter ends the line: the break is echoed and stored behind the pending characters, and the flag is
      set; when the line is already finished it changes nothing. */
  lemma EnterEnds(d: Display)
    requires d.Ok()
    ensures var e := KeyDown(d, 28);
            if d.term.flag then e == d
            else
              var p := Put(d, 10);
              e == p.(term := p.term.(kb := d.term.kb[d.term.index := 10], index := d.term.index + 1, flag := true))
  {
    hide Put;
    assert Kbdus(28) == 10;
  }

  // ----- type, then erase -----

  /** A key that echoes one character, not a line break. */
  predicate CharKey(t: Term, sc: nat) {
    && !SwitchKey(t, sc) && !ControlKey(t, sc)
    && Kbdus(CharCode(t, sc)) != NEWLINE && Kbdus(CharCode(t, sc)) != CARRIAGE
  }

  predicate SameModifiers(t: Term, u: Term) {
    t.shift == u.shift && t.caps == u.caps && t.ctrl == u.ctrl && t.alt == u.alt && t.flag == u.flag
  }

  ghost predicate CanType(d: Display, keys: seq<nat>) {
    && d.Ok() && !d.term.flag && d.term.index + |keys| < BUF_LENGTH
    && forall i :: 0 <= i < |keys| ==> CharKey(d.term, keys[i])
  }

  ghost predicate BlankAhead(d: Display, n: nat)
    requires |d.page| == PAGE_CELLS
  {
    forall i :: d.Linear() <= i < d.Linear() + n && 0 <= i < CELLS ==> d.page[i].ch == SPACE
  }

  /** The same for whole cells: blank in the attribute the screen is cleared with. */
  ghost predicate CellsAhead(d: Display, n: nat)
    requires |d.page| == PAGE_CELLS
  {
    forall i :: d.Linear() <= i < d.Linear() + n && 0 <= i < CELLS ==> d.page[i] == BLANK
  }

  /** One typed character: the cell under the cursor and one more byte in the line buffer. */
  lemma TypeOne(d: Display, keys: seq<nat>)
    requires CanType(d, keys) && keys != []
    ensures var e := KeyDown(d, keys[0]);
            var c := Kbdus(CharCode(d.term, keys[0]));
            && CanType(e, keys[1..]) && SameModifiers(d.term, e.term)
            && e.term.index == d.term.index + 1 && e.term.kb == d.term.kb[d.term.index := c]
            && (BlankAhead(d, |keys|) ==> BlankAhead(e, |keys| - 1) && d.page[d.Linear()].ch == SPACE)
            && (CellsAhead(d, |keys|) ==> CellsAhead(e, |keys| - 1) && d.page[d.Linear()] == BLANK)
            && (if d.Linear() + 1 == CELLS
                then e.page == Scroll(d.page[d.Linear() := Cell(c, ATTRIB)]) && e.Linear() == CELLS - COLS
                else e.page == d.page[d.Linear() := Cell(c, ATTRIB)] && e.Linear() == d.Linear() + 1)
  {
    assert CharKey(d.term, keys[0]);
    var c := Kbdus(CharCode(d.term, keys[0]));
    assert d.page[d.Linear() := Cell(c, ATTRIB)][CELLS..] == d.page[CELLS..];
  }

  ghost function Type(d: Display, keys: seq<nat>): (r: Display)
    requires CanType(d, keys)
    ensures r.Ok() && r.term.index == d.term.index + |keys| && SameModifiers(r.term, d.term)
    decreases |keys|
  {
    if keys == [] then d
    else TypeOne(d, keys); Type(KeyDown(d, keys[0]), keys[1..])
  }

  /** One backspace: the cell before the cursor and one byte of the line buffer. */
  lemma EraseOne(d: Display)
    requires d.Ok() && d.term.index > 0 && !SwitchKey(d.term, BACK_SPACE)
    ensures var e := KeyDown(d, BACK_SPACE);
            && e.Linear() == d.Linear() - 1 >= 0 && SameModifiers(e.term, d.term)
            && e.term.index == d.term.index - 1 && e.term.kb == d.term.kb
            && e.page == d.page[e.Linear() := d.page[e.Linear()].(ch := SPACE)]
  {
  }

  ghost function Erase(d: Display, n: nat): (r: Display)
    requires d.Ok() && n <= d.term.index && (n > 0 ==> !SwitchKey(d.term, BACK_SPACE))
    ensures r.Ok() && r.term.index == d.term.index - n && SameModifiers(r.term, d.term) && r.term.kb == d.term.kb
  {
    if n == 0 then d else KeyDown(Erase(d, n - 1), BACK_SPACE)
  }

  /** How often the screen scrolls while n characters are written from linear position `at`. */
  function Scrolls(at: nat, n: nat): nat { if at + n < CELLS then 0 else (at + n - CELLS) / COLS + 1 }

  function ScrollN(p: Page, n: nat): (r: Page)
    requires |p| == PAGE_CELLS
    ensures |r| == PAGE_CELLS
    decreases n
  {
    if n == 0 then p else ScrollN(Scroll(p), n - 1)
  }

  lemma {:induction false} ScrolledChar(p: Page, n: nat, j: nat)
    requires |p| == PAGE_CELLS && j < PAGE_CELLS
    ensures ScrollN(p, n)[j].ch == if j >= CELLS || j + COLS * n < CELLS
            then p[if j < CELLS then j + COLS * n else j].ch else SPACE
    decreases n
  {
    if n > 0 {
      ScrolledChar(Scroll(p), n - 1, j);
    }
  }

  lemma {:induction false} ScrolledAttr(p: Page, n: nat, j: nat)
    requires |p| == PAGE_CELLS && j < PAGE_CELLS
    ensures ScrollN(p, n)[j].attr == if j >= CELLS || n == 0 then p[j].attr else ATTRIB
    decreases n
  {
    if n > 0 {
      ScrolledAttr(Scroll(p), n - 1, j);
    }
  }

  ghost predicate SameChars(p: Page, q: Page) {
    |p| == |q| && forall i :: 0 <= i < |p| ==> p[i].ch == q[i].ch
  }

  /** Scrolls after the first of n characters, and where the cursor is then. */
  lemma ScrollsStep(at: nat, n: nat)
    requires at < CELLS && 0 < n < BUF_LENGTH
    ensures at + 1 == CELLS ==> Scrolls(at, n) == Scrolls(CELLS - COLS, n - 1) + 1
    ensures at + 1 < CELLS ==> Scrolls(at, n) == Scrolls(at + 1, n - 1)
    ensures at - COLS * Scrolls(at, n) >= 0
  {
  }

  /** One character of the final screen: the typed one is blanked, all others are as if the
      original screen had scrolled. */
  lemma ErasedChar(p: Page, at: nat, n: nat, c: byte, j: nat)
    requires |p| == PAGE_CELLS && at < CELLS && 0 < n < BUF_LENGTH && p[at].ch == SPACE && j < PAGE_CELLS
    ensures var q := p[at := Cell(c, ATTRIB)];
            var r := if at + 1 == CELLS then ScrollN(Scroll(q), Scrolls(CELLS - COLS, n - 1))
                     else ScrollN(q, Scrolls(at + 1, n - 1));
            (if j == at - COLS * Scrolls(at, n) then SPACE else r[j].ch) == ScrollN(p, Scrolls(at, n))[j].ch
  {
    hide Scrolls, Scroll;
    var q := p[at := Cell(c, ATTRIB)];
    ScrollsStep(at, n);
    assert at + 1 == CELLS ==> ScrollN(q, Scrolls(at, n)) == ScrollN(Scroll(q), Scrolls(CELLS - COLS, n - 1));
    ScrolledChar(q, Scrolls(at, n), j);
    ScrolledChar(p, Scrolls(at, n), j);
  }

  /** The same for the whole cell, if it was blank in the usual attribute. */
  lemma ErasedCell(p: Page, at: nat, n: nat, c: byte, j: nat)
    requires |p| == PAGE_CELLS && at < CELLS && 0 < n < BUF_LENGTH && p[at] == BLANK && j < PAGE_CELLS
    ensures var q := p[at := Cell(c, ATTRIB)];
            var r := if at + 1 == CELLS then ScrollN(Scroll(q), Scrolls(CELLS - COLS, n - 1))
                     else ScrollN(q, Scrolls(at + 1, n - 1));
            (if j == at - COLS * Scrolls(at, n) then r[j].(ch := SPACE) else r[j]) == ScrollN(p, Scrolls(at, n))[j]
  {
    hide Scrolls, Scroll;
    var q := p[at := Cell(c, ATTRIB)];
    ScrollsStep(at, n);
    assert at + 1 == CELLS ==> ScrollN(q, Scrolls(at, n)) == ScrollN(Scroll(q), Scrolls(CELLS - COLS, n - 1));
    ErasedChar(p, at, n, c, j);
    ScrolledAttr(q, Scrolls(at, n), j);
    ScrolledAttr(p, Scrolls(at, n), j);
  }

  /** `e` is `d` with its text as before and its screen scrolled as n more characters scroll it:
      character by character, and cell by cell if the cells written were blank in the usual attribute. */
  ghost predicate Restored(d: Display, e: Display, n: nat)
    requires d.Ok() && e.Ok()
  {
    var s := Scrolls(d.Linear(), n);
    && e.term.index == d.term.index && e.term.kb[..e.term.index] == d.term.kb[..d.term.index]
    && SameModifiers(e.term, d.term)
    && e.Linear() == d.Linear() - COLS * s
    && SameChars(e.page, ScrollN(d.page, s))
    && (CellsAhead(d, n) ==> e.page == ScrollN(d.page, s))
  }

  lemma RestoredStep(d: Display, keys: seq<nat>, e1: Display)
    requires CanType(d, keys) && keys != [] && BlankAhead(d, |keys|)
    requires e1.Ok() && Restored(KeyDown(d, keys[0]), e1, |keys| - 1) && e1.term.index > 0
    requires !SwitchKey(e1.term, BACK_SPACE)
    ensures Restored(d, KeyDown(e1, BACK_SPACE), |keys|)
  {
    hide KeyDown, Scroll, ScrollN, Scrolls, Kbdus, CharCode, ControlKey, BlankAhead, CellsAhead;
    TypeOne(d, keys);
    EraseOne(e1);
    ScrollsStep(d.Linear(), |keys|);
    var d1, e := KeyDown(d, keys[0]), KeyDown(e1, BACK_SPACE);
    assert e1.term.kb[..d.term.index] == d1.term.kb[..d1.term.index][..d.term.index];
    forall j | 0 <= j < PAGE_CELLS
      ensures e.page[j].ch == ScrollN(d.page, Scrolls(d.Linear(), |keys|))[j].ch
    {
      ErasedChar(d.page, d.Linear(), |keys|, Kbdus(CharCode(d.term, keys[0])), j);
    }
    if CellsAhead(d, |keys|) { RestoredCells(d, keys, e1); }
  }

  lemma RestoredCells(d: Display, keys: seq<nat>, e1: Display)
    requires CanType(d, keys) && keys != [] && CellsAhead(d, |keys|)
    requires e1.Ok() && Restored(KeyDown(d, keys[0]), e1, |keys| - 1) && e1.term.index > 0
    requires !SwitchKey(e1.term, BACK_SPACE)
    ensures KeyDown(e1, BACK_SPACE).page == ScrollN(d.page, Scrolls(d.Linear(), |keys|))
  {
    hide KeyDown, Scroll, ScrollN, Scrolls, Kbdus, CharCode, ControlKey, BlankAhead, CellsAhead;
    TypeOne(d, keys);
    EraseOne(e1);
    ScrollsStep(d.Linear(), |keys|);
    var e, r := KeyDown(e1, BACK_SPACE), ScrollN(d.page, Scrolls(d.Linear(), |keys|));
    forall j | 0 <= j < PAGE_CELLS
      ensures e.page[j] == r[j]
    {
      ErasedCell(d.page, d.Linear(), |keys|, Kbdus(CharCode(d.term, keys[0])), j);
    }
  }

  /** Round trip: typing k characters over blank cells and taking them back with k backspaces
      restores the line buffer; the screen is the original one scrolled as often as it scrolled,
      and the cursor is on its original place of the text, that many lines up. */
  lemma {:induction false} TypeThenErase(d: Display, keys: seq<nat>)
    requires CanType(d, keys) && BlankAhead(d, |keys|)
    ensures Restored(d, Erase(Type(d, keys), |keys|), |keys|)
    decreases |keys|
  {
    hide KeyDown, Scroll, Kbdus, CharCode, ControlKey, BlankAhead, CellsAhead, Restored;
    if keys == [] {
      NothingTyped(d);
    } else {
      TypeOne(d, keys);
      TypeThenErase(KeyDown(d, keys[0]), keys[1..]);
      RestoredStep(d, keys, Erase(Type(KeyDown(d, keys[0]), keys[1..]), |keys| - 1));
    }
  }

  lemma NothingTyped(d: Display)
    requires d.Ok()
    ensures Restored(d, d, 0)
  {
    assert ScrollN(d.page, 0) == d.page;
  }
}
