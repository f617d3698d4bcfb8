/** The terminal's line editor: a cursor and a scrolling screen that together edit one
    line of text. */
module Terminal {

  const VGA_WIDTH: nat := 80
  const VGA_HEIGHT: nat := 24
  /** The screen has one row more than its height says. */
  const CELLS: nat := 2000
  const MAX_LINE_LEN: nat := 1920
  /** `(size_t)-1` */
  const NOWHERE: nat := 0xffff_ffff

  const NEWLINE: nat := 10
  const BACKSPACE: nat := 14
  const HOME: nat := 20
  const END: nat := 21
  const DEL: nat := 22
  const ARR_LEFT: nat := 23
  const ARR_RIGHT: nat := 24
  const SPACE: nat := 0x20

  type Code = c: nat | c < 256

  predicate Printable(c: Code) { 0x20 <= c <= 0x7e }

  /** `vga_entry` */
  function Entry(c: Code, color: Code): nat { c + 256 * color }

  function CodeOf(cell: nat): Code { cell % 256 }

  lemma CodeOfEntry()
    ensures forall c: Code, color: Code {:trigger Entry(c, color)} :: CodeOf(Entry(c, color)) == c
  {
  }

  // -------------------------------------------------------------- the editor as such

  /** A line of text with a position in it. */
  datatype Line = Line(text: seq<Code>, pos: nat)

  predicate LineOk(l: Line) {
    l.pos <= |l.text| && forall i {:trigger l.text[i]} :: 0 <= i < |l.text| ==> Printable(l.text[i])
  }

  function Edit(l: Line, key: Code): (l': Line)
    requires LineOk(l)
    ensures key != NEWLINE ==> LineOk(l')
  {
    if Printable(key) then Line(l.text[..l.pos] + [key] + l.text[l.pos..], l.pos + 1)
    else if key == ARR_LEFT then l.(pos := if l.pos > 0 then l.pos - 1 else 0)
    else if key == HOME then l.(pos := 0)
    else if key == ARR_RIGHT then l.(pos := if l.pos < |l.text| then l.pos + 1 else l.pos)
    else if key == END then l.(pos := |l.text|)
    else if key == BACKSPACE && l.pos > 0 then Line(l.text[..l.pos - 1] + l.text[l.pos..], l.pos - 1)
    else if key == DEL && l.pos < |l.text| then l.(text := l.text[..l.pos] + l.text[l.pos + 1..])
    else if key == NEWLINE then Line([], 0)
    else l
  }

  function EditAll(l: Line, keys: seq<Code>): (l': Line)
    requires LineOk(l) && NEWLINE !in keys
    ensures LineOk(l')
    decreases |keys|
  {
    if keys == [] then l else EditAll(Edit(l, keys[0]), keys[1..])
  }

  lemma {:induction false} OneMoreKey(l: Line, keys: seq<Code>, k: nat)
    requires LineOk(l) && NEWLINE !in keys && k < |keys|
    ensures EditAll(l, keys[..k + 1]) == Edit(EditAll(l, keys[..k]), keys[k])
    decreases k
  {
    hide Edit;
    if k > 0 {
      OneMoreKey(Edit(l, keys[0]), keys[1..], k - 1);
      assert keys[1..][..k] == keys[..k + 1][1..] && keys[1..][..k - 1] == keys[..k][1..];
    } else {
      assert keys[..1][1..] == [] && keys[..0] == [];
    }
  }

  /** Typing a text puts it in front of the position. */
  lemma {:induction false} TypedText(l: Line, keys: seq<Code>)
    requires LineOk(l) && forall i {:trigger keys[i]} :: 0 <= i < |keys| ==> Printable(keys[i])
    ensures NEWLINE !in keys
    ensures EditAll(l, keys) == Line(l.text[..l.pos] + keys + l.text[l.pos..], l.pos + |keys|)
    decreases |keys|
  {
    if keys == [] {
      assert l.text[..l.pos] + keys + l.text[l.pos..] == l.text;
    } else {
      var l1 := Edit(l, keys[0]);
      TypedText(l1, keys[1..]);
      assert l1.text[..l1.pos] == l.text[..l.pos] + [keys[0]] && l1.text[l1.pos..] == l.text[l.pos..];
      assert l.text[..l.pos] + [keys[0]] + keys[1..] == l.text[..l.pos] + keys;
    }
  }

  /** Backspace takes back what was typed, and Del what was typed and left behind. */
  lemma RubOut(l: Line, key: Code)
    requires LineOk(l) && Printable(key)
    ensures Edit(Edit(l, key), BACKSPACE) == l
    ensures Edit(Edit(Edit(l, key), ARR_LEFT), DEL) == l
  {
    var l1 := Edit(l, key);
    assert l1.text[..l.pos] == l.text[..l.pos] && l1.text[l.pos + 1..] == l.text[l.pos..];
    assert l.text[..l.pos] + l.text[l.pos..] == l.text;
  }

  function Lefts(n: nat): (keys: seq<Code>)
    ensures |keys| == n && NEWLINE !in keys
  {
    seq(n, _ => ARR_LEFT)
  }

  function Rights(n: nat): (keys: seq<Code>)
    ensures |keys| == n && NEWLINE !in keys
  {
    seq(n, _ => ARR_RIGHT)
  }

  /** The left arrow goes back one place at a time and stops at the start; so HOME is the left
      arrow pressed often enough. */
  lemma {:induction false} LeftsMove(l: Line, n: nat)
    requires LineOk(l)
    ensures EditAll(l, Lefts(n)) == l.(pos := if n < l.pos then l.pos - n else 0)
    ensures n >= l.pos ==> EditAll(l, Lefts(n)) == EditAll(l, [HOME])
    decreases n
  {
    if n > 0 {
      LeftsMove(Edit(l, ARR_LEFT), n - 1);
      assert Lefts(n)[1..] == Lefts(n - 1);
    }
  }

  /** The right arrow goes on one place at a time and stops at the end; so END is the right
      arrow pressed often enough. */
  lemma {:induction false} RightsMove(l: Line, n: nat)
    requires LineOk(l)
    ensures EditAll(l, Rights(n)) == l.(pos := if n < |l.text| - l.pos then l.pos + n else |l.text|)
    ensures n >= |l.text| - l.pos ==> EditAll(l, Rights(n)) == EditAll(l, [END])
    decreases n
  {
    if n > 0 {
      RightsMove(Edit(l, ARR_RIGHT), n - 1);
      assert Rights(n)[1..] == Rights(n - 1);
    }
  }

  /** The right arrow undoes the left one and the other way round, except at the end that
      stops the first of them. */
  lemma {:induction false} ArrowsUndo(l: Line)
    requires LineOk(l)
    ensures EditAll(l, [ARR_LEFT, ARR_RIGHT]) == l <==> l.pos > 0 || l.text == []
    ensures EditAll(l, [ARR_RIGHT, ARR_LEFT]) == l <==> l.pos < |l.text| || l.text == []
  {
    hide EditAll;
    TwoKeys(l, ARR_LEFT, ARR_RIGHT);
    TwoKeys(l, ARR_RIGHT, ARR_LEFT);
  }

  lemma {:induction false} TwoKeys(l: Line, first: Code, second: Code)
    requires LineOk(l) && first != NEWLINE && second != NEWLINE
    ensures EditAll(l, [first, second]) == Edit(Edit(l, first), second)
  {
    hide Edit;
    var keys := [first, second];
    assert keys[1..] == [second];
    OneKey(Edit(l, first), second);
  }

  lemma {:induction false} OneKey(l: Line, key: Code)
    requires LineOk(l) && key != NEWLINE
    ensures EditAll(l, [key]) == Edit(l, key)
  {
    hide Edit;
    assert [key][1..] == [];
  }

  /** HOME and then a text puts the text in front of the line, END and then a text behind it. */
  lemma {:induction false} HomeAndEnd(l: Line, keys: seq<Code>)
    requires LineOk(l) && forall i {:trigger keys[i]} :: 0 <= i < |keys| ==> Printable(keys[i])
    ensures NEWLINE !in [HOME] + keys && EditAll(l, [HOME] + keys) == Line(keys + l.text, |keys|)
    ensures NEWLINE !in [END] + keys && EditAll(l, [END] + keys) == Line(l.text + keys, |l.text| + |keys|)
  {
    TypedText(Edit(l, HOME), keys);
    TypedText(Edit(l, END), keys);
    assert ([HOME] + keys)[1..] == keys && ([END] + keys)[1..] == keys;
    assert l.text[..0] + keys + l.text[0..] == keys + l.text;
    assert l.text[..|l.text|] + keys + l.text[|l.text|..] == l.text + keys;
  }

  /** Every other code leaves the line alone, and so do the keys that have nothing to do. */
  lemma {:induction false} KeysWithoutEffect(l: Line, key: Code)
    requires LineOk(l) && key != NEWLINE
    ensures EditAll(l, [key]) == l <==>
      if Printable(key) then false
      else if key == ARR_LEFT || key == HOME || key == BACKSPACE then l.pos == 0
      else if key == ARR_RIGHT || key == END || key == DEL then l.pos == |l.text|
      else true
  {
    assert |Edit(l, key).text| != |l.text| ==> Edit(l, key) != l;
  }

  // ------------------------------------------------------------------ lines of cells

  /** What pasting a buffer writes: the codes that are not 0. */
  function Solid(buffer: seq<Code>): (s: seq<Code>)
    ensures |s| <= |buffer|
  {
    if buffer == [] then []
    else if buffer[|buffer| - 1] == 0 then Solid(buffer[..|buffer| - 1])
    else Solid(buffer[..|buffer| - 1]) + [buffer[|buffer| - 1]]
  }

  lemma {:induction false} SolidOfSolid(buffer: seq<Code>)
    requires forall i {:trigger buffer[i]} :: 0 <= i < |buffer| ==> buffer[i] != 0
    ensures Solid(buffer) == buffer
  {
    if buffer != [] {
      var init := buffer[..|buffer| - 1];
      assert forall i {:trigger init[i]} :: 0 <= i < |init| ==> init[i] == buffer[i];
      SolidOfSolid(init);
    }
  }

  lemma {:induction false} SolidWithHole(buffer: seq<Code>, hole: nat)
    requires hole < |buffer| && buffer[hole] == 0
    requires forall i {:trigger buffer[i]} :: 0 <= i < |buffer| && i != hole ==> buffer[i] != 0
    ensures Solid(buffer) == buffer[..hole] + buffer[hole + 1..]
  {
    var init := buffer[..|buffer| - 1];
    assert forall i {:trigger init[i]} :: 0 <= i < |init| ==> init[i] == buffer[i];
    if hole == |buffer| - 1 {
      SolidOfSolid(init);
      assert buffer[hole + 1..] == [];
    } else {
      SolidWithHole(init, hole);
      assert init[..hole] == buffer[..hole];
      assert buffer[hole + 1..] == init[hole + 1..] + [buffer[|buffer| - 1]];
    }
  }

  /** A line of n cells at (x, y) is refused. */
  predicate Outside(x: nat, y: nat, n: nat) {
    if y > 0 then (y - 1) * VGA_WIDTH + x + n > MAX_LINE_LEN else x + n > MAX_LINE_LEN
  }

  lemma OutsideMeans(x: nat, y: nat, n: nat)
    ensures Outside(x, y, n) <==> y * VGA_WIDTH + x + n > if y > 0 then CELLS else MAX_LINE_LEN
  {
  }

  /** `vga_copy_line` */
  method CopyLine(cells: array<nat>, x: nat, y: nat, len: nat, buffer: array<Code>) returns (ok: bool)
    requires cells.Length == CELLS && buffer.Length == MAX_LINE_LEN + 1
    modifies buffer
    ensures ok <==> !Outside(x, y, len)
    ensures ok ==> len < buffer.Length && y * VGA_WIDTH + x + len <= CELLS
    ensures ok ==> forall i {:trigger buffer[i]} :: 0 <= i < len ==> buffer[i] == CodeOf(cells[y * VGA_WIDTH + x + i])
    ensures ok ==> forall i {:trigger buffer[i]} :: len <= i < buffer.Length ==> buffer[i] == old(buffer[i])
    ensures !ok ==> buffer[..] == old(buffer[..])
  {
    OutsideMeans(x, y, len);
    if y > 0 {
      if (y - 1) * VGA_WIDTH + x + len > MAX_LINE_LEN {
        return false;
      }
    } else {
      if x + len > MAX_LINE_LEN {
        return false;
      }
    }
    var src, idx := y * VGA_WIDTH + x, 0;
    while idx < len
      invariant idx <= len
      invariant forall i {:trigger buffer[i]} :: 0 <= i < idx ==> buffer[i] == CodeOf(cells[src + i])
      invariant forall i {:trigger buffer[i]} :: idx <= i < buffer.Length ==> buffer[i] == old(buffer[i])
    {
      buffer[idx] := CodeOf(cells[src + idx]);
      idx := idx + 1;
    }
    ok := true;
  }

  /** `vga_paste_line`, from index `from` of the buffer. */
  method PasteLine(cells: array<nat>, x: nat, y: nat, len: nat, buffer: array<Code>, from: nat, color: Code) returns (ok: bool)
    requires cells.Length == CELLS && from + len <= buffer.Length
    modifies cells
    ensures ok <==> !Outside(x, y, len)
    ensures ok ==> y * VGA_WIDTH + x + len <= CELLS
    ensures ok ==> var s, at := Solid(buffer[from..from + len]), y * VGA_WIDTH + x;
      && (forall i {:trigger cells[i]} :: 0 <= i < CELLS && !(at <= i < at + len) ==> cells[i] == old(cells[i]))
      && (forall i {:trigger s[i]} :: 0 <= i < |s| ==> cells[at + i] == Entry(s[i], color))
      && (forall i {:trigger cells[i]} :: at + |s| <= i < at + len ==> cells[i] == Entry(SPACE, color))
    ensures !ok ==> cells[..] == old(cells[..])
  {
    OutsideMeans(x, y, len);
    if y > 0 {
      if (y - 1) * VGA_WIDTH + x + len > MAX_LINE_LEN {
        return false;
      }
    } else {
      if x + len > MAX_LINE_LEN {
        return false;
      }
    }
    var dst, idx, bufferIdx := y * VGA_WIDTH + x, 0, 0;
    while bufferIdx < len
      invariant bufferIdx <= len && idx == |Solid(buffer[from..from + bufferIdx])|
      invariant forall i {:trigger cells[i]} :: 0 <= i < CELLS && !(dst <= i < dst + idx) ==> cells[i] == old(cells[i])
      invariant forall i {:trigger Solid(buffer[from..from + bufferIdx])[i]} :: 0 <= i < idx ==>
        cells[dst + i] == Entry(Solid(buffer[from..from + bufferIdx])[i], color)
    {
      var more := buffer[from..from + bufferIdx + 1];
      assert more[..|more| - 1] == buffer[from..from + bufferIdx] && more[|more| - 1] == buffer[from + bufferIdx];
      if buffer[from + bufferIdx] == 0 {
        bufferIdx := bufferIdx + 1;
        continue;
      }
      cells[dst + idx] := Entry(buffer[from + bufferIdx], color);
      bufferIdx := bufferIdx + 1;
      idx := idx + 1;
    }
    ghost var s := Solid(buffer[from..from + len]);
    while idx < bufferIdx
      invariant |s| <= idx <= bufferIdx
      invariant forall i {:trigger cells[i]} :: 0 <= i < CELLS && !(dst <= i < dst + idx) ==> cells[i] == old(cells[i])
      invariant forall i {:trigger s[i]} :: 0 <= i < |s| ==> cells[dst + i] == Entry(s[i], color)
      invariant forall i {:trigger cells[i]} :: dst + |s| <= i < dst + idx ==> cells[i] == Entry(SPACE, color)
    {
      cells[dst + idx] := Entry(SPACE, color);
      idx := idx + 1;
    }
    ok := true;
  }

  // ------------------------------------------------------------------- the terminal

  /** How the handling of a key ends.  Off the screen the kernel writes behind the screen
      memory; lost is a line whose start has been scrolled away. */
  datatype Outcome = Ok | Panic | OffScreen | Lost

  /** The cells from `at` on show the text. */
  ghost predicate Shows(cells: seq<nat>, at: nat, text: seq<Code>) {
    at + |text| <= |cells| && forall i {:trigger text[i]} :: 0 <= i < |text| ==> CodeOf(cells[at + i]) == text[i]
  }

  class Terminal {
    const cells: array<nat>
    const stdinLine: array<Code>
    var color: Code
    var stdinLen: nat
    var x: nat
    var y: nat
    var lineX: nat
    var lineY: nat
    var positionCtr: nat
    var charsCtr: nat
    /** The line being edited. */
    ghost var text: seq<Code>

    predicate Started()
      reads this`lineX, this`lineY
    {
      !(lineX == NOWHERE && lineY == NOWHERE)
    }

    /** Index of the cell where the line starts. */
    function Start(): nat
      reads this`lineX, this`lineY
    {
      lineY * VGA_WIDTH + lineX
    }

    function Here(): nat
      reads this`x, this`y
    {
      y * VGA_WIDTH + x
    }

    ghost function Edited(): Line
      reads this`text, this`positionCtr
    {
      Line(text, positionCtr)
    }

    ghost predicate Screen()
    {
      cells.Length == CELLS && stdinLine.Length == MAX_LINE_LEN + 1 && (cells as object) != (stdinLine as object)
    }

    predicate Aligned()
      reads this`x, this`y, this`lineX, this`lineY, this`positionCtr
    {
      Here() == Start() + positionCtr && x <= CELLS && lineX <= CELLS
    }

    /** The cursor stands where the position is in the line, counted along the rows, and the
        cells from the start of the line on show the line. */
    ghost predicate Valid()
      reads this, cells
    {
      && Screen()
      && LineOk(Edited()) && charsCtr == |text|
      && (if Started() then Aligned() else text == [] && x <= CELLS)
      && (text != [] ==> Shows(cells[..], Start(), text))
    }

    /** `terminal_init`; the screen is cleared, the cursor goes to its corner. */
    constructor ()
      ensures Valid() && !Started() && Here() == 0
    {
      cells := new nat[CELLS](_ => Entry(SPACE, 2));
      stdinLine := new Code[MAX_LINE_LEN + 1](_ => 0);
      color, stdinLen := 2, 0;
      x, y, lineX, lineY, positionCtr, charsCtr := 0, 0, NOWHERE, NOWHERE, 0, 0;
      text := [];
    }

    /** `vga_put_entry` at the cursor. */
    method PutEntry(c: Code)
      requires Screen() && Here() < CELLS
      modifies cells
      ensures cells[..] == old(cells[..])[Here() := Entry(c, color)]
    {
      cells[y * VGA_WIDTH + x] := Entry(c, color);
    }

    /** `vga_move_row_up` */
    method MoveRowUp(row: nat)
      requires Screen() && 0 < row <= VGA_HEIGHT
      modifies cells
      ensures forall i {:trigger cells[i]} :: 0 <= i < CELLS ==>
        cells[i] == if (row - 1) * VGA_WIDTH <= i < row * VGA_WIDTH then old(cells[i + VGA_WIDTH]) else old(cells[i])
    {
      var src, dst, i := row * VGA_WIDTH, (row - 1) * VGA_WIDTH, 0;
      while i < VGA_WIDTH
        invariant i <= VGA_WIDTH
        invariant forall k {:trigger cells[k]} :: 0 <= k < CELLS ==> cells[k] == if dst <= k < dst + i then old(cells[k + VGA_WIDTH]) else old(cells[k])
      {
        cells[dst + i] := cells[src + i];
        i := i + 1;
      }
    }

    /** `_terminal_scroll` */
    method Scroll()
      requires Screen()
      modifies cells
      ensures forall i {:trigger cells[i]} :: 0 <= i < CELLS ==>
        cells[i] == if i < MAX_LINE_LEN then old(cells[i + VGA_WIDTH]) else Entry(SPACE, color)
    {
      var i := 0;
      while i < VGA_HEIGHT
        invariant i <= VGA_HEIGHT
        invariant forall k {:trigger cells[k]} :: 0 <= k < CELLS ==> cells[k] == if k < i * VGA_WIDTH then old(cells[k + VGA_WIDTH]) else old(cells[k])
      {
        MoveRowUp(i + 1);
        i := i + 1;
      }
      ghost var moved := cells[..];
      i := 0;
      while i < VGA_WIDTH
        invariant i <= VGA_WIDTH
        invariant forall k {:trigger cells[k]} :: 0 <= k < CELLS ==>
          cells[k] == if MAX_LINE_LEN <= k < MAX_LINE_LEN + i then Entry(SPACE, color) else moved[k]
      {
        cells[MAX_LINE_LEN + i] := Entry(SPACE, color);
        i := i + 1;
      }
    }

    /** The first step of both line edits: the line is read back from the screen. */
    method ReadLine() returns (ok: bool)
      requires Valid() && Started()
      modifies stdinLine
      ensures ok <==> !Outside(lineX, lineY, charsCtr)
      ensures ok ==> charsCtr <= MAX_LINE_LEN && stdinLine[..charsCtr] == text
    {
      ok := CopyLine(cells, lineX, lineY, charsCtr, stdinLine);
    }

    /** `_terminal_insert_into_inputline`; false stands for the panic. */
    method InsertIntoInputline(c: Code) returns (ok: bool)
      requires Valid() && Started() && positionCtr < charsCtr && Printable(c)
      modifies cells, stdinLine, this`stdinLen
      ensures ok <==> !Outside(lineX, lineY, charsCtr + 1)
      ensures ok ==> Shows(cells[..], Start(), Edit(Edited(), c).text)
    {
      OutsideMeans(lineX, lineY, charsCtr);
      OutsideMeans(lineX, lineY, charsCtr + 1);
      OutsideMeans(positionCtr + lineX + 1, lineY, charsCtr - positionCtr);
      ok := ReadLine();
      if !ok {
        return;
      }
      ghost var before := cells[..];
      PutEntry(c);
      ok := PasteRest(c, before);
      stdinLen := charsCtr + 1;
    }

    method PasteRest(c: Code, ghost before: seq<nat>) returns (ok: bool)
      requires Screen() && Started() && LineOk(Edited()) && charsCtr == |text| <= MAX_LINE_LEN && positionCtr < charsCtr && Printable(c)
      requires Here() == Start() + positionCtr && Shows(before, Start(), text) && |before| == CELLS
      requires stdinLine[..charsCtr] == text && cells[..] == before[Here() := Entry(c, color)]
      modifies cells
      ensures ok <==> !Outside(positionCtr + lineX + 1, lineY, charsCtr - positionCtr)
      ensures ok ==> Shows(cells[..], Start(), Edit(Edited(), c).text)
    {
      hide Outside, Solid;
      var len := charsCtr - positionCtr;
      assert stdinLine[positionCtr..positionCtr + len] == text[positionCtr..];
      SolidOfSolid(text[positionCtr..]);
      ok := PasteLine(cells, positionCtr + lineX + 1, lineY, len, stdinLine, positionCtr, color);
      if ok {
        CodeOfEntry();
        Inserted(before, cells[..], Start(), Edited(), c, color);
      }
    }

    lemma Holed(text: seq<Code>, idx: nat)
      requires idx < |text| && 0 !in text
      ensures Solid(text[idx := 0]) == text[..idx] + text[idx + 1..]
    {
      var holed := text[idx := 0];
      assert holed[..idx] == text[..idx] && holed[idx + 1..] == text[idx + 1..];
      SolidWithHole(holed, idx);
    }

    /** `_terminal_remove_from_inputline`; false stands for the panic. */
    method RemoveFromInputline(idx: nat) returns (ok: bool)
      requires Valid() && Started() && idx < charsCtr
      modifies cells, stdinLine, this`stdinLen
      ensures ok <==> !Outside(lineX, lineY, charsCtr)
      ensures ok ==> Shows(cells[..], Start(), text[..idx] + text[idx + 1..])
    {
      hide Outside, Solid;
      ok := ReadLine();
      if !ok {
        return;
      }
      stdinLen := charsCtr;
      stdinLine[idx] := 0;
      assert stdinLine[0..stdinLen] == text[idx := 0];
      Holed(text, idx);
      ok := PasteLine(cells, lineX, lineY, stdinLen, stdinLine, 0, color);
      CodeOfEntry();
    }

    // ------------------------------------------------------------------- the cursor

    /** `cursor_nextchar_kbd`; true when the screen has to scroll. */
    method CursorNextcharKbd() returns (max: bool)
      modifies this`x, this`y, this`charsCtr, this`positionCtr
      ensures charsCtr == old(charsCtr) + 1 && positionCtr == old(positionCtr) + 1
      ensures max <==> old(x) == VGA_WIDTH - 1 && old(y) == VGA_HEIGHT
      ensures Here() + (if max then VGA_WIDTH else 0) == old(Here()) + 1 && x <= old(x) + 1
    {
      charsCtr := charsCtr + 1;
      positionCtr := positionCtr + 1;
      max := false;
      if x == VGA_WIDTH - 1 {
        if y == VGA_HEIGHT {
          max := true;
        } else {
          y := y + 1;
        }
        x := 0;
      } else {
        x := x + 1;
      }
    }

    /** `cursor_move_left` */
    method CursorMoveLeft(max: bool)
      requires Started() && Aligned()
      modifies this`x, this`y, this`positionCtr
      ensures Aligned() && positionCtr == if old(positionCtr) == 0 || max then 0 else old(positionCtr) - 1
    {
      if positionCtr == 0 {
        return;
      }
      if max {
        x := lineX;
        y := lineY;
        positionCtr := 0;
      } else {
        if x == 0 && y > 0 {
          x := VGA_WIDTH - 1;
          y := y - 1;
        } else {
          x := x - 1;
        }
        positionCtr := positionCtr - 1;
      }
    }

    /** `cursor_move_right` */
    method CursorMoveRight(max: bool)
      requires Valid() && Started()
      modifies this`x, this`y, this`positionCtr
      ensures Valid()
      ensures positionCtr == if old(positionCtr) == charsCtr || max then charsCtr else old(positionCtr) + 1
    {
      if positionCtr == charsCtr {
        return;
      }
      if max {
        var rows, cols := charsCtr / VGA_WIDTH, charsCtr % VGA_WIDTH;
        y := lineY + rows;
        x := lineX + cols;
        positionCtr := charsCtr;
      } else {
        if x == VGA_WIDTH - 1 {
          x := 0;
          y := y + 1;
        } else {
          x := x + 1;
        }
        positionCtr := positionCtr + 1;
      }
    }

    /** `cursor_newline_kbd`; true when the screen has to scroll. */
    method CursorNewlineKbd() returns (max: bool)
      requires Screen()
      modifies this`x, this`y, this`lineX, this`lineY, this`positionCtr, this`charsCtr, this`text
      ensures Valid() && Started() && text == [] && x == 0 && lineX == 0
      ensures max <==> old(y) == VGA_HEIGHT
      ensures y == if max then VGA_HEIGHT else old(lineY) + old(charsCtr) / VGA_WIDTH + 1
    {
      max := y == VGA_HEIGHT;
      if !max {
        var rows := charsCtr / VGA_WIDTH;
        y := lineY + rows + 1;
      }
      lineX := 0;
      lineY := y;
      positionCtr := 0;
      charsCtr := 0;
      x := 0;
      text := [];
    }

    /** `cursor_remove_char` */
    method CursorRemoveChar()
      modifies this`charsCtr, this`positionCtr
      ensures charsCtr == if old(charsCtr) > 0 then old(charsCtr) - 1 else 0
      ensures positionCtr == if old(positionCtr) > charsCtr then charsCtr else old(positionCtr)
    {
      if charsCtr > 0 {
        charsCtr := charsCtr - 1;
      }
      if positionCtr > charsCtr {
        positionCtr := charsCtr;
      }
    }

    // --------------------------------------------------------------------- the keys

    /** How a key will end, for a line that has been started. */
    ghost function Fate(c: Code): Outcome
      reads this
    {
      if Printable(c) then
        if positionCtr < charsCtr then (if Outside(lineX, lineY, charsCtr + 1) then Panic else Ok)
        else if Here() >= CELLS then OffScreen
        else if x == VGA_WIDTH - 1 && y == VGA_HEIGHT && lineY == 0 then Lost
        else Ok
      else if c == NEWLINE || (c == BACKSPACE && positionCtr > 0) || (c == DEL && positionCtr < charsCtr) then
        if Outside(lineX, lineY, charsCtr) then Panic else Ok
      else Ok
    }

    /** When a key goes well, in cells: the line the key leaves has to fit before the end of the
        screen, which is a row later for a line that starts in the first row or not at all. */
    lemma FateOkIff(c: Code)
      requires Valid() && Started()
      ensures var room := if lineY > 0 then CELLS else MAX_LINE_LEN;
        Fate(c) == Ok <==>
          if Printable(c) then
            (if positionCtr < charsCtr then Start() + charsCtr + 1 <= room
             else Here() < CELLS && !(x == 79 && y == 24 && lineY == 0))
          else c in {NEWLINE, BACKSPACE, DEL} && !(c == BACKSPACE && positionCtr == 0) && !(c == DEL && positionCtr == charsCtr) ==>
            Start() + charsCtr <= room
    {
      OutsideMeans(lineX, lineY, charsCtr);
      OutsideMeans(lineX, lineY, charsCtr + 1);
    }

    /** The first key of a line fixes where the line starts. */
    method StartLine()
      requires Valid()
      modifies this`lineX, this`lineY
      ensures Valid() && Started()
      ensures if old(Started()) then lineX == old(lineX) && lineY == old(lineY) else lineX == x && lineY == y
    {
      if lineY == NOWHERE && lineX == NOWHERE {
        lineX := x;
        lineY := y;
      }
    }

    /** The character goes onto the screen. */
    method WriteCode(c: Code) returns (r: Outcome)
      requires Valid() && Started() && Printable(c)
      modifies cells, stdinLine, this`stdinLen
      ensures r == if Fate(c) == Lost then Ok else Fate(c)
      ensures r == Ok ==> Shows(cells[..], Start(), Edit(Edited(), c).text)
    {
      if positionCtr < charsCtr {
        var ok := InsertIntoInputline(c);
        return if ok then Ok else Panic;
      }
      if y * VGA_WIDTH + x >= CELLS {
        return OffScreen;
      }
      PutEntry(c);
      CodeOfEntry();
      assert Edit(Edited(), c).text == text + [c];
      r := Ok;
    }

    method KeyPrintable(c: Code) returns (r: Outcome)
      requires Valid() && Started() && Printable(c)
      modifies this, cells, stdinLine
      ensures r == old(Fate(c))
      ensures r == Ok ==> Valid() && Started() && Edited() == Edit(old(Edited()), c)
    {
      hide Outside, Shows, Edit;
      CornerIsAtEnd();
      r := WriteCode(c);
      if r == Ok {
        r := Advance(c);
      }
    }

    /** In the last corner of the screen there is no room to insert. */
    lemma CornerIsAtEnd()
      requires Valid() && Started()
      ensures positionCtr < charsCtr && x == VGA_WIDTH - 1 && y == VGA_HEIGHT ==> Outside(lineX, lineY, charsCtr + 1)
    {
      OutsideMeans(lineX, lineY, charsCtr + 1);
    }

    /** The cursor moves on behind the character written. */
    method Advance(c: Code) returns (r: Outcome)
      requires Screen() && Started() && Aligned() && LineOk(Edited()) && charsCtr == |text| && Printable(c)
      requires Shows(cells[..], Start(), Edit(Edited(), c).text)
      modifies this, cells
      ensures r == if old(x == VGA_WIDTH - 1 && y == VGA_HEIGHT && lineY == 0) then Lost else Ok
      ensures r == Ok ==> Valid() && Started() && Edited() == Edit(old(Edited()), c)
    {
      ghost var l := Edited();
      var max := CursorNextcharKbd();
      text := Edit(l, c).text;
      if max {
        Scroll();
        if lineY == 0 {
          lineY := NOWHERE;
          return Lost;
        }
        lineY := lineY - 1;
      }
      r := Ok;
    }

    method KeyErase(idx: nat, back: bool) returns (r: Outcome)
      requires Valid() && Started() && idx < charsCtr && idx == positionCtr - (if back then 1 else 0)
      modifies this, cells, stdinLine
      ensures r == if old(Outside(lineX, lineY, charsCtr)) then Panic else Ok
      ensures r == Ok ==> Valid() && Started() && Edited() == Edit(old(Edited()), if back then BACKSPACE else DEL)
    {
      var ok := RemoveFromInputline(idx);
      if !ok {
        return Panic;
      }
      ghost var text' := text[..idx] + text[idx + 1..];
      if back {
        CursorMoveLeft(false);
      }
      CursorRemoveChar();
      text := text';
      r := Ok;
    }

    method KeyEnter() returns (r: Outcome)
      requires Valid() && Started()
      modifies this, cells, stdinLine
      ensures r == if old(Outside(lineX, lineY, charsCtr)) then Panic else Ok
      ensures r == Ok ==> Valid() && Started() && Edited() == Line([], 0) && x == 0
      ensures r == Ok ==> y == if old(y) == VGA_HEIGHT then VGA_HEIGHT else old(lineY) + |old(text)| / VGA_WIDTH + 1
      ensures cells[..] == old(cells[..]) || (r == Ok && old(y) == VGA_HEIGHT)
      ensures r == Ok ==> stdinLen == |old(text)| <= MAX_LINE_LEN && stdinLine[..stdinLen] == old(text)
    {
      var ok := ReadLine();
      if !ok {
        return Panic;
      }
      stdinLen := charsCtr;
      var max := CursorNewlineKbd();
      if max {
        Scroll();
      }
      r := Ok;
    }

    /** `terminal_putchar_from_keyboard`: every key that goes well does to the line, as the
        screen shows it, what it does to a line of text; Enter hands over exactly the line. */
    method PutcharFromKeyboard(c: Code) returns (r: Outcome)
      requires Valid()
      modifies this, cells, stdinLine
      ensures r == Ok ==> Valid() && Started() && Edited() == Edit(old(Edited()), c)
      ensures r == Ok && c == NEWLINE ==> text == [] && positionCtr == 0 && x == 0
      ensures r == Ok && c == NEWLINE ==> y == if old(y) == 24 then 24 else old(if Started() then lineY else y) + |old(text)| / 80 + 1
      ensures !Printable(c) && c != BACKSPACE && c != DEL && (c == NEWLINE ==> old(y) != 24) ==> cells[..] == old(cells[..])
      ensures r == Ok && c == NEWLINE ==> stdinLen == |old(text)| <= MAX_LINE_LEN && stdinLine[..stdinLen] == old(text)
      ensures old(Started()) ==> r == old(Fate(c))
      ensures !old(Started()) ==> r == old(FirstFate(c))
    {
      hide Shows, Outside, Aligned;
      StartLine();
      assert Edited() == old(Edited());
      if Printable(c) {
        r := KeyPrintable(c);
      } else if c == ARR_LEFT {
        CursorMoveLeft(false);
        r := Ok;
      } else if c == HOME {
        CursorMoveLeft(true);
        r := Ok;
      } else if c == ARR_RIGHT {
        CursorMoveRight(false);
        r := Ok;
      } else if c == END {
        CursorMoveRight(true);
        r := Ok;
      } else if c == NEWLINE {
        r := KeyEnter();
      } else if c == BACKSPACE {
        if charsCtr == 0 || positionCtr == 0 {
          return Ok;
        }
        r := KeyErase(positionCtr - 1, true);
      } else if c == DEL {
        if charsCtr == 0 || charsCtr == positionCtr {
          return Ok;
        }
        r := KeyErase(positionCtr, false);
      } else {
        r := Ok;
      }
    }

    /** A run of keys: as long as each goes well, the screen shows the line edited by all of them. */
    method PressAll(keys: seq<Code>) returns (r: Outcome, pressed: nat)
      requires Valid() && NEWLINE !in keys
      modifies this, cells, stdinLine
      ensures pressed <= |keys| && (r == Ok <==> pressed == |keys|)
      ensures r == Ok ==> Valid() && Edited() == EditAll(old(Edited()), keys)
    {
      hide Valid, Edit;
      r, pressed := Ok, 0;
      LineIsOk();
      ghost var line := Edited();
      assert keys[..0] == [];
      while pressed < |keys|
        invariant pressed <= |keys| && r == Ok && Valid() && LineOk(line) && Edited() == EditAll(line, keys[..pressed])
      {
        r := PutcharFromKeyboard(keys[pressed]);
        if r != Ok {
          return;
        }
        OneMoreKey(line, keys, pressed);
        pressed := pressed + 1;
      }
      assert keys[..pressed] == keys;
    }

    lemma LineIsOk()
      requires Valid()
      ensures LineOk(Edited())
    {
    }

    /** The fate of the first key of a line. */
    ghost function FirstFate(c: Code): Outcome
      reads this
    {
      if Printable(c) then
        if Here() >= CELLS then OffScreen
        else Ok
      else if c == NEWLINE && Outside(x, y, 0) then Panic
      else Ok
    }
  }

  lemma Inserted(before: seq<nat>, after: seq<nat>, at: nat, l: Line, c: Code, color: Code)
    requires LineOk(l) && l.pos < |l.text| && Printable(c) && Shows(before, at, l.text) && |after| == |before| && at + |l.text| < |after|
    requires forall i {:trigger after[i]} :: at <= i < at + l.pos ==> after[i] == before[i]
    requires CodeOf(after[at + l.pos]) == c
    requires forall i {:trigger l.text[l.pos..][i]} :: 0 <= i < |l.text| - l.pos ==> CodeOf(after[at + l.pos + 1 + i]) == l.text[l.pos..][i]
    ensures Shows(after, at, Edit(l, c).text)
  {
    var text' := Edit(l, c).text;
    forall i | 0 <= i < |text'| ensures CodeOf(after[at + i]) == text'[i] {
      if i < l.pos {
        assert text'[i] == l.text[i];
      } else if i > l.pos {
        assert text'[i] == l.text[l.pos..][i - l.pos - 1];
      }
    }
  }
}
