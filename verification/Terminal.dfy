/** The scrolling text terminal of the boot stages (Boot/Legacy/Shared/Graphics/Graphics.c). */
module Terminal {
  import opened Products
  import opened RawMemory

  const TAB: Byte := 9
  const NEWLINE: Byte := 10

  predicate Ignored(ch: Byte) { ch == 0 || ch == 8 || ch == 11 || ch == 12 || ch == 13 }

  predicate Plain(ch: Byte) { !Ignored(ch) && ch != NEWLINE && ch != TAB }

  // The terminal without an end: a canvas of rows that only grows

  /** Two bytes a cell, row after row; the cursor is in one of the rows. */
  datatype Canvas = Canvas(cells: seq<Byte>, rows: nat, x: nat, y: nat) {
    predicate Valid(width: nat) {
      |cells| == rows * (2 * width) && x < width && y < rows
    }
  }

  function Blank(width: nat): seq<Byte> { seq(2 * width, _ => 0) }

  /** Where the cursor goes, in a row of the given width. */
  function Step(x: nat, y: nat, width: nat, ch: Byte): (nat, nat) {
    var x' := if ch == NEWLINE then 0 else if ch == TAB then x + 4 else x + 1;
    var y' := if ch == NEWLINE then y + 1 else y;
    if x' >= width then (0, y' + 1) else (x', y')
  }

  /** The cursor goes on; a cursor below the last row gets a new one. */
  function Advance(c: Canvas, width: nat, ch: Byte): Canvas {
    var (x, y) := Step(c.x, c.y, width, ch);
    if y < c.rows then Canvas(c.cells, c.rows, x, y) else Canvas(c.cells + Blank(width), c.rows + 1, 0, c.rows)
  }

  lemma StepFrom(x: nat, y: nat, above: nat, width: nat, ch: Byte)
    ensures var (x', y') := Step(x, y, width, ch); Step(x, above + y, width, ch) == (x', above + y')
  {
  }

  function Place(c: Canvas, width: nat): nat { 2 * c.x + c.y * (2 * width) }

  lemma PlaceIsInside(x: nat, y: nat, rows: nat, width: nat)
    requires x < width && y < rows
    ensures 2 * x + y * (2 * width) + 1 < rows * (2 * width)
  {
    MulAdd(y, 1, 2 * width);
    MulMonotone(y + 1, rows, 2 * width);
  }

  function Draw(c: Canvas, width: nat, ch: Byte, color: Byte): (d: Canvas)
    requires c.Valid(width)
    ensures d.Valid(width)
  {
    PlaceIsInside(c.x, c.y, c.rows, width);
    c.(cells := c.cells[Place(c, width) := ch][Place(c, width) + 1 := color])
  }

  function Put(c: Canvas, width: nat, ch: Byte, color: Byte): Canvas
    requires c.Valid(width)
  {
    if Ignored(ch) then c
    else if ch == NEWLINE || ch == TAB then Advance(c, width, ch)
    else Advance(Draw(c, width, ch, color), width, ch)
  }

  lemma AdvanceIsValid(c: Canvas, width: nat, ch: Byte)
    requires c.Valid(width)
    ensures Advance(c, width, ch).Valid(width)
    ensures var d := Advance(c, width, ch); d.rows == c.rows || (d.rows == c.rows + 1 && d.y == c.rows)
  {
    MulAdd(c.rows, 1, 2 * width);
  }

  lemma PutIsValid(c: Canvas, width: nat, ch: Byte, color: Byte)
    requires c.Valid(width)
    ensures Put(c, width, ch, color).Valid(width)
  {
    AdvanceIsValid(c, width, ch);
    AdvanceIsValid(Draw(c, width, ch, color), width, ch);
  }

  function PutAll(c: Canvas, width: nat, s: seq<Byte>, color: Byte): Canvas
    requires c.Valid(width)
    decreases |s|
  {
    if s == [] then c
    else
      PutIsValid(c, width, s[0], color);
      PutAll(Put(c, width, s[0], color), width, s[1..], color)
  }

  lemma BlankSize(width: nat)
    ensures |Blank(width)| == 2 * width
  {
  }

  lemma LastRow(limitY: nat, offset: nat, size: nat)
    requires limitY > 0 && size == offset * (limitY - 1)
    ensures size == (limitY - 1) * offset && size + offset == limitY * offset
  {
    MulAdd(limitY - 1, 1, offset);
  }

  lemma ScrolledUp(s0: seq<Byte>, s1: seq<Byte>, s2: seq<Byte>, size: nat, offset: nat)
    requires |s0| == size + offset && s1 == Overlay(s0, 0, s0[offset..offset + size])
    requires s2 == Overlay(s1, size, seq(offset, _ => 0))
    ensures offset % 2 == 0 ==> s2 == s0[offset..] + Blank(offset / 2)
  {
    var r := s0[offset..] + seq(offset, _ => 0);
    forall k | 0 <= k < |s2|
      ensures s2[k] == r[k]
    {
    }
  }

  /** A new row at the end of the canvas moves the window down by one row. */
  lemma WindowMoves(cells: seq<Byte>, window: seq<Byte>, width: nat)
    requires 2 * width <= |window| <= |cells| && window == cells[|cells| - |window|..]
    ensures var more := cells + Blank(width);
      window[2 * width..] + Blank(width) == more[|more| - |window|..]
  {
  }

  lemma WindowDraws(c: Canvas, width: nat, height: nat, posX: nat, posY: nat, s: seq<Byte>, s': seq<Byte>,
                    ch: Byte, color: Byte)
    requires c.Valid(width) && height <= c.rows && c.x == posX && c.y == c.rows - height + posY && posY < height
    requires |s| == height * (2 * width) <= |c.cells| && s == c.cells[|c.cells| - |s|..]
    requires 2 * posX + posY * (2 * width) + 1 < |s|
    requires s' == s[2 * posX + posY * (2 * width) := ch][2 * posX + posY * (2 * width) + 1 := color]
    ensures s' == Draw(c, width, ch, color).cells[|c.cells| - |s|..]
  {
    MulAdd(c.rows - height, posY, 2 * width);
    MulAdd(c.rows - height, height, 2 * width);
    PlaceIsInside(c.x, c.y, c.rows, width);
    var p, q := Place(c, width), 2 * posX + posY * (2 * width);
    assert p == |c.cells| - |s| + q;
  }

  ghost predicate SameUpTo(s: seq<Byte>, s': seq<Byte>, n: nat) {
    n <= |s| <= |s'| && forall k | 0 <= k < n :: s'[k] == s[k]
  }

  lemma AdvancePlace(c: Canvas, width: nat, ch: Byte)
    requires c.Valid(width) && Plain(ch)
    ensures var d := Advance(c, width, ch);
      d.Valid(width) && Place(d, width) == Place(c, width) + 2 && SameUpTo(c.cells, d.cells, |c.cells|)
  {
    AdvanceIsValid(c, width, ch);
    MulAdd(c.y, 1, 2 * width);
  }

  lemma PutPlain(c: Canvas, width: nat, ch: Byte, color: Byte)
    requires c.Valid(width) && Plain(ch)
    ensures var d, at := Put(c, width, ch, color), Place(c, width);
      && d.Valid(width) && Place(d, width) == at + 2 && at + 2 <= |c.cells| && SameUpTo(c.cells, d.cells, at)
      && d.cells[at] == ch && d.cells[at + 1] == color
  {
    hide Advance;
    PlaceIsInside(c.x, c.y, c.rows, width);
    AdvancePlace(Draw(c, width, ch, color), width, ch);
  }

  ghost predicate TextAt(cells: seq<Byte>, at: nat, s: seq<Byte>, color: Byte) {
    at + 2 * |s| <= |cells| && forall i | 0 <= i < |s| :: cells[at + 2 * i] == s[i] && cells[at + 2 * i + 1] == color
  }

  lemma TextGrows(cells: seq<Byte>, cells': seq<Byte>, at: nat, s: seq<Byte>, color: Byte)
    requires s != [] && TextAt(cells', at + 2, s[1..], color) && SameUpTo(cells, cells', at + 2)
    requires cells[at] == s[0] && cells[at + 1] == color
    ensures TextAt(cells', at, s, color)
  {
    forall i | 0 <= i < |s|
      ensures cells'[at + 2 * i] == s[i] && cells'[at + 2 * i + 1] == color
    {
      if i > 0 {
        assert cells'[at + 2 + 2 * (i - 1)] == s[1..][i - 1] && cells'[at + 2 + 2 * (i - 1) + 1] == color;
      }
    }
  }

  /** Plain text stands in reading order from the cursor on, however often the lines wrap or the screen scrolls. */
  lemma {:induction false} TextInReadingOrder(c: Canvas, width: nat, s: seq<Byte>, color: Byte)
    requires c.Valid(width) && forall i | 0 <= i < |s| :: Plain(s[i])
    ensures var d, at := PutAll(c, width, s, color), Place(c, width);
      d.Valid(width) && Place(d, width) == at + 2 * |s| && TextAt(d.cells, at, s, color)
        && SameUpTo(c.cells, d.cells, at)
    decreases |s|
  {
    hide Put, Place, Plain;
    if s == [] {
      InsidePlace(c, width);
    } else {
      PutPlain(c, width, s[0], color);
      var e := Put(c, width, s[0], color);
      TextInReadingOrder(e, width, s[1..], color);
      TextGrows(e.cells, PutAll(c, width, s, color).cells, Place(c, width), s, color);
    }
  }

  lemma InsidePlace(c: Canvas, width: nat)
    requires c.Valid(width)
    ensures Place(c, width) < |c.cells|
  {
    PlaceIsInside(c.x, c.y, c.rows, width);
  }

  /** The cursor of one canvas is n cells further on in its row, or at the start of the next one. */
  predicate GoesOn(c: Canvas, d: Canvas, width: nat, n: nat) {
    if c.x + n < width then d.x == c.x + n && d.y == c.y else d.x == 0 && d.y == c.y + 1
  }

  /**
   What each character does: null, backspace, vertical tab, form feed and carriage return nothing; a newline leads to
   the start of the next row, a tab four cells on; and any other one fills its cell, and leads one cell on. New rows
   are blank, and nothing else is changed.
   */
  lemma {:induction false} EveryCharacter(c: Canvas, width: nat, ch: Byte, color: Byte)
    requires c.Valid(width)
    ensures var d, at := Put(c, width, ch, color), 2 * (c.x + width * c.y);
      && (ch in {0, 8, 11, 12, 13} ==> d == c)
      && (ch == 10 ==> d.x == 0 && d.y == c.y + 1)
      && (ch == 9 ==> GoesOn(c, d, width, 4))
      && (ch !in {0, 8, 9, 10, 11, 12, 13} ==>
            GoesOn(c, d, width, 1) && at + 1 < |c.cells| <= |d.cells| && d.cells[at] == ch && d.cells[at + 1] == color)
      && |c.cells| <= |d.cells|
      && (forall k | 0 <= k < |c.cells| && (ch in {0, 8, 9, 10, 11, 12, 13} || (k != at && k != at + 1)) ::
            d.cells[k] == c.cells[k])
      && (forall k | |c.cells| <= k < |d.cells| :: d.cells[k] == 0)
  {
    PlaceIsInside(c.x, c.y, c.rows, width);
    PlaceIs(c, width);
    BlankIsZero(width);
    hide Blank, Place;
  }

  lemma PlaceIs(c: Canvas, width: nat)
    ensures Place(c, width) == 2 * (c.x + width * c.y)
  {
    assert c.y * (2 * width) == 2 * (width * c.y);
  }

  lemma BlankIsZero(width: nat)
    ensures forall k | 0 <= k < |Blank(width)| :: Blank(width)[k] == 0
  {
  }

  /** The code's terminal: a window of limitY rows on a framebuffer. */
  class Screen {
    const limitX: nat
    const limitY: nat
    const framebuffer: array<Byte>
    var posX: nat
    var posY: nat
    var debugFlag: bool

    ghost predicate Valid()
      reads this
    {
      && 0 < limitX <= 0xFFFC && 0 < limitY < 0x1_0000
      && 2 * limitX <= framebuffer.Length == limitY * (2 * limitX)
      && posX < limitX && posY < limitY
    }

    /** The framebuffer shows the last rows of a canvas, and the cursor is the canvas's. */
    ghost predicate Shows(c: Canvas)
      reads this, framebuffer
    {
      && Valid() && c.Valid(limitX) && limitY <= c.rows && c.x == posX && c.y == c.rows - limitY + posY
      && framebuffer.Length <= |c.cells| && framebuffer[..] == c.cells[|c.cells| - framebuffer.Length..]
    }

    constructor (limitX: nat, limitY: nat, framebuffer: array<Byte>)
      requires 0 < limitX <= 0xFFFC && 0 < limitY < 0x1_0000 && framebuffer.Length == limitY * (2 * limitX)
      ensures this.framebuffer == framebuffer && this.limitX == limitX && this.limitY == limitY
      ensures Shows(Canvas(framebuffer[..], limitY, 0, 0))
    {
      this.limitX := limitX;
      this.limitY := limitY;
      this.framebuffer := framebuffer;
      posX, posY := 0, 0;
      AtLeastOne(limitY, 2 * limitX);
    }

    method ClearTerminal()
      requires Valid()
      modifies framebuffer
      ensures Valid() && forall k | 0 <= k < framebuffer.Length :: framebuffer[k] == 0
    {
      var size := (limitX * limitY) * 2;
      assert size == framebuffer.Length;
      Memset(framebuffer, 0, 0, size);
    }

    /** The first row is lost, the others move up, and the last one is empty. */
    method Scroll()
      requires Valid()
      modifies framebuffer
      ensures framebuffer[..] == old(framebuffer[2 * limitX..]) + Blank(limitX)
    {
      hide Overlay, Blank;
      ghost var s0 := framebuffer[..];
      var size := 2 * limitX * (limitY - 1);
      var offset := 2 * limitX;
      LastRow(limitY, offset, size);
      assert framebuffer[offset..offset + size] == s0[offset..offset + size];
      Memmove(framebuffer, 0, offset, size);
      ghost var s1 := framebuffer[..];
      Memset(framebuffer, (limitY - 1) * offset, 0, offset);
      assert framebuffer.Length == size + offset;
      ScrolledUp(s0, s1, framebuffer[..], size, offset);
    }

    method UpdateTerminal(ch: Byte, ghost c: Canvas)
      requires Shows(c) && (Plain(ch) || ch == NEWLINE || ch == TAB)
      modifies this`posX, this`posY, framebuffer
      ensures Shows(Advance(c, limitX, ch))
    {
      hide Blank, Plain, Step;
      BlankSize(limitX);
      StepFrom(posX, posY, c.rows - limitY, limitX, ch);
      AdvanceIsValid(c, limitX, ch);
      MoveCursor(ch);
      if posY >= limitY {
        posX := 0;
        posY := limitY - 1;
        ghost var s := framebuffer[..];
        Scroll();
        WindowMoves(c.cells, s, limitX);
      }
    }

    method MoveCursor(ch: Byte)
      modifies this`posX, this`posY
      ensures (posX, posY) == Step(old(posX), old(posY), limitX, ch)
    {
      if ch == NEWLINE {
        posX := 0;
        posY := posY + 1;
      } else if ch == TAB {
        posX := posX + 4;
      } else {
        posX := posX + 1;
      }
      if posX >= limitX {
        posX := 0;
        posY := posY + 1;
      }
    }

    method PutcharAt(ch: Byte, color: Byte, x: nat, y: nat)
      requires Valid() && x < limitX && y < limitY
      modifies framebuffer
      ensures 2 * x + y * (2 * limitX) + 1 < framebuffer.Length
      ensures framebuffer[..] ==
        old(framebuffer[..])[2 * x + y * (2 * limitX) := ch][2 * x + y * (2 * limitX) + 1 := color]
    {
      PlaceIsInside(x, y, limitY, limitX);
      var offset := 2 * (x + limitX * y);
      assert offset == 2 * x + y * (2 * limitX);
      framebuffer[offset] := ch;
      framebuffer[offset + 1] := color;
    }

    method Putchar(ch: Byte, color: Byte, ghost c: Canvas)
      requires Shows(c)
      modifies this`posX, this`posY, framebuffer
      ensures Shows(if debugFlag then Put(c, limitX, ch, color) else c)
    {
      if !debugFlag {
        return;
      }
      if ch == 0 || ch == 8 || ch == 12 || ch == 13 || ch == 11 {
        return;
      }
      if ch == NEWLINE {
        UpdateTerminal(ch, c);
      } else if ch == TAB {
        UpdateTerminal(ch, c);
      } else {
        ghost var s := framebuffer[..];
        PutcharAt(ch, color, posX, posY);
        WindowDraws(c, limitX, limitY, posX, posY, s, framebuffer[..], ch, color);
        UpdateTerminal(ch, Draw(c, limitX, ch, color));
      }
    }

    /** After any text, the framebuffer is the last rows of the canvas that the same text has been put on. */
    method Print(str: seq<Byte>, color: Byte, ghost c: Canvas)
      requires Shows(c) && forall i | 0 <= i < |str| :: str[i] != 0
      modifies this`posX, this`posY, framebuffer
      ensures Shows(if debugFlag then PutAll(c, limitX, str, color) else c)
    {
      if !debugFlag {
        return;
      }
      ghost var d := c;
      var i := 0;
      while i < |str|
        invariant 0 <= i <= |str| && Shows(d)
        invariant PutAll(c, limitX, str, color) == PutAll(d, limitX, str[i..], color)
      {
        Putchar(str[i], color, d);
        d := Put(d, limitX, str[i], color);
        assert str[i..][0] == str[i] && str[i..][1..] == str[i + 1..];
        i := i + 1;
      }
    }
  }
}
