/**
 * The VGA text console, kernel/vgacon.c: `vgacon_putc` stores a byte at
 * the cursor of the 80 x 24 screen this console uses (or moves to the
 * next row on newline) and scrolls once the cursor runs off the end;
 * `vgacon_write` threads the cursor through the bytes of a message.
 *
 * The video memory is the 80 x 25 cells of the hardware text screen; the
 * console leaves the 25th row alone.  Reading and writing the cursor
 * position through the CRTC ports is not modelled beyond the split of the
 * 16-bit position into its two register bytes.
 */
module VgaCon {
  import opened Machine

  /** `vga_video_num_columns` */
  const COLUMNS := 80
  /** `vga_video_num_lines`: 25 - 1 */
  const LINES := 24
  /** `size` in `vgacon_putc`: the cells the console writes. */
  const SCREEN_CELLS := COLUMNS * LINES
  /** The cells of the hardware's 80 x 25 text screen. */
  const VRAM_CELLS := COLUMNS * 25
  /** The attribute byte `vgacon_putc` gives every character: light grey on black. */
  const ATTRIBUTE := 0x07

  lemma ScreenSize()
    ensures SCREEN_CELLS == 1920 && VRAM_CELLS == 2000
  {
  }

  /** `c | 0x0700`: the byte in the low half and the attribute in the high half. */
  function Cell(c: u8): (r: u16)
  {
    c + 0x0100 * ATTRIBUTE
  }

  lemma CellHalves(c: u8)
    ensures Cell(c) % 0x100 == c && Cell(c) / 0x100 == ATTRIBUTE
  {
  }

  /** The cursor after the byte itself, before any scrolling. */
  function Advance(cur: nat, c: u8): nat
  {
    if c == '\n' as u8 then cur + COLUMNS - cur % COLUMNS else cur + 1
  }

  /**
   * The scrolled screen: rows 1..23 move up one row (the memmove of 1840
   * cells), row 23 becomes zero (the memset) and row 24 is untouched.
   */
  function Scroll(s: seq<u16>): (r: seq<u16>)
    requires |s| == VRAM_CELLS
    ensures |r| == VRAM_CELLS
  {
    s[COLUMNS..SCREEN_CELLS] + seq(COLUMNS, _ => 0) + s[SCREEN_CELLS..]
  }

  /** Screen and cursor after `vgacon_putc(cur, c)`. */
  function Putc(s: seq<u16>, cur: nat, c: u8): (r: (seq<u16>, nat))
    requires |s| == VRAM_CELLS && cur < VRAM_CELLS
    ensures |r.0| == VRAM_CELLS
  {
    var written := if c == '\n' as u8 then s else s[cur := Cell(c)];
    var next := Advance(cur, c);
    if next >= SCREEN_CELLS then (Scroll(written), next - COLUMNS) else (written, next)
  }

  /**
   * A cursor on the console's screen stays on it, and one on the
   * hardware screen stays there; after a newline it is at the start of a
   * row.
   */
  lemma PutcCursor(s: seq<u16>, cur: nat, c: u8)
    requires |s| == VRAM_CELLS && cur < VRAM_CELLS
    ensures Putc(s, cur, c).1 < VRAM_CELLS
    ensures cur < SCREEN_CELLS ==> Putc(s, cur, c).1 < SCREEN_CELLS
    ensures c == '\n' as u8 ==> Putc(s, cur, c).1 % COLUMNS == 0
    ensures c != '\n' as u8 && cur + 1 < SCREEN_CELLS ==> Putc(s, cur, c).1 == cur + 1
  {
  }

  /**
   * Without a scroll only the cell at the old cursor can change: a
   * newline changes nothing and any other byte lands there as Cell(c).
   */
  lemma PutcWithoutScroll(s: seq<u16>, cur: nat, c: u8)
    requires |s| == VRAM_CELLS && cur < VRAM_CELLS
    requires Advance(cur, c) < SCREEN_CELLS
    ensures forall k :: 0 <= k < VRAM_CELLS && k != cur ==> Putc(s, cur, c).0[k] == s[k]
    ensures Putc(s, cur, c).0[cur] == if c == '\n' as u8 then s[cur] else Cell(c)
  {
  }

  /** What a scroll does to each cell. */
  lemma ScrollCells(s: seq<u16>, k: nat)
    requires |s| == VRAM_CELLS && k < VRAM_CELLS
    ensures Scroll(s)[k] == if k < SCREEN_CELLS - COLUMNS then s[k + COLUMNS]
                            else if k < SCREEN_CELLS then 0 else s[k]
  {
  }

  /**
   * A byte written in the last cell of the screen is kept by the scroll it
   * triggers, one row up, and the cursor moves to the start of the cleared
   * last row.
   */
  lemma PutcScrollKeepsByte(s: seq<u16>, cur: nat, c: u8)
    requires |s| == VRAM_CELLS && cur == SCREEN_CELLS - 1 && c != '\n' as u8
    ensures Putc(s, cur, c).1 == SCREEN_CELLS - COLUMNS
    ensures Putc(s, cur, c).0[cur - COLUMNS] == Cell(c)
  {
    ScrollCells(s[cur := Cell(c)], cur - COLUMNS);
  }

  /** Screen and cursor after `vgacon_putc` has been applied to the bytes of msg in order. */
  function Write(s: seq<u16>, cur: nat, msg: seq<u8>): (r: (seq<u16>, nat))
    requires |s| == VRAM_CELLS && cur < VRAM_CELLS
    ensures |r.0| == VRAM_CELLS && r.1 < VRAM_CELLS
    ensures cur < SCREEN_CELLS ==> r.1 < SCREEN_CELLS
  {
    if |msg| == 0 then (s, cur)
    else
      var before := Write(s, cur, msg[..|msg| - 1]);
      PutcCursor(before.0, before.1, msg[|msg| - 1]);
      Putc(before.0, before.1, msg[|msg| - 1])
  }

  /** Writing a + b is writing a, then b from where a left the cursor. */
  lemma {:induction false} WriteConcat(s: seq<u16>, cur: nat, a: seq<u8>, b: seq<u8>)
    requires |s| == VRAM_CELLS && cur < VRAM_CELLS
    ensures var mid := Write(s, cur, a); Write(s, cur, a + b) == Write(mid.0, mid.1, b)
    decreases |b|
  {
    if |b| > 0 {
      assert (a + b)[..|a + b| - 1] == a + b[..|b| - 1];
      WriteConcat(s, cur, a, b[..|b| - 1]);
    } else {
      assert a + b == a;
    }
  }

  /** The cursor position as the two CRTC registers hold it: high byte, low byte. */
  function CursorRegisters(cur: u16): (u8, u8)
  {
    (cur / 0x100, cur % 0x100)
  }

  /** `vga_rcrt(CURSOR_HI) << 8 | vga_rcrt(CURSOR_LO)`; the two bytes do not overlap. */
  function CursorFromRegisters(hi: u8, lo: u8): u16
  {
    0x100 * hi + lo
  }

  /** Writing the cursor back and reading it again gives the same position. */
  lemma CursorRegistersRoundTrip(cur: u16)
    ensures CursorFromRegisters(CursorRegisters(cur).0, CursorRegisters(cur).1) == cur
  {
  }

  /** The video memory the console writes into. */
  class Screen {
    const cells: array<u16>

    ghost predicate Valid()
      reads this
    {
      cells.Length == VRAM_CELLS
    }

    constructor (vram: array<u16>)
      requires vram.Length == VRAM_CELLS
      ensures Valid() && cells == vram
    {
      cells := vram;
    }

    /** The memmove and memset of `vgacon_putc`'s scroll. */
    method ScrollUp()
      requires Valid()
      modifies cells
      ensures cells[..] == Scroll(old(cells[..]))
    {
      for k := 0 to SCREEN_CELLS - COLUMNS
        invariant forall j :: 0 <= j < k ==> cells[j] == old(cells[j + COLUMNS])
        invariant forall j :: k <= j < VRAM_CELLS ==> cells[j] == old(cells[j])
      {
        cells[k] := cells[k + COLUMNS];
      }
      for k := SCREEN_CELLS - COLUMNS to SCREEN_CELLS
        invariant forall j :: 0 <= j < SCREEN_CELLS - COLUMNS ==> cells[j] == old(cells[j + COLUMNS])
        invariant forall j :: SCREEN_CELLS - COLUMNS <= j < k ==> cells[j] == 0
        invariant forall j :: k <= j < VRAM_CELLS ==> cells[j] == old(cells[j])
      {
        cells[k] := 0;
      }
      forall j | 0 <= j < VRAM_CELLS
        ensures cells[j] == Scroll(old(cells[..]))[j]
      {
        ScrollCells(old(cells[..]), j);
      }
    }

    /**
     * `vgacon_putc(cur, c)`.  The C function indexes VRAM with cur unchecked;
     * every caller meets `cur < VRAM_CELLS`, because the cursor is 0 at boot,
     * only vgacon writes it, and PutcCursor shows each write keeps it there.
     */
    method PutChar(cur: nat, c: u8) returns (next: nat)
      requires Valid() && cur < VRAM_CELLS
      modifies cells
      ensures (cells[..], next) == Putc(old(cells[..]), cur, c)
    {
      if c == '\n' as u8 {
        next := cur + COLUMNS - cur % COLUMNS;
      } else {
        cells[cur] := Cell(c);
        next := cur + 1;
      }
      if next >= SCREEN_CELLS {
        ScrollUp();
        next := next - COLUMNS;
      }
    }

    /** The loop of `vgacon_write`: every byte goes through `vgacon_putc` in order. */
    method WriteString(cur: nat, msg: seq<u8>) returns (next: nat)
      requires Valid() && cur < VRAM_CELLS
      modifies cells
      ensures (cells[..], next) == Write(old(cells[..]), cur, msg)
    {
      next := cur;
      for i := 0 to |msg|
        invariant (cells[..], next) == Write(old(cells[..]), cur, msg[..i])
      {
        assert msg[..i + 1][..i] == msg[..i];
        PutcCursor(cells[..], next, msg[i]);
        next := PutChar(next, msg[i]);
      }
      assert msg[..|msg|] == msg;
    }
  }
}
