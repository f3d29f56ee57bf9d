/** The text consoles in place (kernel/tty.c:40-86, kernel/tty.c:98-177): console records
    and the video memory they share. */
module TtyConsole {
  import opened Tty

  class Console {
    var start: nat
    const original: nat
    const limit: nat
    var cursor: nat

    function Value(): Con
      reads this
    {
      Con(start, original, limit, cursor)
    }

    /** tty_create */
    constructor (id: nat)
      requires id < TTY_NUM
      ensures Value() == Created(id) && Ok(Value())
    {
      var vMemSize := 0x8000 / 2;
      var conVMemSize := vMemSize / 3;
      original := id * conVMemSize;
      limit := conVMemSize;
      start := id * conVMemSize;
      cursor := id * conVMemSize;
      new;
      assert OnRow(Value(), 0);
    }
  }

  class Terminals {
    const table: seq<Console>
    const video: array<bv8>
    var shownStart: nat
    var shownCursor: nat

    ghost predicate Valid()
      reads this, table, video
    {
      && |table| == 3 && table[0] != table[1] && table[0] != table[2] && table[1] != table[2]
      && video.Length == 0x8000
      && Good(Value())
    }

    ghost function Value(): Screen
      requires |table| == 3
      reads this, table, video
    {
      Screen([table[0].Value(), table[1].Value(), table[2].Value()], video[..], shownStart, shownCursor)
    }

    /** init_tty */
    constructor (video: array<bv8>, shownStart: nat, shownCursor: nat)
      requires video.Length == 0x8000
      ensures Valid() && this.video == video && fresh(table)
      ensures Value() == Screen([Created(0), Created(1), Created(2)], video[..], shownStart, shownCursor)
    {
      this.video := video;
      this.shownStart, this.shownCursor := shownStart, shownCursor;
      var c0 := new Console(0);
      var c1 := new Console(1);
      var c2 := new Console(2);
      table := [c0, c1, c2];
      new;
      CreatedIsGood(video[..], shownStart, shownCursor);
    }

    method ScrollScreen(con: Console, d: Direction)
      requires con in table && Ok(con.Value())
      modifies con`start, `shownStart, `shownCursor
      ensures con.Value() == Scrolled(old(con.Value()), d) && Ok(con.Value())
      ensures shownStart == con.start && shownCursor == con.cursor
    {
      ScrollKeepsOk(con.Value(), d);
      if d == Up {
        if con.start > con.original {
          con.start := con.start - 80;
        }
      } else {
        if con.start + 2000 < con.original + con.limit {
          con.start := con.start + 80;
        }
      }
      shownStart := con.start;
      shownCursor := con.cursor;
    }

    /** The switch of console_out_char: moves the cursor and paints a cell. */
    method PutChar(con: Console, ch: bv8)
      requires con in table && Ok(con.Value()) && 2 * (con.original + con.limit) <= video.Length
      modifies con`cursor, video
      ensures con.Value() == Moved(old(con.Value()), ch)
      ensures video[..] == Painted(old(video[..]), PaintOf(old(con.Value()), ch))
    {
      var p := con.cursor * 2;
      if ch == LINE_FEED {
        if con.cursor < con.original + con.limit - 80 {
          con.cursor := con.original + 80 * ((con.cursor - con.original) / 80 + 1);
        }
      } else if ch == BACKSPACE {
        if con.cursor > con.original {
          con.cursor := con.cursor - 1;
          video[p - 2] := BLANK;
          video[p - 1] := COLOR;
        }
      } else {
        if con.cursor < con.original + con.limit - 1 {
          video[p] := ch;
          video[p + 1] := COLOR;
          con.cursor := con.cursor + 1;
        }
      }
    }

    /** The scrolling loop of console_out_char and its flush. */
    method Follow(con: Console)
      requires con in table && Ok(con.Value())
      modifies con`start, `shownStart, `shownCursor
      ensures con.Value() == Followed(old(con.Value()))
      ensures shownStart == con.start && shownCursor == con.cursor
    {
      while con.cursor >= con.start + 2000
        invariant Ok(con.Value()) && con.cursor == old(con.cursor)
        invariant Followed(con.Value()) == Followed(old(con.Value()))
        decreases con.cursor + 1 - con.start
      {
        ScrollScreen(con, Down);
      }
      shownCursor := con.cursor;
      shownStart := con.start;
    }

    method OutChar(id: nat, ch: bv8)
      requires Valid() && id < 3
      modifies this, table[id], video
      ensures Valid() && Value() == Tty.OutChar(old(Value()), id, ch)
    {
      assert Value().cons[id] == table[id].Value();
      MovedKeepsOk(table[id].Value(), ch);
      PutChar(table[id], ch);
      Follow(table[id]);
      assert Value().cons == old(Value()).cons[id := table[id].Value()];
      assert Value() == Tty.OutChar(old(Value()), id, ch);
    }

    /** tty_write */
    method TtyWrite(miDev: nat, buf: seq<bv8>) returns (len: nat)
      requires Valid() && miDev < 3
      modifies this, table[miDev], video
      ensures Valid() && Value() == Write(old(Value()), miDev, buf) && len == |buf|
    {
      var p := 0;
      while p < |buf|
        invariant p <= |buf| && Valid()
        invariant Write(Value(), miDev, buf[p..]) == Write(old(Value()), miDev, buf)
      {
        assert buf[p..][0] == buf[p] && buf[p..][1..] == buf[p + 1..];
        OutChar(miDev, buf[p]);
        p := p + 1;
      }
      return |buf|;
    }

    /** A scroll key on terminal id. */
    method ScrollKey(id: nat, d: Direction)
      requires Valid() && id < 3
      modifies this, table[id]
      ensures Valid() && Value() == Scroll(old(Value()), id, d)
    {
      assert Value().cons[id] == table[id].Value();
      ScrollScreen(table[id], d);
      assert Value().cons == old(Value()).cons[id := table[id].Value()];
      assert Value() == Scroll(old(Value()), id, d);
    }
  }
}
