/** The text consoles (kernel/tty.c): three terminals, each with a cursor and a 25-line
    window, sharing one video memory. */
module Tty {
  const TTY_NUM := 3
  const LINE_FEED: bv8 := 10
  const BACKSPACE: bv8 := 8
  const BLANK: bv8 := 32
  const COLOR: bv8 := 7

  /** The window start, the area [original, original + limit) and the cursor, in cells. */
  datatype Con = Con(start: nat, original: nat, limit: nat, cursor: nat)

  /** All terminals, the two bytes of every cell, and what the CRT controller displays. */
  datatype Screen = Screen(cons: seq<Con>, video: seq<bv8>, shownStart: nat, shownCursor: nat)

  datatype Direction = Up | Down

  // ----- The reachable states of one console -----

  ghost predicate OnRow(c: Con, k: nat) {
    c.start == c.original + 80 * k
  }

  ghost predicate Ok(c: Con) {
    && 80 <= c.limit
    && c.original <= c.cursor < c.original + c.limit
    && (exists k: nat :: OnRow(c, k))
    && c.start + 2000 < c.original + c.limit + 80
  }

  // ----- What the operations do -----

  function Created(id: nat): Con {
    Con(id * 5461, id * 5461, 5461, id * 5461)
  }

  /** A scroll key, or one step of the automatic scrolling. */
  function Scrolled(c: Con, d: Direction): Con {
    match d
    case Up => if c.start > c.original then c.(start := if c.start < 80 then c.start + 0x1_0000_0000 - 80 else c.start - 80) else c
    case Down => if c.start + 2000 < c.original + c.limit then c.(start := c.start + 80) else c
  }

  /** Where a character moves the cursor. */
  function Moved(c: Con, ch: bv8): Con
    requires c.original <= c.cursor
  {
    if ch == LINE_FEED then
      if c.cursor + 80 < c.original + c.limit
      then c.(cursor := c.original + 80 * ((c.cursor - c.original) / 80 + 1))
      else c
    else if ch == BACKSPACE then
      if c.cursor > c.original then c.(cursor := c.cursor - 1) else c
    else
      if c.cursor + 1 < c.original + c.limit then c.(cursor := c.cursor + 1) else c
  }

  /** The cell and the character that ch paints. */
  datatype Paint = Nothing | Cell(at: nat, what: bv8)

  function PaintOf(c: Con, ch: bv8): (p: Paint)
    requires c.original <= c.cursor
    ensures p.Cell? && c.cursor < c.original + c.limit ==> c.original <= p.at < c.original + c.limit - 1
  {
    if ch == LINE_FEED then Nothing
    else if ch == BACKSPACE then if c.cursor > c.original then Cell(c.cursor - 1, BLANK) else Nothing
    else if c.cursor + 1 < c.original + c.limit then Cell(c.cursor, ch) else Nothing
  }

  function Painted(video: seq<bv8>, p: Paint): (r: seq<bv8>)
    requires p.Cell? ==> 2 * p.at + 1 < |video|
    ensures |r| == |video|
  {
    if p.Nothing? then video else video[2 * p.at := p.what][2 * p.at + 1 := COLOR]
  }

  /** The automatic scrolling. It takes the first window, going down, that ends after the
      cursor. */
  function Followed(c: Con): (r: Con)
    requires Ok(c)
    ensures Ok(r) && r == c.(start := r.start)
    ensures c.start <= r.start && r.cursor < r.start + 2000
    ensures r.start > c.start ==> r.start + 1920 <= r.cursor
    decreases c.cursor + 1 - c.start
  {
    if c.cursor < c.start + 2000 then
      c
    else
      ScrollKeepsOk(c, Down);
      Followed(Scrolled(c, Down))
  }

  /** Neither key moves the window off its rows or its start out of the area, and start never
      wraps below zero. The window's end may pass the area by less than a row. */
  lemma ScrollKeepsOk(c: Con, d: Direction)
    requires Ok(c)
    ensures Ok(Scrolled(c, d))
    ensures d.Up? && c.start > c.original ==> c.start >= c.original + 80 && Scrolled(c, d).start == c.start - 80
  {
    var k: nat :| OnRow(c, k);
    match d
    case Up => if c.start > c.original { assert OnRow(Scrolled(c, d), k - 1); } else { assert OnRow(Scrolled(c, d), k); }
    case Down => assert OnRow(Scrolled(c, d), if c.start + 2000 < c.original + c.limit then k + 1 else k);
  }

  lemma MovedKeepsOk(c: Con, ch: bv8)
    requires Ok(c)
    ensures Ok(Moved(c, ch)) && Moved(c, ch) == c.(cursor := Moved(c, ch).cursor)
  {
    var k: nat :| OnRow(c, k);
    assert OnRow(Moved(c, ch), k);
  }

  // ----- The three terminals -----

  ghost predicate Good(s: Screen) {
    && |s.cons| == 3 && |s.video| == 0x8000
    && forall i {:trigger s.cons[i]} :: 0 <= i < 3 ==> Ok(s.cons[i]) && s.cons[i].original == 5461 * i && s.cons[i].limit == 5461
  }

  /** console_out_char on terminal id; it also displays that terminal. */
  function OutChar(s: Screen, id: nat, ch: bv8): (r: Screen)
    requires Good(s) && id < 3
    ensures Good(r)
  {
    MovedKeepsOk(s.cons[id], ch);
    var c := Followed(Moved(s.cons[id], ch));
    Screen(s.cons[id := c], Painted(s.video, PaintOf(s.cons[id], ch)), c.start, c.cursor)
  }

  /** tty_write */
  function Write(s: Screen, id: nat, text: seq<bv8>): (r: Screen)
    requires Good(s) && id < 3
    ensures Good(r)
    decreases |text|
  {
    if text == [] then s else Write(OutChar(s, id, text[0]), id, text[1..])
  }

  /** A scroll key pressed on terminal id. */
  function Scroll(s: Screen, id: nat, d: Direction): (r: Screen)
    requires Good(s) && id < 3
    ensures Good(r)
  {
    ScrollKeepsOk(s.cons[id], d);
    var c := Scrolled(s.cons[id], d);
    s.(cons := s.cons[id := c], shownStart := c.start, shownCursor := c.cursor)
  }

  datatype Op = WriteOp(id: nat, text: seq<bv8>) | ScrollOp(id: nat, d: Direction)

  function Apply(s: Screen, op: Op): (r: Screen)
    requires Good(s) && op.id < 3
    ensures Good(r)
  {
    match op
    case WriteOp(id, text) => Write(s, id, text)
    case ScrollOp(id, d) => Scroll(s, id, d)
  }

  predicate Legal(ops: seq<Op>) {
    forall k :: 0 <= k < |ops| ==> ops[k].id < 3
  }

  /** Every run of writes and scroll keys stays among the good states. */
  function Run(s: Screen, ops: seq<Op>): (r: Screen)
    requires Good(s) && Legal(ops)
    ensures Good(r)
    decreases |ops|
  {
    if ops == [] then s else Run(Apply(s, ops[0]), ops[1..])
  }

  lemma CreatedIsGood(video: seq<bv8>, start: nat, cursor: nat)
    requires |video| == 0x8000
    ensures Good(Screen([Created(0), Created(1), Created(2)], video, start, cursor))
  {
    forall i: nat | i < 3 ensures Ok(Created(i)) { assert OnRow(Created(i), 0); }
  }

  // ----- No terminal disturbs another -----

  /** Terminal j has the same console and the same cells in s and in u. */
  ghost predicate SameTty(s: Screen, u: Screen, j: nat)
    requires Good(s) && Good(u) && j < 3
  {
    s.cons[j] == u.cons[j] && s.video[2 * (5461 * j)..2 * (5461 * j) + 10922] == u.video[2 * (5461 * j)..2 * (5461 * j) + 10922]
  }

  /** A character goes to its own terminal's cells only. */
  lemma OutCharElsewhere(s: Screen, id: nat, ch: bv8, j: nat)
    requires Good(s) && id < 3 && j < 3 && j != id
    ensures SameTty(s, OutChar(s, id, ch), j)
  {
    var r, lo := OutChar(s, id, ch), 2 * (5461 * j);
    var p := PaintOf(s.cons[id], ch);
    forall b | lo <= b < lo + 10922 ensures r.video[b] == s.video[b] {
      assert p.Cell? ==> 5461 * id <= p.at < 5461 * id + 5460;
    }
  }

  /** What a character does to its terminal depends on that terminal alone. */
  lemma OutCharLocal(s: Screen, u: Screen, id: nat, ch: bv8)
    requires Good(s) && Good(u) && id < 3 && SameTty(s, u, id)
    ensures SameTty(OutChar(s, id, ch), OutChar(u, id, ch), id)
  {
    var lo := 2 * (5461 * id);
    var r, v := OutChar(s, id, ch), OutChar(u, id, ch);
    forall b | lo <= b < lo + 10922 ensures r.video[b] == v.video[b] {
      assert s.video[lo..lo + 10922][b - lo] == u.video[lo..lo + 10922][b - lo];
    }
  }

  lemma {:induction false} WriteElsewhere(s: Screen, id: nat, text: seq<bv8>, j: nat)
    requires Good(s) && id < 3 && j < 3 && j != id
    ensures SameTty(s, Write(s, id, text), j)
    decreases |text|
  {
    if text != [] {
      OutCharElsewhere(s, id, text[0], j);
      WriteElsewhere(OutChar(s, id, text[0]), id, text[1..], j);
    }
  }

  lemma {:induction false} WriteLocal(s: Screen, u: Screen, id: nat, text: seq<bv8>)
    requires Good(s) && Good(u) && id < 3 && SameTty(s, u, id)
    ensures SameTty(Write(s, id, text), Write(u, id, text), id)
    decreases |text|
  {
    if text != [] {
      OutCharLocal(s, u, id, text[0]);
      WriteLocal(OutChar(s, id, text[0]), OutChar(u, id, text[0]), id, text[1..]);
    }
  }

  /** The steps of a run that concern terminal j. */
  function Only(ops: seq<Op>, j: nat): (r: seq<Op>)
    ensures Legal(ops) ==> Legal(r)
  {
    if ops == [] then []
    else if ops[0].id == j then [ops[0]] + Only(ops[1..], j)
    else Only(ops[1..], j)
  }

  /** What terminal j ends with, window, cursor and every cell, is what its own writes and
      scroll keys alone would have produced, however the other terminals' steps interleave. */
  lemma {:induction false} RunIsolates(s: Screen, u: Screen, ops: seq<Op>, j: nat)
    requires Good(s) && Good(u) && Legal(ops) && j < 3 && SameTty(s, u, j)
    ensures SameTty(Run(s, ops), Run(u, Only(ops, j)), j)
    decreases |ops|
  {
    if ops != [] {
      var op := ops[0];
      if op.id == j {
        if op.WriteOp? { WriteLocal(s, u, j, op.text); }
        assert Only(ops, j)[0] == op && Only(ops, j)[1..] == Only(ops[1..], j);
        RunIsolates(Apply(s, op), Apply(u, op), ops[1..], j);
      } else {
        if op.WriteOp? { WriteElsewhere(s, op.id, op.text, j); }
        RunIsolates(Apply(s, op), u, ops[1..], j);
      }
    }
  }

  // ----- What output means -----

  predicate Plain(text: seq<bv8>) {
    LINE_FEED !in text && BACKSPACE !in text
  }

  /** How much of a plain text fits: the last cell of the area is never written. */
  function Fitting(c: Con, n: nat): nat
    requires c.cursor < c.original + c.limit
  {
    if n < c.original + c.limit - 1 - c.cursor then n else c.original + c.limit - 1 - c.cursor
  }

  /** From cell at on, w is v with the characters of text in the standard colour. */
  ghost predicate Stored(v: seq<bv8>, w: seq<bv8>, at: nat, text: seq<bv8>)
    requires |v| == |w| && 2 * (at + |text|) <= |v|
  {
    && (forall k :: 0 <= k < |text| ==> w[2 * (at + k)] == text[k] && w[2 * (at + k) + 1] == COLOR)
    && (forall b :: 0 <= b < |v| && !(2 * at <= b < 2 * (at + |text|)) ==> w[b] == v[b])
  }

  /** A plain character is stored at the cursor, unless only the last cell is left. */
  lemma CharStored(s: Screen, id: nat, ch: bv8)
    requires Good(s) && id < 3 && ch != LINE_FEED && ch != BACKSPACE
    ensures
      var c, r := s.cons[id], OutChar(s, id, ch);
      if c.cursor + 1 < c.original + c.limit
      then r.cons[id] == c.(start := r.cons[id].start, cursor := c.cursor + 1) && Stored(s.video, r.video, c.cursor, [ch])
      else r.cons[id] == c.(start := r.cons[id].start) && r.video == s.video
  {
    MovedKeepsOk(s.cons[id], ch);
  }

  lemma StoredThen(v: seq<bv8>, w: seq<bv8>, x: seq<bv8>, at: nat, from: nat, ch: bv8, rest: seq<bv8>)
    requires |v| == |w| == |x| && from == at + 1 && 2 * (from + |rest|) <= |v|
    requires Stored(v, w, at, [ch]) && Stored(w, x, from, rest)
    ensures Stored(v, x, at, [ch] + rest)
  {
    var text := [ch] + rest;
    forall k | 0 <= k < |text| ensures x[2 * (at + k)] == text[k] && x[2 * (at + k) + 1] == COLOR {
      if k == 0 {
        assert w[2 * (at + 0)] == [ch][0] && w[2 * (at + 0) + 1] == COLOR;
      } else {
        assert x[2 * (from + (k - 1))] == rest[k - 1] && x[2 * (from + (k - 1)) + 1] == COLOR;
      }
    }
  }

  lemma PrefixCons(text: seq<bv8>, m: nat)
    requires m < |text|
    ensures text[..m + 1] == [text[0]] + text[1..][..m]
  {
  }

  /** A plain text lands in consecutive cells from the cursor, cut where the area ends, and
      nothing else changes. */
  lemma {:induction false} WriteStores(s: Screen, id: nat, text: seq<bv8>, r: Screen)
    requires Good(s) && id < 3 && Plain(text) && r == Write(s, id, text)
    ensures
      var c := s.cons[id];
      && r.cons[id].cursor == c.cursor + Fitting(c, |text|)
      && Stored(s.video, r.video, c.cursor, text[..Fitting(c, |text|)])
    decreases |text|
  {
    if text != [] {
      var u, rest := OutChar(s, id, text[0]), text[1..];
      assert text[0] in text && Plain(rest) && r == Write(u, id, rest);
      CharStored(s, id, text[0]);
      WriteStores(u, id, rest, r);
      StoredBoth(s, u, r, id, text, s.cons[id], u.cons[id], Fitting(u.cons[id], |rest|));
    }
  }

  /** The first character and what the rest stores. */
  lemma StoredBoth(s: Screen, u: Screen, r: Screen, id: nat, text: seq<bv8>, c: Con, d: Con, m: nat)
    requires text != [] && Ok(c) && d == c.(start := d.start, cursor := d.cursor) && Ok(d) && m == Fitting(d, |text| - 1)
    requires |s.video| == |u.video| == |r.video| && 2 * (d.original + d.limit) <= |s.video|
    requires if c.cursor + 1 < c.original + c.limit
             then d.cursor == c.cursor + 1 && Stored(s.video, u.video, c.cursor, [text[0]])
             else d.cursor == c.cursor && u.video == s.video
    requires Stored(u.video, r.video, d.cursor, text[1..][..m])
    ensures Fitting(c, |text|) == d.cursor - c.cursor + m && Stored(s.video, r.video, c.cursor, text[..Fitting(c, |text|)])
  {
    if c.cursor + 1 < c.original + c.limit {
      PrefixCons(text, m);
      StoredThen(s.video, u.video, r.video, c.cursor, d.cursor, text[0], text[1..][..m]);
    } else {
      assert text[..0] == text[1..][..0];
    }
  }

  /** A backspace after a printed character restores the cursor and leaves a blank. */
  lemma BackspaceUndoes(s: Screen, id: nat, ch: bv8)
    requires Good(s) && id < 3 && ch != LINE_FEED && ch != BACKSPACE
    requires s.cons[id].cursor + 1 < s.cons[id].original + s.cons[id].limit
    ensures
      var r := OutChar(OutChar(s, id, ch), id, BACKSPACE);
      r.cons[id].cursor == s.cons[id].cursor && Stored(s.video, r.video, s.cons[id].cursor, [BLANK])
  {
    CharStored(s, id, ch);
    var u := OutChar(s, id, ch);
    MovedKeepsOk(u.cons[id], BACKSPACE);
    assert PaintOf(u.cons[id], BACKSPACE) == Cell(s.cons[id].cursor, BLANK);
  }

  /** A line feed goes to the start of the next row, and is ignored exactly where less than a
      row remains. */
  lemma LineFeedStartsRow(c: Con)
    requires Ok(c)
    ensures
      var r := Moved(c, LINE_FEED).cursor;
      if c.cursor + 80 < c.original + c.limit
      then (r - c.original) % 80 == 0 && c.cursor < r <= c.cursor + 80
      else r == c.cursor
  {
  }

  /** After output the cursor is before the end of the window, which only ever moved down. */
  lemma CursorShown(s: Screen, id: nat, text: seq<bv8>)
    requires Good(s) && id < 3 && text != []
    ensures
      var c := Write(s, id, text).cons[id];
      c.cursor < c.start + 2000 && s.cons[id].start <= c.start
    decreases |text|
  {
    MovedKeepsOk(s.cons[id], text[0]);
    if |text| > 1 { CursorShown(OutChar(s, id, text[0]), id, text[1..]); }
  }

  /** After a character the cursor is inside the window exactly when it is not above the top
      the window had before: neither backspace nor typing scrolls back up. */
  lemma CharShown(s: Screen, id: nat, ch: bv8)
    requires Good(s) && id < 3
    ensures
      var c := OutChar(s, id, ch).cons[id];
      c.start <= c.cursor < c.start + 2000 <==> s.cons[id].start <= c.cursor
  {
    MovedKeepsOk(s.cons[id], ch);
  }

  /** A Down key on an empty terminal, and what is typed next lands above the window. */
  lemma DownThenTyping(video: seq<bv8>, id: nat, ch: bv8)
    requires |video| == 0x8000 && id < 3 && ch != LINE_FEED && ch != BACKSPACE
    ensures var s := Screen([Created(0), Created(1), Created(2)], video, 0, 0);
      && Good(s) && var c := OutChar(Scroll(s, id, Down), id, ch).cons[id];
         c.cursor == id * 5461 + 1 && c.start == id * 5461 + 80
  {
    CreatedIsGood(video, 0, 0);
  }

  // ----- What the display shows -----

  ghost predicate Shows(s: Screen, id: nat)
    requires id < |s.cons|
  {
    s.shownStart == s.cons[id].start && s.shownCursor == s.cons[id].cursor
  }

  /** Output displays the terminal it goes to: whichever terminal is the current one, it is
      the one displayed afterwards exactly when the character was its own. */
  lemma OutputStealsDisplay(s: Screen, id: nat, ch: bv8, current: nat)
    requires Good(s) && id < 3 && current < 3
    ensures Shows(OutChar(s, id, ch), current) <==> id == current
  {
    var r := OutChar(s, id, ch);
    assert Ok(r.cons[id]) && Ok(r.cons[current]);
  }

  /** So does a scroll key, which moves that terminal's window and nothing else. */
  lemma ScrollShows(s: Screen, id: nat, d: Direction)
    requires Good(s) && id < 3
    ensures var r := Scroll(s, id, d);
      && Shows(r, id) && r.video == s.video && r.cons[id] == s.cons[id].(start := r.cons[id].start)
      && forall j :: 0 <= j < 3 && j != id ==> r.cons[j] == s.cons[j]
  {
    ScrollKeepsOk(s.cons[id], d);
  }

  /** Up takes back what Down did, unless Down met the end of the area. */
  lemma UpUndoesDown(c: Con)
    requires Ok(c)
    ensures Scrolled(Scrolled(c, Down), Up) == c <==> c.start + 2000 < c.original + c.limit || c.start == c.original
    ensures c.start + 2000 < c.original + c.limit ==> Scrolled(c, Down).start == c.start + 80
  {
    ScrollKeepsOk(c, Down);
    ScrollKeepsOk(Scrolled(c, Down), Up);
  }

  /** The window shows cells behind the console's area. */
  predicate Overhangs(c: Con) {
    c.start + 2000 > c.original + c.limit
  }

  /** With the kernel's areas of 5461 cells the window leaves its area exactly on row 44. */
  lemma OverhangsOnRow44(c: Con)
    requires Ok(c) && c.limit == 5461
    ensures Overhangs(c) <==> OnRow(c, 44)
  {
    var k: nat :| OnRow(c, k);
  }

  /** After a key the window is out of its area exactly if the key was Down from row 43, or from
      row 44, where Down does nothing. */
  lemma ScrollOverhangs(c: Con, d: Direction)
    requires Ok(c) && c.limit == 5461
    ensures Overhangs(Scrolled(c, d)) <==> d.Down? && (OnRow(c, 43) || OnRow(c, 44))
  {
    ScrollKeepsOk(c, d);
    OverhangsOnRow44(Scrolled(c, d));
    var k: nat :| OnRow(c, k);
  }

  /** Output leaves the window out of its area exactly when it was, or when the cursor comes to
      the area's last, incomplete row. */
  lemma OutputOverhangs(c: Con, ch: bv8)
    requires Ok(c) && c.limit == 5461
    ensures Ok(Moved(c, ch))
    ensures Overhangs(Followed(Moved(c, ch))) <==> Overhangs(c) || Moved(c, ch).cursor >= c.original + 5440
  {
    MovedKeepsOk(c, ch);
    var r := Followed(Moved(c, ch));
    OverhangsOnRow44(c);
    OverhangsOnRow44(r);
    var k: nat :| OnRow(c, k);
    var j: nat :| OnRow(r, j);
  }

  function ScrolledDown(c: Con, n: nat): Con {
    if n == 0 then c else Scrolled(ScrolledDown(c, n - 1), Down)
  }

  lemma {:induction false} ScrolledDownIs(id: nat, n: nat)
    requires n <= 44
    ensures ScrolledDown(Created(id), n) == Created(id).(start := Created(id).original + 80 * n)
  {
    if n > 0 { ScrolledDownIs(id, n - 1); }
  }

  /** Forty-four presses of the Down key show 59 cells that belong to the next terminal or, for
      the last one, lie behind its area. */
  lemma FortyFourDownKeys(id: nat)
    requires id < 3
    ensures var c := ScrolledDown(Created(id), 44); Overhangs(c) && c.start + 2000 == c.original + c.limit + 59
    ensures id == 2 ==> ScrolledDown(Created(id), 44).start + 2000 > 0x8000 / 2
  {
    ScrolledDownIs(id, 44);
  }
}
