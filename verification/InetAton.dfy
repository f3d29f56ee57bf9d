/** Reading dotted addresses (net/ip.c, inet_aton).  A C string is its characters before the NUL. */
module InetAton {
  import opened Numerals
  import opened Words

  // ----- specification

  /** Base prefix: 0x or 0X is hex, another leading 0 is octal. */
  function NumberBase(s: string): nat {
    if s == "" || s[0] != '0' then 10 else if |s| > 1 && (s[1] == 'x' || s[1] == 'X') then 16 else 8
  }

  function AfterPrefix(s: string): (r: string)
    ensures |r| <= |s|
  {
    match NumberBase(s) case 16 => if |s| > 1 then s[2..] else s case 8 => if |s| > 0 then s[1..] else s case _ => s
  }

  /** The digit loop.  An octal number accepts 8 and 9, and only capital hex letters count:
      the header's isxdigit compares lower-case letters with 'F'. */
  function NumberValue(s: string, val: Word32, base: nat): Word32
    decreases |s|
  {
    if s != "" && '0' <= s[0] <= '9' then NumberValue(s[1..], Step(val, base, (s[0] - '0') as nat), base)
    else if s != "" && base == 16 && 'A' <= s[0] <= 'F' then NumberValue(s[1..], Step(val, 16, (s[0] - 'A') as nat + 10), base)
    else val
  }

  function NumberRest(s: string, base: nat): (r: string)
    ensures |r| <= |s|
    decreases |s|
  {
    if s != "" && ('0' <= s[0] <= '9' || (base == 16 && 'A' <= s[0] <= 'F')) then NumberRest(s[1..], base) else s
  }

  function PartValue(s: string): Word32 {
    NumberValue(AfterPrefix(s), 0, NumberBase(s))
  }

  function PartRest(s: string): (r: string)
    ensures |r| <= |s|
  {
    NumberRest(AfterPrefix(s), NumberBase(s))
  }

  predicate At(s: string, c: char) {
    s != "" && s[0] == c
  }

  /** The address, with the parts before this one already read; 0 for a malformed one. */
  function Parse(s: string, parts: seq<Word32>): Word32
    requires |parts| <= 3
    decreases |s|
  {
    var val, rest := PartValue(s), PartRest(s);
    if At(rest, '.') then
      if |parts| >= 3 || val > 0xFF then 0 else Parse(rest[1..], parts + [val])
    else if rest != "" && rest[0] != ' ' then 0
    else Combine(parts, val)
  }

  /** The shifts and ors, by the number of parts. */
  function Combine(parts: seq<Word32>, val: Word32): Word32
    requires |parts| <= 3
  {
    match |parts|
    case 0 => val
    case 1 => if val > 0xFF_FFFF then 0 else Or(val, Shl(parts[0], 0x100_0000))
    case 2 => if val > 0xFFFF then 0 else Or(val, Or(Shl(parts[0], 0x100_0000), Shl(parts[1], 0x1_0000)))
    case _ =>
      if val > 0xFF then 0
      else Or(val, Or(Or(Shl(parts[0], 0x100_0000), Shl(parts[1], 0x1_0000)), Shl(parts[2], 0x100)))
  }

  /** A left shift on 32 bits, with the power of two that it multiplies by. */
  function Shl(part: Word32, place: nat): Word32 {
    Wrap(part * place)
  }

  /** Bitwise or, from the lowest bit up. */
  function BitOr(a: nat, b: nat): nat
    decreases a
  {
    if a == 0 then b else (if a % 2 == 1 || b % 2 == 1 then 1 else 0) + 2 * BitOr(a / 2, b / 2)
  }

  lemma {:induction false} BitOrBound(a: nat, b: nat, k: nat)
    requires a < Pow2(k) && b < Pow2(k)
    ensures BitOr(a, b) < Pow2(k)
    decreases k
  {
    if a > 0 && k > 0 { BitOrBound(a / 2, b / 2, k - 1); }
  }

  function Or(a: Word32, b: Word32): Word32 {
    Pow2Of32();
    BitOrBound(a, b, 32);
    BitOr(a, b)
  }

  function Aton(s: string): Word32 {
    Parse(s, [])
  }

  lemma ParseDot(s: string, done: seq<Word32>, v: Word32, rest: string)
    requires |done| < 3 && PartValue(s) == v <= 0xFF && PartRest(s) == rest && At(rest, '.')
    ensures Parse(s, done) == Parse(rest[1..], done + [v])
  {
  }

  lemma ParseEnd(s: string, done: seq<Word32>, v: Word32, rest: string)
    requires |done| <= 3 && PartValue(s) == v && PartRest(s) == rest && (rest == "" || rest[0] == ' ')
    ensures Parse(s, done) == Combine(done, v)
  {
  }

  lemma ParseFail(s: string, done: seq<Word32>)
    requires |done| <= 3 && At(PartRest(s), '.') && (|done| >= 3 || PartValue(s) > 0xFF)
    ensures Parse(s, done) == 0
  {
  }

  lemma ParseJunk(s: string, done: seq<Word32>)
    requires |done| <= 3 && PartRest(s) != "" && PartRest(s)[0] != '.' && PartRest(s)[0] != ' '
    ensures Parse(s, done) == 0
  {
  }

  // ----- the code

  /** One character of a number. */
  lemma NumberStep(cp: string, p: nat, val: Word32, base: nat)
    requires p < |cp|
    ensures var c := cp[p];
      if '0' <= c <= '9' then
        NumberValue(cp[p..], val, base) == NumberValue(cp[p + 1..], Step(val, base, (c - '0') as nat), base)
        && NumberRest(cp[p..], base) == NumberRest(cp[p + 1..], base)
      else if base == 16 && 'A' <= c <= 'F' then
        NumberValue(cp[p..], val, base) == NumberValue(cp[p + 1..], Step(val, 16, (c - 'A') as nat + 10), base)
        && NumberRest(cp[p..], base) == NumberRest(cp[p + 1..], base)
      else NumberValue(cp[p..], val, base) == val && NumberRest(cp[p..], base) == cp[p..]
  {
    assert cp[p..][1..] == cp[p + 1..];
  }

  method ReadPart(cp: string, start: nat) returns (val: Word32, p: nat)
    requires start <= |cp|
    ensures p <= |cp| && val == PartValue(cp[start..]) && cp[p..] == PartRest(cp[start..])
  {
    var base := 10;
    val, p := 0, start;
    if p < |cp| && cp[p] == '0' {
      p := p + 1;
      if p < |cp| && (cp[p] == 'x' || cp[p] == 'X') {
        base := 16;
        p := p + 1;
      } else {
        base := 8;
      }
    }
    assert cp[p..] == AfterPrefix(cp[start..]) && base == NumberBase(cp[start..]);
    while p < |cp|
      invariant p <= |cp|
      invariant NumberValue(cp[p..], val, base) == PartValue(cp[start..])
      invariant NumberRest(cp[p..], base) == PartRest(cp[start..])
    {
      var c := cp[p];
      NumberStep(cp, p, val, base);
      if '0' <= c <= '9' {
        val := Step(val, base, (c - '0') as nat);
      } else if base == 16 && 'A' <= c <= 'F' {
        val := Step(val, 16, (c - 'A') as nat + 10);
      } else {
        break;
      }
      p := p + 1;
    }
  }

  datatype Progress = Failed | Next | Done

  method StorePart(parts: array<Word32>, pp: nat, val: Word32)
    requires pp < parts.Length
    modifies parts
    ensures parts[..pp + 1] == old(parts[..pp]) + [val]
  {
    parts[pp] := val;
  }

  /** After a number at the start: what follows decides the pass. */
  function HowNext(rest: string, pp: nat, val: Word32): Progress {
    if rest != "" && rest[0] == '.' then (if pp >= 3 || val > 0xFF then Failed else Next)
    else if rest != "" && rest[0] != ' ' then Failed
    else Done
  }

  lemma PassMeans(s: string, done: seq<Word32>)
    requires |done| <= 3
    ensures
      var val, rest := PartValue(s), PartRest(s);
      match HowNext(rest, |done|, val)
      case Failed => Parse(s, done) == 0
      case Next => |done| < 3 && rest != "" && Parse(s, done) == Parse(rest[1..], done + [val])
      case Done => Parse(s, done) == Combine(done, val)
  {
    var val, rest := PartValue(s), PartRest(s);
    match HowNext(rest, |done|, val)
    case Failed => if rest[0] == '.' { ParseFail(s, done); } else { ParseJunk(s, done); }
    case Next => ParseDot(s, done, val, rest);
    case Done => ParseEnd(s, done, val, rest);
  }

  /** One pass of the outer loop, with the check for trailing characters. */
  method NextPart(cp: string, start: nat, pp: nat) returns (how: Progress, val: Word32, p: nat)
    requires start <= |cp|
    ensures val == PartValue(cp[start..]) && how == HowNext(PartRest(cp[start..]), pp, val)
    ensures how.Next? ==> start < p <= |cp| && PartRest(cp[start..])[1..] == cp[p..]
  {
    val, p := ReadPart(cp, start);
    if p < |cp| && cp[p] == '.' {
      if pp >= 3 || val > 0xFF {
        return Failed, val, p;
      }
      assert cp[p..][1..] == cp[p + 1..] && |cp[p..]| <= |cp[start..]|;
      return Next, val, p + 1;
    }
    if p < |cp| && cp[p] != ' ' {
      return Failed, val, p;
    }
    how := Done;
  }

  method InetAton(cp: string) returns (r: Word32)
    ensures r == Aton(cp)
  {
    var parts := new Word32[4];
    var pp, p := 0, 0;
    assert cp[0..] == cp && parts[..0] == [];
    while true
      invariant 0 <= pp <= 3 && 0 <= p <= |cp|
      invariant Parse(cp[p..], parts[..pp]) == Aton(cp)
      decreases |cp| - p
    {
      PassMeans(cp[p..], parts[..pp]);
      var how, val, q := NextPart(cp, p, pp);
      match how {
        case Failed => return 0;
        case Next =>
          StorePart(parts, pp, val);
          pp, p := pp + 1, q;
        case Done =>
          r := Shift(parts, pp, val);
          return;
      }
    }
  }

  /** The switch on the number of parts. */
  method Shift(parts: array<Word32>, pp: nat, last: Word32) returns (val: Word32)
    requires parts.Length == 4 && pp <= 3
    ensures val == Combine(parts[..pp], last)
  {
    val := last;
    match pp {
      case 0 =>
      case 1 =>
        if val > 0xFF_FFFF { return 0; }
        val := Or(val, Shl(parts[0], 0x100_0000));
      case 2 =>
        if val > 0xFFFF { return 0; }
        val := Or(val, Or(Shl(parts[0], 0x100_0000), Shl(parts[1], 0x1_0000)));
      case _ =>
        if val > 0xFF { return 0; }
        val := Or(val, Or(Or(Shl(parts[0], 0x100_0000), Shl(parts[1], 0x1_0000)), Shl(parts[2], 0x100)));
    }
  }

  // ----- inverse of printing

  function Decimal(m: nat): string {
    Chars(Digits(m, 10), false)
  }

  function Dotted(parts: seq<Word32>): string
    requires parts != []
    decreases |parts|
  {
    if |parts| == 1 then Decimal(parts[0]) else Decimal(parts[0]) + "." + Dotted(parts[1..])
  }

  /** One to four parts, each a byte except that the last fills the remaining bytes. */
  predicate InRange(parts: seq<Word32>) {
    && 1 <= |parts| <= 4
    && (forall i :: 0 <= i < |parts| - 1 ==> parts[i] <= 0xFF)
    && parts[|parts| - 1] < (match |parts| case 1 => 0x1_0000_0000 case 2 => 0x100_0000 case 3 => 0x1_0000 case _ => 0x100)
  }

  /** The positional value: part i sits in byte 3 - i, the last part in the low bytes. */
  function Address(parts: seq<Word32>): nat
    requires 1 <= |parts| <= 4
  {
    match |parts|
    case 1 => parts[0]
    case 2 => 0x100_0000 * (parts[0] as int) + parts[1] as int
    case 3 => 0x100_0000 * (parts[0] as int) + 0x1_0000 * (parts[1] as int) + parts[2] as int
    case _ => 0x100_0000 * (parts[0] as int) + 0x1_0000 * (parts[1] as int) + 0x100 * (parts[2] as int) + parts[3] as int
  }

  predicate EndsNumber(t: string) {
    t == "" || t[0] == '.' || t[0] == ' '
  }

  lemma {:induction false} NumberReadsChars(ds: seq<nat>, t: string, w: Word32, b: nat)
    requires (b == 8 || b == 10) && (forall i :: 0 <= i < |ds| ==> ds[i] < 10) && EndsNumber(t)
    ensures NumberValue(Chars(ds, false) + t, w, b) == FoldWrapped(w, ds, b)
    ensures NumberRest(Chars(ds, false) + t, b) == t
    decreases |ds|
  {
    var s := Chars(ds, false) + t;
    if ds == [] {
      assert s == t;
    } else {
      assert s[1..] == Chars(ds[1..], false) + t;
      assert s[0] == DigitChar(ds[0], false) && (s[0] - '0') as nat == ds[0];
      NumberReadsChars(ds[1..], t, Step(w, b, ds[0]), b);
    }
  }

  lemma ZeroReadsBack(t: string)
    requires EndsNumber(t)
    ensures PartValue("0" + t) == 0 && PartRest("0" + t) == t
  {
    assert ("0" + t)[1..] == t;
  }

  lemma PlainReadsBack(ds: seq<nat>, t: string)
    requires ds != [] && (forall i :: 0 <= i < |ds| ==> ds[i] < 10) && ds[0] > 0 && EndsNumber(t)
    ensures PartValue(Chars(ds, false) + t) == FoldWrapped(0, ds, 10) && PartRest(Chars(ds, false) + t) == t
  {
    var s := Chars(ds, false) + t;
    assert s[0] == DigitChar(ds[0], false) != '0';
    NumberReadsChars(ds, t, 0, 10);
  }

  lemma WrapSmall(m: Word32)
    ensures Wrap(m) == m
  {
  }

  lemma FoldsToValue(m: Word32, b: nat)
    requires b >= 2
    ensures FoldWrapped(0, Digits(m, b), b) == m
  {
    var ds := Digits(m, b);
    assert Value(ds, b) == m by { DigitsValue(m, b); }
    assert FoldLeft(0, ds, b) == m by { FoldLeftIsValue(ds, b); }
    WrapSmall(m);
    WrapSmall(0);
    FoldWraps(0, ds, b);
  }

  /** A canonical decimal reads back, whichever base its first digit makes the code choose. */
  lemma PartReadsDecimal(m: Word32, t: string)
    requires EndsNumber(t)
    ensures PartValue(Decimal(m) + t) == m && PartRest(Decimal(m) + t) == t
  {
    if m == 0 {
      ZeroReadsBack(t);
      assert Decimal(0) == "0";
    } else {
      DigitsValue(m, 10);
      PlainReadsBack(Digits(m, 10), t);
      FoldsToValue(m, 10);
    }
  }

  lemma {:induction false} ParseReadsDotted(done: seq<Word32>, parts: seq<Word32>, t: string)
    requires parts != [] && |done| + |parts| <= 4 && (t == "" || t[0] == ' ')
    requires forall i :: 0 <= i < |parts| - 1 ==> parts[i] <= 0xFF
    ensures Parse(Dotted(parts) + t, done) == Combine(done + parts[..|parts| - 1], parts[|parts| - 1])
    decreases |parts|
  {
    if |parts| == 1 {
      PartReadsDecimal(parts[0], t);
      assert done + parts[..0] == done;
      ParseEnd(Dotted(parts) + t, done, parts[0], t);
    } else {
      var tail := Dotted(parts[1..]) + t;
      DottedSplits(parts, t);
      PartReadsDecimal(parts[0], "." + tail);
      ParseDot(Dotted(parts) + t, done, parts[0], "." + tail);
      ParseReadsDotted(done + [parts[0]], parts[1..], t);
      ShiftPart(done, parts);
    }
  }

  lemma DottedSplits(parts: seq<Word32>, t: string)
    requires |parts| > 1
    ensures var tail := Dotted(parts[1..]) + t;
      Dotted(parts) + t == Decimal(parts[0]) + ("." + tail) && ("." + tail)[1..] == tail
  {
    DotBetween(Decimal(parts[0]), Dotted(parts[1..]), t);
  }

  lemma DotBetween(a: string, b: string, t: string)
    ensures a + "." + b + t == a + ("." + (b + t)) && ("." + (b + t))[1..] == b + t
  {
  }

  lemma ShiftPart(done: seq<Word32>, parts: seq<Word32>)
    requires |parts| > 1
    ensures done + [parts[0]] + parts[1..][..|parts[1..]| - 1] == done + parts[..|parts| - 1]
    ensures parts[1..][|parts[1..]| - 1] == parts[|parts| - 1]
  {
  }

  /** Or adds what lies below bit k to what lies from bit k up, in either order. */
  lemma {:induction false} OrDisjoint(a: nat, c: nat, k: nat)
    requires a < Pow2(k)
    ensures BitOr(a, c * Pow2(k)) == a + c * Pow2(k) == BitOr(c * Pow2(k), a)
    decreases k
  {
    if k == 0 {
      OrZero(c);
    } else {
      var p := Pow2(k - 1);
      OrDisjoint(a / 2, c, k - 1);
      TwiceOver(c, p);
      OrHalves(a, c * Pow2(k), c * p);
    }
  }

  lemma OrZero(c: nat)
    ensures BitOr(c, 0) == c
    decreases c
  {
    if c > 0 { OrZero(c / 2); }
  }

  lemma TwiceOver(c: nat, p: nat)
    ensures c * (2 * p) == 2 * (c * p)
  {
  }

  lemma HalfAndBit(a: nat)
    ensures a == 2 * (a / 2) + a % 2 && (a % 2 == 0 || a % 2 == 1)
  {
  }

  /** One round of the recursion, where b is even and its half is h. */
  lemma OrRound(a: nat, b: nat, h: nat)
    requires b == 2 * h
    ensures a > 0 ==> BitOr(a, b) == a % 2 + 2 * BitOr(a / 2, h)
    ensures b > 0 ==> BitOr(b, a) == a % 2 + 2 * BitOr(h, a / 2)
  {
    assert b / 2 == h && b % 2 == 0;
    HalfAndBit(a);
  }

  lemma OrHalves(a: nat, b: nat, h: nat)
    requires b == 2 * h && BitOr(a / 2, h) == a / 2 + h == BitOr(h, a / 2)
    ensures BitOr(a, b) == a + b == BitOr(b, a)
  {
    OrRound(a, b, h);
    HalfAndBit(a);
    if a == 0 { OrZero(b); }
    if b == 0 { OrZero(a); }
  }

  /** A shifted byte does not overlap what is below the place. */
  lemma ByteAbove(low: Word32, c: Word32, k: nat, place: nat)
    requires place == Pow2(k) && low < place && low + c * place < 0x1_0000_0000
    ensures Or(low, Shl(c, place)) == low + c * place == Or(Shl(c, place), low)
  {
    OrDisjoint(low, c, k);
    WrapSmall(c * place);
  }

  lemma Places()
    ensures Pow2(8) == 0x100 && Pow2(16) == 0x1_0000 && Pow2(24) == 0x100_0000
  {
    assert Pow2(4) == 16;
    assert Pow2(8) == 0x100;
    assert Pow2(12) == 0x1000;
    assert Pow2(16) == 0x1_0000;
    assert Pow2(20) == 0x10_0000;
  }

  lemma CombineTwo(a: Word32, val: Word32)
    requires a <= 0xFF && val <= 0xFF_FFFF
    ensures Or(val, Shl(a, 0x100_0000)) == 0x100_0000 * (a as int) + val as int
    ensures Or(Shl(a, 0x100_0000), val) == 0x100_0000 * (a as int) + val as int
  {
    Places();
    ByteAbove(val, a, 24, 0x100_0000);
  }

  lemma ShlIs(b: Word32, place: nat)
    requires b * place < 0x1_0000_0000
    ensures Shl(b, place) == b * place
  {
    WrapSmall(b * place);
  }

  /** The two high bytes form a number of 16 bits, at bit 16. */
  lemma CombineThree(a: Word32, b: Word32, val: Word32)
    requires a <= 0xFF && b <= 0xFF && val <= 0xFFFF
    ensures Or(val, Or(Shl(a, 0x100_0000), Shl(b, 0x1_0000))) == 0x100_0000 * (a as int) + 0x1_0000 * (b as int) + val as int
    ensures Or(Or(Shl(a, 0x100_0000), Shl(b, 0x1_0000)), val) == 0x100_0000 * (a as int) + 0x1_0000 * (b as int) + val as int
  {
    ShlIs(b, 0x1_0000);
    CombineTwo(a, Shl(b, 0x1_0000));
    var high: Word32 := 256 * (a as int) + b as int;
    ShlIs(high, 0x1_0000);
    assert Or(Shl(a, 0x100_0000), Shl(b, 0x1_0000)) == Shl(high, 0x1_0000);
    Places();
    ByteAbove(val, high, 16, 0x1_0000);
  }

  /** The three high bytes form a number of 24 bits, at bit 8. */
  lemma CombineFour(a: Word32, b: Word32, c: Word32, val: Word32)
    requires a <= 0xFF && b <= 0xFF && c <= 0xFF && val <= 0xFF
    ensures Or(val, Or(Or(Shl(a, 0x100_0000), Shl(b, 0x1_0000)), Shl(c, 0x100))) ==
      0x100_0000 * (a as int) + 0x1_0000 * (b as int) + 0x100 * (c as int) + val as int
  {
    ShlIs(c, 0x100);
    CombineThree(a, b, Shl(c, 0x100));
    var high: Word32 := 0x1_0000 * (a as int) + 256 * (b as int) + c as int;
    ShlIs(high, 0x100);
    assert Or(Or(Shl(a, 0x100_0000), Shl(b, 0x1_0000)), Shl(c, 0x100)) == Shl(high, 0x100);
    Places();
    ByteAbove(val, high, 8, 0x100);
  }

  /** No byte of one part reaches into another. */
  lemma CombineIsAddress(parts: seq<Word32>)
    requires InRange(parts)
    ensures Combine(parts[..|parts| - 1], parts[|parts| - 1]) == Address(parts)
  {
    if |parts| == 2 {
      CombineTwo(parts[0], parts[1]);
    } else if |parts| == 3 {
      CombineThree(parts[0], parts[1], parts[2]);
    } else if |parts| == 4 {
      CombineFour(parts[0], parts[1], parts[2], parts[3]);
    }
  }

  /** inet_aton inverts decimal printing of all four address forms, also before a space. */
  lemma AtonInvertsPrinting(parts: seq<Word32>, t: string)
    requires InRange(parts) && (t == "" || t[0] == ' ')
    ensures Aton(Dotted(parts) + t) == Address(parts)
  {
    ParseReadsDotted([], parts, t);
    assert [] + parts[..|parts| - 1] == parts[..|parts| - 1];
    CombineIsAddress(parts);
  }

  // ----- hexadecimal

  /** The hexadecimal digits inet_aton reads: not the lower-case letters. */
  predicate ReadsHex(ds: seq<nat>, small: bool) {
    !small || forall i :: 0 <= i < |ds| ==> ds[i] < 10
  }

  /** The loop folds digits it reads, and stops in front of a lower-case letter. */
  lemma {:induction false} NumberReadsHex(ds: seq<nat>, small: bool, w: Word32)
    requires forall i :: 0 <= i < |ds| ==> ds[i] < 16
    ensures ReadsHex(ds, small) ==>
      NumberValue(Chars(ds, small), w, 16) == FoldWrapped(w, ds, 16) && NumberRest(Chars(ds, small), 16) == ""
    ensures !ReadsHex(ds, small) ==>
      NumberRest(Chars(ds, small), 16) != "" && 'a' <= NumberRest(Chars(ds, small), 16)[0] <= 'f'
    decreases |ds|
  {
    var s := Chars(ds, small);
    if ds != [] {
      assert s[1..] == Chars(ds[1..], small);
      var c := s[0];
      assert c == DigitChar(ds[0], small);
      if ds[0] < 10 || !small {
        assert ReadsHex(ds, small) <==> ReadsHex(ds[1..], small) by {
          if small && ReadsHex(ds[1..], small) {
            forall i | 0 <= i < |ds| ensures ds[i] < 10 { assert i > 0 ==> ds[1..][i - 1] == ds[i]; }
          }
        }
        NumberReadsHex(ds[1..], small, Step(w, 16, ds[0]));
      }
    }
  }

  /** A hexadecimal numeral reads back exactly when it is printed in capitals or has no
      letter: isxdigit refuses the lower-case letters, and the address is then 0. */
  lemma HexReadsBack(m: Word32, small: bool)
    ensures Aton("0x" + Chars(Digits(m, 16), small)) == m <==> ReadsHex(Digits(m, 16), small)
    ensures !ReadsHex(Digits(m, 16), small) ==> Aton("0x" + Chars(Digits(m, 16), small)) == 0
  {
    var ds := Digits(m, 16);
    var s := "0x" + Chars(ds, small);
    assert AfterPrefix(s) == Chars(ds, small) && NumberBase(s) == 16;
    NumberReadsHex(ds, small, 0);
    if ReadsHex(ds, small) {
      FoldsToValue(m, 16);
      ParseEnd(s, [], m, "");
    } else {
      ParseJunk(s, []);
      assert m > 0;
    }
  }

  lemma LowerCaseHexFails()
    ensures Aton("0xa") == 0 && Aton("0xA") == 10
  {
    assert Digits(10, 16) == [10];
    HexReadsBack(10, true);
    HexReadsBack(10, false);
    assert Chars([10], true) == "a" && Chars([10], false) == "A";
    NumberReadsHex([10], true, 0);
    ParseJunk("0xa", []);
  }

  // ----- octal, and what is out of range

  lemma OctalPrefix(ds: seq<nat>, t: string, s: string)
    requires ds != [] && (forall i :: 0 <= i < |ds| ==> ds[i] < 8) && s == "0" + Chars(ds, false) + t
    ensures NumberBase(s) == 8 && AfterPrefix(s) == Chars(ds, false) + t
  {
    assert s[1] == DigitChar(ds[0], false);
    assert s[1..] == Chars(ds, false) + t;
  }

  /** Behind a 0 a numeral is read in base 8. */
  lemma OctalReadsBack(m: Word32, t: string)
    requires t == "" || t[0] == ' '
    ensures Aton("0" + Chars(Digits(m, 8), false) + t) == m
  {
    var ds := Digits(m, 8);
    var s := "0" + Chars(ds, false) + t;
    OctalPrefix(ds, t, s);
    NumberReadsChars(ds, t, 0, 8);
    FoldsToValue(m, 8);
    ParseEnd(s, [], m, t);
  }

  /** The parts before the last are bytes, and there are at most four. */
  predicate Places4(done: seq<Word32>, parts: seq<Word32>)
    requires parts != []
  {
    |done| + |parts| <= 4 && forall i :: 0 <= i < |parts| - 1 ==> parts[i] <= 0xFF
  }

  lemma PlacesOfRest(done: seq<Word32>, parts: seq<Word32>)
    requires |parts| > 1 && parts[0] <= 0xFF
    ensures Places4(done + [parts[0]], parts[1..]) <==> Places4(done, parts)
  {
    assert forall i :: 1 <= i < |parts| ==> parts[1..][i - 1] == parts[i];
  }

  lemma {:induction false} ParseRefuses(done: seq<Word32>, parts: seq<Word32>, t: string)
    requires parts != [] && |done| <= 3 && (t == "" || t[0] == ' ') && !Places4(done, parts)
    ensures Parse(Dotted(parts) + t, done) == 0
    decreases |parts|
  {
    assert |parts| > 1;
    var tail := Dotted(parts[1..]) + t;
    DottedSplits(parts, t);
    PartReadsDecimal(parts[0], "." + tail);
    if |done| >= 3 || parts[0] > 0xFF {
      ParseFail(Dotted(parts) + t, done);
    } else {
      ParseDot(Dotted(parts) + t, done, parts[0], "." + tail);
      PlacesOfRest(done, parts);
      ParseRefuses(done + [parts[0]], parts[1..], t);
    }
  }

  /** Numbers printed in decimal with dots between them are read as an address exactly if there
      are at most four, all but the last are bytes, and the last fits what is left; otherwise
      the result is 0. */
  lemma DecimalAddresses(parts: seq<Word32>, t: string)
    requires parts != [] && (t == "" || t[0] == ' ')
    ensures Aton(Dotted(parts) + t) == if InRange(parts) then Address(parts) else 0
  {
    if InRange(parts) {
      AtonInvertsPrinting(parts, t);
    } else if Places4([], parts) {
      ParseReadsDotted([], parts, t);
      assert [] + parts[..|parts| - 1] == parts[..|parts| - 1];
    } else {
      ParseRefuses([], parts, t);
    }
  }
}
