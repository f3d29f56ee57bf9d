/** Printing and reading numbers (lib/stdio.c): number and _atob. */
module Numerals {
  import opened Words
  import opened Wrappers

  /** The flag bits of `type`. */
  datatype Flags = Flags(zeropad: bool, sign: bool, plus: bool, space: bool, left: bool, special: bool, small: bool)

  const UPPER := "0123456789ABCDEFGHIJKLMNOPQRSTUVWXYZ"
  const LOWER := "0123456789abcdefghijklmnopqrstuvwxyz"

  function DigitChar(d: nat, small: bool): (c: char)
    requires d < 36
  {
    if d < 10 then '0' + d as char else if small then 'a' + (d - 10) as char else 'A' + (d - 10) as char
  }

  /** digits[d] for the table the SMALL flag selects. */
  function TableDigit(d: nat, small: bool): (c: char)
    requires d < 36
    ensures c == DigitChar(d, small)
  {
    (if small then LOWER else UPPER)[d]
  }

  // ----- positional notation

  /** The digits of m in base b, most significant first. */
  function Digits(m: nat, b: nat): (ds: seq<nat>)
    requires b >= 2
    ensures |ds| > 0 && forall i :: 0 <= i < |ds| ==> ds[i] < b
    decreases m
  {
    if m < b then [m] else
      DivSmaller(m, b);
      Digits(m / b, b) + [m % b]
  }

  lemma DivSmaller(m: nat, b: nat)
    requires b >= 2 && m >= b
    ensures 0 < m / b < m && m == m / b * b + m % b && 2 * (m / b) <= m
  {
    assert m == m / b * b + m % b;
    var q := m / b;
    assert q >= 1 by { assert b * 1 <= m; }
    assert q * b >= q * 2;
  }

  function Value(ds: seq<nat>, b: nat): nat {
    if ds == [] then 0 else Value(ds[..|ds| - 1], b) * b + ds[|ds| - 1]
  }

  /** Digits is the numeral of m: it has m's value and no leading zero. */
  lemma {:induction false} DigitsValue(m: nat, b: nat)
    requires b >= 2
    ensures Value(Digits(m, b), b) == m && (m > 0 ==> Digits(m, b)[0] > 0)
    decreases m
  {
    if m >= b {
      DivSmaller(m, b);
      DigitsValue(m / b, b);
      var ds := Digits(m, b);
      assert ds[..|ds| - 1] == Digits(m / b, b);
    } else {
      assert [m][..0] == [];
    }
  }

  /** A 32-bit value has at most 32 digits in any base. */
  lemma {:induction false} DigitsCount(m: nat, b: nat, n: nat)
    requires b >= 2 && m < Pow2(n) && n > 0
    ensures |Digits(m, b)| <= n
    decreases m
  {
    if m >= b {
      DivSmaller(m, b);
      assert Pow2(1) == 2 * Pow2(0) == 2;
      DigitsCount(m / b, b, n - 1);
    }
  }

  function Pow2(n: nat): nat {
    if n == 0 then 1 else 2 * Pow2(n - 1)
  }

  lemma Pow2Of32()
    ensures Pow2(32) == 0x1_0000_0000
  {
    assert Pow2(8) == 256;
    assert Pow2(16) == 0x1_0000;
    assert Pow2(24) == 0x100_0000;
  }

  lemma AtMost32Digits(m: Word32, b: nat)
    requires b >= 2
    ensures |Digits(m, b)| <= 32
  {
    Pow2Of32();
    DigitsCount(m, b, 32);
  }

  function Chars(ds: seq<nat>, small: bool): (s: string)
    requires forall i :: 0 <= i < |ds| ==> ds[i] < 36
    ensures |s| == |ds|
  {
    seq(|ds|, i requires 0 <= i < |ds| => DigitChar(ds[i], small))
  }

  function Repeat(c: char, n: int): (s: string)
    ensures |s| == if n > 0 then n else 0
  {
    if n <= 0 then "" else Repeat(c, n - 1) + [c]
  }

  // ----- number

  /** The magnitude whose digits are printed: the most negative int negates to itself, which
      the unsigned division reads as 2147483648. */
  function Magnitude(num: Int32, sign: bool): (m: Word32)
  {
    var n: int := num;
    if sign && n < 0 then -n else n % 0x1_0000_0000
  }

  function SignOf(num: Int32, f: Flags): string {
    if f.sign && num < 0 then "-" else if f.plus then "+" else if f.space then " " else ""
  }

  function PrefixOf(base: nat, f: Flags): string {
    if !f.special then "" else if base == 8 then "0" else if base == 16 then (if f.small then "0x" else "0X") else ""
  }

  function Max(a: int, b: int): int {
    if a > b then a else b
  }

  /** The variable parts of the printed form: outer padding, padding after the prefix,
      precision zeros, digits, trailing padding. */
  datatype Pieces = Pieces(lead: string, inner: string, zeros: string, digits: string, tail: string)

  function PiecesOf(num: Int32, base: nat, size: int, precision: int, f: Flags): Pieces
    requires 2 <= base <= 36
  {
    var digits := Chars(Digits(Magnitude(num, f.sign), base), f.small);
    var pad := size - |SignOf(num, f)| - |PrefixOf(base, f)| - Max(precision, |digits|);
    Pieces(
      if f.left || f.zeropad then "" else Repeat(' ', pad),
      if !f.left && f.zeropad then Repeat('0', pad) else "",
      Repeat('0', precision - |digits|), digits,
      if f.left then Repeat(' ', pad) else "")
  }

  function Formatted(num: Int32, base: nat, size: int, precision: int, f: Flags): string
    requires 2 <= base <= 36
  {
    var p := PiecesOf(num, base, size, precision, f);
    (p.lead + SignOf(num, f) + PrefixOf(base, f) + p.inner) + (p.zeros + p.digits + p.tail)
  }

  /** The length is exactly the larger of the field width and what has to be printed. */
  lemma FormattedLength(num: Int32, base: nat, size: int, precision: int, f: Flags)
    requires 2 <= base <= 36
    ensures var n := |Digits(Magnitude(num, f.sign), base)|;
      |Formatted(num, base, size, precision, f)|
        == Max(size, |SignOf(num, f)| + |PrefixOf(base, f)| + Max(precision, n)) && 1 <= n <= 32
  {
    AtMost32Digits(Magnitude(num, f.sign), base);
  }

  // ----- the code

  /** Writes size copies of c, none when size is negative. */
  method Pad(buf: array<char>, str: nat, size: int, c: char) returns (end: nat, left: int)
    requires str + |Repeat(c, size)| <= buf.Length
    modifies buf
    ensures end == str + |Repeat(c, size)| && left == (if size > 0 then 0 else size) - 1
    ensures buf[..end] == old(buf[..str]) + Repeat(c, size) && buf[end..] == old(buf[end..])
  {
    end, left := str, size;
    while left > 0
      invariant left <= size && (size > 0 ==> left >= 0) && (size <= 0 ==> left == size)
      invariant end == str + if size > 0 then size - left else 0
      invariant buf[..end] == old(buf[..str]) + Repeat(c, if size > 0 then size - left else 0)
      invariant buf[end..] == old(buf[end..])
    {
      buf[end] := c;
      assert buf[..end + 1] == buf[..end] + [c];
      assert buf[end + 1..] == buf[end..][1..];
      assert old(buf[end + 1..]) == old(buf[end..])[1..];
      end := end + 1;
      left := left - 1;
    }
    left := left - 1;
  }

  method Put(buf: array<char>, str: nat, s: string) returns (end: nat)
    requires str + |s| <= buf.Length
    modifies buf
    ensures end == str + |s| && buf[..end] == old(buf[..str]) + s && buf[end..] == old(buf[end..])
  {
    end := str;
    for k := 0 to |s|
      invariant end == str + k && buf[..end] == old(buf[..str]) + s[..k] && buf[end..] == old(buf[end..])
    {
      buf[end] := s[k];
      assert buf[..end + 1] == buf[..end] + [s[k]];
      assert buf[end + 1..] == buf[end..][1..] && old(buf[end + 1..]) == old(buf[end..])[1..];
      end := end + 1;
    }
  }

  /** tmp holds the digits ds of m, least significant first. */
  ghost predicate Collected(tmp: seq<char>, i: nat, ds: seq<nat>, small: bool) {
    && i == |ds| <= |tmp| && (forall k :: 0 <= k < |ds| ==> ds[k] < 36)
    && (forall k :: 0 <= k < i ==> tmp[k] == DigitChar(ds[i - 1 - k], small))
  }

  lemma CollectOne(tmp: seq<char>, i: nat, ds: seq<nat>, d: nat, small: bool)
    requires Collected(tmp, i, ds, small) && i < |tmp| && d < 36
    ensures Collected(tmp[i := DigitChar(d, small)], i + 1, [d] + ds, small)
  {
  }

  /** n without its last digit, which is what the loop goes on with. */
  ghost function DigitsLeft(n: nat, b: nat): seq<nat>
    requires b >= 2
  {
    if n == 0 then [] else Digits(n, b)
  }

  lemma SplitDigit(n: nat, b: nat)
    requires b >= 2 && n > 0
    ensures n / b < n && Digits(n, b) == DigitsLeft(n / b, b) + [n % b]
  {
    if n >= b { DivSmaller(n, b); } else { SmallDiv(n, b); }
  }

  /** Of the digits dm, `left` are still to come and ds are in tmp. */
  ghost predicate Collecting(dm: seq<nat>, left: seq<nat>, tmp: seq<char>, i: nat, ds: seq<nat>, small: bool) {
    |tmp| == 36 && |dm| <= 32 && dm == left + ds && Collected(tmp, i, ds, small)
  }

  lemma CollectStep(dm: seq<nat>, left: seq<nat>, d: nat, tmp: seq<char>, i: nat, ds: seq<nat>, small: bool)
    requires d < 36 && Collecting(dm, left + [d], tmp, i, ds, small)
    ensures i < 32 && Collecting(dm, left, tmp[i := DigitChar(d, small)], i + 1, [d] + ds, small)
  {
    CollectOne(tmp, i, ds, d, small);
    assert left + ([d] + ds) == (left + [d]) + ds;
  }

  /** The last digit, and the number without it. */
  method TakeDigit(n: nat, base: nat) returns (d: nat, rest: nat)
    requires 2 <= base && n > 0
    ensures rest < n && d < base && DigitsLeft(n, base) == DigitsLeft(rest, base) + [d]
  {
    SplitDigit(n, base);
    d, rest := n % base, n / base;
  }

  /** The digit loop; never more than 32 of tmp's 36 entries are used. */
  method CollectDigits(m: Word32, base: nat, small: bool, tmp: array<char>) returns (i: nat)
    requires 2 <= base <= 36 && tmp.Length == 36
    modifies tmp
    ensures i <= 32 && Collected(tmp[..], i, Digits(m, base), small)
  {
    i := 0;
    if m == 0 {
      tmp[i] := '0';
      return 1;
    }
    ghost var ds: seq<nat> := [];
    var n: nat := m;
    AtMost32Digits(m, base);
    ghost var dm := Digits(m, base);
    ghost var left := dm;
    while n != 0
      invariant i <= 32 && Collecting(dm, left, tmp[..], i, ds, small) && left == DigitsLeft(n, base)
      decreases n
    {
      var d;
      d, n := TakeDigit(n, base);
      left := DigitsLeft(n, base);
      CollectStep(dm, left, d, tmp[..], i, ds, small);
      tmp[i] := TableDigit(d, small);
      i := i + 1;
      ds := [d] + ds;
    }
    assert left + ds == ds;
  }

  lemma SmallDiv(n: nat, b: nat)
    requires n < b
    ensures n / b == 0 && n % b == n
  {
  }

  /** Writes the collected digits, the last one collected first. */
  method PutDigits(buf: array<char>, str: nat, tmp: array<char>, count: nat, ghost ds: seq<nat>, ghost small: bool) returns (end: nat)
    requires buf != tmp && str + count <= buf.Length && Collected(tmp[..], count, ds, small)
    modifies buf
    ensures end == str + count && buf[..end] == old(buf[..str]) + Chars(ds, small) && buf[end..] == old(buf[end..])
  {
    var i := count;
    end := str;
    while i > 0
      invariant 0 <= i <= count && end == str + (count - i) && tmp[..] == old(tmp[..])
      invariant buf[..end] == old(buf[..str]) + Chars(ds, small)[..count - i] && buf[end..] == old(buf[end..])
    {
      i := i - 1;
      assert tmp[..][i] == Chars(ds, small)[count - 1 - i];
      buf[end] := tmp[i];
      assert buf[..end + 1] == buf[..end] + [tmp[i]];
      assert buf[end + 1..] == buf[end..][1..] && old(buf[end + 1..]) == old(buf[end..])[1..];
      end := end + 1;
    }
  }

  /** s stands at str, up to end; the rest of the buffer is as before. */
  ghost predicate Written(buf: string, was: string, str: nat, s: string, end: nat) {
    && |buf| == |was| && end == str + |s| <= |buf|
    && buf[..end] == was[..str] + s && buf[end..] == was[end..]
  }

  lemma WrittenMore(buf: string, mid: string, was: string, str: nat, s: string, t: string, end: nat, end': nat)
    requires Written(mid, was, str, s, end) && |buf| == |mid| && end' == end + |t| <= |buf|
    requires buf[..end'] == mid[..end] + t && buf[end'..] == mid[end'..]
    ensures Written(buf, was, str, s + t, end')
  {
    assert mid[end'..] == mid[end..][|t|..];
    assert was[end'..] == was[end..][|t|..];
  }

  /** Padding, sign, prefix and padding again, up to the first digit; `left` is what remains
      of the field width for trailing spaces. */
  method PutHead(buf: array<char>, str: nat, width: int, sign: string, prefix: string, zeropad: bool, leftAlign: bool)
    returns (end: nat, left: int)
    requires zeropad ==> !leftAlign
    requires str + |Repeat(' ', width)| + |sign| + |prefix| <= buf.Length
    modifies buf
    ensures var lead := if zeropad || leftAlign then "" else Repeat(' ', width);
      var inner := if zeropad then Repeat('0', width) else "";
      Written(buf[..], old(buf[..]), str, lead + sign + prefix + inner, end)
    ensures if leftAlign then left == width else left < 0
  {
    ghost var was := buf[..];
    ghost var lead := if zeropad || leftAlign then "" else Repeat(' ', width);
    end, left := str, width;
    if !zeropad && !leftAlign { end, left := Pad(buf, end, left, ' '); }
    assert Written(buf[..], was, str, lead, end);
    ghost var b1, e1 := buf[..], end;
    end := Put(buf, end, sign);
    WrittenMore(buf[..], b1, was, str, lead, sign, e1, end);
    ghost var b2, e2 := buf[..], end;
    end := Put(buf, end, prefix);
    WrittenMore(buf[..], b2, was, str, lead + sign, prefix, e2, end);
    ghost var b3, e3 := buf[..], end;
    ghost var inner := if zeropad then Repeat('0', width) else "";
    if !leftAlign { end, left := Pad(buf, end, left, if zeropad then '0' else ' '); }
    WrittenMore(buf[..], b3, was, str, lead + sign + prefix, inner, e3, end);
  }

  /** Precision zeros, digits, trailing spaces. */
  method PutBody(buf: array<char>, str: nat, zeros: int, tmp: array<char>, i: nat, left: int, ghost ds: seq<nat>, ghost small: bool)
    returns (end: nat)
    requires buf != tmp && Collected(tmp[..], i, ds, small)
    requires str + |Repeat('0', zeros)| + i + |Repeat(' ', left)| <= buf.Length
    modifies buf
    ensures Written(buf[..], old(buf[..]), str, Repeat('0', zeros) + Chars(ds, small) + Repeat(' ', left), end)
  {
    ghost var was := buf[..];
    var dropped;
    end, dropped := Pad(buf, str, zeros, '0');
    ghost var b1, e1 := buf[..], end;
    assert Written(b1, was, str, Repeat('0', zeros), e1);
    end := PutDigits(buf, end, tmp, i, ds, small);
    WrittenMore(buf[..], b1, was, str, Repeat('0', zeros), Chars(ds, small), e1, end);
    ghost var b2, e2 := buf[..], end;
    end, dropped := Pad(buf, end, left, ' ');
    WrittenMore(buf[..], b2, was, str, Repeat('0', zeros) + Chars(ds, small), Repeat(' ', left), e2, end);
  }

  /** Everything number writes once the digits are in tmp. */
  method PutAll(buf: array<char>, str: nat, sign: string, prefix: string, zeropad: bool, leftAlign: bool,
                width: int, zeros: int, tmp: array<char>, i: nat, ghost ds: seq<nat>, ghost small: bool, ghost p: Pieces)
    returns (end: nat)
    requires zeropad ==> !leftAlign
    requires buf != tmp && Collected(tmp[..], i, ds, small) && p.digits == Chars(ds, small)
    requires p.lead == (if zeropad || leftAlign then "" else Repeat(' ', width))
    requires p.inner == (if zeropad then Repeat('0', width) else "")
    requires p.zeros == Repeat('0', zeros) && p.tail == if leftAlign then Repeat(' ', width) else ""
    requires str + |p.lead| + |sign| + |prefix| + |p.inner| + |p.zeros| + |p.digits| + |p.tail| <= buf.Length
    modifies buf
    ensures Written(buf[..], old(buf[..]), str, (p.lead + sign + prefix + p.inner) + (p.zeros + p.digits + p.tail), end)
  {
    ghost var was := buf[..];
    var rest;
    end, rest := PutHead(buf, str, width, sign, prefix, zeropad, leftAlign);
    ghost var b1, e1 := buf[..], end;
    assert Repeat(' ', rest) == p.tail;
    end := PutBody(buf, end, zeros, tmp, i, rest, ds, small);
    WrittenMore(buf[..], b1, was, str, p.lead + sign + prefix + p.inner, p.zeros + p.digits + p.tail, e1, end);
  }

  /** number(): None is the NULL returned for a base outside 2..36. */
  method Number(buf: array<char>, str: nat, num: Int32, base: int, size: int, precision: int, f: Flags)
    returns (r: Option<nat>)
    requires 2 <= base <= 36 ==> str + |Formatted(num, base, size, precision, f)| <= buf.Length
    modifies buf
    ensures r.None? <==> base < 2 || base > 36
    ensures r.None? ==> buf[..] == old(buf[..])
    ensures r.Some? ==> Written(buf[..], old(buf[..]), str, Formatted(num, base, size, precision, f), r.value)
  {
    if base < 2 || base > 36 { return None; }
    var zeropad := f.zeropad && !f.left;
    var left := size;
    var sign := SignOf(num, f);
    if sign != "" { left := left - 1; }
    if f.special {
      if base == 16 { left := left - 2; } else if base == 8 { left := left - 1; }
    }
    var tmp := new char[36];
    var m := Magnitude(num, f.sign);
    var i := CollectDigits(m, base, f.small, tmp);
    var prec := precision;
    if i > prec { prec := i; }
    left := left - prec;
    ghost var p := PiecesOf(num, base, size, precision, f);
    assert left == size - |sign| - |PrefixOf(base, f)| - Max(precision, i);
    assert Repeat('0', prec - i) == p.zeros;
    var end := PutAll(buf, str, sign, PrefixOf(base, f), zeropad, f.left, left, prec - i, tmp, i, Digits(m, base), f.small, p);
    r := Some(end);
  }

  // ----- _atob

  function DigitOf(c: char): Option<nat> {
    if '0' <= c <= '9' then Some((c - '0') as nat)
    else if 'a' <= c <= 'f' then Some((c - 'a') as nat + 10)
    else if 'A' <= c <= 'F' then Some((c - 'A') as nat + 10)
    else None
  }

  /** Unsigned 32-bit arithmetic. */
  function Wrap(x: nat): Word32 {
    x % 0x1_0000_0000
  }

  /** One more digit behind the value v, in 32-bit arithmetic. */
  function Step(v: nat, base: nat, d: nat): Word32 {
    Wrap(v * base + d)
  }

  /** The two halves of the form with a dot, joined in 32-bit arithmetic. */
  function JoinHalves(v1: Word32, v2: Word32): Word32 {
    Wrap(Wrap(v1 * 0x1_0000) + v2)
  }

  /** The digit loop, from accumulated value v. */
  function ReadDigits(p: string, base: nat, v: Word32): Option<Word32>
    decreases |p|
  {
    if p == "" then Some(v) else
      match DigitOf(p[0])
      case None => None
      case Some(d) => if d >= base then None else ReadDigits(p[1..], base, Step(v, base, d))
  }

  /** Index of the first '.', or the length. */
  function Dot(p: string): (k: nat)
    ensures k <= |p| && (k < |p| ==> p[k] == '.') && forall i :: 0 <= i < k ==> p[i] != '.'
  {
    if p == "" || p[0] == '.' then 0 else 1 + Dot(p[1..])
  }

  function IsHexPrefixed(p: string): bool {
    |p| >= 2 && p[0] == '0' && (p[1] == 'x' || p[1] == 'X')
  }

  /** In base 16 a single '.' joins two 16-bit halves; the first may have at most 19 characters. */
  function Atob(p: string, base: nat): Option<Word32>
    decreases |p|
  {
    var b := if IsHexPrefixed(p) then 16 else base;
    var q := if IsHexPrefixed(p) then p[2..] else p;
    var k := Dot(q);
    if b == 16 && k < |q| then
      if k > 19 then None else
        match Atob(q[..k], 16)
        case None => None
        case Some(v1) =>
          if Dot(q[k + 1..]) < |q[k + 1..]| then None else
            match Atob(q[k + 1..], 16)
            case None => None
            case Some(v2) => Some(JoinHalves(v1, v2))
    else ReadDigits(q, b, 0)
  }

  method ReadNumber(s: string, base: nat) returns (r: Option<Word32>)
    ensures r == Atob(s, base)
    decreases |s|
  {
    var p, b := s, base;
    if |p| >= 2 && p[0] == '0' && (p[1] == 'x' || p[1] == 'X') {
      b := 16;
      p := p[2..];
    }
    var k := Dot(p);
    if b == 16 && k < |p| {
      if k > 19 { return None; }
      var v1 := ReadNumber(p[..k], 16);
      if v1.None? { return None; }
      var q := p[k + 1..];
      if Dot(q) < |q| { return None; }
      var v2 := ReadNumber(q, 16);
      if v2.None? { return None; }
      return Some(JoinHalves(v1.value, v2.value));
    }
    r := ReadLoop(p, b);
  }

  method ReadLoop(p: string, base: nat) returns (r: Option<Word32>)
    ensures r == ReadDigits(p, base, 0)
  {
    var value: Word32 := 0;
    var i := 0;
    while i < |p|
      invariant 0 <= i <= |p| && ReadDigits(p, base, 0) == ReadDigits(p[i..], base, value)
    {
      var digit := DigitOf(p[i]);
      if digit.None? || digit.value >= base { return None; }
      assert p[i..][1..] == p[i + 1..];
      value := Step(value, base, digit.value);
      i := i + 1;
    }
    assert p[i..] == "";
    r := Some(value);
  }

  // ----- reading back what was printed

  function FoldLeft(v: nat, ds: seq<nat>, b: nat): nat
    decreases |ds|
  {
    if ds == [] then v else FoldLeft(v * b + ds[0], ds[1..], b)
  }

  lemma {:induction false} FoldLeftSnoc(v: nat, ds: seq<nat>, d: nat, b: nat)
    ensures FoldLeft(v, ds + [d], b) == FoldLeft(v, ds, b) * b + d
    decreases |ds|
  {
    if ds == [] {
      assert ([] + [d])[1..] == [];
    } else {
      FoldLeftSnoc(v * b + ds[0], ds[1..], d, b);
      assert (ds + [d])[1..] == ds[1..] + [d];
    }
  }

  lemma {:induction false} FoldLeftIsValue(ds: seq<nat>, b: nat)
    ensures FoldLeft(0, ds, b) == Value(ds, b)
    decreases |ds|
  {
    if ds != [] {
      FoldLeftIsValue(ds[..|ds| - 1], b);
      FoldLeftSnoc(0, ds[..|ds| - 1], ds[|ds| - 1], b);
      assert ds[..|ds| - 1] + [ds[|ds| - 1]] == ds;
    }
  }

  lemma WrapStep(v: nat, b: nat, d: nat)
    ensures Step(Wrap(v), b, d) == Wrap(v * b + d)
  {
    var q, r := v / 0x1_0000_0000, v % 0x1_0000_0000;
    assert v * b + d == r * b + d + 0x1_0000_0000 * (q * b) by { assert v == r + 0x1_0000_0000 * q; }
    WrapAway(r * b + d, q * b);
  }

  lemma {:induction false} WrapAway(x: nat, k: nat)
    ensures (x + 0x1_0000_0000 * k) % 0x1_0000_0000 == x % 0x1_0000_0000
  {
    if k > 0 {
      WrapAway(x, k - 1);
      assert x + 0x1_0000_0000 * k == x + 0x1_0000_0000 * (k - 1) + 0x1_0000_0000;
    }
  }

  lemma DigitOfChar(d: nat, small: bool)
    requires d < 36
    ensures DigitOf(DigitChar(d, small)) == if d < 16 then Some(d) else None
  {
  }

  /** No digit past F. */
  predicate UpToF(ds: seq<nat>) {
    forall i :: 0 <= i < |ds| ==> ds[i] < 16
  }

  lemma UpToFTail(ds: seq<nat>)
    requires ds != []
    ensures UpToF(ds) <==> ds[0] < 16 && UpToF(ds[1..])
  {
    if UpToF(ds[1..]) && ds[0] < 16 {
      forall i | 0 <= i < |ds| ensures ds[i] < 16 { if i > 0 { assert ds[i] == ds[1..][i - 1]; } }
    }
  }

  lemma ReadOne(ds: seq<nat>, b: nat, small: bool, w: Word32)
    requires ds != [] && forall i :: 0 <= i < |ds| ==> ds[i] < b && ds[i] < 36
    ensures ReadDigits(Chars(ds, small), b, w)
         == if ds[0] < 16 then ReadDigits(Chars(ds[1..], small), b, Step(w, b, ds[0])) else None
  {
    assert Chars(ds, small)[1..] == Chars(ds[1..], small);
    DigitOfChar(ds[0], small);
  }

  function FoldWrapped(w: Word32, ds: seq<nat>, b: nat): Word32
    decreases |ds|
  {
    if ds == [] then w else FoldWrapped(Step(w, b, ds[0]), ds[1..], b)
  }

  /** Reading a printed numeral folds its digits, unless it has a digit past F. */
  lemma {:induction false} ReadChars(ds: seq<nat>, b: nat, small: bool, w: Word32)
    requires forall i :: 0 <= i < |ds| ==> ds[i] < b && ds[i] < 36
    ensures ReadDigits(Chars(ds, small), b, w) == if UpToF(ds) then Some(FoldWrapped(w, ds, b)) else None
    decreases |ds|
  {
    if ds != [] {
      ReadOne(ds, b, small, w);
      UpToFTail(ds);
      if ds[0] < 16 {
        ReadChars(ds[1..], b, small, Step(w, b, ds[0]));
      }
    }
  }

  /** Wrapping at every step is wrapping once at the end. */
  lemma {:induction false} FoldWraps(v: nat, ds: seq<nat>, b: nat)
    ensures FoldWrapped(Wrap(v), ds, b) == Wrap(FoldLeft(v, ds, b))
    decreases |ds|
  {
    if ds != [] {
      WrapStep(v, b, ds[0]);
      FoldWraps(v * b + ds[0], ds[1..], b);
    }
  }

  lemma AtobPlain(s: string, b: nat)
    requires !IsHexPrefixed(s) && Dot(s) == |s|
    ensures Atob(s, b) == ReadDigits(s, b, 0)
  {
  }

  lemma CharsPlain(m: Word32, b: nat, small: bool)
    requires 2 <= b <= 36
    ensures var s := Chars(Digits(m, b), small); !IsHexPrefixed(s) && Dot(s) == |s|
  {
    var ds := Digits(m, b);
    DigitsValue(m, b);
    forall i | 0 <= i < |ds| ensures Chars(ds, small)[i] == DigitChar(ds[i], small) != '.' {}
    if |ds| >= 2 { assert m > 0; }
  }

  /** _atob inverts number's unpadded unsigned output exactly when no digit is past F: in
      bases 2 to 16 always, above that only for the values whose digits happen to be small. */
  lemma PrintedReadsBack(m: Word32, b: nat, small: bool)
    requires 2 <= b <= 36
    ensures Atob(Chars(Digits(m, b), small), b) == Some(m) <==> UpToF(Digits(m, b))
  {
    var ds := Digits(m, b);
    DigitsValue(m, b);
    FoldLeftIsValue(ds, b);
    CharsPlain(m, b, small);
    AtobPlain(Chars(ds, small), b);
    ReadFromZero(ds, b, small, m);
  }

  lemma ReadFromZero(ds: seq<nat>, b: nat, small: bool, m: Word32)
    requires (forall i :: 0 <= i < |ds| ==> ds[i] < b && ds[i] < 36) && FoldLeft(0, ds, b) == m
    ensures ReadDigits(Chars(ds, small), b, 0) == if UpToF(ds) then Some(m) else None
  {
    assert Wrap(0) == 0 && Wrap(m) == m;
    FoldWraps(0, ds, b);
    ReadChars(ds, b, small, 0);
  }

  lemma PrintedReadsBackTo16(m: Word32, b: nat, small: bool)
    requires 2 <= b <= 16
    ensures Atob(Chars(Digits(m, b), small), b) == Some(m)
  {
    PrintedReadsBack(m, b, small);
  }

  /** The plain unsigned form, as printf's %u and %x use it, is just the digits. */
  lemma PlainForm(num: Int32, base: nat, small: bool)
    requires 2 <= base <= 36
    ensures Formatted(num, base, -1, -1, Flags(false, false, false, false, false, false, small))
         == Chars(Digits(Magnitude(num, false), base), small)
  {
  }
}
