/** What number prints, as an independent reader sees it: spaces, a sign, the mark 0x or 0X,
    digits, and what follows them. */
module NumberText {
  import opened Numerals
  import opened Words
  import opened Wrappers

  // ----- the reader

  /** The digits of bases up to 36, of either case. */
  function CharDigit(c: char): (d: nat)
    ensures d <= 36
  {
    if '0' <= c <= '9' then (c - '0') as nat
    else if 'a' <= c <= 'z' then (c - 'a') as nat + 10
    else if 'A' <= c <= 'Z' then (c - 'A') as nat + 10
    else 36
  }

  /** How many spaces s starts with. */
  function Spaces(s: string): (k: nat)
    ensures k <= |s|
  {
    if s != "" && s[0] == ' ' then 1 + Spaces(s[1..]) else 0
  }

  /** How many digits of the base s starts with. */
  function DigitRun(s: string, base: nat): (k: nat)
    ensures k <= |s|
  {
    if s != "" && CharDigit(s[0]) < base then 1 + DigitRun(s[1..], base) else 0
  }

  function ValueOf(v: nat, s: string, base: nat): nat
    decreases |s|
  {
    if s == "" then v else ValueOf(v * base + CharDigit(s[0]), s[1..], base)
  }

  datatype Text = Text(spaces: nat, sign: string, mark: string, digits: string, tail: string) {
    function Show(): string {
      Repeat(' ', spaces) + sign + mark + digits + tail
    }

    /** The number the text stands for. */
    function Number(base: nat): int {
      var v: int := ValueOf(0, digits, base);
      if sign == "-" then -v else v
    }
  }

  predicate HasSign(s: string) {
    s != "" && (s[0] == '+' || s[0] == '-')
  }

  function AfterSign(t: string): (u: string)
    ensures |u| <= |t|
  {
    if HasSign(t) then t[1..] else t
  }

  function AfterMark(u: string, base: nat): (v: string)
    ensures |v| <= |u|
  {
    if base == 16 && IsHexPrefixed(u) then u[2..] else u
  }

  function Scan(s: string, base: nat): Text {
    var t := s[Spaces(s)..];
    var u := AfterSign(t);
    var v := AfterMark(u, base);
    var n := DigitRun(v, base);
    Text(Spaces(s), t[..|t| - |u|], u[..|u| - |v|], v[..n], v[n..])
  }

  // ----- it takes a text apart as it was put together

  /** Digits of the base. */
  predicate Numeral(s: string, base: nat) {
    forall i :: 0 <= i < |s| ==> CharDigit(s[i]) < base
  }

  lemma {:induction false} SpacesOf(n: nat, rest: string)
    requires rest == "" || rest[0] != ' '
    ensures Spaces(Repeat(' ', n) + rest) == n && (Repeat(' ', n) + rest)[n..] == rest
  {
    if n > 0 {
      SpacesOf(n - 1, rest);
      RepeatFirst(' ', n);
      assert (Repeat(' ', n) + rest)[1..] == Repeat(' ', n - 1) + rest;
    }
  }

  lemma {:induction false} RepeatFirst(c: char, n: nat)
    requires n > 0
    ensures Repeat(c, n) == [c] + Repeat(c, n - 1)
  {
    if n > 1 { RepeatFirst(c, n - 1); }
  }

  lemma {:induction false} RunOf(digits: string, rest: string, base: nat)
    requires Numeral(digits, base) && (rest == "" || CharDigit(rest[0]) >= base)
    ensures DigitRun(digits + rest, base) == |digits|
    decreases |digits|
  {
    if digits != "" {
      assert (digits + rest)[1..] == digits[1..] + rest;
      RunOf(digits[1..], rest, base);
    } else {
      assert digits + rest == rest;
    }
  }

  /** A text as number makes it. */
  predicate WellFormed(t: Text, base: nat) {
    && 2 <= base <= 36
    && (t.sign == "" || t.sign == "+" || t.sign == "-")
    && (t.mark == "" || (base == 16 && (t.mark == "0x" || t.mark == "0X")))
    && t.digits != "" && Numeral(t.digits, base) && (t.tail == "" || t.tail[0] == ' ')
  }

  lemma ScanSign(sign: string, rest: string)
    requires (sign == "" || sign == "+" || sign == "-") && rest != "" && !HasSign(rest)
    ensures var t := sign + rest; AfterSign(t) == rest && t[..|t| - |rest|] == sign
  {
  }

  lemma ScanMark(mark: string, digits: string, tail: string, base: nat)
    requires mark == "" || (base == 16 && (mark == "0x" || mark == "0X"))
    requires digits != "" && Numeral(digits, base) && (tail == "" || tail[0] == ' ') && base <= 36
    ensures var u := mark + (digits + tail); AfterMark(u, base) == digits + tail && u[..|mark|] == mark
  {
    var u := mark + (digits + tail);
    if mark == "" {
      assert u == digits + tail;
      if base == 16 && |u| >= 2 {
        assert u[1] == (if |digits| > 1 then digits[1] else tail[0]);
        assert CharDigit('x') >= 16 && CharDigit('X') >= 16 && CharDigit(' ') >= 16;
      }
    } else {
      assert u[2..] == digits + tail;
    }
  }

  lemma ShowGroups(t: Text, body: string, marked: string, signed: string)
    requires body == t.digits + t.tail && marked == t.mark + body && signed == t.sign + marked
    ensures t.Show() == Repeat(' ', t.spaces) + signed
  {
  }

  lemma ScanGroups(s: string, base: nat, t: Text, body: string, marked: string, signed: string)
    requires Spaces(s) == t.spaces && s[t.spaces..] == signed
    requires AfterSign(signed) == marked && signed[..|signed| - |marked|] == t.sign
    requires AfterMark(marked, base) == body && marked[..|marked| - |body|] == t.mark
    requires DigitRun(body, base) == |t.digits| && body == t.digits + t.tail
    ensures Scan(s, base) == t
  {
  }

  lemma FirstChars(t: Text, base: nat, body: string, marked: string, signed: string)
    requires WellFormed(t, base) && body == t.digits + t.tail && marked == t.mark + body && signed == t.sign + marked
    ensures marked != "" && !HasSign(marked) && signed != "" && signed[0] != ' '
  {
    assert CharDigit(t.digits[0]) < base;
    assert marked[0] == (if t.mark == "" then t.digits[0] else '0');
    assert signed[0] == (if t.sign == "" then marked[0] else t.sign[0]);
  }

  lemma ScanShow(t: Text, base: nat)
    requires WellFormed(t, base)
    ensures Scan(t.Show(), base) == t
  {
    var body := t.digits + t.tail;
    var marked := t.mark + body;
    var signed := t.sign + marked;
    ShowGroups(t, body, marked, signed);
    FirstChars(t, base, body, marked, signed);
    SpacesOf(t.spaces, signed);
    ScanSign(t.sign, marked);
    ScanMark(t.mark, t.digits, t.tail, base);
    RunOf(t.digits, t.tail, base);
    ScanGroups(t.Show(), base, t, body, marked, signed);
  }

  // ----- what the pieces of Formatted are to it

  predicate Minus(num: Int32, f: Flags) {
    f.sign && num < 0
  }

  /** The space that stands for a sign. */
  function Blank(num: Int32, f: Flags): nat {
    if f.space && !f.plus && !Minus(num, f) then 1 else 0
  }

  function Octal(base: nat, f: Flags): string {
    if f.special && base == 8 then "0" else ""
  }

  predicate AllOf(s: string, c: char) {
    forall i :: 0 <= i < |s| ==> s[i] == c
  }

  predicate DigitsOk(ds: seq<nat>, base: nat) {
    ds != [] && base <= 36 && forall i :: 0 <= i < |ds| ==> ds[i] < base
  }

  /** The pieces around the digits ds. */
  predicate PiecesOk(p: Pieces, ds: seq<nat>, base: nat, precision: int, f: Flags) {
    && DigitsOk(ds, base) && p.digits == Chars(ds, f.small)
    && p.lead == Repeat(' ', |p.lead|) && (f.left || f.zeropad ==> p.lead == "")
    && AllOf(p.inner, '0') && (f.left || !f.zeropad ==> p.inner == "")
    && AllOf(p.zeros, '0') && |p.zeros| + |ds| == Max(precision, |ds|)
    && AllOf(p.tail, ' ') && (p.tail != "" ==> f.left)
  }

  lemma {:induction false} RepeatAll(c: char, n: int)
    ensures AllOf(Repeat(c, n), c)
  {
    if n > 0 { RepeatAll(c, n - 1); }
  }

  lemma PieceFacts(num: Int32, base: nat, size: int, precision: int, f: Flags, ds: seq<nat>)
    requires 2 <= base <= 36 && ds == Digits(Magnitude(num, f.sign), base)
    ensures PiecesOk(PiecesOf(num, base, size, precision, f), ds, base, precision, f)
  {
    var pad := size - |SignOf(num, f)| - |PrefixOf(base, f)| - Max(precision, |ds|);
    RepeatAll(' ', pad);
    RepeatAll('0', pad);
    RepeatAll('0', precision - |ds|);
  }

  function TextOf(num: Int32, base: nat, f: Flags, p: Pieces): Text {
    Text(|p.lead| + Blank(num, f),
         if Minus(num, f) then "-" else if f.plus then "+" else "",
         if base == 16 then PrefixOf(base, f) else "",
         Octal(base, f) + (p.inner + (p.zeros + p.digits)), p.tail)
  }

  lemma {:induction false} RepeatMore(c: char, n: nat)
    ensures Repeat(c, n) + [c] == Repeat(c, n + 1)
  {
  }

  lemma FormattedShows(num: Int32, base: nat, size: int, precision: int, f: Flags, p: Pieces, ds: seq<nat>)
    requires 2 <= base <= 36 && p == PiecesOf(num, base, size, precision, f) && PiecesOk(p, ds, base, precision, f)
    ensures Formatted(num, base, size, precision, f) == TextOf(num, base, f, p).Show()
  {
    var t := TextOf(num, base, f, p);
    RepeatMore(' ', |p.lead|);
    assert p.lead + SignOf(num, f) == Repeat(' ', t.spaces) + t.sign;
    assert PrefixOf(base, f) == t.mark + Octal(base, f);
    Regroup(p.lead, SignOf(num, f), PrefixOf(base, f), p.inner, p.zeros, p.digits, p.tail,
            Repeat(' ', t.spaces), t.sign, t.mark, Octal(base, f));
  }

  lemma Regroup(lead: string, sg: string, prefix: string, inner: string, zeros: string, digits: string, tail: string,
                spaces: string, sign: string, mark: string, octal: string)
    requires lead + sg == spaces + sign && prefix == mark + octal
    ensures (lead + sg + prefix + inner) + (zeros + digits + tail)
         == spaces + sign + mark + (octal + (inner + (zeros + digits))) + tail
  {
    assert lead + sg + prefix + inner == spaces + sign + mark + (octal + inner);
  }

  lemma CharDigitOf(d: nat, small: bool)
    requires d < 36
    ensures CharDigit(DigitChar(d, small)) == d
  {
  }

  /** Zeros, and the numeral behind them. */
  lemma DigitsOfText(num: Int32, base: nat, precision: int, f: Flags, p: Pieces, ds: seq<nat>)
    requires PiecesOk(p, ds, base, precision, f)
    ensures var digits := TextOf(num, base, f, p).digits;
      && |digits| == |Octal(base, f)| + |p.inner| + Max(precision, |ds|)
      && digits[|digits| - |ds|..] == Chars(ds, f.small)
      && forall i :: 0 <= i < |digits| - |ds| ==> digits[i] == '0'
  {
    var zeros := Octal(base, f) + (p.inner + p.zeros);
    assert TextOf(num, base, f, p).digits == zeros + p.digits;
  }

  lemma DigitsNumeral(digits: string, ds: seq<nat>, base: nat, small: bool)
    requires DigitsOk(ds, base) && 0 < base && |digits| >= |ds| && digits[|digits| - |ds|..] == Chars(ds, small)
    requires forall i :: 0 <= i < |digits| - |ds| ==> digits[i] == '0'
    ensures Numeral(digits, base) && digits != ""
  {
    var k := |digits| - |ds|;
    forall i | 0 <= i < |digits| ensures CharDigit(digits[i]) < base {
      if i >= k {
        assert digits[i] == digits[k..][i - k] == DigitChar(ds[i - k], small);
        CharDigitOf(ds[i - k], small);
      }
    }
  }

  lemma TextIsWellFormed(num: Int32, base: nat, precision: int, f: Flags, p: Pieces, ds: seq<nat>)
    requires 2 <= base && PiecesOk(p, ds, base, precision, f)
    ensures WellFormed(TextOf(num, base, f, p), base)
  {
    DigitsOfText(num, base, precision, f, p, ds);
    DigitsNumeral(TextOf(num, base, f, p).digits, ds, base, f.small);
  }

  // ----- the value

  lemma {:induction false} ValueOfZeros(s: string, k: nat, base: nat)
    requires k <= |s| && forall i :: 0 <= i < k ==> s[i] == '0'
    ensures ValueOf(0, s, base) == ValueOf(0, s[k..], base)
    decreases k
  {
    if k > 0 {
      ValueOfZeros(s[1..], k - 1, base);
      assert s[1..][k - 1..] == s[k..];
    }
  }

  lemma {:induction false} ValueOfChars(v: nat, ds: seq<nat>, base: nat, small: bool)
    requires forall i :: 0 <= i < |ds| ==> ds[i] < 36
    ensures ValueOf(v, Chars(ds, small), base) == FoldLeft(v, ds, base)
    decreases |ds|
  {
    if ds != [] {
      CharDigitOf(ds[0], small);
      assert Chars(ds, small)[1..] == Chars(ds[1..], small);
      ValueOfChars(v * base + ds[0], ds[1..], base, small);
    }
  }

  lemma TextValue(num: Int32, base: nat, precision: int, f: Flags, p: Pieces, ds: seq<nat>)
    requires PiecesOk(p, ds, base, precision, f)
    ensures ValueOf(0, TextOf(num, base, f, p).digits, base) == Value(ds, base)
  {
    var digits := TextOf(num, base, f, p).digits;
    DigitsOfText(num, base, precision, f, p, ds);
    ValueOfZeros(digits, |digits| - |ds|, base);
    ValueOfChars(0, ds, base, f.small);
    FoldLeftIsValue(ds, base);
  }

  lemma ScanFormatted(num: Int32, base: nat, size: int, precision: int, f: Flags, p: Pieces, ds: seq<nat>)
    requires 2 <= base <= 36 && p == PiecesOf(num, base, size, precision, f) && ds == Digits(Magnitude(num, f.sign), base)
    ensures PiecesOk(p, ds, base, precision, f) && Value(ds, base) == Magnitude(num, f.sign)
    ensures Formatted(num, base, size, precision, f) == TextOf(num, base, f, p).Show()
    ensures Scan(Formatted(num, base, size, precision, f), base) == TextOf(num, base, f, p)
  {
    PieceFacts(num, base, size, precision, f, ds);
    FormattedShows(num, base, size, precision, f, p, ds);
    TextIsWellFormed(num, base, precision, f, p, ds);
    ScanShow(TextOf(num, base, f, p), base);
    DigitsValue(Magnitude(num, f.sign), base);
  }

  /** The printed text reads back, whatever width, precision and flags: as the number itself when
      it is signed, and otherwise as its 32-bit unsigned value. */
  lemma TextReadsBack(num: Int32, base: nat, size: int, precision: int, f: Flags, s: string)
    requires 2 <= base <= 36 && s == Formatted(num, base, size, precision, f)
    ensures Scan(s, base).Number(base) == if f.sign then num else num % 0x1_0000_0000
  {
    var p, ds := PiecesOf(num, base, size, precision, f), Digits(Magnitude(num, f.sign), base);
    ScanFormatted(num, base, size, precision, f, p, ds);
    SignedValue(num, base, precision, f, p, ds);
  }

  lemma SignedValue(num: Int32, base: nat, precision: int, f: Flags, p: Pieces, ds: seq<nat>)
    requires PiecesOk(p, ds, base, precision, f) && Value(ds, base) == Magnitude(num, f.sign)
    ensures TextOf(num, base, f, p).Number(base) == if f.sign then num else num % 0x1_0000_0000
  {
    TextValue(num, base, precision, f, p, ds);
  }

  // ----- sign, mark and padding

  /** Letters of the case asked for. */
  predicate RightCase(s: string, small: bool) {
    forall i :: 0 <= i < |s| ==> if small then !('A' <= s[i] <= 'Z') else !('a' <= s[i] <= 'z')
  }

  lemma DigitCase(d: nat, small: bool)
    requires d < 36
    ensures var c := DigitChar(d, small); if small then !('A' <= c <= 'Z') else !('a' <= c <= 'z')
  {
  }

  lemma CaseOfDigits(digits: string, ds: seq<nat>, base: nat, small: bool, k: nat)
    requires DigitsOk(ds, base) && |digits| == k + |ds| && digits[k..] == Chars(ds, small)
    requires forall i :: 0 <= i < k ==> digits[i] == '0'
    ensures RightCase(digits, small)
  {
    forall i | 0 <= i < |digits| ensures if small then !('A' <= digits[i] <= 'Z') else !('a' <= digits[i] <= 'z') {
      if i >= k {
        assert digits[i] == Chars(ds, small)[i - k] == DigitChar(ds[i - k], small);
        DigitCase(ds[i - k], small);
      }
    }
  }

  lemma DigitsCase(num: Int32, base: nat, precision: int, f: Flags, p: Pieces, ds: seq<nat>)
    requires PiecesOk(p, ds, base, precision, f)
    ensures RightCase(TextOf(num, base, f, p).digits, f.small)
  {
    var digits := TextOf(num, base, f, p).digits;
    DigitsOfText(num, base, precision, f, p, ds);
    CaseOfDigits(digits, ds, base, f.small, |digits| - |ds|);
  }

  /** How the text is laid out for a value of n digits. A minus stands exactly before a negative
      signed number, a plus exactly with PLUS before any other, the mark exactly with SPECIAL in
      base 16, in the case of the letters. Spaces stand behind the digits with LEFT only, and with
      LEFT or ZEROPAD none in front but the one that SPACE puts for a sign. There are as many
      digits as the value or the precision needs, with one more for SPECIAL in base 8, and yet
      more only for ZEROPAD without LEFT. */
  ghost predicate LaidOut(t: Text, num: Int32, base: nat, n: nat, precision: int, f: Flags) {
    var blank := if f.space && !f.plus && !(f.sign && num < 0) then 1 else 0;
    var need := Max(precision, n) + if f.special && base == 8 then 1 else 0;
    && t.sign == (if f.sign && num < 0 then "-" else if f.plus then "+" else "")
    && t.mark == (if f.special && base == 16 then if f.small then "0x" else "0X" else "")
    && RightCase(t.digits, f.small)
    && AllOf(t.tail, ' ') && (t.tail != "" ==> f.left)
    && t.spaces >= blank && (f.left || f.zeropad ==> t.spaces == blank)
    && |t.digits| >= need && (f.left || !f.zeropad ==> |t.digits| == need)
  }

  lemma TextLaidOut(num: Int32, base: nat, precision: int, f: Flags, p: Pieces, ds: seq<nat>)
    requires PiecesOk(p, ds, base, precision, f)
    ensures LaidOut(TextOf(num, base, f, p), num, base, |ds|, precision, f)
  {
    DigitsCase(num, base, precision, f, p, ds);
    DigitsOfText(num, base, precision, f, p, ds);
  }

  /** The reader takes the whole text apart, and finds it laid out so; its length is that of
      FormattedLength. */
  lemma TextLayout(num: Int32, base: nat, size: int, precision: int, f: Flags, s: string, n: nat)
    requires 2 <= base <= 36 && s == Formatted(num, base, size, precision, f) && n == |Digits(Magnitude(num, f.sign), base)|
    ensures s == Scan(s, base).Show() && LaidOut(Scan(s, base), num, base, n, precision, f)
  {
    var p, ds := PiecesOf(num, base, size, precision, f), Digits(Magnitude(num, f.sign), base);
    ScanFormatted(num, base, size, precision, f, p, ds);
    TextLaidOut(num, base, precision, f, p, ds);
  }

  // ----- what _atob makes of a prefix and of two halves

  lemma DigitsRead(m: Word32, b: nat, small: bool)
    requires 2 <= b <= 16
    ensures var s := Chars(Digits(m, b), small); ReadDigits(s, b, 0) == Some(m) && !IsHexPrefixed(s) && Dot(s) == |s|
  {
    CharsPlain(m, b, small);
    AtobPlain(Chars(Digits(m, b), small), b);
    PrintedReadsBackTo16(m, b, small);
  }

  /** Behind 0x or 0X a numeral is read in base 16, whatever base was asked for. */
  lemma PrefixReadsHex(m: Word32, base: nat, small: bool, prefix: string)
    requires prefix == "0x" || prefix == "0X"
    ensures Atob(prefix + Chars(Digits(m, 16), small), base) == Some(m)
  {
    var s := Chars(Digits(m, 16), small);
    DigitsRead(m, 16, small);
    assert (prefix + s)[2..] == s;
  }

  /** Hexadecimal digits below the base. */
  predicate Accepts(s: string, base: nat) {
    forall i :: 0 <= i < |s| ==> CharDigit(s[i]) < 16 && CharDigit(s[i]) < base
  }

  lemma AcceptsRest(s: string, base: nat)
    requires s != ""
    ensures Accepts(s, base) <==> CharDigit(s[0]) < 16 && CharDigit(s[0]) < base && Accepts(s[1..], base)
  {
    assert forall i :: 1 <= i < |s| ==> s[1..][i - 1] == s[i];
  }

  lemma ReadFirst(s: string, base: nat, w: Word32, d: nat)
    requires s != "" && d == CharDigit(s[0])
    ensures ReadDigits(s, base, w) == if d < 16 && d < base then ReadDigits(s[1..], base, Step(w, base, d)) else None
  {
  }

  /** One digit more, exactly and on 32 bits. */
  lemma OneDigit(s: string, base: nat, v: nat, w: Word32, d: nat, rest: string) returns (next: nat)
    requires s != "" && d == CharDigit(s[0]) && rest == s[1..] && w == Wrap(v)
    ensures Step(w, base, d) == Wrap(next) && ValueOf(v, s, base) == ValueOf(next, rest, base)
  {
    next := v * base + d;
    WrapStep(v, base, d);
  }

  lemma {:induction false} ReadDigitsExactly(s: string, base: nat, v: nat, w: Word32)
    requires w == Wrap(v)
    ensures ReadDigits(s, base, w) == if Accepts(s, base) then Some(Wrap(ValueOf(v, s, base))) else None
    decreases |s|
  {
    if s != "" {
      var d, rest := CharDigit(s[0]), s[1..];
      AcceptsRest(s, base);
      ReadFirst(s, base, w, d);
      if d < 16 && d < base {
        var next := OneDigit(s, base, v, w, d, rest);
        ReadDigitsExactly(rest, base, next, Step(w, base, d));
      }
    }
  }

  /** Without a prefix or a dot _atob accepts exactly the strings of hexadecimal digits below the
      base, and their value is taken on 32 bits. */
  lemma ReadsExactly(s: string, base: nat)
    requires !IsHexPrefixed(s) && (base == 16 ==> Dot(s) == |s|)
    ensures Atob(s, base) == if Accepts(s, base) then Some(ValueOf(0, s, base) % 0x1_0000_0000) else None
  {
    assert Atob(s, base) == ReadDigits(s, base, 0);
    ReadDigitsExactly(s, base, 0, 0);
  }

  lemma {:induction false} DotAt(s: string, t: string)
    requires Dot(s) == |s|
    ensures Dot(s + "." + t) == |s|
    decreases |s|
  {
    var r := s + "." + t;
    if s != "" {
      assert r[1..] == s[1..] + "." + t;
      DotAt(s[1..], t);
    }
  }

  lemma FewDigits(m: Word16, small: bool)
    ensures |Chars(Digits(m, 16), small)| <= 16
  {
    assert Pow2(8) == 256;
    assert Pow2(16) == 0x1_0000;
    DigitsCount(m, 16, 16);
  }

  lemma FirstHalf(a: Word16, small: bool, t: string)
    ensures var s := Chars(Digits(a, 16), small); !IsHexPrefixed(s + "." + t)
  {
    var s := Chars(Digits(a, 16), small);
    CharsPlain(a, 16, small);
    var r := s + "." + t;
    if |s| >= 2 { assert r[0] == s[0] && r[1] == s[1]; } else { assert r[1] == '.'; }
  }

  lemma AtobDotted(r: string, s: string, t: string, v1: Word32, v2: Word32)
    requires r == s + "." + t && !IsHexPrefixed(r) && Dot(s) == |s| <= 19 && Dot(t) == |t|
    requires Atob(s, 16) == Some(v1) && Atob(t, 16) == Some(v2)
    ensures Atob(r, 16) == Some(JoinHalves(v1, v2))
  {
    DotAt(s, t);
    assert r[..|s|] == s && r[|s| + 1..] == t;
  }

  lemma HalfReads(a: Word16, small: bool, s: string)
    requires s == Chars(Digits(a, 16), small)
    ensures Atob(s, 16) == Some(a) && Dot(s) == |s| <= 19
  {
    PrintedReadsBackTo16(a, 16, small);
    CharsPlain(a, 16, small);
    FewDigits(a, small);
  }

  /** In base 16 two halves of 16 bits around a dot are the high and the low half. */
  lemma HalvesRead(a: Word16, b: Word16, small: bool, s: string, t: string)
    requires s == Chars(Digits(a, 16), small) && t == Chars(Digits(b, 16), small)
    ensures Atob(s + "." + t, 16) == Some(0x1_0000 * (a as int) + b as int)
  {
    assert !IsHexPrefixed(s + "." + t) by { FirstHalf(a, small, t); }
    HalfReads(a, small, s);
    HalfReads(b, small, t);
    AtobDotted(s + "." + t, s, t, a, b);
    JoinedHalves(a, b);
  }

  lemma JoinedHalves(a: Word16, b: Word16)
    ensures JoinHalves(a, b) == 0x1_0000 * (a as int) + b as int
  {
  }
}
