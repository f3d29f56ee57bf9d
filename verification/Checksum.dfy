/** The Internet checksum as net/ip.c computes it, against section 1 of RFC 1071. */
module Checksum {
  import opened Words

  /** A 16-bit word in network byte order. */
  function Be(hi: Byte, lo: Byte): Word16 {
    256 * (hi as int) + lo as int
  }

  // ----- the code's arithmetic

  /** The words the loop adds: big-endian pairs, and an odd last byte as a low byte. */
  function Sum(b: seq<Byte>): nat {
    if |b| > 1 then Be(b[0], b[1]) + Sum(b[2..])
    else if |b| == 1 then b[0]
    else 0
  }

  /** The two folds and the complement, on a 32-bit accumulator. */
  function Finish(cksum: nat): Word16
    requires cksum < 0x1_0000_0000
  {
    var c := cksum / 0x1_0000 + cksum % 0x1_0000;
    var c' := c + c / 0x1_0000;
    0xFFFF - c' % 0x1_0000
  }

  function Of(b: seq<Byte>): Word16 {
    Finish(Sum(b) % 0x1_0000_0000)
  }

  lemma AddWraps(a: nat, w: nat)
    ensures (a % 0x1_0000_0000 + w) % 0x1_0000_0000 == (a + w) % 0x1_0000_0000
  {
  }

  lemma SumNext(b: seq<Byte>, p: nat, size: nat)
    requires p < size <= |b|
    ensures p + 1 < size ==> Sum(b[p..size]) == Be(b[p], b[p + 1]) + Sum(b[p + 2..size])
    ensures p + 1 == size ==> Sum(b[p..size]) == b[p]
  {
    if p + 1 < size { assert b[p..size][2..] == b[p + 2..size]; }
  }

  method IpHdrChecksum(buffer: array<Byte>, size: int) returns (r: Word16)
    requires 0 <= size <= buffer.Length
    ensures r == Of(buffer[..size])
  {
    ghost var total := Sum(buffer[..][0..size]);
    assert buffer[..][0..size] == buffer[..size];
    ghost var added := 0;
    var cksum, left, p := 0, size, 0;
    while left > 1
      invariant 0 <= left && p + left == size && added >= 0
      invariant added + Sum(buffer[..][p..size]) == total && cksum == added % 0x1_0000_0000
    {
      SumNext(buffer[..], p, size);
      AddWraps(added, Be(buffer[p], buffer[p + 1]));
      cksum := (cksum + Be(buffer[p], buffer[p + 1])) % 0x1_0000_0000;
      added := added + Be(buffer[p], buffer[p + 1]);
      p := p + 2;
      left := left - 2;
    }
    if left != 0 {
      SumNext(buffer[..], p, size);
      AddWraps(added, buffer[p]);
      cksum := (cksum + buffer[p]) % 0x1_0000_0000;
    }
    assert cksum == total % 0x1_0000_0000;
    r := Fold(cksum);
  }

  /** The statements after the loop. */
  method Fold(sum: nat) returns (r: Word16)
    requires sum < 0x1_0000_0000
    ensures r == Finish(sum)
  {
    var cksum := sum;
    cksum := cksum / 0x1_0000 + cksum % 0x1_0000;
    cksum := cksum + cksum / 0x1_0000;
    r := 0xFFFF - cksum % 0x1_0000;
  }

  // ----- range

  lemma {:induction false} SumBound(b: seq<Byte>)
    ensures Sum(b) <= 65535 * ((|b| + 1) / 2)
  {
    if |b| > 1 { SumBound(b[2..]); }
  }

  /** Up to 131074 bytes (a 65535-byte segment with its pseudo-header is 65547) the 32-bit
      accumulator never wraps. */
  lemma NoOverflow(b: seq<Byte>)
    requires |b| <= 131074
    ensures Sum(b) < 0x1_0000_0000 && Of(b) == Finish(Sum(b))
  {
    SumBound(b);
    var k := (|b| + 1) / 2;
    assert k <= 65537;
    SmallSum(Sum(b), k);
  }

  lemma SmallSum(s: nat, k: nat)
    requires s <= 65535 * k && k <= 65537
    ensures s < 0x1_0000_0000 && s % 0x1_0000_0000 == s
  {
  }

  function Ones(n: nat): (b: seq<Byte>)
    ensures |b| == n
  {
    seq(n, i => 255)
  }

  lemma {:induction false} OnesSumTo(n: nat)
    ensures Sum(Ones(n)) == 0xFFFF * (n / 2) + 255 * (n % 2)
  {
    if n > 1 {
      OnesSumTo(n - 2);
      assert Ones(n)[2..] == Ones(n - 2);
    }
  }

  /** Some message of n bytes wraps the accumulator exactly when n is above 131074. */
  lemma OverflowsBeyond(n: nat)
    ensures (exists b: seq<Byte> :: |b| == n && Sum(b) >= 0x1_0000_0000) <==> n > 131074
  {
    if n > 131074 {
      OnesSumTo(n);
      assert |Ones(n)| == n && Sum(Ones(n)) >= 0x1_0000_0000;
    } else {
      forall b: seq<Byte> | |b| == n ensures Sum(b) < 0x1_0000_0000 { NoOverflow(b); }
    }
  }

  // ----- one's-complement addition

  /** Addition with end-around carry. */
  function OnesAdd(a: Word16, b: Word16): Word16 {
    if a + b > 0xFFFF then a + b - 0xFFFF else a + b
  }

  /** The representative of s that repeated end-around carries reach. */
  function Canon(s: nat): Word16 {
    if s == 0 then 0 else if s % 0xFFFF == 0 then 0xFFFF else s % 0xFFFF
  }

  lemma CanonQuotient(a: nat) returns (q: nat)
    ensures a == q * 0xFFFF + Canon(a) && (a > 0 ==> Canon(a) > 0)
  {
    q := if a > 0 && a % 0xFFFF == 0 then a / 0xFFFF - 1 else a / 0xFFFF;
  }

  lemma CanonAdd(a: nat, b: Word16)
    ensures Canon(a + b) == OnesAdd(Canon(a), b)
  {
    var q := CanonQuotient(a);
    var c := Canon(a);
    if c + b > 0xFFFF {
      FoldUnique(a + b, c + b - 0xFFFF, q + 1);
    } else {
      FoldUnique(a + b, c + b, q);
    }
  }

  /** Two folds bring any 32-bit sum to its end-around-carry representative. */
  lemma TwoFoldsSuffice(s: nat)
    requires s < 0x1_0000_0000
    ensures Finish(s) == 0xFFFF - Canon(s)
  {
    var hi, lo := s / 0x1_0000, s % 0x1_0000;
    var c := hi + lo;
    assert s == hi * 0xFFFF + c;
    var k := c / 0x1_0000;
    assert 0 <= k <= 1;
    var d := (c + k) % 0x1_0000;
    assert d == c + k - 0x1_0000 * k == c - k * 0xFFFF;
    FoldUnique(s, d, hi + k);
  }

  lemma FoldUnique(s: nat, d: nat, q: nat)
    requires s == q * 0xFFFF + d && d <= 0xFFFF && (d == 0 ==> s == 0)
    ensures d == Canon(s)
  {
    if d == 0xFFFF { assert s == (q + 1) * 0xFFFF; }
  }

  /** Section 1 of RFC 1071: pad to 16-bit words, add them with end-around carry, complement. */
  function RfcWords(b: seq<Byte>): seq<Word16> {
    if |b| > 1 then [Be(b[0], b[1])] + RfcWords(b[2..])
    else if |b| == 1 then [Be(b[0], 0)]
    else []
  }

  function OnesSum(acc: Word16, ws: seq<Word16>): Word16
    decreases |ws|
  {
    if ws == [] then acc else OnesSum(OnesAdd(acc, ws[0]), ws[1..])
  }

  function Rfc1071(b: seq<Byte>): Word16 {
    0xFFFF - OnesSum(0, RfcWords(b))
  }

  function WordSum(ws: seq<Word16>): nat {
    if ws == [] then 0 else ws[0] + WordSum(ws[1..])
  }

  lemma {:induction false} OnesSumIsCanon(a: nat, ws: seq<Word16>)
    ensures OnesSum(Canon(a), ws) == Canon(a + WordSum(ws))
    decreases |ws|
  {
    if ws != [] {
      CanonAdd(a, ws[0]);
      OnesSumIsCanon(a + ws[0], ws[1..]);
      assert a + ws[0] + WordSum(ws[1..]) == a + WordSum(ws);
    }
  }

  /** How far the code's sum is from the RFC's: 255 times an odd last byte. */
  function Gap(b: seq<Byte>): nat {
    if |b| % 2 == 1 then 255 * (b[|b| - 1] as int) else 0
  }

  lemma GapOfRest(b: seq<Byte>, rest: seq<Byte>)
    requires |b| > 1 && rest == b[2..]
    ensures Gap(rest) == Gap(b)
  {
  }

  lemma SumsOfRest(b: seq<Byte>, rest: seq<Byte>)
    requires |b| > 1 && rest == b[2..]
    ensures WordSum(RfcWords(b)) == Be(b[0], b[1]) + WordSum(RfcWords(rest))
    ensures Sum(b) == Be(b[0], b[1]) + Sum(rest)
  {
    WordSumCons(Be(b[0], b[1]), RfcWords(rest));
  }

  lemma OneByteGap(x: Byte)
    ensures WordSum(RfcWords([x])) == 256 * (x as int) && Sum([x]) == x && Gap([x]) == 255 * (x as int)
  {
    WordSumCons(Be(x, 0), []);
  }

  lemma {:induction false} SumGap(b: seq<Byte>)
    ensures WordSum(RfcWords(b)) == Sum(b) + Gap(b)
  {
    if |b| > 1 {
      var rest := b[2..];
      SumGap(rest);
      GapOfRest(b, rest);
      SumsOfRest(b, rest);
    } else if |b| == 1 {
      assert b == [b[0]];
      OneByteGap(b[0]);
    }
  }

  lemma WordSumCons(w: Word16, ws: seq<Word16>)
    ensures WordSum([w] + ws) == w + WordSum(ws)
  {
    assert ([w] + ws)[1..] == ws;
  }

  /** The code computes the RFC 1071 checksum exactly when the length is even or the odd
      last byte is zero. */
  lemma ChecksumIsRfc1071(b: seq<Byte>)
    requires |b| <= 131074
    ensures Of(b) == Rfc1071(b) <==> (|b| % 2 == 1 ==> b[|b| - 1] == 0)
  {
    NoOverflow(b);
    TwoFoldsSuffice(Sum(b));
    OnesSumIsCanon(0, RfcWords(b));
    SumGap(b);
    if |b| % 2 == 1 && b[|b| - 1] != 0 {
      OddByteMatters(Sum(b), b[|b| - 1]);
    }
  }

  lemma OddByteMatters(s: nat, x: Byte)
    requires x != 0
    ensures Canon(s) != Canon(s + 255 * (x as int))
  {
    var d := 255 * (x as int);
    assert 0 < d < 0xFFFF;
    CanonAdd(s, d);
  }

  /** A one-byte message on which the code and the RFC disagree. */
  lemma OddLengthDiffers()
    ensures Of([1]) == 0xFFFE && Rfc1071([1]) == 0xFEFF
  {
    ChecksumIsRfc1071([1]);
    assert OnesSum(0, [256]) == OnesSum(256, []) == 256;
  }

  // ----- verification

  /** The data with a 16-bit value stored big-endian at offset k. */
  function Stored(b: seq<Byte>, k: nat, v: Word16): (r: seq<Byte>)
    requires k + 1 < |b|
    ensures |r| == |b|
  {
    b[k := v / 256][k + 1 := v % 256]
  }

  lemma {:induction false} SumReplaced(b: seq<Byte>, k: nat, v: Word16)
    requires k % 2 == 0 && k + 1 < |b|
    ensures Sum(Stored(b, k, v)) == Sum(b) - Be(b[k], b[k + 1]) + v
  {
    var b' := Stored(b, k, v);
    if k == 0 {
      assert b'[2..] == b[2..];
    } else {
      SumReplaced(b[2..], k - 2, v);
      assert b'[2..] == Stored(b[2..], k - 2, v);
    }
  }

  /** The odd last byte counts as it is. */
  lemma {:induction false} SumLastByte(b: seq<Byte>, x: Byte)
    requires |b| % 2 == 1
    ensures Sum(b[|b| - 1 := x]) == Sum(b) - b[|b| - 1] + x
  {
    if |b| > 1 {
      SumLastByte(b[2..], x);
      assert b[|b| - 1 := x][2..] == b[2..][|b| - 3 := x];
    }
  }

  /** Words that one's-complement addition does not tell apart. */
  predicate Unseen(was: Word16, v: Word16) {
    v == was || (was == 0 && v == 0xFFFF) || (was == 0xFFFF && v == 0)
  }

  predicate Multiple(n: nat, q: nat) {
    n == q * 0xFFFF
  }

  /** The words sum to a multiple of 0xFFFF, which is what verified messages do. */
  ghost predicate AddsUp(b: seq<Byte>) {
    exists q :: 0 <= q && Multiple(Sum(b), q)
  }

  lemma AddsUpMod(b: seq<Byte>)
    ensures AddsUp(b) <==> Sum(b) % 0xFFFF == 0
  {
    ModMultiple(Sum(b));
  }

  lemma ModMultiple(n: nat)
    ensures n % 0xFFFF == 0 <==> exists q :: 0 <= q && Multiple(n, q)
  {
    if n % 0xFFFF == 0 { assert Multiple(n, n / 0xFFFF); }
  }

  /** Message c is b with the word `was` at k changed to v. */
  ghost predicate OneWord(b: seq<Byte>, c: seq<Byte>, k: nat, v: Word16, was: Word16) {
    k % 2 == 0 && k + 1 < |b| && c == Stored(b, k, v) && was == Be(b[k], b[k + 1])
  }

  /** A message that adds up, with one word changed, adds up exactly if the word went from 0 to
      0xFFFF or back. */
  lemma ChangedWord(b: seq<Byte>, c: seq<Byte>, k: nat, v: Word16, was: Word16)
    requires AddsUp(b) && OneWord(b, c, k, v, was)
    ensures AddsUp(c) <==> Unseen(was, v)
  {
    SumReplaced(b, k, v);
    AddsUpMod(b);
    AddsUpMod(c);
    SmallChange(Sum(b), v - was);
  }

  ghost predicate LastByte(b: seq<Byte>, c: seq<Byte>, x: Byte, was: Byte) {
    |b| % 2 == 1 && c == b[|b| - 1 := x] && was == b[|b| - 1]
  }

  /** And no change of an odd last byte goes unseen. */
  lemma ChangedLastByte(b: seq<Byte>, c: seq<Byte>, x: Byte, was: Byte)
    requires AddsUp(b) && LastByte(b, c, x, was) && x != was
    ensures !AddsUp(c)
  {
    SumLastByte(b, x);
    AddsUpMod(b);
    AddsUpMod(c);
    SmallChange(Sum(b), x - was);
  }

  lemma SmallChange(s: nat, d: int)
    requires s % 0xFFFF == 0 && -0xFFFF <= d <= 0xFFFF && s + d >= 0
    ensures (s + d) % 0xFFFF == 0 <==> d == 0 || d == 0xFFFF || d == -0xFFFF
  {
    var q := s / 0xFFFF;
    assert s == q * 0xFFFF;
    if 0 < d < 0xFFFF { assert (s + d) / 0xFFFF == q; }
    if -0xFFFF < d < 0 { assert (s + d) / 0xFFFF == q - 1; }
  }

  /** The checksum over data is zero exactly when its sum is a nonzero multiple of 0xFFFF. */
  lemma ZeroChecksum(b: seq<Byte>)
    requires |b| <= 131074
    ensures Of(b) == 0 <==> Sum(b) > 0 && Sum(b) % 0xFFFF == 0
  {
    NoOverflow(b);
    TwoFoldsSuffice(Sum(b));
  }

  /** Whatever the length, storing the checksum in a zeroed even-offset field makes the
      receiver's check come out 0. */
  lemma StoredChecksumVerifies(b: seq<Byte>, k: nat)
    requires |b| <= 131074 && k % 2 == 0 && k + 1 < |b| && b[k] == 0 && b[k + 1] == 0
    ensures Of(Stored(b, k, Of(b))) == 0
  {
    NoOverflow(b);
    TwoFoldsSuffice(Sum(b));
    SumReplaced(b, k, Of(b));
    var c := Of(b);
    CompletesToMultiple(Sum(b));
    ZeroChecksum(Stored(b, k, c));
  }

  lemma CompletesToMultiple(s: nat)
    ensures var t := s + (0xFFFF - Canon(s)); t > 0 && t % 0xFFFF == 0
  {
    if s > 0 {
      var q := s / 0xFFFF;
      assert s == q * 0xFFFF + s % 0xFFFF;
      if s % 0xFFFF == 0 { assert s + (0xFFFF - Canon(s)) == q * 0xFFFF; }
      else { assert s + (0xFFFF - Canon(s)) == (q + 1) * 0xFFFF; }
    }
  }

  /** Adding words of ones to a verified message keeps it verified. */
  lemma OnesAreInvisible(b: seq<Byte>, b': seq<Byte>, n: nat)
    requires |b| <= 131074 && |b'| <= 131074 && Sum(b') == Sum(b) + n * 0xFFFF
    ensures Of(b) == 0 ==> Of(b') == 0
    ensures Sum(b) > 0 ==> Of(b') == Of(b)
  {
    ZeroChecksum(b);
    ZeroChecksum(b');
    NoOverflow(b);
    NoOverflow(b');
    TwoFoldsSuffice(Sum(b));
    TwoFoldsSuffice(Sum(b'));
    ModShift(Sum(b), n);
  }

  lemma {:induction false} ModShift(s: nat, n: nat)
    ensures (s + n * 0xFFFF) % 0xFFFF == s % 0xFFFF
  {
    if n > 0 {
      ModShift(s, n - 1);
      assert s + n * 0xFFFF == (s + (n - 1) * 0xFFFF) + 0xFFFF;
    }
  }
}
