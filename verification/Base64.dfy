// Standard Base64 with padding (RFC 4648, section 4) as the client encodes it, and the lenient
// streaming decoder that reads it back.
//
// The reference definitions see a byte string and its encoding as two ways of writing one
// integer, in base 256 and in base 64. The code never builds that integer: the encoder works on
// three bytes at a time and the decoder on a 32-bit buffer that forgets its high bits.
module Base64 {
  import opened Strings
  import opened Bits
  import opened Numbers

  const STANDARD: string := UPPER + LOWER + DIGITS + "+/"
  const URL_SAFE: string := UPPER + LOWER + DIGITS + "-_"

  // ---------------------------------------------------------------- reference definitions

  function Codes(x: ByteString): (ds: seq<nat>)
    ensures |ds| == |x| && forall k :: 0 <= k < |x| ==> ds[k] == x[k] as int
  {
    seq(|x|, i requires 0 <= i < |x| => x[i] as int)
  }

  function Chars(ds: seq<nat>): (x: ByteString)
    requires DigitsBelow(ds, 256)
    ensures |x| == |ds| && forall k :: 0 <= k < |x| ==> x[k] == ds[k] as char
  {
    seq(|ds|, i requires 0 <= i < |ds| => ds[i] as char)
  }

  function Symbols(alphabet: string, ds: seq<nat>): (s: string)
    requires |alphabet| == 64 && DigitsBelow(ds, 64)
    ensures |s| == |ds| && forall k :: 0 <= k < |s| ==> s[k] == alphabet[ds[k]]
  {
    seq(|ds|, i requires 0 <= i < |ds| => alphabet[ds[i]])
  }

  // How many sextets hold n bytes, and how many padding characters complete the last group.
  function SextetCount(n: nat): nat { (4 * n + 2) / 3 }
  function PaddingCount(n: nat): nat { (3 - n % 3) % 3 }

  // The integer of m bytes with two zero bits behind it for each padding character, which fill up
  // the last sextet.
  function WithSlack(n: nat, m: nat): nat {
    if m % 3 == 0 then n else if m % 3 == 1 then 16 * n else 4 * n
  }

  // The sextets of x: its integer, shifted left by the slack, written in base 64.
  function Sextets(x: ByteString): seq<nat> {
    Digits(64, WithSlack(Number(256, Codes(x)), |x|), SextetCount(|x|))
  }

  function Unpadded(x: ByteString): string {
    Symbols(STANDARD, Sextets(x))
  }

  function Padding(n: nat): (s: string)
    ensures |s| == n && forall k :: 0 <= k < n ==> s[k] == '='
  {
    seq(n, _ => '=')
  }

  function Encode(x: ByteString): string {
    Unpadded(x) + Padding(PaddingCount(|x|))
  }

  predicate IsSpace(c: char) { c == ' ' || c == '\t' || c == '\r' || c == '\n' }

  // What the decoder looks at: everything before the first '=' that is not whitespace.
  function Payload(v: string): string {
    if v == [] || v[0] == '=' then []
    else if IsSpace(v[0]) then Payload(v[1..])
    else [v[0]] + Payload(v[1..])
  }

  predicate InAlphabet(p: string) {
    forall k :: 0 <= k < |p| ==> Base64Value(p[k]) >= 0
  }

  function Values(p: string): (ds: seq<nat>)
    requires InAlphabet(p)
    ensures |ds| == |p| && DigitsBelow(ds, 64)
    ensures forall k :: 0 <= k < |p| ==> ds[k] == Base64Value(p[k])
  {
    seq(|p|, i requires 0 <= i < |p| => Base64Value(p[i]))
  }

  // The unbounded integer a payload denotes.
  function PayloadNumber(p: string): nat
    requires InAlphabet(p)
  {
    Number(64, Values(p))
  }

  // Bits left over once n sextets have been cut into bytes.
  function Pending(n: nat): nat { (6 * n) % 8 }

  // Dropping the last r bits of an integer, and those bits themselves, for the r that occur:
  // the quotient and the remainder by 2^r.
  function DropBits(n: nat, r: nat): nat {
    if r == 0 then n else if r == 2 then n / 4 else if r == 4 then n / 16 else n / 64
  }

  function LowBits(n: nat, r: nat): nat {
    if r == 0 then 0 else if r == 2 then n % 4 else if r == 4 then n % 16 else n % 64
  }

  predicate Accepts(v: string) {
    var p := Payload(v);
    && InAlphabet(p)
    && |p| % 4 != 1
    && LowBits(PayloadNumber(p), Pending(|p|)) == 0
  }

  // The bytes of that integer once its pending bits are dropped.
  function Bytes(p: string): ByteString
    requires InAlphabet(p)
  {
    Chars(Digits(256, DropBits(PayloadNumber(p), Pending(|p|)), 6 * |p| / 8))
  }

  function Decode(v: string): Option<ByteString> {
    if Accepts(v) then Some(Bytes(Payload(v))) else None
  }

  // ---------------------------------------------------------------- the code

  method Base64Encode(value: ByteString) returns (out: string)
    ensures out == Encode(value)
  {
    hide And, Or, Shl, Shr, WholeGroups, Sextets, SextetCount, Sextet1, Sextet2, Sextet3, Sextet4, PaddingCount;
    hide STANDARD;
    StandardTable(0);
    out := [];
    var i := 0;
    while i + 3 <= |value|
      invariant i <= |value| && i % 3 == 0
      invariant out == Symbols(STANDARD, WholeGroups(value, i))
    {
      var a, b, c := value[i] as int, value[i + 1] as int, value[i + 2] as int;
      SextetsOfWord(a, b, c);
      var n := Or(Or(Shl(a, 16), Shl(b, 8)), c);
      WholeGroupsNext(value, i);
      out := out + [STANDARD[And(Shr(n, 18), 0x3F)]];
      out := out + [STANDARD[And(Shr(n, 12), 0x3F)]];
      out := out + [STANDARD[And(Shr(n, 6), 0x3F)]];
      out := out + [STANDARD[And(n, 0x3F)]];
      i := i + 3;
    }
    var rest := |value| - i;
    SextetsTail(value, i);
    if rest == 1 {
      var a := value[i] as int;
      SextetsOfWord(a, 0, 0);
      var n := Shl(a, 16);
      out := out + [STANDARD[And(Shr(n, 18), 0x3F)]];
      out := out + [STANDARD[And(Shr(n, 12), 0x3F)]];
      out := out + ['='];
      out := out + ['='];
    } else if rest == 2 {
      var a, b := value[i] as int, value[i + 1] as int;
      SextetsOfWord(a, b, 0);
      var n := Or(Shl(a, 16), Shl(b, 8));
      out := out + [STANDARD[And(Shr(n, 18), 0x3F)]];
      out := out + [STANDARD[And(Shr(n, 12), 0x3F)]];
      out := out + [STANDARD[And(Shr(n, 6), 0x3F)]];
      out := out + ['='];
    }
  }

  function Base64Value(c: char): (v: int)
    ensures -1 <= v < 64
  {
    if 'A' <= c <= 'Z' then c as int - 'A' as int
    else if 'a' <= c <= 'z' then c as int - 'a' as int + 26
    else if '0' <= c <= '9' then c as int - '0' as int + 52
    else if c == '+' then 62
    else if c == '/' then 63
    else -1
  }

  method Base64Decode(value: string) returns (ok: bool, out: ByteString)
    ensures ok == Accepts(value)
    ensures out == if ok then Bytes(Payload(value)) else []
    ensures ok ==> |out| == 6 * |Payload(value)| / 8
  {
    hide And, Or, Shl, Shr, Pow2, Payload, Bytes, PayloadNumber, Base64Value, Pending, InAlphabet, Accepts, Scanned;
    out := [];
    var buffer: nat, bits: nat := 0, 0;
    ghost var seen := "";
    NothingSeen();
    NothingScanned(value);
    var i := 0;
    while i < |value| && value[i] != '='
      invariant 0 <= i <= |value|
      invariant Scanned(value, i, seen)
      invariant InAlphabet(seen)
      invariant bits == Pending(|seen|)
      invariant buffer == PayloadNumber(seen) % TWO_TO_THE_32
      invariant out == Bytes(seen)
    {
      ScanNext(value, i, seen);
      var c := value[i];
      if c == ' ' || c == '\t' || c == '\r' || c == '\n' {
        i := i + 1;
        continue;
      }
      var v := Base64Value(c);
      if v < 0 {
        out := [];
        return false, out;
      }
      PushSextet(seen, c, buffer);
      buffer := Or(Shl(buffer, 6), v);
      bits := bits + 6;
      if bits >= 8 {
        bits := bits - 8;
        out := out + [And(Shr(buffer, bits), 0xFF) as char];
      }
      seen := seen + [c];
      i := i + 1;
    }
    ScanStops(value, i, seen);
    Residue(value, buffer);
    if bits >= 6 || (bits > 0 && And(buffer, Shl(1, bits) - 1) != 0) {
      out := [];
      return false, out;
    }
    return true, out;
  }

  // ---------------------------------------------------------------- the encoder's groups

  // The four sextets of three bytes.
  function Sextet1(a: nat): (v: nat)
    requires a < 256
    ensures v < 64
  {
    a / 4
  }

  function Sextet2(a: nat, b: nat): (v: nat)
    requires a < 256 && b < 256
    ensures v < 64
  {
    a % 4 * 16 + b / 16
  }

  function Sextet3(b: nat, c: nat): (v: nat)
    requires b < 256 && c < 256
    ensures v < 64
  {
    b % 16 * 4 + c / 64
  }

  function Sextet4(c: nat): (v: nat)
    requires c < 256
    ensures v < 64
  {
    c % 64
  }

  // They are what the code shifts and masks out of the word made of the three bytes.
  lemma SextetsOfWord(a: nat, b: nat, c: nat)
    requires a < 256 && b < 256 && c < 256
    ensures var n := Or(Or(Shl(a, 16), Shl(b, 8)), c);
            && And(Shr(n, 18), 0x3F) == Sextet1(a)
            && And(Shr(n, 12), 0x3F) == Sextet2(a, b)
            && And(Shr(n, 6), 0x3F) == Sextet3(b, c)
            && And(n, 0x3F) == Sextet4(c)
            && (c == 0 ==> n == Or(Shl(a, 16), Shl(b, 8)))
            && (b == c == 0 ==> n == Shl(a, 16))
  {
    hide And, Or, Shl, Shr;
    WordOfBytes(a, b, c);
    WordDigits(a, b, c, 65536 * a + 256 * b + c);
    ExtractSextets(a, b, c, 65536 * a + 256 * b + c);
  }

  lemma WordOfBytes(a: nat, b: nat, c: nat)
    requires a < 256 && b < 256 && c < 256
    ensures Shl(a, 16) == 65536 * a
    ensures Or(Shl(a, 16), Shl(b, 8)) == 65536 * a + 256 * b
    ensures Or(Or(Shl(a, 16), Shl(b, 8)), c) == 65536 * a + 256 * b + c
  {
    hide And, Or, Shl, Shr;
    ShiftedByte(a);
    ShiftedByte(b);
    OrWord(a, 256 * b);
    OrByte(256 * a + b, c);
  }

  lemma ShiftedByte(a: nat)
    requires a < 256
    ensures Shl(a, 8) == 256 * a && Shl(a, 16) == 65536 * a
  {
    hide Shl;
    LeftShifts(a);
  }

  lemma OrWord(x: nat, y: nat)
    requires y < 65536
    ensures Or(65536 * x, y) == 65536 * x + y
  {
    hide Or;
    assert Pow2(8) == 256 && Pow2(16) == 65536;
    OrIsSum(65536 * x, y, 16);
  }

  lemma OrByte(x: nat, y: nat)
    requires y < 256
    ensures Or(256 * x, y) == 256 * x + y
  {
    hide Or;
    assert Pow2(8) == 256;
    OrIsSum(256 * x, y, 8);
  }

  lemma WordDigits(a: nat, b: nat, c: nat, n: nat)
    requires a < 256 && b < 256 && c < 256 && n == 65536 * a + 256 * b + c
    ensures n / 262144 == a / 4 && n / 4096 == 16 * a + b / 16 && n / 64 == 1024 * a + 4 * b + c / 64
    ensures n % 64 == c % 64
  {
  }

  lemma ExtractSextets(a: nat, b: nat, c: nat, n: nat)
    requires a < 256 && b < 256 && c < 256
    requires n / 262144 == a / 4 && n / 4096 == 16 * a + b / 16 && n / 64 == 1024 * a + 4 * b + c / 64
    requires n % 64 == c % 64
    ensures And(Shr(n, 18), 0x3F) == Sextet1(a) && And(Shr(n, 12), 0x3F) == Sextet2(a, b)
    ensures And(Shr(n, 6), 0x3F) == Sextet3(b, c) && And(n, 0x3F) == Sextet4(c)
  {
    hide And, Shr, Sextet2, Sextet3;
    MiddleSextets(a, b, c);
    Shifts(n);
    SextetMask(n / 262144);
    SextetMask(n / 4096);
    SextetMask(n / 64);
    SextetMask(n);
    assert a / 4 < 64;
  }

  lemma MiddleSextets(a: nat, b: nat, c: nat)
    requires a < 256 && b < 256 && c < 256
    ensures (16 * a + b / 16) % 64 == Sextet2(a, b)
    ensures (1024 * a + 4 * b + c / 64) % 64 == Sextet3(b, c)
  {
    LowSextet(16 * a + b / 16, a / 4, Sextet2(a, b));
    LowSextet(1024 * a + 4 * b + c / 64, 16 * a + b / 16, Sextet3(b, c));
  }

  lemma LowSextet(x: nat, q: nat, r: nat)
    requires x == 64 * q + r && r < 64
    ensures x % 64 == r
  {
  }

  lemma DigitsNext(q: nat, d: nat, count: nat)
    requires d < 64
    ensures Digits(64, 64 * q + d, count + 1) == Digits(64, q, count) + [d]
  {
  }

  // A byte more at the end of an integer, with the first bits of the next byte behind it: one
  // byte completes a sextet and opens a second, two open a third, three complete the fourth.
  lemma GroupOfOne(n: nat, a: nat, b: nat, count: nat)
    requires a < 256 && b < 256
    ensures Digits(64, 16 * (256 * n + a) + b / 16, count + 2) ==
            Digits(64, n, count) + [Sextet1(a)] + [Sextet2(a, b)]
  {
    DigitsNext(n, a / 4, count);
    assert 16 * (256 * n + a) + b / 16 == 64 * (64 * n + a / 4) + Sextet2(a, b);
    DigitsNext(64 * n + a / 4, Sextet2(a, b), count + 1);
  }

  lemma GroupOfTwo(n: nat, a: nat, b: nat, c: nat, count: nat)
    requires a < 256 && b < 256 && c < 256
    ensures Digits(64, 4 * (256 * (256 * n + a) + b) + c / 64, count + 3) ==
            Digits(64, n, count) + [Sextet1(a)] + [Sextet2(a, b)] + [Sextet3(b, c)]
  {
    hide Digits, Sextet1, Sextet2;
    GroupOfOne(n, a, b, count);
    var q := 16 * (256 * n + a) + b / 16;
    assert 4 * (256 * (256 * n + a) + b) + c / 64 == 64 * q + Sextet3(b, c);
    DigitsNext(q, Sextet3(b, c), count + 2);
  }

  lemma GroupOfThree(n: nat, a: nat, b: nat, c: nat, count: nat)
    requires a < 256 && b < 256 && c < 256
    ensures Digits(64, 256 * (256 * (256 * n + a) + b) + c, count + 4) ==
            Digits(64, n, count) + [Sextet1(a)] + [Sextet2(a, b)] + [Sextet3(b, c)] + [Sextet4(c)]
  {
    hide Digits, Sextet1, Sextet2, Sextet3, Sextet4;
    GroupOfTwo(n, a, b, c, count);
    LastSextet(256 * (256 * n + a) + b, c, count + 3);
  }

  lemma LastSextet(m: nat, c: nat, count: nat)
    requires c < 256
    ensures Digits(64, 256 * m + c, count + 1) == Digits(64, 4 * m + c / 64, count) + [Sextet4(c)]
  {
    assert 256 * m + c == 64 * (4 * m + c / 64) + c % 64;
    DigitsNext(4 * m + c / 64, c % 64, count);
  }

  lemma CodesNext(x: ByteString, i: nat)
    requires i < |x|
    ensures Number(256, Codes(x[..i + 1])) == 256 * Number(256, Codes(x[..i])) + x[i] as int
  {
    CodesPush(x[..i], x[i] as int);
    assert x[..i + 1] == x[..i] + [x[i]];
  }

  // The sextets of the first i bytes, for i a multiple of three.
  function WholeGroups(x: ByteString, i: nat): (ds: seq<nat>)
    requires i <= |x|
    ensures |ds| == i / 3 * 4 && DigitsBelow(ds, 64)
  {
    Digits(64, Number(256, Codes(x[..i])), i / 3 * 4)
  }

  lemma WholeGroupsNext(x: ByteString, i: nat)
    requires i + 3 <= |x| && i % 3 == 0
    ensures var a, b, c := x[i] as int, x[i + 1] as int, x[i + 2] as int;
            WholeGroups(x, i + 3) ==
            WholeGroups(x, i) + [Sextet1(a)] + [Sextet2(a, b)] + [Sextet3(b, c)] + [Sextet4(c)]
  {
    hide Digits, Number, Codes, Sextet1, Sextet2, Sextet3, Sextet4;
    CodesNext(x, i);
    CodesNext(x, i + 1);
    CodesNext(x, i + 2);
    GroupOfThree(Number(256, Codes(x[..i])), x[i] as int, x[i + 1] as int, x[i + 2] as int, i / 3 * 4);
    assert (i + 3) / 3 * 4 == i / 3 * 4 + 4;
  }

  // What a tail of zero, one or two bytes adds.
  lemma SextetsTail(x: ByteString, i: nat)
    requires i <= |x| < i + 3 && i % 3 == 0
    ensures |x| == i ==> Sextets(x) == WholeGroups(x, i) && PaddingCount(|x|) == 0
    ensures |x| == i + 1 ==>
      var a := x[i] as int;
      Sextets(x) == WholeGroups(x, i) + [Sextet1(a)] + [Sextet2(a, 0)] && PaddingCount(|x|) == 2
    ensures |x| == i + 2 ==>
      var a, b := x[i] as int, x[i + 1] as int;
      && Sextets(x) == WholeGroups(x, i) + [Sextet1(a)] + [Sextet2(a, b)] + [Sextet3(b, 0)]
      && PaddingCount(|x|) == 1
  {
    hide Digits, Number, Codes, Sextet1, Sextet2, Sextet3;
    TailSizes(|x|, i);
    assert x[..|x|] == x;
    var n := Number(256, Codes(x[..i]));
    if |x| == i + 1 {
      CodesNext(x, i);
      GroupOfOne(n, x[i] as int, 0, i / 3 * 4);
    } else if |x| == i + 2 {
      CodesNext(x, i);
      CodesNext(x, i + 1);
      GroupOfTwo(n, x[i] as int, x[i + 1] as int, 0, i / 3 * 4);
    }
  }

  lemma TailSizes(n: nat, i: nat)
    requires i <= n < i + 3 && i % 3 == 0
    ensures n % 3 == n - i && PaddingCount(n) == [0, 2, 1][n - i]
    ensures SextetCount(n) == i / 3 * 4 + [0, 2, 3][n - i]
  {
  }

  // ---------------------------------------------------------------- the decoder's 32-bit buffer

  // The byte cut out of the wrapped buffer is the byte of the unbounded integer.
  lemma {:induction false} LowByte(n: nat, k: nat)
    requires k == 0 || k == 2 || k == 4
    ensures And(Shr(n % TWO_TO_THE_32, k), 0xFF) == DropBits(n, k) % 256
  {
    hide And, Shr;
    WrapKeepsByte(n);
    Shifts(n % TWO_TO_THE_32);
    Masks(Shr(n % TWO_TO_THE_32, k));
  }

  lemma {:induction false} WrapKeepsByte(n: nat)
    ensures var w := n % TWO_TO_THE_32;
            w % 256 == n % 256 && w / 4 % 256 == n / 4 % 256 && w / 16 % 256 == n / 16 % 256
  {
    var q, w := n / TWO_TO_THE_32, n % TWO_TO_THE_32;
    SkipNone(q, w, n);
    SkipQuarter(q, w, n);
    SkipSixteenth(q, w, n);
  }

  lemma SkipNone(q: nat, w: nat, n: nat)
    requires n == TWO_TO_THE_32 * q + w
    ensures w % 256 == n % 256
  {
    SameLowByte(n, 0x100_0000 * q, w);
  }

  lemma SkipQuarter(q: nat, w: nat, n: nat)
    requires n == TWO_TO_THE_32 * q + w
    ensures w / 4 % 256 == n / 4 % 256
  {
    Quotient(4, n, 0x4000_0000 * q, w);
    SameLowByte(n / 4, 0x40_0000 * q, w / 4);
  }

  lemma SkipSixteenth(q: nat, w: nat, n: nat)
    requires n == TWO_TO_THE_32 * q + w
    ensures w / 16 % 256 == n / 16 % 256
  {
    Quotient(16, n, 0x1000_0000 * q, w);
    SameLowByte(n / 16, 0x10_0000 * q, w / 16);
  }

  lemma SameLowByte(n: nat, t: nat, w: nat)
    requires n == 256 * t + w
    ensures n % 256 == w % 256
  {
    LowByteOf(n, t + w / 256, w % 256);
  }

  lemma LowByteOf(n: nat, q: nat, r: nat)
    requires n == 256 * q + r && r < 256
    ensures n % 256 == r
  {
  }

  lemma Quotient(d: nat, n: nat, t: nat, w: nat)
    requires d == 4 || d == 16
    requires n == d * t + w
    ensures n / d == t + w / d
  {
  }

  lemma WrapKeepsResidue(n: nat)
    ensures var w := n % TWO_TO_THE_32;
            w % 4 == n % 4 && w % 16 == n % 16 && w % 64 == n % 64
  {
    WrapKeepsTwoBits(n);
    WrapKeepsFourBits(n);
    WrapKeepsSixBits(n);
  }

  lemma WrapKeepsTwoBits(n: nat)
    ensures n % TWO_TO_THE_32 % 4 == n % 4
  {
  }

  lemma WrapKeepsFourBits(n: nat)
    ensures n % TWO_TO_THE_32 % 16 == n % 16
  {
  }

  lemma WrapKeepsSixBits(n: nat)
    ensures n % TWO_TO_THE_32 % 64 == n % 64
  {
  }

  // `buffer = (buffer << 6) | v` on the wrapped buffer.
  lemma {:induction false} WrapShift(n: nat, v: nat, w: nat)
    requires v < 64 && w == n % TWO_TO_THE_32
    ensures Or(Shl(w, 6), v) == (64 * n + v) % TWO_TO_THE_32
  {
    hide Or, Shl;
    WrapSum(n, v, w);
    LeftShifts(w);
    OrSextet(Shl(w, 6), v);
  }

  lemma {:induction false} OrSextet(x: nat, v: nat)
    requires x % 64 == 0 && v < 64
    ensures Or(x, v) == x + v
  {
    assert Pow2(6) == 64;
    OrIsSum(x, v, 6);
  }

  lemma WrapSum(n: nat, v: nat, w: nat)
    requires v < 64 && w == n % TWO_TO_THE_32
    ensures 64 * w % TWO_TO_THE_32 + v == (64 * n + v) % TWO_TO_THE_32
    ensures 64 * w % TWO_TO_THE_32 % 64 == 0
  {
    var q, k, y := n / TWO_TO_THE_32, 64 * w / TWO_TO_THE_32, 64 * w % TWO_TO_THE_32;
    assert y + v < TWO_TO_THE_32 by {
      assert y == 64 * (w - 0x400_0000 * k);
    }
    WrapUnique(64 * n + v, 64 * q + k, y + v);
  }

  lemma WrapUnique(x: nat, q: nat, r: nat)
    requires x == TWO_TO_THE_32 * q + r && r < TWO_TO_THE_32
    ensures x % TWO_TO_THE_32 == r
  {
  }

  lemma PayloadNext(seen: string, c: char)
    requires InAlphabet(seen) && Base64Value(c) >= 0
    ensures InAlphabet(seen + [c])
    ensures PayloadNumber(seen + [c]) == 64 * PayloadNumber(seen) + Base64Value(c)
  {
    assert Values(seen + [c]) == Values(seen) + [Base64Value(c)];
    NumberNext(64, Values(seen), Base64Value(c));
  }

  // Pending bits cycle through 0, 6, 4, 2, and every step but the first completes a byte.
  lemma {:induction false} PendingCycle(m: nat)
    ensures Pending(m) == [0, 6, 4, 2][m % 4]
  {
    SextetsToBytes(m / 4, m % 4);
  }

  lemma PendingNext(m: nat)
    ensures Pending(m + 1) == (Pending(m) + 6) % 8
    ensures 6 * (m + 1) / 8 == 6 * m / 8 + if Pending(m) < 2 then 0 else 1
  {
    SextetsToBytes(m / 4, m % 4);
    if m % 4 == 3 {
      SextetsToBytes(m / 4 + 1, 0);
    } else {
      SextetsToBytes(m / 4, m % 4 + 1);
    }
  }

  lemma SextetsToBytes(q: nat, r: nat)
    requires r < 4
    ensures 6 * (4 * q + r) / 8 == 3 * q + [0, 0, 1, 2][r] && 6 * (4 * q + r) % 8 == [0, 6, 4, 2][r]
  {
    assert 6 * (4 * q + r) == 8 * (3 * q + [0, 0, 1, 2][r]) + [0, 6, 4, 2][r];
  }

  // Dropping the complete byte from the unbounded integer leaves what was there before.
  lemma DropByte(n: nat, v: nat, bits: nat)
    requires v < 64 && (bits == 2 || bits == 4 || bits == 6)
    ensures DropBits(64 * n + v, bits - 2) / 256 == DropBits(n, bits)
  {
  }

  lemma PayloadStep(v: string, i: nat)
    requires i <= |v|
    ensures i == |v| || v[i] == '=' ==> Payload(v[i..]) == []
    ensures i < |v| && v[i] != '=' ==>
      var c := v[i];
      Payload(v[i..]) ==
      if c == ' ' || c == '\t' || c == '\r' || c == '\n' then Payload(v[i + 1..]) else [c] + Payload(v[i + 1..])
  {
    if i < |v| {
      assert v[i..][1..] == v[i + 1..];
    }
  }

  // The first i characters of v contribute `seen` to its payload.
  ghost predicate Scanned(v: string, i: nat, seen: string)
    requires i <= |v|
  {
    Payload(v) == seen + Payload(v[i..])
  }

  lemma NothingScanned(v: string)
    ensures Scanned(v, 0, "")
  {
    assert v[0..] == v;
  }

  lemma ScanNext(v: string, i: nat, seen: string)
    requires i < |v| && v[i] != '=' && Scanned(v, i, seen)
    ensures var c := v[i];
            if c == ' ' || c == '\t' || c == '\r' || c == '\n' then Scanned(v, i + 1, seen)
            else Scanned(v, i + 1, seen + [c]) && (Base64Value(c) < 0 ==> !Accepts(v))
  {
    hide Payload, Base64Value, PayloadNumber;
    PayloadStep(v, i);
    var c, rest := v[i], Payload(v[i + 1..]);
    if !IsSpace(c) {
      assert seen + ([c] + rest) == seen + [c] + rest;
      assert Payload(v)[|seen|] == c;
    }
  }

  lemma ScanStops(v: string, i: nat, seen: string)
    requires i <= |v| && (i == |v| || v[i] == '=') && Scanned(v, i, seen)
    ensures Payload(v) == seen
  {
    hide Payload;
    PayloadStep(v, i);
  }

  lemma NothingSeen()
    ensures InAlphabet("") && PayloadNumber("") == 0 && Bytes("") == [] && Pending(0) == 0
    ensures Number(256, Codes([])) == Number(64, []) == 0 == DropBits(0, 0)
  {
  }

  lemma BytesNext(p: string, c: char)
    requires InAlphabet(p) && Base64Value(c) >= 0
    ensures InAlphabet(p + [c])
    ensures var n', r := 64 * PayloadNumber(p) + Base64Value(c), Pending(|p|);
            Bytes(p + [c]) ==
            if r < 2 then Bytes(p) else Bytes(p) + [(DropBits(n', r - 2) % 256) as char]
  {
    var n, v, r := PayloadNumber(p), Base64Value(c), Pending(|p|);
    PayloadNext(p, c);
    PendingCycle(|p|);
    PendingNext(|p|);
    if r < 2 {
      DropSextet(n, v);
    } else {
      DropByte(n, v, r);
    }
  }

  lemma DropSextet(n: nat, v: nat)
    requires v < 64
    ensures DropBits(64 * n + v, 6) == DropBits(n, 0) == n
  {
  }

  lemma CodesPush(x: ByteString, b: nat)
    requires b < 256
    ensures Number(256, Codes(x + [b as char])) == 256 * Number(256, Codes(x)) + b
  {
    NumberNext(256, Codes(x), b);
    assert Codes(x + [b as char]) == Codes(x) + [b];
  }

  // One round of the decoder, seen through the low 32 bits of the payload's integer.
  lemma PushSextet(seen: string, c: char, buffer: nat)
    requires InAlphabet(seen) && Base64Value(c) >= 0
    requires buffer == PayloadNumber(seen) % TWO_TO_THE_32
    ensures InAlphabet(seen + [c])
    ensures var buffer', bits := Or(Shl(buffer, 6), Base64Value(c)), Pending(|seen|) + 6;
            && buffer' == PayloadNumber(seen + [c]) % TWO_TO_THE_32
            && Pending(|seen + [c]|) == (if bits >= 8 then bits - 8 else bits)
            && (bits >= 8 ==>
                && And(Shr(buffer', bits - 8), 0xFF) < 256
                && Bytes(seen + [c]) == Bytes(seen) + [And(Shr(buffer', bits - 8), 0xFF) as char])
            && (bits < 8 ==> Bytes(seen + [c]) == Bytes(seen))
  {
    hide And, Or, Shl, Shr, Bytes, PayloadNumber, Pending;
    var v, n, m := Base64Value(c), PayloadNumber(seen), |seen|;
    PayloadNext(seen, c);
    WrapShift(n, v, buffer);
    PendingCycle(m);
    PendingNext(m);
    BytesNext(seen, c);
    if Pending(m) > 0 {
      LowByte(64 * n + v, Pending(m) - 2);
    }
  }

  // The final test looks at no bit the wrap-around has lost.
  lemma {:induction false} Residue(v: string, buffer: nat)
    requires InAlphabet(Payload(v))
    requires buffer == PayloadNumber(Payload(v)) % TWO_TO_THE_32
    ensures var bits := Pending(|Payload(v)|);
            && Shl(1, bits) >= 1
            && |Bytes(Payload(v))| == 6 * |Payload(v)| / 8
            && (Accepts(v) <==> !(bits >= 6 || (bits > 0 && And(buffer, Shl(1, bits) - 1) != 0)))
  {
    hide And, Shl, Payload, PayloadNumber, Bytes, Pending, LowBits;
    PendingCycle(|Payload(v)|);
    ResidueMask(PayloadNumber(Payload(v)), buffer, Pending(|Payload(v)|));
    BytesLength(Payload(v));
  }

  lemma ResidueMask(n: nat, buffer: nat, bits: nat)
    requires bits == 0 || bits == 2 || bits == 4 || bits == 6
    requires buffer == n % TWO_TO_THE_32
    ensures Shl(1, bits) >= 1 && And(buffer, Shl(1, bits) - 1) == LowBits(n, bits)
    ensures bits == 0 ==> LowBits(n, bits) == 0
  {
    hide And, Shl;
    WrapKeepsResidue(n);
    AndMask(buffer, bits);
    ShiftedOne(bits);
    assert Pow2(0) == 1 && Pow2(2) == 4 && Pow2(4) == 16 && Pow2(6) == 64;
  }

  lemma ShiftedOne(bits: nat)
    requires bits == 0 || bits == 2 || bits == 4 || bits == 6
    ensures Shl(1, bits) == Pow2(bits)
  {
    assert Pow2(0) == 1 && Pow2(2) == 4 && Pow2(4) == 16 && Pow2(6) == 64;
  }

  lemma BytesLength(p: string)
    requires InAlphabet(p)
    ensures |Bytes(p)| == 6 * |p| / 8
  {
  }

  // ---------------------------------------------------------------- one integer, two notations

  lemma {:induction false} WholeGroupsExact(x: ByteString, i: nat)
    requires i <= |x| && i % 3 == 0
    ensures Number(64, WholeGroups(x, i)) == Number(256, Codes(x[..i]))
  {
    hide WholeGroups, Codes, Number, Sextet1, Sextet2, Sextet3, Sextet4;
    if i == 0 {
      NothingSeen();
      assert WholeGroups(x, 0) == [] && x[..0] == [];
    } else {
      WholeGroupsExact(x, i - 3);
      WholeGroupsNext(x, i - 3);
      CodesNext(x, i - 3);
      CodesNext(x, i - 2);
      CodesNext(x, i - 1);
      var a, b, c := x[i - 3] as int, x[i - 2] as int, x[i - 1] as int;
      NumberOfGroup(WholeGroups(x, i - 3), a, b, c);
    }
  }

  lemma NumberOfGroup(ds: seq<nat>, a: nat, b: nat, c: nat)
    requires a < 256 && b < 256 && c < 256
    ensures var n := Number(64, ds);
            && Number(64, ds + [Sextet1(a)] + [Sextet2(a, 0)]) == 16 * (256 * n + a)
            && Number(64, ds + [Sextet1(a)] + [Sextet2(a, b)] + [Sextet3(b, 0)]) == 4 * (256 * (256 * n + a) + b)
            && Number(64, ds + [Sextet1(a)] + [Sextet2(a, b)] + [Sextet3(b, c)] + [Sextet4(c)]) ==
               256 * (256 * (256 * n + a) + b) + c
  {
    NumberNext(64, ds, Sextet1(a));
    NumberNext(64, ds + [Sextet1(a)], Sextet2(a, 0));
    NumberNext(64, ds + [Sextet1(a)], Sextet2(a, b));
    NumberNext(64, ds + [Sextet1(a)] + [Sextet2(a, b)], Sextet3(b, 0));
    NumberNext(64, ds + [Sextet1(a)] + [Sextet2(a, b)], Sextet3(b, c));
    NumberNext(64, ds + [Sextet1(a)] + [Sextet2(a, b)] + [Sextet3(b, c)], Sextet4(c));
  }

  // The sextets of x denote its integer, shifted by the slack: no sextet is lost at the front.
  lemma SextetsExact(x: ByteString)
    ensures Number(64, Sextets(x)) == WithSlack(Number(256, Codes(x)), |x|)
  {
    hide Sextets, Sextet1, Sextet2, Sextet3, Sextet4, WholeGroups, Number;
    var i := |x| / 3 * 3;
    WholeGroupsExact(x, i);
    SextetsTail(x, i);
    assert x[..|x|] == x;
    if |x| == i + 1 {
      CodesNext(x, i);
      NumberOfGroup(WholeGroups(x, i), x[i] as int, 0, 0);
    } else if |x| == i + 2 {
      CodesNext(x, i);
      CodesNext(x, i + 1);
      NumberOfGroup(WholeGroups(x, i), x[i] as int, x[i + 1] as int, 0);
    }
  }

  // The bytes of a payload denote its integer without the pending bits.
  lemma {:induction false} BytesExact(p: string)
    requires InAlphabet(p)
    ensures Number(256, Codes(Bytes(p))) == DropBits(PayloadNumber(p), Pending(|p|))
  {
    hide Bytes, PayloadNumber, Codes, Number, DropBits, Pending;
    if p == [] {
      NothingSeen();
    } else {
      var init, c := p[..|p| - 1], p[|p| - 1];
      assert p == init + [c];
      BytesExact(init);
      PayloadNext(init, c);
      BytesNext(init, c);
      PendingNext(|init|);
      var n, v, r := PayloadNumber(init), Base64Value(c), Pending(|init|);
      PendingCycle(|init|);
      if r == 0 {
        DropSextet(n, v);
      } else {
        DropByte(n, v, r);
        var b := DropBits(64 * n + v, r - 2) % 256;
        CodesPush(Bytes(init), b);
        ByteAndRest(DropBits(64 * n + v, r - 2));
      }
    }
  }

  lemma ByteAndRest(n: nat)
    ensures n == 256 * (n / 256) + n % 256
  {
  }

  // ---------------------------------------------------------------- the alphabets

  lemma {:induction false} StandardTable(v: nat)
    requires v < 64
    ensures |STANDARD| == 64 && Base64Value(STANDARD[v]) == v
  {
    if v < 26 {
      UpperTable(v);
      assert STANDARD[v] == UPPER[v];
    } else if v < 52 {
      LowerTable(v - 26);
      assert STANDARD[v] == LOWER[v - 26];
    } else if v < 62 {
      DigitTable(v - 52);
      assert STANDARD[v] == DIGITS[v - 52];
    } else {
      assert STANDARD[v] == "+/"[v - 62];
    }
  }

  lemma UrlSafeTable(v: nat)
    requires v < 64
    ensures |STANDARD| == |URL_SAFE| == 64 && URL_SAFE[v] == UrlSafe(STANDARD[v])
  {
    if v < 62 {
      assert STANDARD[..62] == URL_SAFE[..62];
      assert STANDARD[v] == STANDARD[..62][v] == URL_SAFE[..62][v];
      StandardTable(v);
    }
  }

  // Table and branches are inverse to each other.
  lemma {:induction false} SymbolOfValue(c: char)
    requires Base64Value(c) >= 0
    ensures STANDARD[Base64Value(c)] == c
  {
    StandardTable(Base64Value(c));
    SameValue(STANDARD[Base64Value(c)], c);
  }

  lemma SameValue(c: char, d: char)
    requires Base64Value(c) == Base64Value(d) >= 0
    ensures c == d
  {
  }

  // The character of the URL-safe alphabet (RFC 4648, section 5) in the place of c.
  function UrlSafe(c: char): char {
    if c == '+' then '-' else if c == '/' then '_' else c
  }
}
