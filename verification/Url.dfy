// Percent-encoding (RFC 3986, section 2.1) and unpadded base64url (RFC 4648, section 5), which
// together decide what reaches the path of a request.
module Url {
  import opened Strings
  import opened Bits
  import opened Numbers
  import opened Base64
  import Base64Laws

  const HEX_DIGITS := "0123456789ABCDEF"

  // RFC 3986, section 2.3
  predicate IsUnreserved(c: char) {
    IsAlnum(c) || c == '-' || c == '.' || c == '_' || c == '~'
  }

  predicate AllUnreserved(s: string) {
    forall k :: 0 <= k < |s| ==> IsUnreserved(s[k])
  }

  // ---------------------------------------------------------------- percent-encoding

  function PercentEncodeByte(c: Byte): string {
    if IsUnreserved(c) then [c] else ['%', HEX_DIGITS[c as int / 16], HEX_DIGITS[c as int % 16]]
  }

  function PercentEncode(x: ByteString): string {
    if x == [] then [] else PercentEncode(x[..|x| - 1]) + PercentEncodeByte(x[|x| - 1])
  }

  method PercentEncoder(value: ByteString) returns (out: string)
    ensures out == PercentEncode(value)
  {
    hide And, Shr, PercentEncode;
    out := [];
    assert PercentEncode(value[..0]) == [] by { NothingEncoded(); }
    for i := 0 to |value|
      invariant out == PercentEncode(value[..i])
    {
      var c := value[i];
      PercentEncodeNext(value, i);
      if 'A' <= c <= 'Z' || 'a' <= c <= 'z' || '0' <= c <= '9' || c == '-' || c == '.' || c == '_' || c == '~' {
        out := out + [c];
      } else {
        Nibbles(c as int);
        out := out + ['%'];
        out := out + [HEX_DIGITS[Shr(c as int, 4)]];
        out := out + [HEX_DIGITS[And(c as int, 0x0F)]];
      }
    }
    assert value[..|value|] == value;
  }

  lemma NothingEncoded()
    ensures PercentEncode([]) == []
  {
  }

  lemma PercentEncodeNext(x: ByteString, i: nat)
    requires i < |x|
    ensures PercentEncode(x[..i + 1]) == PercentEncode(x[..i]) + PercentEncodeByte(x[i])
  {
    assert x[..i + 1][..i] == x[..i];
  }

  lemma Nibbles(b: nat)
    requires b < 256
    ensures Shr(b, 4) == b / 16 < 16 && And(b, 0x0F) == b % 16
  {
    Shifts(b);
    Masks(b);
  }

  function HexValue(c: char): (v: int)
    ensures -1 <= v < 16
  {
    if '0' <= c <= '9' then c as int - '0' as int
    else if 'A' <= c <= 'F' then c as int - 'A' as int + 10
    else if 'a' <= c <= 'f' then c as int - 'a' as int + 10
    else -1
  }

  // The reader of percent-encoded text: escapes in either case of the hex digits, unreserved
  // characters as themselves, anything else is malformed.
  function PercentDecode(s: string): Option<ByteString> {
    if s == [] then Some([])
    else if IsUnreserved(s[0]) then
      match PercentDecode(s[1..])
      case None => None
      case Some(rest) => Some([s[0]] + rest)
    else if s[0] == '%' && |s| >= 3 && HexValue(s[1]) >= 0 && HexValue(s[2]) >= 0 then
      match PercentDecode(s[3..])
      case None => None
      case Some(rest) => Some([(16 * HexValue(s[1]) + HexValue(s[2])) as char] + rest)
    else None
  }

  lemma HexTable(v: nat)
    requires v < 16
    ensures HexValue(HEX_DIGITS[v]) == v && IsAlnum(HEX_DIGITS[v])
  {
    match v {
      case 0 => case 1 => case 2 => case 3 => case 4 => case 5 => case 6 => case 7 =>
      case 8 => case 9 => case 10 => case 11 => case 12 => case 13 => case 14 => case 15 =>
    }
  }

  lemma {:induction false} DecodeByteFirst(c: Byte, rest: string)
    requires PercentDecode(rest).Some?
    ensures PercentDecode(PercentEncodeByte(c) + rest) == Some([c] + PercentDecode(rest).value)
  {
    var s := PercentEncodeByte(c) + rest;
    if IsUnreserved(c) {
      assert s[1..] == rest;
    } else {
      HexTable(c as int / 16);
      HexTable(c as int % 16);
      assert s[3..] == rest;
    }
  }

  lemma {:induction false} PercentDecodePrefix(x: ByteString, rest: string)
    requires PercentDecode(rest).Some?
    ensures PercentDecode(PercentEncode(x) + rest) == Some(x + PercentDecode(rest).value)
  {
    hide PercentEncodeByte, PercentDecode;
    if x == [] {
      assert PercentEncode(x) + rest == rest;
      assert x + PercentDecode(rest).value == PercentDecode(rest).value;
    } else {
      var init, c := x[..|x| - 1], x[|x| - 1];
      DecodeByteFirst(c, rest);
      PercentDecodePrefix(init, PercentEncodeByte(c) + rest);
      assert PercentEncode(x) + rest == PercentEncode(init) + (PercentEncodeByte(c) + rest);
      assert x + PercentDecode(rest).value == init + ([c] + PercentDecode(rest).value);
    }
  }

  // Decoding undoes encoding, so distinct byte strings have distinct encodings.
  lemma PercentRoundTrip(x: ByteString)
    ensures PercentDecode(PercentEncode(x)) == Some(x)
  {
    assert PercentDecode([]) == Some([]);
    PercentDecodePrefix(x, []);
    assert PercentEncode(x) + [] == PercentEncode(x) && x + [] == x;
  }

  // No delimiter of a URL survives: only unreserved characters and '%' come out.
  lemma {:induction false} PercentAlphabet(x: ByteString)
    ensures forall c :: c in PercentEncode(x) ==> IsUnreserved(c) || c == '%'
  {
    if x != [] {
      PercentAlphabet(x[..|x| - 1]);
      var c := x[|x| - 1];
      HexTable(c as int / 16);
      HexTable(c as int % 16);
    }
  }

  lemma EscapeLonger(c: Byte)
    ensures PercentEncodeByte(c) == [c] || |PercentEncodeByte(c)| == 3
    ensures PercentEncodeByte(c) == [c] <==> IsUnreserved(c)
  {
  }

  lemma {:induction false} PercentLonger(x: ByteString)
    ensures |PercentEncode(x)| >= |x|
    ensures !AllUnreserved(x) ==> |PercentEncode(x)| > |x|
    ensures AllUnreserved(x) ==> PercentEncode(x) == x
  {
    hide PercentEncodeByte;
    if x != [] {
      var init, c := x[..|x| - 1], x[|x| - 1];
      assert x == init + [c];
      EscapeLonger(c);
      PercentLonger(init);
    }
  }

  lemma UnreservedCharacters(c: char)
    ensures IsUnreserved(c) <==>
            c in "ABCDEFGHIJKLMNOPQRSTUVWXYZ" + "abcdefghijklmnopqrstuvwxyz" + "0123456789" + "-._~"
  {
    CharacterClasses(c);
  }

  // Exactly the 66 unreserved characters stay; any other byte becomes `%` and two upper-case digits.
  lemma PercentOfByte(c: Byte)
    ensures PercentEncode([c]) ==
            if c in "ABCDEFGHIJKLMNOPQRSTUVWXYZ" + "abcdefghijklmnopqrstuvwxyz" + "0123456789" + "-._~" then [c]
            else ['%', "0123456789ABCDEF"[c as int / 16], "0123456789ABCDEF"[c as int % 16]]
  {
    hide IsUnreserved;
    UnreservedCharacters(c);
    assert PercentEncode([c]) == PercentEncode([]) + PercentEncodeByte(c) by {
      assert [c][..0] == [];
    }
  }

  // The bytes are encoded one by one.
  lemma {:induction false} PercentAppend(x: ByteString, y: ByteString)
    ensures PercentEncode(x + y) == PercentEncode(x) + PercentEncode(y)
  {
    hide PercentEncodeByte;
    if y == [] {
      assert x + y == x;
    } else {
      var init := y[..|y| - 1];
      assert (x + y)[..|x + y| - 1] == x + init;
      PercentAppend(x, init);
    }
  }

  // Percent-encoding leaves a string alone exactly when it is all unreserved.
  lemma {:induction false} PercentFixes(x: ByteString)
    ensures PercentEncode(x) == x <==> AllUnreserved(x)
  {
    PercentLonger(x);
  }

  // ---------------------------------------------------------------- base64url

  function EncodeUrl(x: ByteString): (s: ByteString)
    ensures |s| == SextetCount(|x|)
  {
    UrlSafeTable(0);
    UrlSafeBytes(Sextets(x));
    Symbols(URL_SAFE, Sextets(x))
  }

  lemma UrlSafeBytes(ds: seq<nat>)
    requires |URL_SAFE| == 64 && DigitsBelow(ds, 64)
    ensures forall k :: 0 <= k < |ds| ==> Symbols(URL_SAFE, ds)[k] as int < 256
  {
    hide Symbols, URL_SAFE;
    UrlSafeSymbols(ds);
    forall k | 0 <= k < |ds| ensures Symbols(URL_SAFE, ds)[k] as int < 256 {
      assert Symbols(URL_SAFE, ds)[k] in Symbols(URL_SAFE, ds);
    }
  }

  lemma UrlSafeSymbols(ds: seq<nat>)
    requires |URL_SAFE| == 64 && DigitsBelow(ds, 64)
    ensures forall c :: c in Symbols(URL_SAFE, ds) ==> IsAlnum(c) || c == '-' || c == '_'
  {
    forall k | 0 <= k < |ds|
      ensures var c := Symbols(URL_SAFE, ds)[k]; IsAlnum(c) || c == '-' || c == '_'
    {
      UrlSafeTable(ds[k]);
      StandardTable(ds[k]);
    }
  }

  method Base64UrlEncode(value: ByteString) returns (out: string)
    ensures out == EncodeUrl(value)
  {
    hide And, Or, Shl, Shr, WholeGroups, Sextets, SextetCount, Sextet1, Sextet2, Sextet3, Sextet4, PaddingCount;
    hide STANDARD, URL_SAFE;
    UrlSafeTable(0);
    out := [];
    var i := 0;
    while i + 3 <= |value|
      invariant i <= |value| && i % 3 == 0
      invariant |URL_SAFE| == 64
      invariant out == Symbols(URL_SAFE, WholeGroups(value, i))
    {
      var a, b, c := value[i] as int, value[i + 1] as int, value[i + 2] as int;
      SextetsOfWord(a, b, c);
      var n := Or(Or(Shl(a, 16), Shl(b, 8)), c);
      WholeGroupsNext(value, i);
      out := out + [URL_SAFE[And(Shr(n, 18), 0x3F)]];
      out := out + [URL_SAFE[And(Shr(n, 12), 0x3F)]];
      out := out + [URL_SAFE[And(Shr(n, 6), 0x3F)]];
      out := out + [URL_SAFE[And(n, 0x3F)]];
      i := i + 3;
    }
    var rest := |value| - i;
    SextetsTail(value, i);
    if rest == 1 {
      var n := value[i] as int;
      SextetsOfByte(n);
      out := out + [URL_SAFE[And(Shr(n, 2), 0x3F)]];
      out := out + [URL_SAFE[And(Shl(n, 4), 0x3F)]];
    } else if rest == 2 {
      var a, b := value[i] as int, value[i + 1] as int;
      SextetsOfWord(a, b, 0);
      var n := Or(Shl(a, 16), Shl(b, 8));
      out := out + [URL_SAFE[And(Shr(n, 18), 0x3F)]];
      out := out + [URL_SAFE[And(Shr(n, 12), 0x3F)]];
      out := out + [URL_SAFE[And(Shr(n, 6), 0x3F)]];
    }
  }

  // The one-byte tail shifts the byte itself instead of a word that holds it at the top.
  lemma SextetsOfByte(a: nat)
    requires a < 256
    ensures And(Shr(a, 2), 0x3F) == Sextet1(a) && And(Shl(a, 4), 0x3F) == Sextet2(a, 0)
  {
    hide And, Shr, Shl;
    Shifts(a);
    LeftShifts(a);
    Masks(a / 4);
    Masks(16 * a);
    LowSextet(16 * a, a / 4, Sextet2(a, 0));
  }

  // `s` without its run of '=' at the end.
  function StripPadding(s: string): string {
    if s != [] && s[|s| - 1] == '=' then StripPadding(s[..|s| - 1]) else s
  }

  function MapUrlSafe(s: string): string {
    seq(|s|, i requires 0 <= i < |s| => UrlSafe(s[i]))
  }

  lemma {:induction false} StripPaddingStops(s: string, n: nat)
    requires s == [] || s[|s| - 1] != '='
    ensures StripPadding(s + Padding(n)) == s
  {
    if n == 0 {
      assert s + Padding(0) == s;
    } else {
      var t := s + Padding(n);
      assert t[..|t| - 1] == s + Padding(n - 1);
      StripPaddingStops(s, n - 1);
    }
  }

  // The two encoders agree up to padding and the two symbols the alphabets differ in.
  lemma EncodersAgree(x: ByteString)
    ensures EncodeUrl(x) == MapUrlSafe(StripPadding(Encode(x)))
  {
    var u := Unpadded(x);
    Base64Laws.ValuesOfUnpadded(x);
    StripPaddingStops(u, PaddingCount(|x|));
    forall k | 0 <= k < |u| ensures EncodeUrl(x)[k] == UrlSafe(u[k]) {
      UrlSafeTable(Sextets(x)[k]);
    }
  }

  // The two symbols that differ: what Base64 writes as `+/8=` is `-_8` in a URL.
  lemma UrlSafeVector(x: ByteString)
    requires |x| == 2 && x[0] as int == 251 && x[1] as int == 255
    ensures EncodeUrl(x) == "-_8"
  {
    hide Encode, EncodeUrl, STANDARD, URL_SAFE;
    EncodersAgree(x);
    Base64Laws.LastSymbols(x);
    assert "+/8=" == "+/8" + Padding(1);
    StripPaddingStops("+/8", 1);
  }

  // ceil(4 * |x| / 3) characters
  lemma {:induction false} EncodeUrlLength(x: ByteString)
    ensures 3 * (|EncodeUrl(x)| - 1) < 4 * |x| <= 3 * |EncodeUrl(x)|
  {
  }

  lemma {:induction false} EncodeUrlSymbol(x: ByteString, k: nat)
    requires k < |EncodeUrl(x)|
    ensures Base64Value(Unpadded(x)[k]) >= 0 && EncodeUrl(x)[k] == UrlSafe(Unpadded(x)[k])
  {
    Base64Laws.ValuesOfUnpadded(x);
    UrlSafeTable(Sextets(x)[k]);
  }

  lemma {:induction false} EncodeUrlUnreserved(x: ByteString)
    ensures AllUnreserved(EncodeUrl(x))
  {
    UrlSafeTable(0);
    UrlSafeSymbols(Sextets(x));
  }

  lemma {:induction false} EncodeUrlInjective(x: ByteString, y: ByteString)
    requires EncodeUrl(x) == EncodeUrl(y)
    ensures x == y
  {
    assert |Unpadded(x)| == |EncodeUrl(x)| == |EncodeUrl(y)| == |Unpadded(y)|;
    forall k | 0 <= k < |Unpadded(x)| ensures Unpadded(x)[k] == Unpadded(y)[k] {
      EncodeUrlSymbol(x, k);
      EncodeUrlSymbol(y, k);
    }
    assert Unpadded(x) == Unpadded(y);
    Base64Laws.DecodesTo(Unpadded(x), x);
    Base64Laws.DecodesTo(Unpadded(x), y);
    Base64Laws.PayloadOfEncoding(x);
  }

  // ---------------------------------------------------------------- object ids of URLs

  // A raw URL contains "://" and is addressed by its base64url form; anything else is taken for
  // an id already.
  function UrlId(urlOrId: ByteString): ByteString {
    if Contains(urlOrId, "://") then EncodeUrl(urlOrId) else urlOrId
  }

  lemma EncodedIsNotRaw(x: ByteString)
    ensures !Contains(EncodeUrl(x), "://")
  {
    var id := EncodeUrl(x);
    EncodeUrlUnreserved(x);
    assert forall i :: 0 <= i <= |id| && "://" <= id[i..] ==> id[i] == ':';
  }

  // Taking the id is idempotent, separates raw URLs, and yields a path segment that needs no
  // further encoding.
  lemma {:induction false} UrlIdNormalises(x: ByteString, y: ByteString)
    ensures UrlId(UrlId(x)) == UrlId(x)
    ensures Contains(x, "://") ==> AllUnreserved(UrlId(x)) && PercentEncode(UrlId(x)) == UrlId(x)
    ensures Contains(x, "://") && Contains(y, "://") && UrlId(x) == UrlId(y) ==> x == y
  {
    hide EncodeUrl, PercentEncode, Contains, AllUnreserved;
    if Contains(x, "://") {
      EncodeUrlUnreserved(x);
      PercentFixes(EncodeUrl(x));
      EncodedIsNotRaw(x);
      if Contains(y, "://") && UrlId(x) == UrlId(y) {
        EncodeUrlInjective(x, y);
      }
    }
  }
}
