// What the Base64 codec is for: decoding undoes encoding, and accepts nothing but encodings.
module Base64Laws {
  import opened Strings
  import opened Numbers
  import opened Base64

  // Encoded sizes are never 1 modulo 4, and the pending bits of a text are the slack of its bytes.
  lemma {:induction false} SizesOfEncoding(m: nat)
    ensures var n := SextetCount(m);
            && n % 4 != 1 && 6 * n / 8 == m
            && Pending(n) == (if m % 3 == 0 then 0 else if m % 3 == 1 then 4 else 2)
  {
    var q := m / 3;
    assert m == 3 * q + m % 3;
    assert SextetCount(m) == 4 * q + [0, 2, 3][m % 3];
  }

  lemma {:induction false} SizesOfDecoding(n: nat)
    requires n % 4 != 1
    ensures SextetCount(6 * n / 8) == n
  {
    var q := n / 4;
    assert n == 4 * q + n % 4;
    assert 6 * n / 8 == 3 * q + [0, 0, 1, 2][n % 4];
  }

  // Adding the slack and dropping it again.
  lemma SlackOut(n: nat, m: nat)
    ensures var r := Pending(SextetCount(m));
            LowBits(WithSlack(n, m), r) == 0 && DropBits(WithSlack(n, m), r) == n
  {
    SizesOfEncoding(m);
  }

  lemma SlackIn(n: nat, m: nat)
    requires LowBits(n, Pending(SextetCount(m))) == 0
    ensures WithSlack(DropBits(n, Pending(SextetCount(m))), m) == n
  {
    SizesOfEncoding(m);
  }

  lemma {:induction false} ValuesOfUnpadded(x: ByteString)
    ensures InAlphabet(Unpadded(x)) && Values(Unpadded(x)) == Sextets(x)
  {
    forall k | 0 <= k < |Sextets(x)|
      ensures Base64Value(Unpadded(x)[k]) == Sextets(x)[k]
    {
      StandardTable(Sextets(x)[k]);
    }
  }

  lemma {:induction false} BytesOfUnpadded(x: ByteString)
    ensures InAlphabet(Unpadded(x)) && Bytes(Unpadded(x)) == x
    ensures LowBits(PayloadNumber(Unpadded(x)), Pending(|Unpadded(x)|)) == 0
  {
    ValuesOfUnpadded(x);
    SextetsExact(x);
    SizesOfEncoding(|x|);
    SlackOut(Number(256, Codes(x)), |x|);
    DigitsOfNumber(256, Codes(x));
  }

  lemma {:induction false} UnpaddedOfBytes(p: string)
    requires InAlphabet(p) && |p| % 4 != 1
    requires LowBits(PayloadNumber(p), Pending(|p|)) == 0
    ensures Unpadded(Bytes(p)) == p
  {
    var x := Bytes(p);
    BytesExact(p);
    SizesOfDecoding(|p|);
    SlackIn(PayloadNumber(p), |x|);
    DigitsOfNumber(64, Values(p));
    assert Sextets(x) == Values(p);
    forall k | 0 <= k < |p| ensures Unpadded(x)[k] == p[k] {
      SymbolOfValue(p[k]);
    }
  }

  // The decoder yields x exactly on the texts whose payload is the encoding of x without padding.
  lemma {:induction false} DecodesTo(v: string, x: ByteString)
    ensures Decode(v) == Some(x) <==> Payload(v) == Unpadded(x)
  {
    if Payload(v) == Unpadded(x) {
      BytesOfUnpadded(x);
      SizesOfEncoding(|x|);
    }
    if Accepts(v) {
      UnpaddedOfBytes(Payload(v));
    }
  }

  // The decoder accepts exactly the spaced-out encodings of byte strings.
  lemma AcceptsOnlyEncodings(v: string)
    ensures Accepts(v) <==> exists x :: Payload(v) == Unpadded(x)
  {
    if Accepts(v) {
      DecodesTo(v, Bytes(Payload(v)));
    }
    if x :| Payload(v) == Unpadded(x) {
      DecodesTo(v, x);
    }
  }

  // Two texts decode to the same bytes only if they differ in whitespace or behind the first '='.
  lemma {:induction false} DecodeInjective(v: string, w: string)
    requires Accepts(v) && Decode(v) == Decode(w)
    ensures Payload(v) == Payload(w)
  {
    DecodesTo(v, Bytes(Payload(v)));
    DecodesTo(w, Bytes(Payload(v)));
  }

  // ---------------------------------------------------------------- whitespace and padding

  lemma {:induction false} PayloadOfSymbols(p: string, v: string)
    requires InAlphabet(p)
    ensures Payload(p + v) == p + Payload(v)
  {
    hide Payload;
    if p == [] {
      assert p + v == v;
    } else {
      PayloadOfSymbols(p[1..], v);
      PayloadOfSymbol(p[0], p[1..] + v);
      assert p + v == [p[0]] + (p[1..] + v);
    }
  }

  lemma PayloadOfSymbol(c: char, v: string)
    requires Base64Value(c) >= 0
    ensures Payload([c] + v) == [c] + Payload(v)
  {
    assert ([c] + v)[1..] == v;
  }

  // A text without its whitespace.
  function Despace(v: string): string {
    if v == [] then []
    else if IsSpace(v[0]) then Despace(v[1..])
    else [v[0]] + Despace(v[1..])
  }

  lemma {:induction false} PayloadOfDespaced(v: string)
    ensures Payload(Despace(v)) == Payload(v)
  {
    if v != [] {
      PayloadOfDespaced(v[1..]);
      if !IsSpace(v[0]) {
        assert Despace(v)[0] == v[0] && Despace(v)[1..] == Despace(v[1..]);
      }
    }
  }

  // Whitespace may stand anywhere, in any number of places: it makes no difference to what a text
  // decodes to, nor to whether it does.
  lemma {:induction false} WhitespaceIgnored(v: string, w: string)
    requires Despace(v) == Despace(w)
    ensures Payload(v) == Payload(w) && Decode(v) == Decode(w)
  {
    PayloadOfDespaced(v);
    PayloadOfDespaced(w);
  }

  // Nothing behind the first '=' matters.
  lemma {:induction false} PaddingEndsText(a: string, b: string)
    ensures Payload(a + "=" + b) == Payload(a)
  {
    var v := a + "=" + b;
    if a == [] {
      assert v[0] == '=';
    } else {
      assert v[0] == a[0] && v[1..] == a[1..] + "=" + b;
      PaddingEndsText(a[1..], b);
    }
  }

  lemma {:induction false} PayloadOfEncoding(x: ByteString)
    ensures Payload(Encode(x)) == Unpadded(x) == Payload(Unpadded(x))
  {
    ValuesOfUnpadded(x);
    PayloadOfSymbols(Unpadded(x), Padding(PaddingCount(|x|)));
    PayloadOfSymbols(Unpadded(x), []);
    assert Unpadded(x) + [] == Unpadded(x);
  }

  // Round trip, with or without padding: however the text of x is broken up by whitespace, into
  // lines or otherwise, it decodes to x.
  lemma {:induction false} RoundTrip(x: ByteString, v: string)
    requires Despace(v) == Encode(x) || Despace(v) == Unpadded(x)
    ensures Decode(v) == Some(x)
  {
    PayloadOfEncoding(x);
    PayloadOfDespaced(v);
    DecodesTo(v, x);
  }

  // The texts themselves are among them.
  lemma {:induction false} RoundTripPlain(x: ByteString)
    ensures Decode(Encode(x)) == Some(x) && Decode(Unpadded(x)) == Some(x)
  {
    PayloadOfEncoding(x);
    DecodesTo(Encode(x), x);
    DecodesTo(Unpadded(x), x);
  }

  // ---------------------------------------------------------------- the padded text

  // Four characters for three bytes; one or two `=` complete the last group.
  lemma EncodedLength(x: ByteString)
    ensures |Encode(x)| == (|x| + 2) / 3 * 4
    ensures Encode(x) == Unpadded(x) + if |x| % 3 == 1 then "==" else if |x| % 3 == 2 then "=" else ""
  {
    hide Sextets;
    SextetCountOf(x);
    GroupedLength(|x|);
  }

  lemma SextetCountOf(x: ByteString)
    ensures |Sextets(x)| == SextetCount(|x|)
  {
  }

  lemma GroupedLength(m: nat)
    ensures SextetCount(m) + PaddingCount(m) == (m + 2) / 3 * 4
    ensures PaddingCount(m) == if m % 3 == 1 then 2 else if m % 3 == 2 then 1 else 0
  {
    var q, r := m / 3, m % 3;
    assert m == 3 * q + r;
    assert SextetCount(m) == 4 * q + [0, 2, 3][r];
    assert (m + 2) / 3 == q + [0, 1, 1][r];
  }

  // The test vectors of RFC 4648, section 10, for one group.
  lemma TestVectors()
    ensures Encode("f") == "Zg==" && Encode("fo") == "Zm8=" && Encode("foo") == "Zm9v"
  {
    hide Encode, STANDARD;
    EncodedByte("f");
    EncodedPair("fo");
    EncodedTriple("foo");
    SymbolOfValue('Z');
    SymbolOfValue('g');
    SymbolOfValue('m');
    SymbolOfValue('8');
    SymbolOfValue('9');
    SymbolOfValue('v');
  }

  // The bytes 251 and 255 need the last two symbols.
  lemma LastSymbols(x: ByteString)
    requires |x| == 2 && x[0] as int == 251 && x[1] as int == 255
    ensures Encode(x) == "+/8="
  {
    hide Encode, STANDARD;
    EncodedPair(x);
    SymbolOfValue('+');
    SymbolOfValue('/');
    SymbolOfValue('8');
  }

  lemma EncodedByte(x: ByteString)
    requires |x| == 1
    ensures |STANDARD| == 64
    ensures var a := x[0] as int; Encode(x) == [STANDARD[Sextet1(a)], STANDARD[Sextet2(a, 0)], '=', '=']
  {
    hide STANDARD, Sextets, SextetCount, WholeGroups, PaddingCount, Encode, Sextet1, Sextet2, Sextet3, Sextet4;
    StandardTable(0);
    EncodedLength(x);
    SextetsTail(x, 0);
    NoGroups(x);
  }

  lemma EncodedPair(x: ByteString)
    requires |x| == 2
    ensures |STANDARD| == 64
    ensures var a, b := x[0] as int, x[1] as int;
            Encode(x) == [STANDARD[Sextet1(a)], STANDARD[Sextet2(a, b)], STANDARD[Sextet3(b, 0)], '=']
  {
    hide STANDARD, Sextets, SextetCount, WholeGroups, PaddingCount, Encode, Sextet1, Sextet2, Sextet3, Sextet4;
    StandardTable(0);
    EncodedLength(x);
    SextetsTail(x, 0);
    NoGroups(x);
  }

  lemma EncodedTriple(x: ByteString)
    requires |x| == 3
    ensures |STANDARD| == 64
    ensures var a, b, c := x[0] as int, x[1] as int, x[2] as int;
            Encode(x) ==
            [STANDARD[Sextet1(a)], STANDARD[Sextet2(a, b)], STANDARD[Sextet3(b, c)], STANDARD[Sextet4(c)]]
  {
    hide STANDARD, Sextets, SextetCount, WholeGroups, PaddingCount, Encode, Sextet1, Sextet2, Sextet3, Sextet4;
    StandardTable(0);
    EncodedLength(x);
    SextetsTail(x, 3);
    WholeGroupsNext(x, 0);
    NoGroups(x);
  }

  lemma NoGroups(x: ByteString)
    ensures WholeGroups(x, 0) == []
  {
  }

  // ---------------------------------------------------------------- foreign characters

  // Neither symbol, nor whitespace, nor padding.
  predicate IsForeign(c: char) {
    c != '=' && !IsSpace(c) && Base64Value(c) < 0
  }

  lemma SymbolCharacters(c: char)
    ensures Base64Value(c) >= 0 <==>
            c in "ABCDEFGHIJKLMNOPQRSTUVWXYZ" + "abcdefghijklmnopqrstuvwxyz" + "0123456789" + "+/"
  {
    CharacterClasses(c);
  }

  // The foreign characters are those outside the 64 symbols, the padding and four spaces.
  lemma ForeignMeaning(c: char)
    ensures IsForeign(c) <==>
            c !in "ABCDEFGHIJKLMNOPQRSTUVWXYZ" + "abcdefghijklmnopqrstuvwxyz" + "0123456789" + "+/" + "= \t\r\n"
  {
    hide Base64Value;
    SymbolCharacters(c);
  }

  // What one more character in front does to a payload: it ends it, is skipped, or belongs to it.
  lemma PayloadOfCharacter(c: char, v: string)
    ensures Payload([c] + v) ==
            if c == '=' then "" else if c in " \t\r\n" then Payload(v) else [c] + Payload(v)
  {
    assert ([c] + v)[1..] == v;
  }

  // A foreign character spoils the payload exactly if it stands before the first '='.
  lemma {:induction false} ForeignCharacters(v: string)
    ensures InAlphabet(Payload(v)) <==> forall k :: 0 <= k < |v| && IsForeign(v[k]) ==> '=' in v[..k]
  {
    if v == [] || v[0] == '=' {
      assert forall k :: 0 < k < |v| ==> v[..k][0] == '=';
    } else {
      var rest := v[1..];
      ForeignCharacters(rest);
      ForeignShift(v);
      assert !IsSpace(v[0]) ==> Payload(v)[0] == v[0] && Payload(v)[1..] == Payload(rest);
      AlphabetShift(v[0], Payload(rest));
    }
  }

  lemma AlphabetShift(c: char, p: string)
    ensures InAlphabet([c] + p) <==> Base64Value(c) >= 0 && InAlphabet(p)
  {
    assert forall k :: 0 <= k < |p| ==> ([c] + p)[k + 1] == p[k];
    if InAlphabet([c] + p) {
      assert ([c] + p)[0] == c;
    }
  }

  lemma ForeignShift(v: string)
    requires v != [] && v[0] != '='
    ensures (forall k :: 0 <= k < |v| && IsForeign(v[k]) ==> '=' in v[..k]) <==>
            !IsForeign(v[0]) && forall k :: 0 <= k < |v[1..]| && IsForeign(v[1..][k]) ==> '=' in v[1..][..k]
  {
    hide IsForeign;
    forall k | 0 <= k < |v[1..]| ensures v[1..][k] == v[k + 1] && ('=' in v[1..][..k] <==> '=' in v[..k + 1]) {
      assert v[..k + 1] == [v[0]] + v[1..][..k];
    }
    if forall k :: 0 <= k < |v[1..]| && IsForeign(v[1..][k]) ==> '=' in v[1..][..k] {
      forall k | 0 < k < |v| && IsForeign(v[k]) ensures '=' in v[..k] {
        assert v[1..][k - 1] == v[k];
      }
    }
  }

  // So not every text with a foreign character is rejected: behind an accepted text and a '=', anything
  // may follow.
  lemma {:induction false} ForeignAccepted(v: string, rest: string)
    requires Accepts(v)
    ensures Accepts(v + "=" + rest) && Decode(v + "=" + rest) == Decode(v)
  {
    PaddingEndsText(v, rest);
  }

  lemma {:induction false} ForeignExample()
    ensures Accepts("QQ==!") && IsForeign("QQ==!"[4])
  {
    hide Accepts, Decode;
    TwoSymbols();
    ForeignAccepted("QQ", "=!");
    assert "QQ==!" == "QQ" + "=" + "=!";
  }

  lemma {:induction false} TwoSymbols()
    ensures Accepts("QQ")
  {
    hide Number, Payload;
    PayloadOfSymbols("QQ", "");
    assert Payload("") == "" by { EmptyPayload(); }
    assert "QQ" + "" == "QQ";
    NumberOfTwo(16, 16);
    assert Values("QQ") == [16] + [16];
  }

  lemma EmptyPayload()
    ensures Payload("") == ""
  {
  }

  lemma NumberOfTwo(v: nat, w: nat)
    ensures Number(64, [v] + [w]) == 64 * v + w
  {
    NumberNext(64, [v], w);
    NumberNext(64, [], v);
    assert [] + [v] == [v];
  }
}
