// Hex digests as file ids: the printer and the check every file endpoint starts with.
module Hashing {
  import opened Strings
  import opened Bits

  const HEX := "0123456789abcdef"

  predicate IsHexHash(s: string) {
    && (|s| == 32 || |s| == 40 || |s| == 64)
    && forall k :: 0 <= k < |s| ==> IsHexDigit(s[k])
  }

  lemma HexHashCharacters(s: string)
    ensures IsHexHash(s) <==>
            && (|s| == 32 || |s| == 40 || |s| == 64)
            && forall k :: 0 <= k < |s| ==> s[k] in "0123456789" + "abcdef" + "ABCDEF"
  {
    hide IsHexDigit;
    forall k | 0 <= k < |s| ensures IsHexDigit(s[k]) <==> s[k] in "0123456789" + "abcdef" + "ABCDEF" {
      CharacterClasses(s[k]);
    }
  }

  method CheckHexHash(value: string) returns (ok: bool)
    ensures ok == IsHexHash(value)
    ensures ok <==>
            && (|value| == 32 || |value| == 40 || |value| == 64)
            && forall k :: 0 <= k < |value| ==> value[k] in "0123456789" + "abcdef" + "ABCDEF"
  {
    HexHashCharacters(value);
    if |value| != 32 && |value| != 40 && |value| != 64 {
      return false;
    }
    for i := 0 to |value|
      invariant forall k :: 0 <= k < i ==> IsHexDigit(value[k])
    {
      var c := value[i];
      var digit := '0' <= c <= '9';
      var lower := 'a' <= c <= 'f';
      var upper := 'A' <= c <= 'F';
      if !digit && !lower && !upper {
        return false;
      }
    }
    return true;
  }

  // Two lower-case hex digits for each byte of the digest.
  function HexOf(digest: ByteString): (s: string)
    ensures |s| == 2 * |digest|
    ensures forall i :: 0 <= i < |s| ==>
      s[i] == HEX[if i % 2 == 0 then digest[i / 2] as int / 16 else digest[i / 2] as int % 16]
  {
    seq(2 * |digest|, i requires 0 <= i < 2 * |digest| =>
      HEX[if i % 2 == 0 then digest[i / 2] as int / 16 else digest[i / 2] as int % 16])
  }

  // The printing loop behind every digest; the digest itself comes from outside.
  method PrintHex(digest: ByteString) returns (out: string)
    ensures out == HexOf(digest)
    ensures |out| == 2 * |digest|
    ensures forall k :: 0 <= k < |digest| ==>
      && out[2 * k] == "0123456789abcdef"[digest[k] as int / 16]
      && out[2 * k + 1] == "0123456789abcdef"[digest[k] as int % 16]
  {
    hide And, Shr, Pow2;
    out := [];
    for i := 0 to |digest|
      invariant out == HexOf(digest[..i])
    {
      var b := digest[i] as int;
      Shifts(b);
      Masks(b);
      out := out + [HEX[Shr(b, 4)]];
      out := out + [HEX[And(b, 0x0F)]];
    }
    assert digest[..|digest|] == digest;
    forall k | 0 <= k < |digest|
      ensures out[2 * k] == HEX[digest[k] as int / 16] && out[2 * k + 1] == HEX[digest[k] as int % 16]
    {
      DigitsOfByte(digest, k);
    }
  }

  lemma HexTable(v: nat, w: nat)
    requires v < 16 && w < 16
    ensures IsHexDigit(HEX[v]) && (HEX[v] == HEX[w] ==> v == w)
  {
    assert v < 10 ==> HEX[v] == ('0' as int + v) as char;
    assert v >= 10 ==> HEX[v] == ('a' as int + v - 10) as char;
  }

  // A printed digest passes the check exactly when it is as long as an MD5, SHA-1 or SHA-256 one.
  lemma {:induction false} DigestAccepted(digest: ByteString)
    ensures IsHexHash(HexOf(digest)) <==> |digest| == 16 || |digest| == 20 || |digest| == 32
  {
    var s := HexOf(digest);
    forall i | 0 <= i < |s| ensures IsHexDigit(s[i]) {
      HexTable(if i % 2 == 0 then digest[i / 2] as int / 16 else digest[i / 2] as int % 16, 0);
    }
  }

  // The two digits of byte k.
  lemma DigitsOfByte(digest: ByteString, k: nat)
    requires k < |digest|
    ensures |HexOf(digest)| == 2 * |digest|
    ensures HexOf(digest)[2 * k] == HEX[digest[k] as int / 16]
    ensures HexOf(digest)[2 * k + 1] == HEX[digest[k] as int % 16]
  {
    assert (2 * k) % 2 == 0 && (2 * k) / 2 == k;
    assert (2 * k + 1) % 2 == 1 && (2 * k + 1) / 2 == k;
  }

  lemma EqualDigits(x: nat, y: nat)
    requires x < 256 && y < 256
    requires HEX[x / 16] == HEX[y / 16] && HEX[x % 16] == HEX[y % 16]
    ensures x == y
  {
    HexTable(x / 16, y / 16);
    HexTable(x % 16, y % 16);
  }

  // Distinct digests are printed differently, so they address different files.
  lemma DigestInjective(a: ByteString, b: ByteString)
    requires HexOf(a) == HexOf(b)
    ensures a == b
  {
    hide HexOf;
    assert |a| == |b|;
    forall k | 0 <= k < |a| ensures a[k] == b[k] {
      DigitsOfByte(a, k);
      DigitsOfByte(b, k);
      EqualDigits(a[k] as int, b[k] as int);
    }
  }
}
