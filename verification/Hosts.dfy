// The one-pass scanners that decide whether a string can be the id of an IP address or of a
// domain, against grammars over the fields between separators.
module Hosts {
  import opened Strings
  import opened Numbers

  // ---------------------------------------------------------------- grammars

  predicate AllDigits(f: string) {
    forall k :: 0 <= k < |f| ==> IsDigit(f[k])
  }

  function DigitValues(f: string): (ds: seq<nat>)
    requires AllDigits(f)
    ensures |ds| == |f| && DigitsBelow(ds, 10)
    ensures forall k :: 0 <= k < |f| ==> ds[k] == f[k] as int - '0' as int
  {
    seq(|f|, i requires 0 <= i < |f| => f[i] as int - '0' as int)
  }

  // One to three digits, leading zeros allowed, of value at most 255.
  predicate IsOctet(f: string) {
    1 <= |f| <= 3 && AllDigits(f) && Number(10, DigitValues(f)) <= 255
  }

  predicate IsIPv4(s: string) {
    var fields := Split(s, '.');
    |fields| == 4 && forall k :: 0 <= k < 4 ==> IsOctet(fields[k])
  }

  function NonEmptyCount(fields: seq<string>): nat {
    if fields == [] then 0
    else NonEmptyCount(fields[..|fields| - 1]) + if fields[|fields| - 1] == "" then 0 else 1
  }

  predicate AllHexOrColon(s: string) {
    forall k :: 0 <= k < |s| ==> IsHexDigit(s[k]) || s[k] == ':'
  }

  // Hex digits and colons with one to eight maximal runs of hex digits, of any length.
  predicate IsIPv6(s: string) {
    AllHexOrColon(s) && 1 <= NonEmptyCount(Split(s, ':')) <= 8
  }

  predicate IsIp(s: string) {
    if ':' in s then IsIPv6(s) else IsIPv4(s)
  }

  predicate IsLabelChar(c: char) { IsAlnum(c) || c == '-' }

  // The start of a label, as far as it has been read (RFC 1123, section 2.1).
  predicate IsLabelPrefix(f: string) {
    && |f| <= 63
    && (forall k :: 0 <= k < |f| ==> IsLabelChar(f[k]))
    && (f != [] ==> f[0] != '-')
  }

  predicate IsLabel(f: string) {
    IsLabelPrefix(f) && f != [] && f[|f| - 1] != '-'
  }

  predicate HasAlpha(f: string) {
    exists k :: 0 <= k < |f| && IsAlpha(f[k])
  }

  // At most 253 characters, at least two labels (RFC 1035, section 2.3.4), the last with a letter.
  predicate IsDomain(s: string) {
    var labels := Split(s, '.');
    && |s| <= 253
    && |labels| >= 2
    && (forall k :: 0 <= k < |labels| ==> IsLabel(labels[k]))
    && HasAlpha(labels[|labels| - 1])
  }

  // ---------------------------------------------------------------- IP addresses

  method IsValidIp(ip: string) returns (ok: bool)
    ensures ok == IsIp(ip)
  {
    if ip == "" {
      return false;
    }
    if ':' in ip {
      ok := ScanIPv6(ip);
    } else {
      ok := ScanIPv4(ip);
    }
  }

  method ScanIPv6(ip: string) returns (ok: bool)
    ensures ok == IsIPv6(ip)
  {
    hide Split, NonEmptyCount;
    var groups, inGroup := 0, false;
    NoRuns();
    for i := 0 to |ip|
      invariant AllHexOrColon(ip[..i])
      invariant OpenRun(ip[..i], groups, inGroup)
    {
      var c := ip[i];
      RunNext(ip, i, groups, inGroup);
      var isHex := '0' <= c <= '9' || 'a' <= c <= 'f' || 'A' <= c <= 'F';
      if isHex {
        inGroup := true;
      } else if c == ':' {
        if inGroup {
          groups := groups + 1;
        }
        inGroup := false;
      } else {
        return false;
      }
    }
    assert ip[..|ip|] == ip;
    if inGroup {
      groups := groups + 1;
    }
    ok := 1 <= groups <= 8;
  }

  // The counters describe the runs of hex digits seen so far; the last one may still be open.
  ghost predicate OpenRun(s: string, groups: nat, inGroup: bool) {
    var f := Split(s, ':');
    && groups == NonEmptyCount(f[..|f| - 1])
    && inGroup == (f[|f| - 1] != "")
    && NonEmptyCount(f) == groups + if inGroup then 1 else 0
  }

  lemma NoRuns()
    ensures OpenRun("", 0, false)
  {
  }

  lemma RunNext(s: string, i: nat, groups: nat, inGroup: bool)
    requires i < |s| && OpenRun(s[..i], groups, inGroup)
    ensures if s[i] == ':' then OpenRun(s[..i + 1], groups + (if inGroup then 1 else 0), false)
            else OpenRun(s[..i + 1], groups, true)
  {
    SplitNext(s, i, ':');
    var f, g := Split(s[..i], ':'), Split(s[..i + 1], ':');
    if s[i] == ':' {
      assert g[..|g| - 1] == f;
    } else {
      assert g[..|g| - 1] == f[..|f| - 1];
    }
  }

  method ScanIPv4(ip: string) returns (ok: bool)
    ensures ok == IsIPv4(ip)
  {
    hide IsIPv4, OpenOctet, Split;
    var octets, value, digits := 0, 0, 0;
    NoOctets();
    for i := 0 to |ip|
      invariant value >= 0 && OpenOctet(ip[..i], octets, value, digits)
    {
      var c := ip[i];
      if '0' <= c <= '9' {
        OctetGrows(ip, i, octets, value, digits);
        value := value * 10 + (c as int - '0' as int);
        digits := digits + 1;
        if digits > 3 || value > 255 {
          return false;
        }
      } else if c == '.' {
        OctetCloses(ip, i, octets, value, digits);
        if digits == 0 {
          return false;
        }
        octets := octets + 1;
        value := 0;
        digits := 0;
      } else {
        ForeignCharacter(ip, i, octets, value, digits);
        return false;
      }
    }
    assert ip[..|ip|] == ip;
    WholeAddress(ip, octets, value, digits);
    ok := octets == 3 && digits > 0;
  }

  // The counters describe the fields seen so far; the open one could still become an octet.
  ghost predicate OpenOctet(s: string, octets: nat, value: nat, digits: nat) {
    var fields := Split(s, '.');
    && |fields| == octets + 1
    && (forall k :: 0 <= k < octets ==> IsOctet(fields[k]))
    && AllDigits(fields[octets])
    && digits == |fields[octets]| <= 3
    && value == Number(10, DigitValues(fields[octets])) <= 255
  }

  lemma NoOctets()
    ensures OpenOctet("", 0, 0, 0)
  {
  }

  lemma DigitPush(f: string, c: char)
    requires AllDigits(f) && IsDigit(c)
    ensures AllDigits(f + [c])
    ensures Number(10, DigitValues(f + [c])) == 10 * Number(10, DigitValues(f)) + (c as int - '0' as int)
  {
    assert DigitValues(f + [c]) == DigitValues(f) + [c as int - '0' as int];
    NumberNext(10, DigitValues(f), c as int - '0' as int);
  }

  lemma OctetPrefix(f: string, g: string)
    requires f <= g && IsOctet(g)
    ensures |f| <= 3 && AllDigits(f) && Number(10, DigitValues(f)) <= 255
  {
    NumberFits(DigitValues(f), DigitValues(g), 10);
  }

  // One more digit: either the counters still describe the open field, or it is no octet.
  lemma OctetGrows(ip: string, i: nat, octets: nat, value: nat, digits: nat)
    requires i < |ip| && IsDigit(ip[i])
    requires OpenOctet(ip[..i], octets, value, digits)
    ensures var value', digits' := value * 10 + (ip[i] as int - '0' as int), digits + 1;
            if digits' > 3 || value' > 255 then !IsIPv4(ip)
            else OpenOctet(ip[..i + 1], octets, value', digits')
  {
    hide Number, DigitValues, AllDigits, Split;
    SplitNext(ip, i, '.');
    SplitExtends(ip, i + 1, '.');
    DigitPush(Split(ip[..i], '.')[octets], ip[i]);
    if IsIPv4(ip) {
      OctetPrefix(Split(ip[..i + 1], '.')[octets], Split(ip, '.')[octets]);
    }
  }

  // A dot closes an octet, unless it follows another dot or starts the address.
  lemma OctetCloses(ip: string, i: nat, octets: nat, value: nat, digits: nat)
    requires i < |ip| && ip[i] == '.'
    requires OpenOctet(ip[..i], octets, value, digits)
    ensures if digits == 0 then !IsIPv4(ip) else OpenOctet(ip[..i + 1], octets + 1, 0, 0)
  {
    hide Split, IsOctet, AllDigits, DigitValues, Number;
    SplitNext(ip, i, '.');
    ClosedOctet(Split(ip[..i], '.')[octets]);
    if digits == 0 {
      SplitExtends(ip, i + 1, '.');
      var f, g := Split(ip[..i + 1], '.'), Split(ip, '.');
      assert f[..|f| - 1][octets] == "" == g[octets];
    }
  }

  lemma ClosedOctet(f: string)
    requires |f| <= 3 && AllDigits(f) && Number(10, DigitValues(f)) <= 255
    ensures IsOctet(f) <==> f != ""
    ensures AllDigits("") && Number(10, DigitValues("")) == 0
  {
  }

  lemma ForeignCharacter(ip: string, i: nat, octets: nat, value: nat, digits: nat)
    requires i < |ip| && ip[i] != '.' && !IsDigit(ip[i])
    requires OpenOctet(ip[..i], octets, value, digits)
    ensures !IsIPv4(ip)
  {
    hide Split;
    SplitNext(ip, i, '.');
    SplitExtends(ip, i + 1, '.');
    var f, g := Split(ip[..i + 1], '.'), Split(ip, '.');
    assert f[octets] <= g[octets] && f[octets][|f[octets]| - 1] == ip[i];
  }

  lemma WholeAddress(ip: string, octets: nat, value: nat, digits: nat)
    requires OpenOctet(ip, octets, value, digits)
    ensures IsIPv4(ip) <==> octets == 3 && digits > 0
  {
  }

  // ---------------------------------------------------------------- domains

  method IsValidDomain(domain: string) returns (ok: bool)
    ensures ok == IsDomain(domain)
  {
    hide IsDomain, IsIp, OpenLabel, Split;
    if domain == "" || |domain| > 253 {
      TooShortOrLong(domain);
      return false;
    }
    var ip := IsValidIp(domain);
    if ip {
      Disjoint(domain);
      return false;
    }
    var labels, labelLen, labelHasAlpha := 0, 0, false;
    NoLabels();
    for i := 0 to |domain|
      invariant OpenLabel(domain[..i], labels, labelLen, labelHasAlpha)
      invariant labelLen <= i
    {
      var c := domain[i];
      if c == '.' {
        LabelCloses(domain, i, labels, labelLen, labelHasAlpha);
        if labelLen == 0 || domain[i - 1] == '-' {
          return false;
        }
        labels := labels + 1;
        labelLen := 0;
        labelHasAlpha := false;
      } else {
        var alpha := 'a' <= c <= 'z' || 'A' <= c <= 'Z';
        var alnum := alpha || '0' <= c <= '9';
        LabelGrows(domain, i, labels, labelLen, labelHasAlpha);
        if !(alnum || c == '-') {
          return false;
        }
        if c == '-' && labelLen == 0 {
          return false;
        }
        labelLen := labelLen + 1;
        if labelLen > 63 {
          return false;
        }
        labelHasAlpha := labelHasAlpha || alpha;
      }
    }
    assert domain[..|domain|] == domain;
    WholeDomain(domain, labels, labelLen, labelHasAlpha);
    if labelLen == 0 || domain[|domain| - 1] == '-' || !labelHasAlpha {
      return false;
    }
    labels := labels + 1;
    ok := labels >= 2;
  }

  // The counters describe the labels seen so far; the open one ends where the scan stands.
  ghost predicate OpenLabel(s: string, labels: nat, labelLen: nat, hasAlpha: bool) {
    var fields := Split(s, '.');
    && |fields| == labels + 1
    && (forall k :: 0 <= k < labels ==> IsLabel(fields[k]))
    && IsLabelPrefix(fields[labels])
    && labelLen == |fields[labels]|
    && hasAlpha == HasAlpha(fields[labels])
    && (labelLen > 0 ==> s != "" && fields[labels][labelLen - 1] == s[|s| - 1])
  }

  lemma NoLabels()
    ensures OpenLabel("", 0, 0, false)
  {
  }

  lemma AlphaPush(f: string, c: char)
    ensures HasAlpha(f + [c]) <==> HasAlpha(f) || IsAlpha(c)
  {
    if HasAlpha(f) {
      var k :| 0 <= k < |f| && IsAlpha(f[k]);
      assert IsAlpha((f + [c])[k]);
    }
    if IsAlpha(c) {
      assert IsAlpha((f + [c])[|f|]);
    }
  }

  lemma LabelGrows(domain: string, i: nat, labels: nat, labelLen: nat, hasAlpha: bool)
    requires i < |domain| && domain[i] != '.'
    requires OpenLabel(domain[..i], labels, labelLen, hasAlpha)
    ensures var c := domain[i];
            if !IsLabelChar(c) || (c == '-' && labelLen == 0) || labelLen + 1 > 63 then !IsDomain(domain)
            else OpenLabel(domain[..i + 1], labels, labelLen + 1, hasAlpha || IsAlpha(c))
  {
    hide Split, HasAlpha, IsAlpha;
    SplitNext(domain, i, '.');
    SplitExtends(domain, i + 1, '.');
    var c, f, g := domain[i], Split(domain[..i], '.')[labels], Split(domain[..i + 1], '.')[labels];
    assert g == f + [c] && g <= Split(domain, '.')[labels];
    assert Split(domain, '.')[labels][|f|] == c;
    AlphaPush(f, c);
  }

  // A dot closes a label, unless the label is empty or ends in a hyphen.
  lemma LabelCloses(domain: string, i: nat, labels: nat, labelLen: nat, hasAlpha: bool)
    requires i < |domain| && domain[i] == '.'
    requires OpenLabel(domain[..i], labels, labelLen, hasAlpha)
    ensures labelLen > 0 ==> i > 0
    ensures if labelLen == 0 || domain[i - 1] == '-' then !IsDomain(domain)
            else OpenLabel(domain[..i + 1], labels + 1, 0, false)
  {
    hide Split, HasAlpha, IsLabelPrefix;
    SplitNext(domain, i, '.');
    SplitExtends(domain, i + 1, '.');
    var seen, f, g := Split(domain[..i], '.'), Split(domain[..i + 1], '.'), Split(domain, '.');
    assert f == seen + [""];
    assert f[..|f| - 1][labels] == g[..|f| - 1][labels];
    assert seen[labels] == g[labels];
    EmptyLabel();
  }

  lemma EmptyLabel()
    ensures !HasAlpha("") && IsLabelPrefix("")
  {
  }

  lemma WholeDomain(domain: string, labels: nat, labelLen: nat, hasAlpha: bool)
    requires |domain| <= 253 && OpenLabel(domain, labels, labelLen, hasAlpha)
    ensures IsDomain(domain) <==>
            labels + 1 >= 2 && labelLen > 0 && domain[|domain| - 1] != '-' && hasAlpha
  {
    hide Split, HasAlpha;
  }

  lemma TooShortOrLong(domain: string)
    requires domain == "" || |domain| > 253
    ensures !IsDomain(domain)
  {
  }

  // ---------------------------------------------------------------- the grammar, character by character

  // Letters, digits and the hyphen; the labels of a host name (RFC 1123, section 2.1).
  predicate IsHostCharacter(c: char) {
    c in "ABCDEFGHIJKLMNOPQRSTUVWXYZ" + "abcdefghijklmnopqrstuvwxyz" + "0123456789" + "-"
  }

  lemma HostCharacters(c: char)
    ensures IsLabelChar(c) <==> IsHostCharacter(c)
    ensures IsAlpha(c) <==> c in "ABCDEFGHIJKLMNOPQRSTUVWXYZ" + "abcdefghijklmnopqrstuvwxyz"
  {
    CharacterClasses(c);
  }

  predicate IsHostLabel(f: string) {
    && 1 <= |f| <= 63 && f[0] != '-' && f[|f| - 1] != '-'
    && forall k :: 0 <= k < |f| ==> IsHostCharacter(f[k])
  }

  predicate HasLetter(f: string) {
    exists k :: 0 <= k < |f| && f[k] in "ABCDEFGHIJKLMNOPQRSTUVWXYZ" + "abcdefghijklmnopqrstuvwxyz"
  }

  lemma LabelCharacters(f: string)
    ensures IsLabel(f) <==> IsHostLabel(f)
  {
    hide IsLabelChar, IsHostCharacter;
    forall k | 0 <= k < |f| ensures IsLabelChar(f[k]) <==> IsHostCharacter(f[k]) {
      HostCharacters(f[k]);
    }
  }

  // The domains are the host names of at most 253 characters, with a dot, whose last label has a letter.
  lemma DomainGrammar(s: string)
    ensures IsDomain(s) <==>
            var labels := Split(s, '.');
            && |s| <= 253 && |labels| >= 2
            && (forall k :: 0 <= k < |labels| ==> IsHostLabel(labels[k]))
            && HasLetter(labels[|labels| - 1])
  {
    hide IsLabel, IsHostLabel, Split, HasAlpha, HasLetter;
    var labels := Split(s, '.');
    forall k | 0 <= k < |labels| ensures IsLabel(labels[k]) <==> IsHostLabel(labels[k]) {
      LabelCharacters(labels[k]);
    }
    LettersOf(labels[|labels| - 1]);
  }

  lemma LettersOf(f: string)
    ensures HasAlpha(f) <==> HasLetter(f)
  {
    hide IsAlpha;
    forall j | 0 <= j < |f|
      ensures IsAlpha(f[j]) <==> f[j] in "ABCDEFGHIJKLMNOPQRSTUVWXYZ" + "abcdefghijklmnopqrstuvwxyz"
    {
      HostCharacters(f[j]);
    }
  }

  // ---------------------------------------------------------------- the two together

  lemma DomainHasNoColon(s: string)
    requires IsDomain(s)
    ensures ':' !in s
  {
    var labels := Split(s, '.');
    SplitCharacters(s, '.', ':');
    forall f | f in labels ensures ':' !in f {
      var k :| 0 <= k < |labels| && labels[k] == f;
      assert IsLabel(labels[k]);
    }
  }

  // No string is both; hence the address check inside the domain check never changes its answer.
  lemma Disjoint(s: string)
    ensures !(IsIp(s) && IsDomain(s))
  {
    if IsDomain(s) {
      DomainHasNoColon(s);
      var labels := Split(s, '.');
      var last := labels[|labels| - 1];
      var k :| 0 <= k < |last| && IsAlpha(last[k]);
      assert !IsOctet(last);
    }
  }

  // ---------------------------------------------------------------- printed addresses

  function DigitChars(ds: seq<nat>): (f: string)
    requires DigitsBelow(ds, 10)
    ensures |f| == |ds| && forall k :: 0 <= k < |f| ==> f[k] == (ds[k] + '0' as int) as char
  {
    seq(|ds|, i requires 0 <= i < |ds| => (ds[i] + '0' as int) as char)
  }

  // The decimal numeral of n with the given number of digits, leading zeros included.
  function Decimal(n: nat, width: nat): string {
    DigitChars(Digits(10, n, width))
  }

  function PrintOctet(n: nat): string
    requires n < 256
  {
    Decimal(n, if n < 10 then 1 else if n < 100 then 2 else 3)
  }

  // The octets are the decimal numerals of 0 to 255, with leading zeros up to three digits.
  lemma OctetIff(f: string)
    ensures IsOctet(f) <==> exists n: nat, width: nat :: n <= 255 && 1 <= width <= 3 && f == Decimal(n, width)
  {
    if IsOctet(f) {
      DigitsOfNumber(10, DigitValues(f));
      assert f == Decimal(Number(10, DigitValues(f)), |f|);
    }
    if n: nat, width: nat :| n <= 255 && 1 <= width <= 3 && f == Decimal(n, width) {
      assert DigitValues(f) == Digits(10, n, width);
      NumeralAtMost(n, width);
    }
  }

  // The last digits of a number denote no more than the number.
  lemma {:induction false} NumeralAtMost(n: nat, width: nat)
    ensures Number(10, Digits(10, n, width)) <= n
  {
    hide Number, Digits;
    if width == 0 {
      NoDigits(n);
    } else {
      NumeralAtMost(n / 10, width - 1);
      OneMoreDigit(n, width - 1);
    }
  }

  lemma NoDigits(n: nat)
    ensures Number(10, Digits(10, n, 0)) == 0
  {
  }

  lemma PrintedOctet(n: nat)
    requires n < 256
    ensures var f := PrintOctet(n); IsOctet(f) && Number(10, DigitValues(f)) == n && '.' !in f && ':' !in f
  {
    hide Digits, Number;
    var ds := Digits(10, n, if n < 10 then 1 else if n < 100 then 2 else 3);
    assert DigitValues(DigitChars(ds)) == ds;
    ThreeDigits(n);
  }

  lemma ThreeDigits(n: nat)
    ensures n < 1000 ==> Number(10, Digits(10, n, 3)) == n
    ensures n < 100 ==> Number(10, Digits(10, n, 2)) == n
    ensures n < 10 ==> Number(10, Digits(10, n, 1)) == n
  {
    hide Number, Digits;
    OneMoreDigit(n, 0);
    OneMoreDigit(n / 10, 0);
    OneMoreDigit(n, 1);
    OneMoreDigit(n / 10 / 10, 0);
    OneMoreDigit(n / 10, 1);
    OneMoreDigit(n, 2);
  }

  lemma OneMoreDigit(n: nat, count: nat)
    ensures Number(10, Digits(10, n, count + 1)) == 10 * Number(10, Digits(10, n / 10, count)) + n % 10
    ensures Number(10, Digits(10, n / 10, 0)) == 0
  {
    hide Number;
    assert Number(10, []) == 0 by { NumberNothing(); }
    NumberNext(10, Digits(10, n / 10, count), n % 10);
  }

  lemma NumberNothing()
    ensures Number(10, []) == 0
  {
  }

  // Every address printed in the usual way is accepted, and read with the values printed.
  lemma PrintedAddress(a: nat, b: nat, c: nat, d: nat)
    requires a < 256 && b < 256 && c < 256 && d < 256
    ensures var fields := [PrintOctet(a), PrintOctet(b), PrintOctet(c), PrintOctet(d)];
            IsIp(Join(fields, '.')) && Split(Join(fields, '.'), '.') == fields
  {
    hide PrintOctet, IsOctet, Split, Join;
    var fields := [PrintOctet(a), PrintOctet(b), PrintOctet(c), PrintOctet(d)];
    PrintedOctet(a);
    PrintedOctet(b);
    PrintedOctet(c);
    PrintedOctet(d);
    SplitJoin(fields, '.');
    SplitCharacters(Join(fields, '.'), '.', ':');
  }
}
