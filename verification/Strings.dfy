// Vocabulary shared by every module: C++ byte strings, cutting a string into fields at a
// separator, and gluing fields back together.
module Strings {

  datatype Option<+T> = None | Some(value: T)

  // A C++ `std::string` holds bytes; a byte is written as the character of its code.
  type Byte = c: char | c as int < 256 witness 'A'
  type ByteString = seq<Byte>

  const UPPER := "ABCDEFGHIJKLMNOPQRSTUVWXYZ"
  const LOWER := "abcdefghijklmnopqrstuvwxyz"
  const DIGITS := "0123456789"

  // `s.find(pattern) != std::string::npos`
  predicate Contains(s: string, pattern: string) {
    exists i :: 0 <= i <= |s| && pattern <= s[i..]
  }

  lemma ContainsIff(s: string, pattern: string)
    ensures Contains(s, pattern) <==> exists a, b :: s == a + pattern + b
  {
    if i :| 0 <= i <= |s| && pattern <= s[i..] {
      assert s == s[..i] + pattern + s[i + |pattern|..];
    }
    if a, b :| s == a + pattern + b {
      assert s[|a|..] == pattern + b;
    }
  }

  predicate IsDigit(c: char) { '0' <= c <= '9' }
  predicate IsLower(c: char) { 'a' <= c <= 'z' }
  predicate IsUpper(c: char) { 'A' <= c <= 'Z' }
  predicate IsAlpha(c: char) { IsLower(c) || IsUpper(c) }
  predicate IsAlnum(c: char) { IsAlpha(c) || IsDigit(c) }
  predicate IsHexDigit(c: char) { IsDigit(c) || 'a' <= c <= 'f' || 'A' <= c <= 'F' }

  lemma UpperTable(v: nat)
    requires v < 26
    ensures |UPPER| == 26 && UPPER[v] as int == 'A' as int + v
  {
  }

  lemma LowerTable(v: nat)
    requires v < 26
    ensures |LOWER| == 26 && LOWER[v] as int == 'a' as int + v
  {
  }

  lemma DigitTable(v: nat)
    requires v < 10
    ensures |DIGITS| == 10 && DIGITS[v] as int == '0' as int + v
  {
  }

  // A run of consecutive characters is the range between its ends.
  lemma CharactersOfRun(run: string, first: char, c: char)
    requires forall k :: 0 <= k < |run| ==> run[k] as int == first as int + k
    ensures c in run <==> first as int <= c as int < first as int + |run|
  {
    if first as int <= c as int < first as int + |run| {
      assert run[c as int - first as int] == c;
    }
  }

  // The classes the comparisons with range ends decide, character by character.
  lemma CharacterClasses(c: char)
    ensures IsUpper(c) <==> c in "ABCDEFGHIJKLMNOPQRSTUVWXYZ"
    ensures IsLower(c) <==> c in "abcdefghijklmnopqrstuvwxyz"
    ensures IsDigit(c) <==> c in "0123456789"
    ensures IsHexDigit(c) <==> c in "0123456789" + "abcdef" + "ABCDEF"
  {
    IsInUpper(c);
    IsInLower(c);
    IsInDigits(c);
    CharactersOfRun("abcdef", 'a', c);
    CharactersOfRun("ABCDEF", 'A', c);
  }

  lemma IsInUpper(c: char)
    ensures c in UPPER <==> 'A' <= c <= 'Z'
  {
    hide UPPER;
    forall k | 0 <= k < |UPPER| ensures UPPER[k] as int == 'A' as int + k {
      UpperTable(0);
      UpperTable(k);
    }
    UpperTable(0);
    CharactersOfRun(UPPER, 'A', c);
  }

  lemma IsInLower(c: char)
    ensures c in LOWER <==> 'a' <= c <= 'z'
  {
    hide LOWER;
    forall k | 0 <= k < |LOWER| ensures LOWER[k] as int == 'a' as int + k {
      LowerTable(0);
      LowerTable(k);
    }
    LowerTable(0);
    CharactersOfRun(LOWER, 'a', c);
  }

  lemma IsInDigits(c: char)
    ensures c in DIGITS <==> '0' <= c <= '9'
  {
    hide DIGITS;
    forall k | 0 <= k < |DIGITS| ensures DIGITS[k] as int == '0' as int + k {
      DigitTable(0);
      DigitTable(k);
    }
    DigitTable(0);
    CharactersOfRun(DIGITS, '0', c);
  }

  // The fields of `s` between occurrences of `sep`; there is always at least one.
  function Split(s: string, sep: char): (fields: seq<string>)
    ensures |fields| >= 1
  {
    if s == [] then [[]]
    else
      var fields := Split(s[..|s| - 1], sep);
      var c := s[|s| - 1];
      if c == sep then fields + [[]]
      else fields[..|fields| - 1] + [fields[|fields| - 1] + [c]]
  }

  // `fields` in order with `sep` between neighbours: the inverse of Split.
  function Join(fields: seq<string>, sep: char): string {
    if fields == [] then []
    else if |fields| == 1 then fields[0]
    else Join(fields[..|fields| - 1], sep) + [sep] + fields[|fields| - 1]
  }

  lemma JoinSingle(f: string, sep: char)
    ensures Join([f], sep) == f
  {
  }

  // One more field goes behind a separator.
  lemma JoinPush(fields: seq<string>, f: string, sep: char)
    requires fields != []
    ensures Join(fields + [f], sep) == Join(fields, sep) + [sep] + f
  {
    assert (fields + [f])[..|fields|] == fields;
  }

  // A longer last field lengthens the whole.
  lemma JoinGrow(fields: seq<string>, f: string, c: char, sep: char)
    ensures Join(fields + [f + [c]], sep) == Join(fields + [f], sep) + [c]
  {
    hide Join;
    if fields == [] {
      assert [] + [f + [c]] == [f + [c]] && [] + [f] == [f];
      JoinSingle(f, sep);
      JoinSingle(f + [c], sep);
    } else {
      JoinPush(fields, f, sep);
      JoinPush(fields, f + [c], sep);
    }
  }

  // Reading one more character either closes the current field or lengthens it.
  lemma SplitNext(s: string, i: nat, sep: char)
    requires i < |s|
    ensures var f := Split(s[..i], sep);
            Split(s[..i + 1], sep) ==
            if s[i] == sep then f + [[]] else f[..|f| - 1] + [f[|f| - 1] + [s[i]]]
  {
    assert s[..i + 1][..i] == s[..i];
  }

  // What a left-to-right scan has seen of the fields is final: closed fields stay, and the
  // open one is a prefix of the field it becomes.
  lemma {:induction false} SplitExtends(s: string, i: nat, sep: char)
    requires i <= |s|
    ensures var f, g := Split(s[..i], sep), Split(s, sep);
            && |f| <= |g|
            && f[..|f| - 1] == g[..|f| - 1]
            && f[|f| - 1] <= g[|f| - 1]
    decreases |s| - i
  {
    hide Split;
    if i == |s| {
      assert s[..i] == s;
    } else {
      SplitNext(s, i, sep);
      SplitExtends(s, i + 1, sep);
      var f, h, g := Split(s[..i], sep), Split(s[..i + 1], sep), Split(s, sep);
      forall k | 0 <= k < |f| - 1 ensures f[k] == g[k] {
        assert h[..|h| - 1][k] == g[..|h| - 1][k];
      }
      if s[i] == sep {
        assert h[..|h| - 1][|f| - 1] == g[..|h| - 1][|f| - 1];
      }
    }
  }

  // Appending a separator and then separator-free fields appends exactly those fields.
  lemma {:induction false} SplitAppendField(a: string, b: string, sep: char)
    requires sep !in b
    ensures Split(a + [sep] + b, sep) == Split(a, sep) + [b]
  {
    var s := a + [sep] + b;
    if b == [] {
      assert s[..|s| - 1] == a;
    } else {
      var b' := b[..|b| - 1];
      assert s[..|s| - 1] == a + [sep] + b';
      SplitAppendField(a, b', sep);
      assert b == b' + [b[|b| - 1]];
    }
  }

  lemma {:induction false} SplitSingle(b: string, sep: char)
    requires sep !in b
    ensures Split(b, sep) == [b]
  {
    if b != [] {
      SplitSingle(b[..|b| - 1], sep);
      assert b == b[..|b| - 1] + [b[|b| - 1]];
    }
  }

  lemma {:induction false} SplitAppendJoin(a: string, fields: seq<string>, sep: char)
    requires fields != []
    requires forall f :: f in fields ==> sep !in f
    ensures Split(a + [sep] + Join(fields, sep), sep) == Split(a, sep) + fields
  {
    hide Split, Join;
    var init, last := fields[..|fields| - 1], fields[|fields| - 1];
    assert fields == init + [last];
    if init == [] {
      assert fields == [last];
      JoinSingle(last, sep);
      SplitAppendField(a, last, sep);
    } else {
      var head := a + [sep] + Join(init, sep);
      SplitAppendJoin(a, init, sep);
      SplitAppendField(head, last, sep);
      JoinPush(init, last, sep);
      assert head + [sep] + last == a + [sep] + Join(fields, sep);
    }
  }

  lemma {:induction false} SplitJoin(fields: seq<string>, sep: char)
    requires fields != []
    requires forall f :: f in fields ==> sep !in f
    ensures Split(Join(fields, sep), sep) == fields
  {
    hide Split, Join;
    var init, last := fields[..|fields| - 1], fields[|fields| - 1];
    assert fields == init + [last];
    if init == [] {
      assert fields == [last];
      JoinSingle(last, sep);
      SplitSingle(last, sep);
    } else {
      SplitJoin(init, sep);
      JoinPush(init, last, sep);
      SplitAppendField(Join(init, sep), last, sep);
    }
  }

  // Every character of the string is a separator or belongs to some field, and vice versa.
  lemma {:induction false} SplitCharacters(s: string, sep: char, c: char)
    ensures c != sep ==> (c in s <==> exists f :: f in Split(s, sep) && c in f)
    ensures forall f :: f in Split(s, sep) ==> sep !in f
  {
    if s != [] {
      var init, last := s[..|s| - 1], s[|s| - 1];
      assert s == init + [last];
      SplitCharacters(init, sep, c);
      var f, g := Split(init, sep), Split(s, sep);
      assert forall k :: 0 <= k < |f| - 1 ==> g[k] == f[k];
      if c != sep && c in s {
        if c == last {
          assert c in g[|g| - 1];
        } else {
          var x :| x in f && c in x;
          var k :| 0 <= k < |f| && f[k] == x;
          assert c in g[k];
        }
      }
      if x :| c != sep && x in g && c in x {
        var k :| 0 <= k < |g| && g[k] == x;
        assert c in s by {
          if k < |f| && c in f[k] {}
        }
      }
    }
  }

  lemma {:induction false} JoinAppend(x: seq<string>, y: seq<string>, sep: char)
    requires x != [] && y != []
    ensures Join(x + y, sep) == Join(x, sep) + [sep] + Join(y, sep)
  {
    hide Join;
    var init, last := y[..|y| - 1], y[|y| - 1];
    assert x + y == x + init + [last];
    JoinPush(x + init, last, sep);
    if init == [] {
      assert x + init == x && y == [last];
      JoinSingle(last, sep);
    } else {
      JoinAppend(x, init, sep);
      assert y == init + [last];
      JoinPush(init, last, sep);
    }
  }

  // Cutting a string into its fields loses nothing.
  lemma {:induction false} JoinSplit(s: string, sep: char)
    ensures Join(Split(s, sep), sep) == s
  {
    hide Join;
    if s == [] {
      JoinSingle([], sep);
    } else {
      var init, c := s[..|s| - 1], s[|s| - 1];
      var f := Split(init, sep);
      JoinSplit(init, sep);
      if c == sep {
        JoinPush(f, [], sep);
      } else {
        var closed, open := f[..|f| - 1], f[|f| - 1];
        assert f == closed + [open];
        JoinGrow(closed, open, c, sep);
      }
      assert s == init + [c];
    }
  }
}
