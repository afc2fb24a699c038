// The literals the address check is documented to accept (RFC 4291, section 2.2), and exactly
// where its scan agrees with them.
module IPv6 {
  import opened Strings
  import opened Hosts

  // ---------------------------------------------------------------- the grammar

  // Sixteen bits as one to four hex digits.
  predicate IsGroup(f: string) {
    1 <= |f| <= 4 && forall k :: 0 <= k < |f| ==> IsHexDigit(f[k])
  }

  predicate AllGroups(fs: seq<string>) {
    forall k :: 0 <= k < |fs| ==> IsGroup(fs[k])
  }

  predicate EndsDotted(fs: seq<string>) {
    fs != [] && IsIPv4(fs[|fs| - 1])
  }

  // Groups, the last of which may be a dotted quad in the place of two.
  predicate IsUnitList(fs: seq<string>) {
    forall k :: 0 <= k < |fs| ==> IsGroup(fs[k]) || (k == |fs| - 1 && IsIPv4(fs[k]))
  }

  function Size(fs: seq<string>): nat {
    |fs| + if EndsDotted(fs) then 1 else 0
  }

  ghost predicate IsUncompressed(s: string, fs: seq<string>) {
    IsUnitList(fs) && Size(fs) == 8 && s == Join(fs, ':')
  }

  // "::" in the place of one or more groups of zeros.
  ghost predicate IsCompressed(s: string, a: seq<string>, b: seq<string>) {
    AllGroups(a) && IsUnitList(b) && |a| + Size(b) <= 7 && s == Join(a, ':') + "::" + Join(b, ':')
  }

  ghost predicate IsIPv6Literal(s: string) {
    (exists fs :: IsUncompressed(s, fs)) || exists a, b :: IsCompressed(s, a, b)
  }

  // ---------------------------------------------------------------- the grammar on the fields

  // Field p is the empty one inside a "::"; no other is empty, except at an end that "::" reaches.
  predicate IsGap(fields: seq<string>, p: int) {
    && 0 < p < |fields| - 1
    && fields[p] == ""
    && forall k :: 0 <= k < |fields| && fields[k] == "" ==>
         k == p || (k == 0 && p == 1) || (k == |fields| - 1 && p == |fields| - 2)
  }

  predicate NoneEmpty(fields: seq<string>) {
    forall k :: 0 <= k < |fields| ==> fields[k] != ""
  }

  function FieldSize(fields: seq<string>): nat {
    NonEmptyCount(fields) + if EndsDotted(fields) then 1 else 0
  }

  // The empty fields stand where a literal may have them, and the others fill eight places, or at
  // most seven next to a "::".
  predicate Fits(fields: seq<string>, size: nat) {
    if NoneEmpty(fields) then size == 8 else size <= 7 && exists p :: 0 < p < |fields| - 1 && IsGap(fields, p)
  }

  predicate LiteralFields(fields: seq<string>) {
    && (forall k :: 0 <= k < |fields| && fields[k] != "" ==>
          IsGroup(fields[k]) || (k == |fields| - 1 && IsIPv4(fields[k])))
    && Fits(fields, FieldSize(fields))
  }

  // The condition for strings the scan accepts: lengths, and where the empty fields stand.
  predicate WellPlaced(fields: seq<string>) {
    (forall k :: 0 <= k < |fields| ==> |fields[k]| <= 4) && Fits(fields, NonEmptyCount(fields))
  }

  // ---------------------------------------------------------------- fields of a literal

  // The fields on one side of "::".
  function Side(fs: seq<string>): seq<string> {
    if fs == [] then [""] else fs
  }

  lemma SideJoin(fs: seq<string>)
    ensures Join(Side(fs), ':') == Join(fs, ':') && Side(fs) != []
  {
  }

  lemma CompressedJoin(a: seq<string>, b: seq<string>)
    ensures Join(Side(a) + [""] + Side(b), ':') == Join(a, ':') + "::" + Join(b, ':')
  {
    hide Join, Side;
    SideJoin(a);
    SideJoin(b);
    JoinAppend(Side(a), [""], ':');
    JoinAppend(Side(a) + [""], Side(b), ':');
    Single("");
  }

  lemma {:induction false} CountAppend(x: seq<string>, y: seq<string>)
    ensures NonEmptyCount(x + y) == NonEmptyCount(x) + NonEmptyCount(y)
  {
    if y == [] {
      assert x + y == x;
    } else {
      assert (x + y)[..|x + y| - 1] == x + y[..|y| - 1];
      CountAppend(x, y[..|y| - 1]);
    }
  }

  lemma {:induction false} CountAll(fields: seq<string>)
    ensures NoneEmpty(fields) <==> NonEmptyCount(fields) == |fields|
    ensures NonEmptyCount(fields) <= |fields|
    ensures NonEmptyCount(fields) == 0 <==> forall k :: 0 <= k < |fields| ==> fields[k] == ""
  {
    if fields != [] {
      var init := fields[..|fields| - 1];
      CountAll(init);
      assert forall k :: 0 <= k < |init| ==> init[k] == fields[k];
    }
  }

  lemma QuadCharacters(f: string)
    requires IsIPv4(f)
    ensures '.' in f && ':' !in f
  {
    if '.' !in f {
      SplitSingle(f, '.');
    }
    SplitCharacters(f, '.', ':');
    forall g | g in Split(f, '.') ensures ':' !in g {
      var k :| 0 <= k < 4 && Split(f, '.')[k] == g;
      assert IsOctet(Split(f, '.')[k]);
    }
  }

  lemma HexIsNoQuad(f: string)
    requires forall k :: 0 <= k < |f| ==> IsHexDigit(f[k])
    ensures !IsIPv4(f)
  {
    SplitSingle(f, '.');
  }

  lemma UnitHasNoColon(fs: seq<string>, f: string)
    requires IsUnitList(fs) && f in fs
    ensures f != "" && ':' !in f
  {
    hide IsIPv4;
    if IsIPv4(f) {
      QuadCharacters(f);
    }
  }

  // Splitting at the colons gives the groups back, with empty fields where "::" stands.
  lemma FieldsOfUncompressed(s: string, fs: seq<string>)
    requires IsUncompressed(s, fs)
    ensures Split(s, ':') == fs && LiteralFields(fs)
  {
    hide IsIPv4, Split, Join, IsGroup;
    forall f | f in fs ensures f != "" && ':' !in f {
      UnitHasNoColon(fs, f);
    }
    SplitJoin(fs, ':');
    UnitsNonEmpty(fs);
    CountAll(fs);
  }

  lemma FieldsOfCompressed(s: string, a: seq<string>, b: seq<string>)
    requires IsCompressed(s, a, b)
    ensures Split(s, ':') == Side(a) + [""] + Side(b) && LiteralFields(Side(a) + [""] + Side(b))
  {
    hide IsIPv4, Split, Join, IsGroup;
    var fields := Side(a) + [""] + Side(b);
    assert IsUnitList(a);
    forall f | f in fields ensures ':' !in f {
      if f in a {
        UnitHasNoColon(a, f);
      } else if f in b {
        UnitHasNoColon(b, f);
      }
    }
    CompressedJoin(a, b);
    SplitJoin(fields, ':');
    CompressedSize(a, b);
    CompressedGap(a, b);
  }

  lemma CompressedSize(a: seq<string>, b: seq<string>)
    requires AllGroups(a) && IsUnitList(b)
    ensures FieldSize(Side(a) + [""] + Side(b)) == |a| + Size(b)
  {
    hide IsIPv4, IsGroup;
    UnitsNonEmpty(a);
    UnitsNonEmpty(b);
    CountAppend(Side(a), [""]);
    CountAppend(Side(a) + [""], Side(b));
    EmptyIsNoUnit();
    CountAll(a);
    CountAll(b);
  }

  lemma CompressedGap(a: seq<string>, b: seq<string>)
    requires AllGroups(a) && IsUnitList(b)
    ensures IsGap(Side(a) + [""] + Side(b), |Side(a)|) && !NoneEmpty(Side(a) + [""] + Side(b))
  {
    hide IsIPv4, IsGroup;
    UnitsNonEmpty(a);
    UnitsNonEmpty(b);
    var fields, p := Side(a) + [""] + Side(b), |Side(a)|;
    assert fields[p] == "";
    assert forall k :: 0 <= k < |a| ==> fields[k] == a[k];
    assert b != [] ==> forall k :: p < k < |fields| ==> fields[k] == b[k - p - 1];
  }

  lemma EmptyIsNoUnit()
    ensures !IsGroup("") && !IsIPv4("")
  {
    SplitSingle("", '.');
  }

  lemma UnitsNonEmpty(fs: seq<string>)
    requires IsUnitList(fs)
    ensures NoneEmpty(fs)
  {
    EmptyIsNoUnit();
  }

  // ---------------------------------------------------------------- a literal from its fields

  lemma UncompressedOfFields(s: string)
    requires LiteralFields(Split(s, ':')) && NoneEmpty(Split(s, ':'))
    ensures IsUncompressed(s, Split(s, ':'))
  {
    hide IsIPv4, Split, Join, IsGroup;
    JoinSplit(s, ':');
    CountAll(Split(s, ':'));
  }

  // The sides of a gap, without the empty field of an end that "::" reaches.
  function Left(fields: seq<string>, p: int): seq<string>
    requires 0 < p < |fields| - 1
  {
    if fields[0] == "" then [] else fields[..p]
  }

  function Right(fields: seq<string>, p: int): seq<string>
    requires 0 < p < |fields| - 1
  {
    if fields[|fields| - 1] == "" then [] else fields[p + 1..]
  }

  lemma SidesOfGap(fields: seq<string>, p: int)
    requires IsGap(fields, p)
    ensures fields == Side(Left(fields, p)) + [""] + Side(Right(fields, p))
  {
  }

  lemma CompressedOfFields(s: string, p: int)
    requires LiteralFields(Split(s, ':')) && IsGap(Split(s, ':'), p)
    ensures IsCompressed(s, Left(Split(s, ':'), p), Right(Split(s, ':'), p))
  {
    hide IsIPv4, Split, Join, IsGroup, NonEmptyCount;
    var fields := Split(s, ':');
    var a, b := Left(fields, p), Right(fields, p);
    assert AllGroups(a);
    assert IsUnitList(b);
    SidesOfGap(fields, p);
    JoinSplit(s, ':');
    CompressedJoin(a, b);
    CompressedSize(a, b);
  }

  // ---------------------------------------------------------------- the exact conditions

  // Being a literal is a property of the fields alone, for every string.
  lemma LiteralIff(s: string)
    ensures IsIPv6Literal(s) <==> LiteralFields(Split(s, ':'))
  {
    hide Split, IsUncompressed, IsCompressed;
    var fields := Split(s, ':');
    if fs :| IsUncompressed(s, fs) {
      FieldsOfUncompressed(s, fs);
    }
    if a, b :| IsCompressed(s, a, b) {
      FieldsOfCompressed(s, a, b);
    }
    if LiteralFields(fields) {
      if NoneEmpty(fields) {
        UncompressedOfFields(s);
      } else {
        var p :| IsGap(fields, p);
        CompressedOfFields(s, p);
      }
    }
  }

  ghost predicate HasHex(s: string) {
    exists k :: 0 <= k < |s| && IsHexDigit(s[k])
  }

  lemma LiteralHasColon(s: string)
    requires IsIPv6Literal(s)
    ensures ':' in s
  {
    LiteralIff(s);
    if ':' !in s {
      SplitSingle(s, ':');
    }
  }

  // A string of hex digits and colons has a hex digit iff it has a field that is not empty.
  lemma HexIffField(s: string)
    requires AllHexOrColon(s)
    ensures HasHex(s) <==> NonEmptyCount(Split(s, ':')) >= 1
    ensures forall f, k :: f in Split(s, ':') && 0 <= k < |f| ==> IsHexDigit(f[k])
  {
    var fields := Split(s, ':');
    CountAll(fields);
    forall f, k | f in fields && 0 <= k < |f| ensures IsHexDigit(f[k]) && HasHex(s) {
      SplitCharacters(s, ':', f[k]);
      assert f[k] in f && f[k] != ':';
      var j :| 0 <= j < |s| && s[j] == f[k];
    }
    if k :| 0 <= k < |s| && IsHexDigit(s[k]) {
      SplitCharacters(s, ':', s[k]);
      var f :| f in fields && s[k] in f;
      assert f != "";
    }
    if NonEmptyCount(fields) >= 1 {
      var k :| 0 <= k < |fields| && fields[k] != "";
      assert fields[k] in fields && 0 <= 0 < |fields[k]|;
    }
  }

  lemma UndottedLiteralCharacters(s: string)
    requires LiteralFields(Split(s, ':')) && '.' !in s
    ensures AllHexOrColon(s) && !EndsDotted(Split(s, ':'))
  {
    hide IsIPv4, Split;
    var fields := Split(s, ':');
    forall f | f in fields ensures !IsIPv4(f) {
      SplitCharacters(s, ':', '.');
      if IsIPv4(f) {
        QuadCharacters(f);
      }
    }
    forall k | 0 <= k < |s| ensures IsHexDigit(s[k]) || s[k] == ':' {
      SplitCharacters(s, ':', s[k]);
      if s[k] != ':' {
        var f :| f in fields && s[k] in f;
        assert IsGroup(f);
      }
    }
  }

  // Of the literals, the scan accepts exactly those with a hex digit and without a dotted tail.
  lemma AcceptedAmongLiterals(s: string)
    requires IsIPv6Literal(s)
    ensures IsIp(s) <==> '.' !in s && HasHex(s)
  {
    hide Split;
    LiteralIff(s);
    LiteralHasColon(s);
    if '.' in s {
      var k :| 0 <= k < |s| && s[k] == '.';
      assert !IsHexDigit(s[k]);
    } else {
      UndottedLiteralCharacters(s);
      HexIffField(s);
    }
  }

  // Of the strings the scan accepts for their colons, the literals are exactly those whose fields
  // have at most four characters and whose empty fields stand where one "::" puts them.
  lemma LiteralsAmongAccepted(s: string)
    requires ':' in s && IsIp(s)
    ensures IsIPv6Literal(s) <==> WellPlaced(Split(s, ':'))
  {
    hide Split, IsIPv4;
    var fields := Split(s, ':');
    LiteralIff(s);
    HexIffField(s);
    forall k | 0 <= k < |fields| ensures !IsIPv4(fields[k]) {
      assert fields[k] in fields;
      HexIsNoQuad(fields[k]);
    }
    forall k | 0 <= k < |fields| && fields[k] != "" ensures IsGroup(fields[k]) <==> |fields[k]| <= 4 {
      assert fields[k] in fields;
    }
  }

  // The literals it refuses: the unspecified address, and every literal with a dotted tail.
  lemma RefusedLiterals(s: string)
    ensures IsIPv6Literal(s) && !IsIp(s) <==> s == "::" || ('.' in s && LiteralFields(Split(s, ':')))
  {
    hide Split;
    LiteralIff(s);
    Unspecified();
    if IsIPv6Literal(s) {
      AcceptedAmongLiterals(s);
      if '.' !in s && !HasHex(s) {
        UndottedLiteralCharacters(s);
        HexIffField(s);
        OnlyEmptyFields(s);
      }
    }
  }

  lemma Unspecified()
    ensures IsIPv6Literal("::") && !HasHex("::") && '.' !in "::" && !IsIp("::")
  {
    assert IsCompressed("::", [], []);
    AcceptedAmongLiterals("::");
  }

  lemma OnlyEmptyFields(s: string)
    requires LiteralFields(Split(s, ':')) && NonEmptyCount(Split(s, ':')) == 0
    ensures s == "::"
  {
    hide Split, Join;
    var fields := Split(s, ':');
    CountAll(fields);
    EmptyIsNoUnit();
    var p :| IsGap(fields, p);
    assert |fields| == 3 by {
      assert fields[0] == "" && fields[|fields| - 1] == "";
    }
    assert fields == Side([]) + [""] + Side([]);
    JoinSplit(s, ':');
    CompressedJoin([], []);
    assert Join([], ':') == "" by { JoinNone(); }
  }

  lemma JoinNone()
    ensures Join([], ':') == ""
  {
  }

  lemma NoFieldInUnspecified()
    ensures AllHexOrColon("::") && NonEmptyCount(Split("::", ':')) == 0
  {
    hide Split;
    Unspecified();
    HexIffField("::");
  }

  // The scan and the documented grammar agree on a string with a colon exactly here: of strings of
  // hex digits and colons, on those without a digit but "::", on those with too many fields for
  // either, and on those whose fields are well placed; of all others, on those that are no literal
  // with a dotted tail.
  lemma AgreesExactly(s: string)
    requires ':' in s
    ensures var fields := Split(s, ':');
            var n := NonEmptyCount(fields);
            (IsIp(s) <==> IsIPv6Literal(s)) <==>
            if AllHexOrColon(s) then (if n == 0 then s != "::" else n > 8 || WellPlaced(fields))
            else !('.' in s && LiteralFields(fields))
  {
    hide IsIPv6Literal, WellPlaced, LiteralFields, Split, NonEmptyCount;
    NoFieldInUnspecified();
    if IsIp(s) {
      LiteralsAmongAccepted(s);
    } else {
      RefusedLiterals(s);
    }
  }

  // ---------------------------------------------------------------- both families are inhabited

  // Every address printed behind "::ffff:" is a literal, and is refused.
  lemma MappedAddressRefused(a: nat, b: nat, c: nat, d: nat)
    requires a < 256 && b < 256 && c < 256 && d < 256
    ensures var quad := Join([PrintOctet(a), PrintOctet(b), PrintOctet(c), PrintOctet(d)], '.');
            IsIPv6Literal("::ffff:" + quad) && !IsIp("::ffff:" + quad)
  {
    hide PrintOctet, Split, IsIPv4;
    var quad := Join([PrintOctet(a), PrintOctet(b), PrintOctet(c), PrintOctet(d)], '.');
    var s := "::ffff:" + quad;
    PrintedQuad(a, b, c, d);
    QuadCharacters(quad);
    assert IsGroup("ffff");
    JoinAppend(["ffff"], [quad], ':');
    assert ["ffff"] + [quad] == ["ffff", quad];
    assert IsUnitList(["ffff", quad]);
    assert s == Join([], ':') + "::" + Join(["ffff", quad], ':');
    assert IsCompressed(s, [], ["ffff", quad]);
    var k :| 0 <= k < |quad| && quad[k] == '.';
    assert s[7 + k] == '.';
    AcceptedAmongLiterals(s);
  }

  lemma PrintedQuad(a: nat, b: nat, c: nat, d: nat)
    requires a < 256 && b < 256 && c < 256 && d < 256
    ensures IsIPv4(Join([PrintOctet(a), PrintOctet(b), PrintOctet(c), PrintOctet(d)], '.'))
  {
    hide PrintOctet, IsOctet, Split, Join;
    var fields := [PrintOctet(a), PrintOctet(b), PrintOctet(c), PrintOctet(d)];
    PrintedOctet(a);
    PrintedOctet(b);
    PrintedOctet(c);
    PrintedOctet(d);
    SplitJoin(fields, '.');
  }

  // Too long a group, two "::", and three colons in a row all pass, and none is a literal.
  lemma AcceptedNonLiterals()
    ensures IsIp("12345:") && !IsIPv6Literal("12345:")
    ensures IsIp("1::2::3") && !IsIPv6Literal("1::2::3")
    ensures IsIp(":::1") && !IsIPv6Literal(":::1")
  {
    LongGroup();
    TwoGaps();
    ThreeColons();
  }

  lemma Push(fs: seq<string>, f: string)
    requires fs != []
    ensures Join(fs + [f], ':') == Join(fs, ':') + ":" + f
    ensures NonEmptyCount(fs + [f]) == NonEmptyCount(fs) + if f == "" then 0 else 1
  {
    hide Join;
    JoinPush(fs, f, ':');
    assert (fs + [f])[..|fs|] == fs;
  }

  lemma Single(f: string)
    ensures Join([f], ':') == f && NonEmptyCount([f]) == if f == "" then 0 else 1
  {
    JoinSingle(f, ':');
  }

  lemma LongGroup()
    ensures IsIp("12345:") && !IsIPv6Literal("12345:")
  {
    hide Split, IsIPv4, Join, NonEmptyCount;
    var s, fields := "12345:", ["12345", ""];
    Single("12345");
    Push(["12345"], "");
    assert ["12345"] + [""] == fields;
    SplitJoin(fields, ':');
    assert Join(fields, ':') == s;
    assert AllHexOrColon(s);
    assert s[5] == ':' && |fields[0]| == 5;
    LiteralsAmongAccepted(s);
  }

  lemma TwoGaps()
    ensures IsIp("1::2::3") && !IsIPv6Literal("1::2::3")
  {
    hide Split, IsIPv4, Join, NonEmptyCount;
    var s, fields := "1::2::3", ["1", "", "2", "", "3"];
    Single("1");
    Push(["1"], "");
    Push(["1"] + [""], "2");
    Push(["1"] + [""] + ["2"], "");
    Push(["1"] + [""] + ["2"] + [""], "3");
    assert ["1"] + [""] + ["2"] + [""] + ["3"] == fields;
    SplitJoin(fields, ':');
    assert Join(fields, ':') == s;
    assert AllHexOrColon(s);
    assert s[1] == ':' && fields[1] == "" && fields[3] == "";
    LiteralsAmongAccepted(s);
  }

  lemma ThreeColons()
    ensures IsIp(":::1") && !IsIPv6Literal(":::1")
  {
    hide Split, IsIPv4, Join, NonEmptyCount;
    var s, fields := ":::1", ["", "", "", "1"];
    Single("");
    Push([""], "");
    Push([""] + [""], "");
    Push([""] + [""] + [""], "1");
    assert [""] + [""] + [""] + ["1"] == fields;
    SplitJoin(fields, ':');
    assert Join(fields, ':') == s;
    assert AllHexOrColon(s);
    assert s[1] == ':' && fields[0] == "" && fields[1] == "" && fields[2] == "";
    LiteralsAmongAccepted(s);
  }
}
