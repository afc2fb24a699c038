// The command line of the example program: options first, then a command, then its arguments.
module Cli {
  import opened Strings

  // What the options and the command say once parsed.
  datatype Options = Options(
    apiKey: string,
    baseUrl: string,
    timeoutSeconds: int,
    verifySsl: bool,
    requestsPerMinute: real,
    command: string,
    args: seq<string>)

  // `std::stoi` and `std::stod`: a number, or None where they throw.
  datatype Numerals = Numerals(stoi: string -> Option<int>, stod: string -> Option<real>)

  // One option with its value, as written.
  datatype Group =
    | Key(value: string)
    | BaseUrl(value: string)
    | Timeout(value: string)
    | Rpm(value: string)
    | NoVerifySsl

  function Words(g: Group): (words: seq<string>)
    ensures words != []
  {
    match g
    case Key(v) => ["--key", v]
    case BaseUrl(v) => ["--base-url", v]
    case Timeout(v) => ["--timeout", v]
    case Rpm(v) => ["--rpm", v]
    case NoVerifySsl => ["--no-verify-ssl"]
  }

  function Flatten(groups: seq<Group>): seq<string> {
    if groups == [] then [] else Words(groups[0]) + Flatten(groups[1..])
  }

  predicate Convertible(g: Group, num: Numerals) {
    match g
    case Timeout(v) => num.stoi(v).Some?
    case Rpm(v) => num.stod(v).Some?
    case _ => true
  }

  function Apply(g: Group, o: Options, num: Numerals): Options
    requires Convertible(g, num)
  {
    match g
    case Key(v) => o.(apiKey := v)
    case BaseUrl(v) => o.(baseUrl := v)
    case Timeout(v) => o.(timeoutSeconds := num.stoi(v).value)
    case Rpm(v) => o.(requestsPerMinute := num.stod(v).value)
    case NoVerifySsl => o.(verifySsl := false)
  }

  predicate AllConvertible(groups: seq<Group>, num: Numerals) {
    forall k :: 0 <= k < |groups| ==> Convertible(groups[k], num)
  }

  function ApplyAll(groups: seq<Group>, o: Options, num: Numerals): Options
    requires AllConvertible(groups, num)
  {
    if groups == [] then o else ApplyAll(groups[1..], Apply(groups[0], o, num), num)
  }

  predicate IsCommand(word: string) {
    word != "" && word[0] != '-'
  }

  // The arguments are option groups, then the command, then a tail the parser leaves alone.
  predicate Decomposes(args: seq<string>, groups: seq<Group>, command: string, tail: seq<string>, num: Numerals) {
    && args == Flatten(groups) + [command] + tail
    && AllConvertible(groups, num)
    && IsCommand(command)
  }

  predicate TakesValue(word: string) {
    word == "--key" || word == "--base-url" || word == "--timeout" || word == "--rpm"
  }

  function GroupOf(flag: string, value: string): Group
    requires TakesValue(flag)
  {
    if flag == "--key" then Key(value)
    else if flag == "--base-url" then BaseUrl(value)
    else if flag == "--timeout" then Timeout(value)
    else Rpm(value)
  }

  // What reading the arguments from the front does to the options, also where it fails midway.
  function Scan(args: seq<string>, o: Options, num: Numerals): (bool, Options) {
    if args == [] then (false, o)
    else if TakesValue(args[0]) then
      if |args| == 1 || !Convertible(GroupOf(args[0], args[1]), num) then (false, o)
      else Scan(args[2..], Apply(GroupOf(args[0], args[1]), o, num), num)
    else if args[0] == "--no-verify-ssl" then Scan(args[1..], Apply(NoVerifySsl, o, num), num)
    else if args[0] != "" && args[0][0] == '-' then (false, o)
    else (args[0] != "", o.(command := args[0], args := args[1..]))
  }

  class CliOptions {
    var apiKey: string
    var baseUrl: string
    var timeoutSeconds: int
    var verifySsl: bool
    var requestsPerMinute: real
    var command: string
    var args: seq<string>

    constructor ()
      ensures View() == DefaultOptions()
    {
      apiKey := "";
      baseUrl := "https://www.virustotal.com/api/v3";
      timeoutSeconds := 30;
      verifySsl := true;
      requestsPerMinute := 4.0;
      command := "";
      args := [];
    }

    function View(): Options
      reads this
    {
      Options(apiKey, baseUrl, timeoutSeconds, verifySsl, requestsPerMinute, command, args)
    }
  }

  function DefaultOptions(): Options {
    Options("", "https://www.virustotal.com/api/v3", 30, true, 4.0, "", [])
  }

  method ParseOptions(args: seq<string>, out: CliOptions, num: Numerals) returns (ok: bool)
    modifies out
    ensures (ok, out.View()) == Scan(args, old(out.View()), num)
  {
    var i := 0;
    while i < |args|
      invariant 0 <= i <= |args|
      invariant Scan(args[i..], out.View(), num) == Scan(args, old(out.View()), num)
    {
      var arg := args[i];
      ScanStep(args, i, out.View(), num);
      if arg == "--key" || arg == "--base-url" || arg == "--timeout" || arg == "--rpm" {
        if i + 1 >= |args| {
          return false;
        }
        i := i + 1;
        var value := args[i];
        if arg == "--key" {
          out.apiKey := value;
        } else if arg == "--base-url" {
          out.baseUrl := value;
        } else if arg == "--timeout" {
          var n := num.stoi(value);
          if n.None? {
            return false;
          }
          out.timeoutSeconds := n.value;
        } else {
          var x := num.stod(value);
          if x.None? {
            return false;
          }
          out.requestsPerMinute := x.value;
        }
      } else if arg == "--no-verify-ssl" {
        out.verifySsl := false;
      } else if arg != "" && arg[0] == '-' {
        return false;
      } else {
        out.command := arg;
        out.args := args[i + 1..];
        return out.command != "";
      }
      i := i + 1;
    }
    return false;
  }

  lemma ScanStep(args: seq<string>, i: nat, o: Options, num: Numerals)
    requires i < |args|
    ensures Scan(args[i..], o, num) ==
      if TakesValue(args[i]) then
        if i + 1 == |args| || !Convertible(GroupOf(args[i], args[i + 1]), num) then (false, o)
        else Scan(args[i + 2..], Apply(GroupOf(args[i], args[i + 1]), o, num), num)
      else if args[i] == "--no-verify-ssl" then Scan(args[i + 1..], Apply(NoVerifySsl, o, num), num)
      else if args[i] != "" && args[i][0] == '-' then (false, o)
      else (args[i] != "", o.(command := args[i], args := args[i + 1..]))
  {
    assert args[i..][1..] == args[i + 1..];
    if i + 1 < |args| {
      assert args[i..][2..] == args[i + 2..];
    }
  }

  // ---------------------------------------------------------------- characterisation

  lemma ScanGroup(g: Group, rest: seq<string>, o: Options, num: Numerals)
    requires Convertible(g, num)
    ensures Scan(Words(g) + rest, o, num) == Scan(rest, Apply(g, o, num), num)
  {
    var args := Words(g) + rest;
    if g.NoVerifySsl? {
      assert args[1..] == rest;
    } else {
      assert args[2..] == rest;
      assert GroupOf(args[0], args[1]) == g;
    }
  }

  // Whatever decomposes is accepted, with the groups applied in order so that the last one wins.
  lemma {:induction false} ScanComplete(
    args: seq<string>, groups: seq<Group>, command: string, tail: seq<string>, o: Options, num: Numerals)
    requires Decomposes(args, groups, command, tail, num)
    ensures Scan(args, o, num) == (true, ApplyAll(groups, o, num).(command := command, args := tail))
    decreases groups
  {
    if groups == [] {
      assert args[0] == command && args[1..] == tail;
    } else {
      var rest := Flatten(groups[1..]) + [command] + tail;
      assert args == Words(groups[0]) + rest;
      ScanGroup(groups[0], rest, o, num);
      ScanComplete(rest, groups[1..], command, tail, Apply(groups[0], o, num), num);
    }
  }

  lemma PrependGroup(g: Group, groups: seq<Group>, command: string, tail: seq<string>, num: Numerals)
    requires Convertible(g, num)
    requires Decomposes(Flatten(groups) + [command] + tail, groups, command, tail, num)
    ensures Decomposes(Words(g) + (Flatten(groups) + [command] + tail), [g] + groups, command, tail, num)
  {
    assert ([g] + groups)[1..] == groups;
    assert Words(g) + (Flatten(groups) + [command] + tail) == Flatten([g] + groups) + [command] + tail;
  }

  // Whatever is accepted decomposes.
  lemma {:induction false} ScanSound(args: seq<string>, o: Options, num: Numerals)
    requires Scan(args, o, num).0
    ensures exists groups, command, tail :: Decomposes(args, groups, command, tail, num)
    decreases args
  {
    if TakesValue(args[0]) || args[0] == "--no-verify-ssl" {
      var g := if TakesValue(args[0]) then GroupOf(args[0], args[1]) else NoVerifySsl;
      var rest := args[|Words(g)|..];
      assert args == Words(g) + rest;
      ScanSound(rest, Apply(g, o, num), num);
      var groups, command, tail :| Decomposes(rest, groups, command, tail, num);
      PrependGroup(g, groups, command, tail, num);
    } else {
      assert args == Flatten([]) + [args[0]] + args[1..];
      assert Decomposes(args, [], args[0], args[1..], num);
    }
  }

  // There is only one way to decompose the arguments.
  lemma {:induction false} DecompositionUnique(
    args: seq<string>, groups: seq<Group>, command: string, tail: seq<string>,
    groups': seq<Group>, command': string, tail': seq<string>, num: Numerals)
    requires Decomposes(args, groups, command, tail, num)
    requires Decomposes(args, groups', command', tail', num)
    ensures groups == groups' && command == command' && tail == tail'
    decreases groups
  {
    hide Words;
    if groups == [] || groups' == [] {
      FirstWord(args, groups, command, tail, num);
      FirstWord(args, groups', command', tail', num);
      assert tail == args[1..] == tail';
    } else {
      var g, g' := groups[0], groups'[0];
      var rest, rest' := Flatten(groups[1..]) + [command] + tail, Flatten(groups'[1..]) + [command'] + tail';
      assert args == Words(g) + rest == Words(g') + rest';
      FirstGroupUnique(args, g, rest, g', rest');
      DecompositionUnique(rest, groups[1..], command, tail, groups'[1..], command', tail', num);
      assert groups == [g] + groups[1..] && groups' == [g'] + groups'[1..];
    }
  }

  lemma FirstGroupUnique(args: seq<string>, g: Group, rest: seq<string>, g': Group, rest': seq<string>)
    requires args == Words(g) + rest == Words(g') + rest'
    ensures g == g' && rest == rest'
  {
    assert args[0] == Words(g)[0] == Words(g')[0];
    if !g.NoVerifySsl? {
      assert args[1] == g.value == g'.value;
    }
    assert rest == args[|Words(g)|..] == rest';
  }

  lemma FirstWord(args: seq<string>, groups: seq<Group>, command: string, tail: seq<string>, num: Numerals)
    requires Decomposes(args, groups, command, tail, num)
    ensures args != [] && (IsCommand(args[0]) <==> groups == [])
    ensures groups == [] ==> args[0] == command && args[1..] == tail
  {
    if groups != [] {
      assert args[0] == Words(groups[0])[0];
    }
  }

  // The parser succeeds exactly on the argument lists that decompose, from any initial options.
  lemma ParsesExactly(args: seq<string>, o: Options, num: Numerals)
    ensures Scan(args, o, num).0 <==> exists groups, command, tail :: Decomposes(args, groups, command, tail, num)
  {
    if Scan(args, o, num).0 {
      ScanSound(args, o, num);
    }
    if groups, command, tail :| Decomposes(args, groups, command, tail, num) {
      ScanComplete(args, groups, command, tail, o, num);
    }
  }

  // ---------------------------------------------------------------- the last one wins

  predicate SameKind(g: Group, h: Group) {
    Words(g)[0] == Words(h)[0]
  }

  // The options hold what g sets.
  predicate Holds(g: Group, o: Options, num: Numerals)
    requires Convertible(g, num)
  {
    Apply(g, o, num) == o
  }

  lemma {:induction false} Untouched(g: Group, groups: seq<Group>, o: Options, num: Numerals)
    requires Convertible(g, num) && AllConvertible(groups, num) && Holds(g, o, num)
    requires forall k :: 0 <= k < |groups| ==> !SameKind(g, groups[k])
    ensures Holds(g, ApplyAll(groups, o, num), num)
    decreases groups
  {
    if groups != [] {
      assert !SameKind(g, groups[0]);
      Untouched(g, groups[1..], Apply(groups[0], o, num), num);
    }
  }

  // An option group decides its field unless another of its kind follows.
  lemma {:induction false} LastWins(before: seq<Group>, g: Group, after: seq<Group>, o: Options, num: Numerals)
    requires AllConvertible(before + [g] + after, num)
    requires forall k :: 0 <= k < |after| ==> !SameKind(g, after[k])
    ensures Convertible(g, num) && Holds(g, ApplyAll(before + [g] + after, o, num), num)
    decreases before
  {
    var groups := before + [g] + after;
    assert groups[|before|] == g;
    assert forall k :: 0 <= k < |after| ==> after[k] == groups[|before| + 1 + k];
    if before == [] {
      assert groups[1..] == after;
      Untouched(g, after, Apply(g, o, num), num);
    } else {
      assert groups[1..] == before[1..] + [g] + after;
      LastWins(before[1..], g, after, Apply(groups[0], o, num), num);
    }
  }

  // ---------------------------------------------------------------- what each word means

  // The five options, by name: what each sets, and that a value that is missing or no number fails.
  lemma OptionMeanings(value: string, rest: seq<string>, o: Options, num: Numerals)
    ensures Scan(["--key", value] + rest, o, num) == Scan(rest, o.(apiKey := value), num)
    ensures Scan(["--base-url", value] + rest, o, num) == Scan(rest, o.(baseUrl := value), num)
    ensures Scan(["--timeout", value] + rest, o, num) ==
            match num.stoi(value) case None => (false, o) case Some(n) => Scan(rest, o.(timeoutSeconds := n), num)
    ensures Scan(["--rpm", value] + rest, o, num) ==
            match num.stod(value) case None => (false, o) case Some(x) => Scan(rest, o.(requestsPerMinute := x), num)
    ensures Scan(["--no-verify-ssl"] + rest, o, num) == Scan(rest, o.(verifySsl := false), num)
  {
    FlagMeaning("--key", value, rest, o, num);
    FlagMeaning("--base-url", value, rest, o, num);
    FlagMeaning("--timeout", value, rest, o, num);
    FlagMeaning("--rpm", value, rest, o, num);
    ScanStep(["--no-verify-ssl"] + rest, 0, o, num);
    assert (["--no-verify-ssl"] + rest)[0..] == ["--no-verify-ssl"] + rest;
    assert (["--no-verify-ssl"] + rest)[1..] == rest;
  }

  lemma FlagMeaning(flag: string, value: string, rest: seq<string>, o: Options, num: Numerals)
    requires TakesValue(flag)
    ensures Scan([flag, value] + rest, o, num) ==
            if Convertible(GroupOf(flag, value), num) then Scan(rest, Apply(GroupOf(flag, value), o, num), num)
            else (false, o)
  {
    assert ([flag, value] + rest)[2..] == rest;
  }

  // Any other first word: an unknown option and an empty word fail, everything else is the command.
  // An option without its value fails, and so do no arguments at all.
  lemma OtherWords(word: string, rest: seq<string>, o: Options, num: Numerals)
    requires word !in ["--key", "--base-url", "--timeout", "--rpm", "--no-verify-ssl"]
    ensures Scan([word] + rest, o, num) ==
            if word != "" && word[0] == '-' then (false, o)
            else (word != "", o.(command := word, args := rest))
    ensures Scan([], o, num) == (false, o)
    ensures forall flag :: flag in ["--key", "--base-url", "--timeout", "--rpm"] ==> Scan([flag], o, num) == (false, o)
  {
    assert ([word] + rest)[1..] == rest;
  }

  // Without options the program runs on the defaults.
  lemma Defaults(command: string, args: seq<string>, num: Numerals)
    requires command != "" && command[0] != '-'
    ensures Scan([command] + args, DefaultOptions(), num) ==
            (true, Options("", "https://www.virustotal.com/api/v3", 30, true, 4.0, command, args))
  {
    OtherWords(command, args, DefaultOptions(), num);
  }

  // ---------------------------------------------------------------- printing options

  function PrintGroups(o: Options, timeout: string, rpm: string): seq<Group> {
    [Key(o.apiKey), BaseUrl(o.baseUrl), Timeout(timeout), Rpm(rpm)] + if o.verifySsl then [] else [NoVerifySsl]
  }

  function PrintOptions(o: Options, timeout: string, rpm: string): seq<string> {
    Flatten(PrintGroups(o, timeout, rpm)) + [o.command] + o.args
  }

  // Printing any options and parsing them gives the options back, for numerals that convert back.
  lemma PrintRoundTrip(o: Options, timeout: string, rpm: string, num: Numerals)
    requires IsCommand(o.command)
    requires num.stoi(timeout) == Some(o.timeoutSeconds) && num.stod(rpm) == Some(o.requestsPerMinute)
    ensures Scan(PrintOptions(o, timeout, rpm), DefaultOptions(), num) == (true, o)
  {
    hide Scan, Flatten;
    var groups := PrintGroups(o, timeout, rpm);
    ScanComplete(PrintOptions(o, timeout, rpm), groups, o.command, o.args, DefaultOptions(), num);
    PrintedGroupsApply(o, timeout, rpm, num);
  }

  // Over the defaults, the printed groups set every field but the command and its arguments.
  lemma PrintedGroupsApply(o: Options, timeout: string, rpm: string, num: Numerals)
    requires num.stoi(timeout) == Some(o.timeoutSeconds) && num.stod(rpm) == Some(o.requestsPerMinute)
    ensures AllConvertible(PrintGroups(o, timeout, rpm), num)
    ensures var r := ApplyAll(PrintGroups(o, timeout, rpm), DefaultOptions(), num);
            r.(command := o.command, args := o.args) == o
  {
    hide ApplyAll;
    var groups, d := PrintGroups(o, timeout, rpm), DefaultOptions();
    var d1 := d.(apiKey := o.apiKey);
    var d2 := d1.(baseUrl := o.baseUrl);
    var d3 := d2.(timeoutSeconds := o.timeoutSeconds);
    var d4 := d3.(requestsPerMinute := o.requestsPerMinute);
    ApplyFirst(groups, 0, d, num);
    ApplyFirst(groups, 1, d1, num);
    ApplyFirst(groups, 2, d2, num);
    ApplyFirst(groups, 3, d3, num);
    ApplyFirst(groups, 4, d4, num);
    ApplyFirst(groups, 5, Apply(NoVerifySsl, d4, num), num);
    assert groups[0..] == groups;
  }

  // The groups from place k on, one at a time.
  lemma ApplyFirst(groups: seq<Group>, k: nat, o: Options, num: Numerals)
    requires AllConvertible(groups, num)
    ensures k == |groups| ==> ApplyAll(groups[k..], o, num) == o
    ensures k < |groups| ==> ApplyAll(groups[k..], o, num) == ApplyAll(groups[k + 1..], Apply(groups[k], o, num), num)
  {
    if k < |groups| {
      assert groups[k..][1..] == groups[k + 1..];
    }
  }
}
