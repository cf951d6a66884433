/** The command line of capable/src/main.rs: the quote handling applied to
    every word of the command to run (`remove_outer_quotes`,
    `escape_parser_string`), the decimal parse behind `-s`, the value of
    `-c`, and the option loop `getopt`. */
module Cli {
  import opened Util
  import opened CapableCommon
  import opened Caps

  // ---------------------------------------------------------------------
  // Quotes

  /** `s` is wrapped in a matching pair of double or single quotes. */
  predicate OuterQuoted(s: string) {
    |s| >= 2 && ((s[0] == '"' && s[|s| - 1] == '"') || (s[0] == '\'' && s[|s| - 1] == '\''))
  }

  /** `r` is `s` with `k` characters removed at each end. */
  predicate PeeledBy(s: string, r: string, k: int) {
    0 <= k && 2 * k <= |s| && r == s[k..|s| - k]
  }

  /** `remove_outer_quotes`: peels matching outer quote pairs, of either
      kind, as long as there are any. (The source tests the byte length; a
      string that starts and ends with an ASCII quote has at least two bytes
      exactly when it has at least two characters.) */
  function RemoveOuterQuotes(s: string): (r: string)
    ensures !OuterQuoted(r)
    decreases |s|
  {
    if |s| >= 2 && s[0] == '"' && s[|s| - 1] == '"' then RemoveOuterQuotes(s[1..|s| - 1])
    else if |s| >= 2 && s[0] == '\'' && s[|s| - 1] == '\'' then RemoveOuterQuotes(s[1..|s| - 1])
    else s
  }

  /** The result is the input with the same number of characters removed
      at each end: nothing inside is touched. */
  lemma {:induction false} RemoveOuterQuotesPeels(s: string)
    ensures exists k :: PeeledBy(s, RemoveOuterQuotes(s), k)
    decreases |s|
  {
    if OuterQuoted(s) {
      var inner := s[1..|s| - 1];
      var r := RemoveOuterQuotes(inner);
      assert RemoveOuterQuotes(s) == r;
      RemoveOuterQuotesPeels(inner);
      var k :| PeeledBy(inner, r, k);
      assert r == s[k + 1..|s| - (k + 1)] by {
        forall j | 0 <= j < |r| ensures r[j] == s[k + 1 + j] {
          assert r[j] == inner[k + j];
        }
      }
      assert PeeledBy(s, r, k + 1);
    } else {
      assert s[0..|s| - 0] == s;
      assert PeeledBy(s, RemoveOuterQuotes(s), 0);
    }
  }

  /** Stripping the quotes twice strips nothing more. */
  lemma RemoveOuterQuotesIdempotent(s: string)
    ensures RemoveOuterQuotes(RemoveOuterQuotes(s)) == RemoveOuterQuotes(s)
  {
  }

  /** A string without outer quotes is left as it is. */
  lemma RemoveOuterQuotesUnquoted(s: string)
    requires !OuterQuoted(s)
    ensures RemoveOuterQuotes(s) == s
  {
  }

  /** `.replace("\"", "\\\"")`: a backslash before every double quote. */
  function ReplaceQuotes(s: string): (r: string)
    ensures r == [] || r[0] != '"'
    decreases |s|
  {
    if s == [] then []
    else if s[0] == '"' then "\\\"" + ReplaceQuotes(s[1..])
    else [s[0]] + ReplaceQuotes(s[1..])
  }

  /** Every double quote of the escaped string follows a backslash. */
  predicate QuotesEscaped(t: string) {
    forall i {:trigger t[i]} :: 1 <= i < |t| && t[i] == '"' ==> t[i - 1] == '\\'
  }

  /** After `ReplaceQuotes` no double quote is left unescaped. */
  lemma {:induction false} ReplaceQuotesEscapes(s: string)
    ensures QuotesEscaped(ReplaceQuotes(s)) && (ReplaceQuotes(s) == [] || ReplaceQuotes(s)[0] != '"')
    decreases |s|
  {
    if s != [] {
      ReplaceQuotesEscapes(s[1..]);
      var tail := ReplaceQuotes(s[1..]);
      var head := if s[0] == '"' then "\\\"" else [s[0]];
      var r := head + tail;
      assert r == ReplaceQuotes(s);
      forall i | 1 <= i < |r| && r[i] == '"'
        ensures r[i - 1] == '\\'
      {
        if i > |head| {
          assert r[i] == tail[i - |head|] && r[i - 1] == tail[i - 1 - |head|];
        }
      }
    }
  }

  /** Reads an escaped string back: `\"` becomes `"`, every other character
      stays. */
  function UnescapeQuotes(t: string): string
    decreases |t|
  {
    if t == [] then []
    else if |t| >= 2 && t[0] == '\\' && t[1] == '"' then "\"" + UnescapeQuotes(t[2..])
    else [t[0]] + UnescapeQuotes(t[1..])
  }

  /** Escaping loses nothing: every double quote gains a backslash and
      every other character is kept, in order. */
  lemma {:induction false} UnescapeReplaceQuotes(s: string)
    ensures UnescapeQuotes(ReplaceQuotes(s)) == s
    decreases |s|
  {
    if s != [] {
      UnescapeReplaceQuotes(s[1..]);
      var tail := ReplaceQuotes(s[1..]);
      if s[0] == '"' {
        assert ReplaceQuotes(s) == "\\\"" + tail;
        assert ("\\\"" + tail)[2..] == tail;
      } else {
        assert ReplaceQuotes(s) == [s[0]] + tail;
        assert ([s[0]] + tail)[1..] == tail;
      }
    }
  }

  /** `escape_parser_string`. */
  function EscapeParserString(s: string): string {
    ReplaceQuotes(RemoveOuterQuotes(s))
  }

  /** The escaped word is the unquoted word with its double quotes escaped,
      and nothing else. */
  lemma EscapeParserStringSpec(s: string)
    ensures UnescapeQuotes(EscapeParserString(s)) == RemoveOuterQuotes(s)
  {
    UnescapeReplaceQuotes(RemoveOuterQuotes(s));
  }

  // ---------------------------------------------------------------------
  // Numbers and keywords

  /** `str::parse::<u64>`: an optional `+`, then at least one decimal
      digit, denoting a number below 2^64. A `-` sign is refused. */
  function ParseU64(s: string): Option<u64> {
    var digits := if |s| >= 1 && s[0] == '+' then s[1..] else s;
    if digits == [] || !AllDigits(digits) then None
    else
      var v := DigitsValue(digits);
      if v < 0x1_0000_0000_0000_0000 then Some(v) else None
  }

  /** `parse` reads back every number's decimal rendering, with or without
      a `+` sign. */
  lemma ParseU64Decimal(n: u64)
    ensures ParseU64(Decimal(n)) == Some(n)
    ensures ParseU64("+" + Decimal(n)) == Some(n)
  {
    assert ("+" + Decimal(n))[1..] == Decimal(n);
  }

  /** A negative sign, or nothing after the sign, is refused. */
  lemma ParseU64Refuses(s: string)
    ensures |s| >= 1 && s[0] == '-' ==> ParseU64(s) == None
    ensures s == [] || s == "+" ==> ParseU64(s) == None
  {
  }

  /** `to_ascii_uppercase`. */
  function AsciiUpper(s: string): (r: string)
    ensures |r| == |s|
  {
    seq(|s|, i requires 0 <= i < |s| => if 'a' <= s[i] <= 'z' then (s[i] as int - 32) as char else s[i])
  }

  /** `-c` takes the bounding set for "ALL" in any letter case. */
  lemma AllKeyword(s: string)
    ensures AsciiUpper(s) == "ALL"
      <==> |s| == 3 && s[0] in "aA" && s[1] in "lL" && s[2] in "lL"
  {
    if |s| == 3 && s[0] in "aA" && s[1] in "lL" && s[2] in "lL" {
      assert AsciiUpper(s) == "ALL";
    }
    if AsciiUpper(s) == "ALL" {
      assert AsciiUpper(s)[0] == 'A' && AsciiUpper(s)[1] == 'L' && AsciiUpper(s)[2] == 'L';
    }
  }

  // ---------------------------------------------------------------------
  // getopt

  /** The parsed command line. */
  datatype Cli = Cli(
    sleep: Option<u64>,
    daemon: bool,
    capabilities: CapSet,
    output: Option<string>,
    command: seq<string>)

  /** `Cli::default()`. */
  const DefaultCli: Cli := Cli(None, false, {}, None, [])

  /** The value `-c` gives: the bounding set for "ALL", otherwise the parsed
      comma-separated names, or the empty set as soon as one does not parse. */
  function CapabilitiesArg(s: string, bounding: CapSet, fromStr: string -> Option<Cap>): CapSet {
    if AsciiUpper(s) == "ALL" then bounding
    else match ParsedCapset(Split(s, ','), fromStr)
      case Success(caps) => caps
      case Failure(_) => {}
  }

  /** A name in the list of `-c` that does not parse empties the whole set. */
  lemma BadCapabilityName(s: string, bounding: CapSet, fromStr: string -> Option<Cap>, k: nat)
    requires AsciiUpper(s) != "ALL"
    requires k < |Split(s, ',')| && fromStr(Split(s, ',')[k]).None?
    ensures CapabilitiesArg(s, bounding, fromStr) == {}
  {
  }

  /** With every name parsing, `-c` gives exactly the named capabilities. */
  lemma GoodCapabilityNames(s: string, bounding: CapSet, fromStr: string -> Option<Cap>, c: Cap)
    requires AsciiUpper(s) != "ALL"
    requires forall k :: 0 <= k < |Split(s, ',')| ==> fromStr(Split(s, ',')[k]).Some?
    ensures c in CapabilitiesArg(s, bounding, fromStr)
      <==> exists k :: 0 <= k < |Split(s, ',')| && fromStr(Split(s, ',')[k]) == Some(c)
  {
    var parts := Split(s, ',');
    var caps := set k | 0 <= k < |parts| :: fromStr(parts[k]).value;
    assert ParsedCapset(parts, fromStr) == Success(caps);
    assert CapabilitiesArg(s, bounding, fromStr) == caps;
    if c in caps {
      var k :| 0 <= k < |parts| && fromStr(parts[k]).value == c;
      assert 0 <= k < |Split(s, ',')| && fromStr(Split(s, ',')[k]) == Some(c);
    } else {
      forall k | 0 <= k < |parts| ensures fromStr(parts[k]) != Some(c) {
        assert fromStr(parts[k]).value in caps;
      }
    }
  }

  /** The options `getopt` knows. */
  predicate IsKnownOption(arg: string) {
    arg in {"-s", "--sleep", "-d", "--daemon", "-c", "--capabilities", "-o", "--output", "-l", "--log-level"}
  }

  /** Every word of the command, escaped. */
  function Escaped(args: seq<string>): (r: seq<string>)
    ensures |r| == |args|
  {
    if args == [] then [] else [EscapeParserString(args[0])] + Escaped(args[1..])
  }

  /** The command keeps the words in order, each escaped on its own. */
  lemma {:induction false} EscapedWords(args: seq<string>, k: nat)
    requires k < |args|
    ensures Escaped(args)[k] == EscapeParserString(args[k])
  {
    if k > 0 {
      EscapedWords(args[1..], k - 1);
    }
  }

  /** `cli` with the escaped `words` appended to its command. */
  function WithCommand(cli: Cli, words: seq<string>): Cli {
    cli.(command := cli.command + Escaped(words))
  }

  /** The arguments left once the known option `args[0]` and its value, if
      it takes one, are read; an option missing its value reads nothing. */
  function AfterOption(args: seq<string>): (r: seq<string>)
    requires args != []
    ensures |r| < |args| && r == args[|args| - |r|..]
  {
    if args[0] == "-d" || args[0] == "--daemon" || |args| < 2 then args[1..] else args[2..]
  }

  /** The effect of the known option `args[0]`, with `args[1]` as its value
      if there is one. `-l` only sets the log level of the environment. */
  function ApplyOption(args: seq<string>, cli: Cli, bounding: CapSet, fromStr: string -> Option<Cap>): (r: Cli)
    requires args != []
    ensures r.command == cli.command
  {
    var arg := args[0];
    var value := if |args| >= 2 then Some(args[1]) else None;
    if arg == "-s" || arg == "--sleep" then
      cli.(sleep := if value.Some? then ParseU64(value.value) else None)
    else if arg == "-d" || arg == "--daemon" then
      cli.(daemon := true)
    else if arg == "-c" || arg == "--capabilities" then
      cli.(capabilities := if value.Some? then CapabilitiesArg(value.value, bounding, fromStr) else {})
    else if arg == "-o" || arg == "--output" then
      cli.(output := value)
    else
      cli
  }

  /** The option loop of `getopt` on the arguments `args` still to read,
      with the options read so far in `cli`. */
  function ParseArgs(args: seq<string>, cli: Cli, bounding: CapSet, fromStr: string -> Option<Cap>): Result<Cli, string>
    decreases |args|
  {
    if args == [] then Success(cli)
    else if IsKnownOption(args[0]) then
      ParseArgs(AfterOption(args), ApplyOption(args, cli, bounding, fromStr), bounding, fromStr)
    else if StartsWith(args[0], "-") then
      Failure("Unknown option: " + args[0])
    else
      Success(WithCommand(cli, args))
  }

  /** What `getopt` returns for the whole argument vector; `argv[0]`, the
      program name, is skipped. */
  function Options(argv: seq<string>, bounding: CapSet, fromStr: string -> Option<Cap>): Result<Cli, string> {
    ParseArgs(if argv == [] then [] else argv[1..], DefaultCli, bounding, fromStr)
  }

  /** One arm of the `match` of `getopt` for a known option at `argv[i]`:
      reads its value, if it takes one and there is one, and records it. */
  method ReadOption(argv: seq<string>, i: nat, args: Cli, bounding: CapSet, fromStr: string -> Option<Cap>)
    returns (j: nat, args': Cli)
    requires i < |argv| && IsKnownOption(argv[i])
    ensures j <= |argv| && argv[j..] == AfterOption(argv[i..])
    ensures args' == ApplyOption(argv[i..], args, bounding, fromStr)
  {
    var arg := argv[i];
    assert argv[i..][0] == arg;
    j := i + 1;
    args' := args;
    if arg == "-s" || arg == "--sleep" {
      if j < |argv| {
        args' := args.(sleep := ParseU64(argv[j]));
        j := j + 1;
      } else {
        args' := args.(sleep := None);
      }
    } else if arg == "-d" || arg == "--daemon" {
      args' := args.(daemon := true);
    } else if arg == "-c" || arg == "--capabilities" {
      if j < |argv| {
        var s := argv[j];
        j := j + 1;
        if AsciiUpper(s) == "ALL" {
          args' := args.(capabilities := bounding);
        } else {
          var parsed := ParseCapsetIter(Split(s, ','), fromStr);
          args' := args.(capabilities := if parsed.Success? then parsed.value else {});
        }
      } else {
        args' := args.(capabilities := {});
      }
    } else if arg == "-o" || arg == "--output" {
      if j < |argv| {
        args' := args.(output := Some(argv[j]));
        j := j + 1;
      } else {
        args' := args.(output := None);
      }
    } else {
      if j < |argv| {
        j := j + 1;
      }
    }
  }

  /** `getopt`: reads options until the first word that is not one, then
      takes that word and all the rest, escaped, as the command. */
  method Getopt(argv: seq<string>, bounding: CapSet, fromStr: string -> Option<Cap>) returns (r: Result<Cli, string>)
    ensures r == Options(argv, bounding, fromStr)
  {
    ghost var target := Options(argv, bounding, fromStr);
    var args := DefaultCli;
    var i := if argv == [] then 0 else 1;
    while i < |argv|
      invariant 0 <= i <= |argv|
      invariant target == ParseArgs(argv[i..], args, bounding, fromStr)
    {
      var arg := argv[i];
      if IsKnownOption(arg) {
        OptionStep(argv, i, args, bounding, fromStr);
        i, args := ReadOption(argv, i, args, bounding, fromStr);
      } else if StartsWith(arg, "-") {
        UnknownStep(argv, i, args, bounding, fromStr);
        return Failure("Unknown option: " + arg);
      } else {
        CommandStart(argv, i, args, bounding, fromStr);
        args := args.(command := args.command + [EscapeParserString(arg)]);
        i := i + 1;
        break;
      }
    }
    if i == |argv| {
      CommandEnd(argv, args);
    }
    args := PushCommand(argv, i, args);
    return Success(args);
  }

  /** The second loop of `getopt`: every word left, escaped, is pushed
      onto the command. */
  method PushCommand(argv: seq<string>, i0: nat, cli: Cli) returns (r: Cli)
    requires i0 <= |argv|
    ensures r == WithCommand(cli, argv[i0..])
  {
    var i := i0;
    r := cli;
    while i < |argv|
      invariant i0 <= i <= |argv|
      invariant WithCommand(cli, argv[i0..]) == WithCommand(r, argv[i..])
    {
      CommandStep(argv, i, r);
      r := r.(command := r.command + [EscapeParserString(argv[i])]);
      i := i + 1;
    }
    CommandEnd(argv, r);
  }

  /** A known option at `argv[i]` is applied, and reading goes on after it. */
  lemma OptionStep(argv: seq<string>, i: nat, cli: Cli, bounding: CapSet, fromStr: string -> Option<Cap>)
    requires i < |argv| && IsKnownOption(argv[i])
    ensures ParseArgs(argv[i..], cli, bounding, fromStr)
      == ParseArgs(AfterOption(argv[i..]), ApplyOption(argv[i..], cli, bounding, fromStr), bounding, fromStr)
  {
    assert argv[i..][0] == argv[i];
  }

  /** An unknown option at `argv[i]` ends reading with an error. */
  lemma UnknownStep(argv: seq<string>, i: nat, cli: Cli, bounding: CapSet, fromStr: string -> Option<Cap>)
    requires i < |argv| && !IsKnownOption(argv[i]) && StartsWith(argv[i], "-")
    ensures ParseArgs(argv[i..], cli, bounding, fromStr) == Failure("Unknown option: " + argv[i])
  {
    assert argv[i..][0] == argv[i];
  }

  /** The first word of the command is the word at which the option loop stops. */
  lemma CommandStart(argv: seq<string>, i: nat, cli: Cli, bounding: CapSet, fromStr: string -> Option<Cap>)
    requires i < |argv| && !IsKnownOption(argv[i]) && !StartsWith(argv[i], "-")
    ensures ParseArgs(argv[i..], cli, bounding, fromStr)
      == Success(WithCommand(cli.(command := cli.command + [EscapeParserString(argv[i])]), argv[i + 1..]))
  {
    CommandStep(argv, i, cli);
  }

  /** Pushing one escaped word leaves the rest to push. */
  lemma CommandStep(argv: seq<string>, i: nat, cli: Cli)
    requires i < |argv|
    ensures WithCommand(cli, argv[i..])
      == WithCommand(cli.(command := cli.command + [EscapeParserString(argv[i])]), argv[i + 1..])
  {
    assert argv[i..][1..] == argv[i + 1..];
  }

  /** Nothing is left to push at the end of the arguments. */
  lemma CommandEnd(argv: seq<string>, cli: Cli)
    ensures WithCommand(cli, argv[|argv|..]) == cli
  {
    assert argv[|argv|..] == [];
  }

  // ---------------------------------------------------------------------
  // What getopt computes

  /** `args[..k]` is read as known options, each with its value: the
      word at `k`, if any, is the next one in option position. */
  predicate OptionPrefix(args: seq<string>, k: int)
    decreases |args|
  {
    || k == 0
    || (&& 0 < k <= |args| && IsKnownOption(args[0])
        && OptionPrefix(AfterOption(args), k - (|args| - |AfterOption(args)|)))
  }

  /** A known option with its value, put before an option prefix, makes a
      longer one. */
  lemma OptionPrefixCons(args: seq<string>, k: int)
    requires args != [] && IsKnownOption(args[0]) && OptionPrefix(AfterOption(args), k)
    ensures OptionPrefix(args, k + (|args| - |AfterOption(args)|))
  {
  }

  /** An unknown option anywhere before the command is reported by name;
      `argv[0]`, the program name, is not read. */
  lemma UnknownOptionFails(argv: seq<string>, bounding: CapSet, fromStr: string -> Option<Cap>, k: nat)
    requires 1 <= k < |argv| && OptionPrefix(argv[1..], k - 1)
    requires StartsWith(argv[k], "-") && !IsKnownOption(argv[k])
    ensures Options(argv, bounding, fromStr) == Failure("Unknown option: " + argv[k])
  {
    UnknownOptionAnywhere(argv[1..], DefaultCli, bounding, fromStr, k - 1);
  }

  /** An unknown word starting with `-` in option position stops the loop
      with an error naming it. */
  lemma {:induction false} UnknownOptionAnywhere(args: seq<string>, cli: Cli, bounding: CapSet, fromStr: string -> Option<Cap>, k: nat)
    requires k < |args| && OptionPrefix(args, k)
    requires StartsWith(args[k], "-") && !IsKnownOption(args[k])
    ensures ParseArgs(args, cli, bounding, fromStr) == Failure("Unknown option: " + args[k])
    decreases |args|
  {
    if k > 0 {
      var tail := AfterOption(args);
      var shift := |args| - |tail|;
      assert tail[k - shift] == args[k];
      UnknownOptionAnywhere(tail, ApplyOption(args, cli, bounding, fromStr), bounding, fromStr, k - shift);
    }
  }

  /** The first word in option position that does not start with `-`
      begins the command: it and every later word are escaped onto the
      command, whatever they look like. */
  lemma {:induction false} CommandAtFirstWord(args: seq<string>, cli: Cli, bounding: CapSet, fromStr: string -> Option<Cap>, k: nat)
    requires k < |args| && OptionPrefix(args, k) && !StartsWith(args[k], "-")
    ensures ParseArgs(args, cli, bounding, fromStr).Success?
    ensures ParseArgs(args, cli, bounding, fromStr).value.command == cli.command + Escaped(args[k..])
    decreases |args|
  {
    if k > 0 {
      assert IsKnownOption(args[0]);
      var tail := AfterOption(args);
      var shift := |args| - |tail|;
      var cli' := ApplyOption(args, cli, bounding, fromStr);
      assert ParseArgs(args, cli, bounding, fromStr) == ParseArgs(tail, cli', bounding, fromStr);
      assert tail[k - shift..] == args[k..];
      CommandAtFirstWord(tail, cli', bounding, fromStr, k - shift);
    } else {
      assert !IsKnownOption(args[0]);
      assert ParseArgs(args, cli, bounding, fromStr) == Success(WithCommand(cli, args));
      assert args[0..] == args;
    }
  }

  /** Every failure names an argument in option position that starts with
      `-` and is not a known option. */
  lemma {:induction false} FailureNamesUnknownOption(args: seq<string>, cli: Cli, bounding: CapSet, fromStr: string -> Option<Cap>)
    requires ParseArgs(args, cli, bounding, fromStr).Failure?
    ensures exists k ::
      && 0 <= k < |args| && OptionPrefix(args, k) && StartsWith(args[k], "-") && !IsKnownOption(args[k])
      && ParseArgs(args, cli, bounding, fromStr).error == "Unknown option: " + args[k]
    decreases |args|
  {
    if IsKnownOption(args[0]) {
      var tail := AfterOption(args);
      var cli' := ApplyOption(args, cli, bounding, fromStr);
      FailureNamesUnknownOption(tail, cli', bounding, fromStr);
      var k :| 0 <= k < |tail| && OptionPrefix(tail, k) && StartsWith(tail[k], "-") && !IsKnownOption(tail[k])
        && ParseArgs(tail, cli', bounding, fromStr).error == "Unknown option: " + tail[k];
      assert args[|args| - |tail| + k] == tail[k];
      OptionPrefixCons(args, k);
    } else {
      assert StartsWith(args[0], "-") && OptionPrefix(args, 0);
    }
  }

  /** On success the command is the escaped suffix of the arguments that
      starts at the first word in option position not starting with `-`
      (empty if there is none); later words are taken even if they start
      with `-`. */
  lemma {:induction false} CommandIsEscapedSuffix(args: seq<string>, cli: Cli, bounding: CapSet, fromStr: string -> Option<Cap>)
    requires ParseArgs(args, cli, bounding, fromStr).Success?
    ensures exists k :: CommandFrom(args, k, cli.command, ParseArgs(args, cli, bounding, fromStr).value.command)
    decreases |args|
  {
    var result := ParseArgs(args, cli, bounding, fromStr).value.command;
    if args == [] {
      assert args[0..] == [];
      assert CommandFrom(args, 0, cli.command, result);
    } else if IsKnownOption(args[0]) {
      var tail := AfterOption(args);
      var cli' := ApplyOption(args, cli, bounding, fromStr);
      assert ParseArgs(args, cli, bounding, fromStr) == ParseArgs(tail, cli', bounding, fromStr);
      CommandIsEscapedSuffix(tail, cli', bounding, fromStr);
      var k :| CommandFrom(tail, k, cli'.command, result);
      var shift := |args| - |tail|;
      OptionPrefixCons(args, k);
      assert tail[k..] == args[k + shift..];
      assert k < |tail| ==> args[k + shift] == tail[k];
      assert CommandFrom(args, k + shift, cli.command, result);
    } else {
      assert args[0..] == args;
      assert CommandFrom(args, 0, cli.command, result);
    }
  }

  /** `cmd` is `base` followed by the escaped words of `args` from `k` on,
      the words before `k` are read as options, and the word at `k`, if
      any, does not start with `-`. */
  predicate CommandFrom(args: seq<string>, k: int, base: seq<string>, cmd: seq<string>) {
    && 0 <= k <= |args| && OptionPrefix(args, k) && (k < |args| ==> !StartsWith(args[k], "-"))
    && cmd == base + Escaped(args[k..])
  }
}
