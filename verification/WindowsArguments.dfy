/** Windows command lines (`src/runtime/windows-runtime-cache.ts`): `quoteWindowsArgument`, the
    joined command line of `spawnLockedSystemRuntime`, and the rules by which the Microsoft C
    runtime splits a command line back into arguments.
 */
module WindowsArguments {
  import opened Bytes

  const QUOTE := '\"'
  const SLASH := '\\'

  /** What separates arguments for the C runtime. */
  predicate IsBlank(c: char) { c == ' ' || c == '\t' }

  predicate NeedsQuotes(v: string) {
    v == "" || exists i :: 0 <= i < |v| && (IsSpace(v[i]) || v[i] == QUOTE)
  }

  function Slashes(n: nat): (s: string)
    ensures |s| == n && forall i :: 0 <= i < n ==> s[i] == SLASH
  {
    seq(n, i => SLASH)
  }

  // ----- Quoting -----

  /** The text between the quotes, when `b` backslashes have been read but not written. */
  function Body(v: string, b: nat): string {
    if v == "" then Slashes(2 * b)
    else if v[0] == SLASH then Body(v[1..], b + 1)
    else if v[0] == QUOTE then Slashes(2 * b + 1) + [QUOTE] + Body(v[1..], 0)
    else Slashes(b) + [v[0]] + Body(v[1..], 0)
  }

  function Quote(v: string): string {
    if NeedsQuotes(v) then [QUOTE] + Body(v, 0) + [QUOTE] else v
  }

  method QuoteArgument(v: string) returns (r: Option<string>)
    ensures r == if '\0' in v then None else Some(Quote(v))
  {
    if '\0' in v { return None; }
    if !NeedsQuotes(v) { return Some(v); }
    var quoted := [QUOTE];
    var backslashes := 0;
    for i := 0 to |v|
      invariant backslashes >= 0
      invariant quoted + Body(v[i..], backslashes) == [QUOTE] + Body(v, 0)
    {
      var c := v[i];
      assert v[i..][0] == c && v[i..][1..] == v[i + 1..];
      ghost var before := quoted + Body(v[i..], backslashes);
      if c == SLASH {
        backslashes := backslashes + 1;
      } else if c == QUOTE {
        quoted := quoted + Slashes(backslashes * 2 + 1);
        quoted := quoted + [QUOTE];
        backslashes := 0;
      } else {
        quoted := quoted + Slashes(backslashes);
        quoted := quoted + [c];
        backslashes := 0;
      }
      assert before == quoted + Body(v[i + 1..], backslashes);
    }
    assert v[|v|..] == "";
    quoted := quoted + Slashes(backslashes * 2);
    return Some(quoted + [QUOTE]);
  }

  function JoinQuoted(args: seq<string>): string {
    if args == [] then ""
    else if |args| == 1 then Quote(args[0])
    else Quote(args[0]) + " " + JoinQuoted(args[1..])
  }

  /** `[path, ...args].map(quoteWindowsArgument).join(' ')` */
  function CommandLine(path: string, args: seq<string>): string {
    JoinQuoted([path] + args)
  }

  // ----- The splitting rules of the C runtime -----

  function LeadingSlashes(s: string): (n: nat)
    ensures n <= |s| && s[..n] == Slashes(n) && (n < |s| ==> s[n] != SLASH)
  {
    if s == "" || s[0] != SLASH then 0
    else
      var n := LeadingSlashes(s[1..]);
      assert s[..n + 1] == [s[0]] + s[1..][..n];
      n + 1
  }

  /** One argument, and what follows it; `quoted` says whether a quote is open. */
  function ParseArgument(s: string, quoted: bool): (r: (string, string))
    ensures |r.1| <= |s| && (s != "" && !IsBlank(s[0]) ==> |r.1| < |s|)
    decreases |s|
  {
    var n := LeadingSlashes(s);
    var t := s[n..];
    if t == "" || (t[0] != QUOTE && !quoted && IsBlank(t[0])) then (Slashes(n), t)
    else if t[0] != QUOTE then
      var (a, rest) := ParseArgument(t[1..], quoted);
      (Slashes(n) + [t[0]] + a, rest)
    else if n % 2 == 1 then
      var (a, rest) := ParseArgument(t[1..], quoted);
      (Slashes(n / 2) + [QUOTE] + a, rest)
    else if quoted && |t| > 1 && t[1] == QUOTE then
      var (a, rest) := ParseArgument(t[2..], quoted);
      (Slashes(n / 2) + [QUOTE] + a, rest)
    else
      var (a, rest) := ParseArgument(t[1..], !quoted);
      (Slashes(n / 2) + a, rest)
  }

  function ParseArguments(s: string): seq<string>
    decreases |s|
  {
    if s == "" then []
    else if IsBlank(s[0]) then ParseArguments(s[1..])
    else
      var (a, rest) := ParseArgument(s, false);
      [a] + ParseArguments(rest)
  }

  /** The program name: quotes group, backslashes are ordinary, one separator is dropped. */
  function ParseProgram(s: string, quoted: bool): (string, string) {
    if s == "" then ("", "")
    else if s[0] == QUOTE then ParseProgram(s[1..], !quoted)
    else if !quoted && IsBlank(s[0]) then ("", s[1..])
    else
      var (name, rest) := ParseProgram(s[1..], quoted);
      ([s[0]] + name, rest)
  }

  function ParseCommandLine(s: string): seq<string> {
    var (name, rest) := ParseProgram(s, false);
    [name] + ParseArguments(rest)
  }

  // ----- Reading one quoted argument back -----

  lemma {:induction false} CountSlashes(n: nat, x: string)
    requires x != "" && x[0] != SLASH
    ensures LeadingSlashes(Slashes(n) + x) == n && (Slashes(n) + x)[n..] == x
    decreases n
  {
    if n == 0 {
    } else {
      assert (Slashes(n) + x)[1..] == Slashes(n - 1) + x;
      CountSlashes(n - 1, x);
    }
  }

  /** The text after an argument: nothing, or a separator. */
  predicate Ends(rest: string) { rest == "" || IsBlank(rest[0]) }

  lemma ParseClosingQuote(b: nat, rest: string)
    requires Ends(rest)
    ensures ParseArgument(Slashes(2 * b) + ([QUOTE] + rest), true) == (Slashes(b), rest)
  {
    var x := [QUOTE] + rest;
    CountSlashes(2 * b, x);
    assert x[1..] == rest;
    assert ParseArgument(rest, false) == ("", rest);
    assert Slashes(b) + "" == Slashes(b);
  }

  lemma ParseEscapedQuote(b: nat, y: string)
    ensures var (a, rest) := ParseArgument(y, true);
            ParseArgument(Slashes(2 * b + 1) + ([QUOTE] + y), true) == (Slashes(b) + [QUOTE] + a, rest)
  {
    var n, t := 2 * b + 1, [QUOTE] + y;
    CountSlashes(n, t);
    assert t[0] == QUOTE && t[1..] == y && n % 2 == 1 && n / 2 == b;
    OddUnfolds(Slashes(n) + t, n, t);
  }

  lemma OddUnfolds(s: string, n: nat, t: string)
    requires LeadingSlashes(s) == n && s[n..] == t && t != "" && t[0] == QUOTE && n % 2 == 1
    ensures var (a, rest) := ParseArgument(t[1..], true);
            ParseArgument(s, true) == (Slashes(n / 2) + [QUOTE] + a, rest)
  {
  }

  lemma ParseOrdinary(c: char, b: nat, quoted: bool, y: string)
    requires c != SLASH && c != QUOTE && (quoted || !IsBlank(c))
    ensures var (a, rest) := ParseArgument(y, quoted);
            ParseArgument(Slashes(b) + ([c] + y), quoted) == (Slashes(b) + [c] + a, rest)
  {
    CountSlashes(b, [c] + y);
    assert ([c] + y)[1..] == y;
  }

  lemma Regroup(a: string, c: char, y: string, x: string)
    ensures a + [c] + y + x == a + ([c] + (y + x))
  {
  }

  lemma SlashesMove(v: string, b: nat)
    requires v != ""
    ensures v[0] == SLASH ==> Slashes(b + 1) + v[1..] == Slashes(b) + v
    ensures Slashes(b) + v == Slashes(b) + [v[0]] + v[1..] && Slashes(0) + v[1..] == v[1..]
  {
  }

  lemma {:induction false} ParseBody(v: string, b: nat, rest: string)
    requires Ends(rest)
    ensures ParseArgument(Body(v, b) + ([QUOTE] + rest), true) == (Slashes(b) + v, rest)
    decreases |v|
  {
    var x := [QUOTE] + rest;
    if v == "" {
      ParseClosingQuote(b, rest);
      assert Slashes(b) + v == Slashes(b);
    } else if v[0] == SLASH {
      SlashesMove(v, b);
      ParseBody(v[1..], b + 1, rest);
    } else {
      SlashesMove(v, b);
      ParseBody(v[1..], 0, rest);
      Regroup(Slashes(if v[0] == QUOTE then 2 * b + 1 else b), v[0], Body(v[1..], 0), x);
      if v[0] == QUOTE {
        ParseEscapedQuote(b, Body(v[1..], 0) + x);
      } else {
        ParseOrdinary(v[0], b, true, Body(v[1..], 0) + x);
      }
    }
  }

  lemma ParseTrailingSlashes(n: nat, rest: string)
    requires Ends(rest)
    ensures ParseArgument(Slashes(n) + rest, false) == (Slashes(n), rest)
  {
    if rest == "" {
      assert Slashes(n) + rest == Slashes(n);
      var k := LeadingSlashes(Slashes(n));
      assert k == n && Slashes(n)[n..] == "";
    } else {
      CountSlashes(n, rest);
    }
  }

  lemma {:induction false} ParsePlain(v: string, rest: string)
    requires Ends(rest)
    requires forall i :: 0 <= i < |v| ==> !IsSpace(v[i]) && v[i] != QUOTE
    ensures ParseArgument(v + rest, false) == (v, rest)
    decreases |v|
  {
    var n := LeadingSlashes(v);
    if n == |v| {
      assert v == Slashes(n);
      ParseTrailingSlashes(n, rest);
    } else {
      var c, w := v[n], v[n + 1..];
      assert v == Slashes(n) + [c] + w;
      assert v + rest == Slashes(n) + ([c] + (w + rest));
      ParsePlain(w, rest);
      ParseOrdinary(c, n, false, w + rest);
    }
  }

  lemma ParseOpeningQuote(y: string)
    ensures ParseArgument([QUOTE] + y, false) == ParseArgument(y, true)
  {
    var s := [QUOTE] + y;
    assert s[1..] == y && s[0..] == s;
    var (a, rest) := ParseArgument(y, true);
    assert Slashes(0) + a == a;
  }

  lemma ParseQuoted(v: string, rest: string)
    requires Ends(rest)
    ensures ParseArgument(Quote(v) + rest, false) == (v, rest)
    ensures Quote(v) != "" && !IsBlank(Quote(v)[0])
  {
    if NeedsQuotes(v) {
      ParseInQuotes(v, rest);
    } else {
      ParsePlain(v, rest);
    }
  }

  lemma ParseInQuotes(v: string, rest: string)
    requires Ends(rest)
    ensures ParseArgument([QUOTE] + Body(v, 0) + [QUOTE] + rest, false) == (v, rest)
  {
    var body := Body(v, 0);
    Enclosed(body, rest);
    ParseOpeningQuote(body + ([QUOTE] + rest));
    ParseBody(v, 0, rest);
    assert Slashes(0) + v == v;
  }

  lemma Enclosed(body: string, rest: string)
    ensures [QUOTE] + body + [QUOTE] + rest == [QUOTE] + (body + ([QUOTE] + rest))
  {
  }

  /** Splitting the joined, quoted arguments gives back the arguments. */
  lemma {:induction false} ArgumentsRoundTrip(args: seq<string>)
    ensures ParseArguments(JoinQuoted(args)) == args
    decreases |args|
  {
    if args == [] {
    } else {
      var v, more := args[0], args[1..];
      var rest := if more == [] then "" else " " + JoinQuoted(more);
      var s := JoinQuoted(args);
      assert s == Quote(v) + rest;
      ParseQuoted(v, rest);
      assert s[0] == Quote(v)[0];
      ArgumentsRoundTrip(more);
      assert ParseArguments(rest) == more by {
        if more != [] { assert rest[1..] == JoinQuoted(more); }
      }
      assert args == [v] + more;
    }
  }

  // ----- The program name -----

  /** The paths that the C runtime reads back as program name. */
  predicate ProgramSafe(path: string) {
    QUOTE !in path && !(NeedsQuotes(path) && path != "" && path[|path| - 1] == SLASH)
  }

  lemma {:induction false} ProgramNameHasNoQuote(s: string, quoted: bool)
    ensures QUOTE !in ParseProgram(s, quoted).0
    decreases |s|
  {
    if s == "" {
    } else {
      ProgramNameHasNoQuote(s[1..], !quoted); ProgramNameHasNoQuote(s[1..], quoted);
    }
  }

  /** The separator after the program name, if there are arguments. */
  function AfterProgram(args: seq<string>): string {
    if args == [] then "" else " " + JoinQuoted(args)
  }

  lemma ProgramTakes(v: string, x: string, quoted: bool, rest: string)
    requires v != "" && v[0] != QUOTE && (quoted || !IsBlank(v[0]))
    requires ParseProgram(v[1..] + x, quoted) == (v[1..], rest)
    ensures ParseProgram(v + x, quoted) == (v, rest)
  {
    assert (v + x)[1..] == v[1..] + x;
    assert v == [v[0]] + v[1..];
  }

  lemma {:induction false} ProgramPlain(v: string, args: seq<string>)
    requires forall i :: 0 <= i < |v| ==> !IsSpace(v[i]) && v[i] != QUOTE
    ensures ParseProgram(v + AfterProgram(args), false) == (v, JoinQuoted(args))
    decreases |v|
  {
    var after := AfterProgram(args);
    if v == "" {
      assert v + after == after;
      if args != [] { assert after[1..] == JoinQuoted(args); }
    } else {
      ProgramPlain(v[1..], args);
      ProgramTakes(v, after, false, JoinQuoted(args));
    }
  }

  lemma {:induction false} ProgramInQuotes(v: string, args: seq<string>)
    requires QUOTE !in v
    ensures ParseProgram(v + ([QUOTE] + AfterProgram(args)), true) == (v, JoinQuoted(args))
    decreases |v|
  {
    var x := [QUOTE] + AfterProgram(args);
    if v == "" {
      assert v + x == x && x[1..] == AfterProgram(args);
      ProgramPlain("", args);
      assert "" + AfterProgram(args) == AfterProgram(args);
    } else {
      ProgramInQuotes(v[1..], args);
      ProgramTakes(v, x, true, JoinQuoted(args));
    }
  }

  /** Without quotes inside, quoting only doubles the trailing backslashes. */
  lemma {:induction false} BodyWithoutQuotes(v: string, b: nat) returns (k: nat)
    requires QUOTE !in v
    ensures Body(v, b) == Slashes(b) + v + Slashes(k)
    ensures k == 0 <==> (if v == "" then b == 0 else v[|v| - 1] != SLASH)
    decreases |v|
  {
    if v == "" {
      k := b;
      assert Slashes(2 * b) == Slashes(b) + v + Slashes(b);
    } else if v[0] == SLASH {
      k := BodyWithoutQuotes(v[1..], b + 1);
      assert Slashes(b + 1) + v[1..] + Slashes(k) == Slashes(b) + v + Slashes(k);
    } else {
      k := BodyWithoutQuotes(v[1..], 0);
      assert Slashes(b) + [v[0]] + (Slashes(0) + v[1..] + Slashes(k)) == Slashes(b) + v + Slashes(k);
    }
  }

  lemma OpenQuote(body: string, rest: string)
    ensures ParseProgram([QUOTE] + body + [QUOTE] + rest, false) == ParseProgram(body + ([QUOTE] + rest), true)
  {
    assert ([QUOTE] + body + [QUOTE] + rest)[1..] == body + ([QUOTE] + rest);
  }

  lemma ProgramName(path: string, args: seq<string>)
    requires QUOTE !in path
    ensures var (name, rest) := ParseProgram(Quote(path) + AfterProgram(args), false);
            rest == JoinQuoted(args) && (name == path <==> ProgramSafe(path))
  {
    if NeedsQuotes(path) {
      ProgramQuoted(path, args);
    } else {
      ProgramPlain(path, args);
    }
  }

  lemma ProgramQuoted(path: string, args: seq<string>)
    requires QUOTE !in path
    ensures var (name, rest) := ParseProgram([QUOTE] + Body(path, 0) + [QUOTE] + AfterProgram(args), false);
            rest == JoinQuoted(args) && (name == path <==> path == "" || path[|path| - 1] != SLASH)
  {
    var k := BodyWithoutQuotes(path, 0);
    var body := path + Slashes(k);
    assert Slashes(0) + path + Slashes(k) == body;
    OpenQuote(body, AfterProgram(args));
    ProgramInQuotes(body, args);
    assert k == 0 ==> body == path;
  }

  lemma CommandLineSplits(path: string, args: seq<string>)
    ensures CommandLine(path, args) == Quote(path) + AfterProgram(args)
  {
    assert ([path] + args)[1..] == args;
    assert args == [] ==> Quote(path) + "" == Quote(path);
    assert Quote(path) + " " + JoinQuoted(args) == Quote(path) + (" " + JoinQuoted(args));
  }

  /** The child sees the program name and the arguments it was given, exactly when the path holds
      no quote and does not end in a backslash while needing quotes. */
  lemma CommandLineRoundTrip(path: string, args: seq<string>)
    ensures ParseCommandLine(CommandLine(path, args)) == [path] + args <==> ProgramSafe(path)
  {
    CommandLineSplits(path, args);
    var s := Quote(path) + AfterProgram(args);
    var (name, rest) := ParseProgram(s, false);
    assert ([name] + ParseArguments(rest))[0] == name;
    if QUOTE in path {
      ProgramNameHasNoQuote(s, false);
      assert ([path] + args)[0] == path;
    } else {
      ProgramName(path, args);
      ArgumentsRoundTrip(args);
      assert ([path] + args)[0] == path;
    }
  }

  /** A directory with a space: its final backslash is doubled, and the program-name rules keep both. */
  lemma FinalBackslashIsDoubled(args: seq<string>)
    ensures ParseCommandLine(CommandLine("C:\\a b\\", args)) != ["C:\\a b\\"] + args
  {
    var path := "C:\\a b\\";
    assert path[4] == ' ' && path[|path| - 1] == SLASH;
    CommandLineRoundTrip(path, args);
  }

  // ----- The quoted text itself -----

  lemma {:induction false} BodyGrows(v: string, b: nat)
    ensures |Body(v, b)| >= |v| + b
    decreases |v|
  {
    if v == "" {
    } else if v[0] == SLASH {
      BodyGrows(v[1..], b + 1);
    } else {
      BodyGrows(v[1..], 0);
    }
  }

  /** An argument is passed as it is exactly when it is not empty and holds neither a space nor a quote; every
      other one is enclosed in quotes. */
  lemma QuotedExactly(v: string)
    ensures Quote(v) == v <==> v != "" && forall i :: 0 <= i < |v| ==> !IsSpace(v[i]) && v[i] != QUOTE
    ensures Quote(v) != v ==> |Quote(v)| >= 2 && Quote(v)[0] == Quote(v)[|Quote(v)| - 1] == QUOTE
  {
    BodyGrows(v, 0);
  }

  function WithoutSlashes(s: string): string {
    if s == "" then "" else (if s[0] == SLASH then "" else [s[0]]) + WithoutSlashes(s[1..])
  }

  lemma {:induction false} WithoutSlashesJoin(a: string, b: string)
    ensures WithoutSlashes(a + b) == WithoutSlashes(a) + WithoutSlashes(b)
    decreases |a|
  {
    if a == "" {
      assert a + b == b;
    } else {
      assert (a + b)[1..] == a[1..] + b;
      WithoutSlashesJoin(a[1..], b);
    }
  }

  lemma {:induction false} OnlySlashes(n: nat)
    ensures WithoutSlashes(Slashes(n)) == ""
  {
    if n == 0 {
    } else {
      assert Slashes(n)[1..] == Slashes(n - 1);
      OnlySlashes(n - 1);
    }
  }

  lemma SlashesAndOne(n: nat, c: char, rest: string)
    requires c != SLASH
    ensures WithoutSlashes(Slashes(n) + [c] + rest) == [c] + WithoutSlashes(rest)
  {
    OnlySlashes(n);
    WithoutSlashesJoin(Slashes(n), [c]);
    WithoutSlashesJoin(Slashes(n) + [c], rest);
    assert [c][1..] == "";
  }

  /** Between the quotes nothing but backslashes is added: all other characters are those of the argument. */
  lemma {:induction false} OnlySlashesAreAdded(v: string, b: nat)
    ensures WithoutSlashes(Body(v, b)) == WithoutSlashes(v)
    decreases |v|
  {
    if v == "" {
      OnlySlashes(2 * b);
    } else if v[0] == SLASH {
      OnlySlashesAreAdded(v[1..], b + 1);
    } else {
      OnlySlashesAreAdded(v[1..], 0);
      SlashesAndOne(if v[0] == QUOTE then 2 * b + 1 else b, v[0], Body(v[1..], 0));
    }
  }
}
