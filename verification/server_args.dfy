/**
 * The server's listening address: a port and a host taken first from the
 * `PORT` and `HOST` environment variables (with fallbacks 3000 and
 * "0.0.0.0"), then overridden by the command-line options `--port <n>`,
 * `--port=<n>`, `--host <h>` and `--host=<h>`, read left to right so the
 * last one given wins.
 */
module ServerArgs {
  import opened JsNumber

  datatype Config = Config(port: int, host: string)

  /** The address before the command line is read; a missing variable is
      `None`. `parseInt(PORT, 10) || 3000` and `HOST || '0.0.0.0'`. */
  function InitialConfig(envPort: Option<string>, envHost: Option<string>): (c: Config)
    ensures ParseIntOpt(envPort).Some? && ParseIntOpt(envPort).value != 0 ==>
              c.port == ParseIntOpt(envPort).value
    ensures ParseIntOpt(envPort).None? || ParseIntOpt(envPort).value == 0 ==> c.port == 3000
    ensures envHost.Some? && envHost.value != "" ==> c.host == envHost.value
    ensures envHost.None? || envHost.value == "" ==> c.host == "0.0.0.0"
  {
    var host := if envHost.Some? && envHost.value != "" then envHost.value else "0.0.0.0";
    Config(OrDefault(ParseIntOpt(envPort), 3000), host)
  }

  /** The text of `s` before its first `=`. For an argument `"--port=" + s`
      (or `"--host=" + s`) this is `arg.split('=')[1]`. */
  function Segment(s: string): (r: string)
    ensures r <= s && '=' !in r
    ensures |r| == |s| || s[|r|] == '='
  {
    if s == [] || s[0] == '=' then [] else [s[0]] + Segment(s[1..])
  }

  /** A port value is taken only when `parseInt` does not give NaN. */
  function WithPort(c: Config, value: Option<int>): Config {
    if value.Some? then c.(port := value.value) else c
  }

  /** `args[i + 1]` is truthy: there is a next argument and it is not empty. */
  predicate HasValue(args: seq<string>) {
    |args| > 1 && args[1] != ""
  }

  /** An option name that takes its value from the next argument. */
  predicate IsFlag(arg: string) {
    arg == "--port" || arg == "--host"
  }

  /** `args[i + 1]` when it is truthy. */
  function Next(args: seq<string>): Option<string> {
    if HasValue(args) then Some(args[1]) else None
  }

  /** How many arguments one pass of the loop reads: a flag with a value
      consumes that value too (`i += 1` inside the branch). */
  function Step(args: seq<string>): (n: nat)
    requires args != []
    ensures 1 <= n <= |args|
  {
    if IsFlag(args[0]) && Next(args).Some? then 2 else 1
  }

  /** What one pass of the loop does to the address, given `args[i]` and the
      truthy `args[i + 1]`: the `=` forms take the text between the first and
      the second `=`, and anything else is passed over. */
  function ApplyOption(arg: string, next: Option<string>, c: Config): (r: Config)
    ensures r.port != c.port ==> MentionsPort(arg)
    ensures r.host != c.host ==> MentionsHost(arg)
  {
    if arg == "--port" && next.Some? then WithPort(c, ParseInt(next.value))
    else if "--port=" <= arg then WithPort(c, ParseInt(Segment(arg[7..])))
    else if arg == "--host" && next.Some? then c.(host := next.value)
    else if "--host=" <= arg then c.(host := Segment(arg[7..]))
    else c
  }

  function Apply(args: seq<string>, c: Config): Config
    requires args != []
  {
    ApplyOption(args[0], Next(args), c)
  }

  /** Only a flag looks at the argument after it. */
  lemma NextUnusedByOthers(arg: string, n1: Option<string>, n2: Option<string>, c: Config)
    requires !IsFlag(arg)
    ensures ApplyOption(arg, n1, c) == ApplyOption(arg, n2, c)
  {
  }

  /** The options read from `args`, left to right, applied to `c`. */
  function ParseFrom(args: seq<string>, c: Config): Config
    decreases |args|
  {
    if args == [] then c else ParseFrom(args[Step(args)..], Apply(args, c))
  }

  /** The host the reading ends with is the one it started with or the value
      of one of the host options in `args`. */
  lemma {:induction false} HostComesFromOptions(args: seq<string>, c: Config)
    ensures var h := ParseFrom(args, c).host;
            h == c.host || exists k :: 0 <= k < |args| && GivesHost(args, k, h)
    decreases |args|
  {
    if args != [] {
      var n := Step(args);
      var c1 := Apply(args, c);
      var h := ParseFrom(args, c).host;
      assert h == ParseFrom(args[n..], c1).host;
      HostComesFromOptions(args[n..], c1);
      GivesHostShifted(args, n, h);
      if c1.host != c.host {
        assert GivesHost(args, 0, c1.host);
      }
    }
  }

  /** `args[k]` is a host option whose value is `h`. */
  predicate GivesHost(args: seq<string>, k: nat, h: string)
    requires k < |args|
  {
    || (args[k] == "--host" && k + 1 < |args| && args[k + 1] != "" && args[k + 1] == h)
    || ("--host=" <= args[k] && Segment(args[k][7..]) == h)
  }

  lemma GivesHostShifted(args: seq<string>, n: nat, h: string)
    requires n <= |args|
    ensures (exists k :: 0 <= k < |args[n..]| && GivesHost(args[n..], k, h)) ==>
            exists k :: 0 <= k < |args| && GivesHost(args, k, h)
  {
    if k :| 0 <= k < |args[n..]| && GivesHost(args[n..], k, h) {
      assert args[n..][k] == args[k + n];
      assert k + 1 < |args[n..]| ==> args[n..][k + 1] == args[k + n + 1];
      assert GivesHost(args, k + n, h);
    }
  }

  /** The startup code: environment first, then the argument loop. */
  method ParseArgs(envPort: Option<string>, envHost: Option<string>, args: seq<string>)
    returns (port: int, host: string)
    ensures Config(port, host) == ParseFrom(args, InitialConfig(envPort, envHost))
  {
    var c0 := InitialConfig(envPort, envHost);
    port, host := c0.port, c0.host;
    var i := 0;
    while i < |args|
      invariant 0 <= i <= |args|
      invariant ParseFrom(args[i..], Config(port, host)) == ParseFrom(args, c0)
      decreases |args| - i
    {
      PassAt(args, i, Config(port, host));
      i, port, host := ReadOption(args, i, port, host);
    }
  }

  /** One pass of the loop body at index `i`: the branches on `args[i]`,
      with `i` advanced past a consumed value and then by the loop step. */
  method ReadOption(args: seq<string>, i0: nat, port0: int, host0: string)
    returns (i: nat, port: int, host: string)
    requires i0 < |args|
    ensures i == i0 + Step(args[i0..])
    ensures Config(port, host) == Apply(args[i0..], Config(port0, host0))
  {
    ghost var rest := args[i0..];
    assert rest[0] == args[i0];
    assert i0 + 1 < |args| ==> rest[1] == args[i0 + 1];
    i, port, host := i0, port0, host0;
    var arg := args[i];
    if arg == "--port" && i + 1 < |args| && args[i + 1] != "" {
      var value := ParseInt(args[i + 1]);
      if value.Some? {
        port := value.value;
      }
      i := i + 1;
    } else if "--port=" <= arg {
      var value := ParseInt(Segment(arg[7..]));
      if value.Some? {
        port := value.value;
      }
    } else if arg == "--host" && i + 1 < |args| && args[i + 1] != "" {
      host := args[i + 1];
      i := i + 1;
    } else if "--host=" <= arg {
      host := Segment(arg[7..]);
    }
    i := i + 1;
  }

  /** One pass of the loop at position `i`, as the reading function sees it. */
  lemma PassAt(args: seq<string>, i: nat, c: Config)
    requires i < |args|
    ensures var n := Step(args[i..]);
            i + n <= |args| &&
            ParseFrom(args[i..], c) == ParseFrom(args[i + n..], Apply(args[i..], c))
  {
    var rest := args[i..];
    assert rest[Step(rest)..] == args[i + Step(rest)..];
  }

  /** `args` does not end in a flag left without a value, so what follows
      it cannot be read as that flag's value. */
  predicate EndsClean(args: seq<string>)
    decreases |args|
  {
    args == [] || (!(IsFlag(args[0]) && |args| == 1) && EndsClean(args[Step(args)..]))
  }

  /** One pass reads as many arguments of `a + b` as of `a`, and does the
      same with them, unless `a` is a lone flag. */
  lemma StepOnPrefix(a: seq<string>, b: seq<string>)
    requires a != [] && !(IsFlag(a[0]) && |a| == 1)
    ensures Step(a + b) == Step(a)
  {
    var x := a[0];
    assert (a + b)[0] == x;
    if |a| > 1 {
      NextOfLonger(a, b);
    }
  }

  lemma ApplyOnPrefix(a: seq<string>, b: seq<string>, c: Config)
    requires a != [] && !(IsFlag(a[0]) && |a| == 1)
    ensures Apply(a + b, c) == Apply(a, c)
  {
    var x := a[0];
    assert (a + b)[0] == x;
    if |a| > 1 {
      NextOfLonger(a, b);
    } else {
      NextUnusedByOthers(x, Next(a + b), Next(a), c);
    }
  }

  lemma NextOfLonger(a: seq<string>, b: seq<string>)
    requires |a| > 1
    ensures Next(a + b) == Next(a)
  {
    assert (a + b)[1] == a[1];
  }

  /** The first pass over `a + b` is the first pass over `a`. */
  lemma FirstPassOfAppend(a: seq<string>, b: seq<string>, c: Config)
    requires a != [] && !(IsFlag(a[0]) && |a| == 1)
    ensures ParseFrom(a + b, c) == ParseFrom(a[Step(a)..] + b, Apply(a, c))
  {
    var ab := a + b;
    var n := Step(a);
    var c1 := Apply(a, c);
    StepOnPrefix(a, b);
    ApplyOnPrefix(a, b, c);
    assert ab[n..] == a[n..] + b;
    assert ParseFrom(ab, c) == ParseFrom(ab[Step(ab)..], Apply(ab, c));
  }

  /** Reading `a + b` is reading `a` and then `b`, when `a` ends clean. */
  lemma {:induction false} ParseFromAppend(a: seq<string>, b: seq<string>, c: Config)
    requires EndsClean(a)
    ensures ParseFrom(a + b, c) == ParseFrom(b, ParseFrom(a, c))
  {
    if a == [] {
      assert a + b == b;
    } else {
      FirstPassOfAppend(a, b, c);
      ParseFromAppend(a[Step(a)..], b, Apply(a, c));
    }
  }

  /** A port option at the end of the command line overrides every earlier
      one and the environment. */
  lemma LastPortWins(args: seq<string>, c: Config, n: int)
    requires EndsClean(args)
    ensures ParseFrom(args + ["--port", IntToString(n)], c).port == n
  {
    ParseFromAppend(args, ["--port", IntToString(n)], c);
    ParseIntOfIntToString(n);
  }

  /** Likewise for a final `--host h`. */
  lemma LastHostWins(args: seq<string>, c: Config, h: string)
    requires EndsClean(args) && h != ""
    ensures ParseFrom(args + ["--host", h], c).host == h
  {
    ParseFromAppend(args, ["--host", h], c);
    var tail := ["--host", h];
    assert HasValue(tail) && IsFlag(tail[0]) && tail[2..] == [];
  }

  /** And for a final `--host=h` with no further `=` in `h`. */
  lemma LastHostTextWins(args: seq<string>, c: Config, h: string)
    requires EndsClean(args) && '=' !in h
    ensures ParseFrom(args + ["--host=" + h], c).host == h
  {
    var arg := "--host=" + h;
    ParseFromAppend(args, [arg], c);
    HostTextPass(h, [], ParseFrom(args, c));
    assert [arg] + [] == [arg];
    SegmentWithoutEquals(h);
  }

  /** One pass over `--host=t`: the text up to a second `=` is the host. */
  lemma HostTextPass(t: string, rest: seq<string>, c: Config)
    ensures ParseFrom(["--host=" + t] + rest, c) == ParseFrom(rest, c.(host := Segment(t)))
  {
    var arg := "--host=" + t;
    var args := [arg] + rest;
    assert args[0] == arg && args[1..] == rest;
    assert "--host=" <= arg && arg[7..] == t && arg[2] == 'h';
    assert Step(args) == 1;
    assert Apply(args, c) == c.(host := Segment(t));
  }

  lemma {:induction false} SegmentWithoutEquals(s: string)
    requires '=' !in s
    ensures Segment(s) == s
  {
    if s != [] {
      assert '=' !in s[1..] by {
        forall k | 0 <= k < |s[1..]| ensures s[1..][k] != '=' {
          assert s[1..][k] == s[k + 1];
        }
      }
      SegmentWithoutEquals(s[1..]);
    }
  }

  /** The options that can change the port. */
  predicate MentionsPort(arg: string) {
    arg == "--port" || "--port=" <= arg
  }

  /** The options that can change the host. */
  predicate MentionsHost(arg: string) {
    arg == "--host" || "--host=" <= arg
  }

  /** Without a port option the port stays as the environment set it,
      whatever host options do. */
  lemma {:induction false} PortNeedsPortOption(args: seq<string>, c: Config)
    requires forall k :: 0 <= k < |args| ==> !MentionsPort(args[k])
    ensures ParseFrom(args, c).port == c.port
  {
    if args != [] {
      var n := Step(args);
      assert !MentionsPort(args[0]);
      assert forall k :: 0 <= k < |args[n..]| ==> args[n..][k] == args[k + n];
      PortNeedsPortOption(args[n..], Apply(args, c));
    }
  }

  /** Without a host option the host stays as the environment set it. */
  lemma {:induction false} HostNeedsHostOption(args: seq<string>, c: Config)
    requires forall k :: 0 <= k < |args| ==> !MentionsHost(args[k])
    ensures ParseFrom(args, c).host == c.host
  {
    if args != [] {
      var n := Step(args);
      assert !MentionsHost(args[0]);
      assert forall k :: 0 <= k < |args[n..]| ==> args[n..][k] == args[k + n];
      HostNeedsHostOption(args[n..], Apply(args, c));
    }
  }

  /** Arguments that are none of the four options leave the address as the
      environment set it. */
  lemma OtherArgumentsIgnored(args: seq<string>, c: Config)
    requires forall k :: 0 <= k < |args| ==> !MentionsPort(args[k]) && !MentionsHost(args[k])
    ensures ParseFrom(args, c) == c
  {
    PortNeedsPortOption(args, c);
    HostNeedsHostOption(args, c);
  }

  /** A flag with nothing after it is passed over. */
  lemma TrailingFlagIgnored(args: seq<string>, c: Config, flag: string)
    requires EndsClean(args) && IsFlag(flag)
    ensures ParseFrom(args + [flag], c) == ParseFrom(args, c)
  {
    ParseFromAppend(args, [flag], c);
    assert flag[2] == 'p' || flag[2] == 'h';
    assert !("--port=" <= flag) && !("--host=" <= flag);
  }

  /** One pass over `--port v`: the value is consumed and read as a number. */
  lemma PortFlagPass(v: string, rest: seq<string>, c: Config)
    requires v != ""
    ensures ParseFrom(["--port", v] + rest, c) == ParseFrom(rest, WithPort(c, ParseInt(v)))
  {
    var args := ["--port", v] + rest;
    assert args[0] == "--port" && args[1] == v && args[2..] == rest;
    assert Step(args) == 2;
    assert Apply(args, c) == WithPort(c, ParseInt(v));
  }

  /** One pass over `--port=t`: the text up to a second `=` is read. */
  lemma PortTextPass(t: string, rest: seq<string>, c: Config)
    ensures ParseFrom(["--port=" + t] + rest, c) == ParseFrom(rest, WithPort(c, ParseInt(Segment(t))))
  {
    var arg := "--port=" + t;
    var args := [arg] + rest;
    assert args[0] == arg && args[1..] == rest;
    assert "--port=" <= arg && arg[7..] == t && arg != "--port" && arg != "--host";
    assert Step(args) == 1;
    assert Apply(args, c) == WithPort(c, ParseInt(Segment(t)));
  }

  /** A value that is not a number is consumed with its flag and leaves
      the port as it was. */
  lemma NonNumericPortIgnored(v: string, rest: seq<string>, c: Config)
    requires v != "" && ParseInt(v).None?
    ensures ParseFrom(["--port", v] + rest, c) == ParseFrom(rest, c)
  {
    PortFlagPass(v, rest, c);
  }

  /** So does a `--port=` whose text is not a number. */
  lemma NonNumericPortTextIgnored(v: string, rest: seq<string>, c: Config)
    requires '=' !in v && ParseInt(v).None?
    ensures ParseFrom(["--port=" + v] + rest, c) == ParseFrom(rest, c)
  {
    PortTextPass(v, rest, c);
    SegmentWithoutEquals(v);
  }

  /** A flag followed by an empty argument takes no value: both are passed
      over. */
  lemma FlagBeforeEmptyIgnored(flag: string, rest: seq<string>, c: Config)
    requires IsFlag(flag)
    ensures ParseFrom([flag, ""] + rest, c) == ParseFrom(rest, c)
  {
    var args := [flag, ""] + rest;
    assert args[0] == flag && args[1] == "" && args[1..] == [""] + rest;
    assert flag[2] == 'p' || flag[2] == 'h';
    assert !("--port=" <= flag) && !("--host=" <= flag);
    var empty := "";
    assert !("--port=" <= empty) && !("--host=" <= empty) && !IsFlag(empty);
    assert ([""] + rest)[0] == empty && ([""] + rest)[1..] == rest;
  }

  /** The argument after `--port` is consumed even when it is not a number:
      in `--port --host x` the host option is read as the port's value, the
      port stays as it was and `x` is passed over. */
  lemma PortSwallowsNextOption(c: Config)
    ensures ParseFrom(["--port", "--host", "x"], c) == c
  {
    var args := ["--port", "--host", "x"];
    assert HasValue(args) && IsFlag(args[0]);
    NoDigitIsNaN("--host");
    assert args[2..] == ["x"];
    var x := "x";
    assert x[0] == 'x' && |x| == 1;
    assert !MentionsPort(x) && !MentionsHost(x);
    OtherArgumentsIgnored(["x"], c);
  }

  /** `--port=80=90` keeps only the text between the first two `=`. */
  lemma PortTextEndsAtSecondEquals(c: Config)
    ensures ParseFrom(["--port=80=90"], c).port == 80
  {
    var args := ["--port=80=90"];
    var arg := args[0];
    EightyText();
    assert "--port=" <= arg && arg != "--port" && arg[7..] == IntToString(80) + "=" + "90";
    PortTextReadsNumber(80, "90");
    assert Apply(args, c).port == 80;
    assert ParseFrom(args, c) == ParseFrom([], Apply(args, c));
  }

  /** The number before a second `=` is read, whatever follows it. */
  lemma PortTextReadsNumber(n: int, rest: string)
    ensures ParseInt(Segment(IntToString(n) + "=" + rest)) == Some(n)
  {
    var t := IntToString(n);
    NoEqualsInNumber(n);
    SegmentStopsAtEquals(t, rest);
    ParseIntOfIntToString(n);
  }

  lemma NoEqualsInNumber(n: int)
    ensures '=' !in IntToString(n)
  {
    var d := Decimal(if n < 0 then -n else n);
    assert forall k :: 0 <= k < |d| ==> IsDigit(d[k]);
    if n < 0 {
      assert IntToString(n) == ['-'] + d;
    }
  }

  lemma EightyText()
    ensures IntToString(80) == "80"
  {
    assert DigitChar(8) == '8' && DigitChar(0) == '0';
    assert Decimal(80) == Decimal(8) + [DigitChar(0)];
  }

  lemma {:induction false} SegmentStopsAtEquals(s: string, t: string)
    requires '=' !in s
    ensures Segment(s + "=" + t) == s
  {
    if s != [] {
      assert (s + "=" + t)[1..] == s[1..] + "=" + t;
      assert '=' !in s[1..] by {
        forall k | 0 <= k < |s[1..]| ensures s[1..][k] != '=' {
          assert s[1..][k] == s[k + 1];
        }
      }
      SegmentStopsAtEquals(s[1..], t);
    }
  }

  /** `--host=` sets the host to the empty string. */
  lemma EmptyHostOption(c: Config)
    ensures ParseFrom(["--host="], c).host == ""
  {
    var arg := "--host=";
    assert arg[2] == 'h';
    assert "--host=" <= arg && !("--port=" <= arg) && arg[7..] == "";
  }

  /** Port 0 is refused from the environment: 0 is falsy. */
  lemma ZeroPortRefusedFromEnvironment(envHost: Option<string>)
    ensures InitialConfig(Some("0"), envHost).port == 3000
  {
    ZeroText();
  }

  /** The command line takes port 0 (written `0`, `00`, ...), since it
      only rejects NaN. */
  lemma ZeroPortFromCommandLine(v: string, c: Config)
    requires ParseInt(v) == Some(0)
    ensures ParseFrom(["--port", v], c).port == 0
  {
    PortFlagPass(v, [], c);
    assert ["--port", v] + [] == ["--port", v];
  }

  /** `0` is such a text. */
  lemma ZeroText()
    ensures ParseInt("0") == Some(0)
  {
    var zero := "0";
    assert IntToString(0) == zero by {
      assert Decimal(0) == ['0'];
    }
    ParseIntOfIntToString(0);
  }
}
