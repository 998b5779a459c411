/**
 * The script's command-line option loop.
 *
 * `argv[0]` is the script name; the options start at `argv[1]`. The loop walks
 * the arguments left to right: `-y` and `-v` raise a flag, `-d` takes the next
 * argument as the photo directory, a help token stops everything with the help
 * text, and anything else ends the script with "Invalid option".
 */
module CommandLine {
  import opened Php

  /** The three settings the loop produces (`$verbose`, `$photopath`, `$continue`). */
  datatype Config = Config(verbose: bool, photoPath: string, noConfirm: bool)

  /** The values the settings hold before the loop starts. */
  const Defaults := Config(false, "photos", false)

  datatype ParseError =
    | InvalidPath                  // "-d" last, or followed by an empty argument
    | InvalidOption(token: string) // a token no case of the switch accepts

  /** What the loop ends with: the settings, the help text and exit, or an error that ends the script. */
  datatype Outcome = Run(config: Config) | ShowHelp | Fail(error: ParseError)

  predicate IsHelpToken(t: string)
  {
    t == "?" || t == "h" || t == "-h" || t == "help"
  }

  /** The tokens some case of the switch accepts. */
  predicate IsKnownToken(t: string)
  {
    t == "-y" || t == "-v" || t == "-d" || IsHelpToken(t)
  }

  /** The loop's meaning on the arguments still to be read, starting from settings `c`. */
  function ParseTokens(toks: seq<string>, c: Config): Outcome
    decreases |toks|
  {
    if toks == [] then Run(c)
    else if toks[0] == "-y" then ParseTokens(toks[1..], c.(noConfirm := true))
    else if toks[0] == "-v" then ParseTokens(toks[1..], c.(verbose := true))
    else if toks[0] == "-d" then
      if |toks| < 2 || EmptyString(toks[1]) then Fail(InvalidPath)
      else ParseTokens(toks[2..], c.(photoPath := toks[1]))
    else if IsHelpToken(toks[0]) then ShowHelp
    else Fail(InvalidOption(toks[0]))
  }

  /** The whole command line, script name included. */
  function Parse(argv: seq<string>): Outcome
  {
    if argv == [] then Run(Defaults) else ParseTokens(argv[1..], Defaults)
  }

  /** The option loop itself, with its moving index. */
  method ParseArguments(argv: seq<string>) returns (r: Outcome)
    ensures r == Parse(argv)
  {
    var c := Defaults;
    var i := 1;
    while i < |argv|
      invariant 1 <= i && (i <= |argv| || argv == [])
      invariant Parse(argv) == if argv == [] then Run(c) else ParseTokens(argv[i..], c)
    {
      var arg := argv[i];
      if arg == "-y" {
        c := c.(noConfirm := true);
      } else if arg == "-v" {
        c := c.(verbose := true);
      } else if arg == "-d" {
        if i + 1 >= |argv| || EmptyString(argv[i + 1]) {
          return Fail(InvalidPath);
        }
        i := i + 1;
        c := c.(photoPath := argv[i]);
      } else if IsHelpToken(arg) {
        return ShowHelp;
      } else {
        return Fail(InvalidOption(arg));
      }
      i := i + 1;
    }
    r := Run(c);
  }

  /** Without options the settings are the initial ones. */
  lemma NoOptions(argv: seq<string>)
    requires |argv| <= 1
    ensures Parse(argv) == Run(Config(false, "photos", false))
  {
  }

  /**
   * Arguments made only of `-y` and `-v` succeed; `-y` sets only the
   * confirmation flag and `-v` only the verbosity flag, however often and in
   * whatever order they occur.
   */
  lemma {:induction false} FlagsOnly(toks: seq<string>, c: Config)
    requires forall k :: 0 <= k < |toks| ==> toks[k] == "-y" || toks[k] == "-v"
    ensures ParseTokens(toks, c)
         == Run(Config(c.verbose || "-v" in toks, c.photoPath, c.noConfirm || "-y" in toks))
  {
    if toks != [] {
      var c' := if toks[0] == "-y" then c.(noConfirm := true) else c.(verbose := true);
      FlagsOnly(toks[1..], c');
      assert toks == [toks[0]] + toks[1..];
    }
  }

  /**
   * A prefix that parses completely hands its settings on: what follows it is
   * parsed from those settings, as if the prefix had never been there.
   */
  lemma {:induction false} Sequencing(a: seq<string>, b: seq<string>, c: Config, c': Config)
    requires ParseTokens(a, c) == Run(c')
    ensures ParseTokens(a + b, c) == ParseTokens(b, c')
    decreases |a|
  {
    if a == [] {
      assert a + b == b;
    } else if a[0] == "-y" {
      assert (a + b)[1..] == a[1..] + b;
      Sequencing(a[1..], b, c.(noConfirm := true), c');
    } else if a[0] == "-v" {
      assert (a + b)[1..] == a[1..] + b;
      Sequencing(a[1..], b, c.(verbose := true), c');
    } else {
      assert a[0] == "-d" && |a| >= 2;
      assert (a + b)[1] == a[1];
      assert (a + b)[2..] == a[2..] + b;
      Sequencing(a[2..], b, c.(photoPath := a[1]), c');
    }
  }

  /**
   * Help and "Invalid option" end the loop at once: nothing after the token
   * that caused them is looked at.
   */
  lemma {:induction false} StopsAtOnce(a: seq<string>, b: seq<string>, c: Config)
    requires ParseTokens(a, c).ShowHelp? || (ParseTokens(a, c).Fail? && ParseTokens(a, c).error.InvalidOption?)
    ensures ParseTokens(a + b, c) == ParseTokens(a, c)
    decreases |a|
  {
    assert a != [];
    assert (a + b)[0] == a[0];
    if a[0] == "-y" {
      assert (a + b)[1..] == a[1..] + b;
      StopsAtOnce(a[1..], b, c.(noConfirm := true));
    } else if a[0] == "-v" {
      assert (a + b)[1..] == a[1..] + b;
      StopsAtOnce(a[1..], b, c.(verbose := true));
    } else if a[0] == "-d" {
      assert |a| >= 2;
      assert (a + b)[1] == a[1];
      assert (a + b)[2..] == a[2..] + b;
      StopsAtOnce(a[2..], b, c.(photoPath := a[1]));
    }
  }

  /**
   * `-d X` with a non-empty `X` sets the photo path to `X` and consumes `X`:
   * even an `X` that looks like an option is never read as one.
   */
  lemma PathConsumed(pre: seq<string>, x: string, rest: seq<string>, c: Config, c': Config)
    requires ParseTokens(pre, c) == Run(c')
    requires !EmptyString(x)
    ensures ParseTokens(pre + ["-d", x] + rest, c) == ParseTokens(rest, c'.(photoPath := x))
  {
    Sequencing(pre, ["-d", x] + rest, c, c');
    assert pre + ["-d", x] + rest == pre + (["-d", x] + rest);
    assert (["-d", x] + rest)[2..] == rest;
  }

  /** `-d` as the last argument, or followed by "" or "0", ends the script with a path error. */
  lemma PathMissing(pre: seq<string>, rest: seq<string>, c: Config, c': Config)
    requires ParseTokens(pre, c) == Run(c')
    requires rest == [] || EmptyString(rest[0])
    ensures ParseTokens(pre + ["-d"] + rest, c) == Fail(InvalidPath)
  {
    Sequencing(pre, ["-d"] + rest, c, c');
    assert pre + ["-d"] + rest == pre + (["-d"] + rest);
    assert rest != [] ==> (["-d"] + rest)[1] == rest[0];
  }

  /**
   * Reached after a prefix that parses, a help token yields help and any
   * token outside the switch's cases yields "Invalid option", whatever follows.
   */
  lemma TokenOutcome(pre: seq<string>, t: string, rest: seq<string>, c: Config, c': Config)
    requires ParseTokens(pre, c) == Run(c')
    requires t != "-y" && t != "-v" && t != "-d"
    ensures ParseTokens(pre + [t] + rest, c)
         == if IsHelpToken(t) then ShowHelp else Fail(InvalidOption(t))
  {
    Sequencing(pre, [t] + rest, c, c');
    assert pre + [t] + rest == pre + ([t] + rest);
    assert ([t] + rest)[0] == t;
  }

  /** An "Invalid option" error names a token of the command line that no case accepts. */
  lemma {:induction false} InvalidOptionIsUnknown(toks: seq<string>, c: Config)
    requires ParseTokens(toks, c).Fail? && ParseTokens(toks, c).error.InvalidOption?
    ensures ParseTokens(toks, c).error.token in toks
    ensures !IsKnownToken(ParseTokens(toks, c).error.token)
    decreases |toks|
  {
    var t := ParseTokens(toks, c).error.token;
    if toks[0] == "-y" {
      InvalidOptionIsUnknown(toks[1..], c.(noConfirm := true));
    } else if toks[0] == "-v" {
      InvalidOptionIsUnknown(toks[1..], c.(verbose := true));
    } else if toks[0] == "-d" {
      InvalidOptionIsUnknown(toks[2..], c.(photoPath := toks[1]));
      assert t in toks[2..];
    }
  }

  /** Help is only ever the answer when a help token occurs on the command line. */
  lemma {:induction false} HelpNeedsHelpToken(toks: seq<string>, c: Config)
    requires ParseTokens(toks, c) == ShowHelp
    ensures exists k :: 0 <= k < |toks| && IsHelpToken(toks[k])
    decreases |toks|
  {
    if toks[0] == "-y" {
      HelpNeedsHelpToken(toks[1..], c.(noConfirm := true));
      var k :| 0 <= k < |toks[1..]| && IsHelpToken(toks[1..][k]);
      assert IsHelpToken(toks[k + 1]);
    } else if toks[0] == "-v" {
      HelpNeedsHelpToken(toks[1..], c.(verbose := true));
      var k :| 0 <= k < |toks[1..]| && IsHelpToken(toks[1..][k]);
      assert IsHelpToken(toks[k + 1]);
    } else if toks[0] == "-d" {
      HelpNeedsHelpToken(toks[2..], c.(photoPath := toks[1]));
      var k :| 0 <= k < |toks[2..]| && IsHelpToken(toks[2..][k]);
      assert IsHelpToken(toks[k + 2]);
    } else {
      assert IsHelpToken(toks[0]);
    }
  }

  /**
   * A successful parse never clears a flag, and the photo path it ends with is
   * either the initial one or a non-empty argument of the command line.
   */
  lemma {:induction false} SettingsOnlyRise(toks: seq<string>, c: Config)
    requires ParseTokens(toks, c).Run?
    ensures var r := ParseTokens(toks, c).config;
      && (c.verbose ==> r.verbose)
      && (c.noConfirm ==> r.noConfirm)
      && (r.photoPath == c.photoPath || (r.photoPath in toks && !EmptyString(r.photoPath)))
    decreases |toks|
  {
    if toks == [] {
    } else if toks[0] == "-y" {
      SettingsOnlyRise(toks[1..], c.(noConfirm := true));
    } else if toks[0] == "-v" {
      SettingsOnlyRise(toks[1..], c.(verbose := true));
    } else {
      SettingsOnlyRise(toks[2..], c.(photoPath := toks[1]));
      var r := ParseTokens(toks, c).config;
      assert r.photoPath in toks[2..] ==> r.photoPath in toks;
    }
  }
}
