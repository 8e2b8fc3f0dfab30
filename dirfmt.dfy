/** The formatter object `CDirFmt`: its options with their setters and getters, the rule list
    its constructor fills from the configuration string, and `format`. The environment
    variables the constructor reads are its parameters, `None` standing for an unset one. */
module DirFormatter {
  import opened Text
  import opened Records
  import opened Escapes
  import opened Parser
  import Formatter

  /** The value of an environment variable, or `fallback` when it is unset. */
  function ValueOr(v: Option<string>, fallback: string): (r: string)
    ensures v.Some? ==> r == v.value
    ensures v.None? ==> r == fallback
  {
    if v.Some? then v.value else fallback
  }

  /** One pass of the outer loop of `parseEnv`: from `i`, the token found between `j` and `e`
      gives rule `f`, and the next pass starts at `n`. */
  lemma RulesStep(env: string, i: nat, j: nat, e: nat, n: nat, f: Format, done: seq<Format>)
    requires i < |env| && j == SkipSpace(env, i) && e == SpaceFrom(env, j) && n == SkipSpace(env, e)
    requires f == RuleOf(env[j..e], e == |env|)
    ensures i < n
    ensures done + RulesOf(TokensFrom(env, i)) == (done + [f]) + RulesOf(TokensFrom(env, n))
  {
    TokensFromStep(env, i, j, e, n);
    var ts, rest := TokensFrom(env, i), TokensFrom(env, n);
    assert ts[0] == Token(env[j..e], e == |env|) && ts[1..] == rest;
    assert RulesOf(ts) == [f] + RulesOf(rest);
    assert done + ([f] + RulesOf(rest)) == (done + [f]) + RulesOf(rest);
  }

  class CDirFmt {
    var split: bool
    var prompt: bool
    var postfix: string
    var breakLen: int
    var nocolor: bool
    var color: bool
    var env: string
    var envLen: int
    var term: string
    var colorTerm: bool
    var clip: string
    var shellName: string
    var promptColor: string
    var formats: seq<Records.Format>

    /** Reads DIRFMT, parses it into the rule list, then reads DIRFMT_PROMPT_COLOR, TERM
        (default "xterm") and SHELL (default "/bin/sh"). Every other field keeps its
        declared default. */
    constructor(dirFmtEnv: Option<string>, colorEnv: Option<string>, termEnv: Option<string>,
                shellEnv: Option<string>)
      ensures env == ValueOr(dirFmtEnv, "") && envLen == |env|
      ensures formats == Rules(env)
      ensures promptColor == ValueOr(colorEnv, "")
      ensures term == ValueOr(termEnv, "xterm") && shellName == ValueOr(shellEnv, "/bin/sh")
      ensures !split && !prompt && postfix == "" && breakLen == -1
      ensures !nocolor && !color && colorTerm && clip == "right"
    {
      split, prompt, postfix, breakLen := false, false, "", -1;
      nocolor, color, colorTerm, clip := false, false, true, "right";
      term, shellName, promptColor, formats := "", "", "", [];
      var dirFmt := ValueOr(dirFmtEnv, "");
      env := dirFmt;
      envLen := |dirFmt|;
      // `parseEnv` reads only `env` and writes only `formats`, so the three variables read
      // after it in the constructor can be stored before it with the same outcome.
      promptColor := ValueOr(colorEnv, "");
      term := ValueOr(termEnv, "xterm");
      shellName := ValueOr(shellEnv, "/bin/sh");
      new;
      ParseEnv();
      assert formats == [] + Rules(env);
    }

    function IsSplit(): bool
      reads this
    {
      split
    }

    method SetSplit(b: bool)
      modifies this`split
      ensures IsSplit() == b
      ensures Settings() == old(Settings()).(split := b)
    {
      split := b;
    }

    function IsPrompt(): bool
      reads this
    {
      prompt
    }

    method SetPrompt(b: bool)
      modifies this`prompt
      ensures IsPrompt() == b
      ensures Settings() == old(Settings()).(prompt := b)
    {
      prompt := b;
    }

    function Postfix(): string
      reads this
    {
      postfix
    }

    method SetPostfix(s: string)
      modifies this`postfix
      ensures Postfix() == s
      ensures Settings() == old(Settings()).(postfix := s)
    {
      postfix := s;
    }

    function BreakLen(): int
      reads this
    {
      breakLen
    }

    method SetBreakLen(i: int)
      modifies this`breakLen
      ensures BreakLen() == i
      ensures Settings() == old(Settings()).(breakLen := i)
    {
      breakLen := i;
    }

    function IsNoColor(): bool
      reads this
    {
      nocolor
    }

    method SetNoColor(b: bool)
      modifies this`nocolor
      ensures IsNoColor() == b
      ensures Settings() == old(Settings())
    {
      nocolor := b;
    }

    function IsColor(): bool
      reads this
    {
      color
    }

    method SetColor(b: bool)
      modifies this`color
      ensures IsColor() == b
      ensures Settings() == old(Settings()).(color := b)
    {
      color := b;
    }

    function Clip(): string
      reads this
    {
      clip
    }

    method SetClip(s: string)
      modifies this`clip
      ensures Clip() == s
      ensures Settings() == old(Settings())
    {
      clip := s;
    }

    /** Append one rule; the colours default to empty. */
    method AddFormat(name: string, value: string, bg: string := "", fg: string := "", fill: string := "")
      modifies this`formats
      ensures formats == old(formats) + [NewFormat(name, value, bg, fg, fill)]
    {
      formats := formats + [NewFormat(name, value, bg, fg, fill)];
    }

    /** `parseEnv`: skip whitespace, scan one rule, append it, until the string is used up. */
    method ParseEnv()
      requires envLen == |env|
      modifies this`formats
      ensures formats == old(formats) + Rules(env)
    {
      var i := 0;
      while i < envLen
        invariant 0 <= i <= |env|
        invariant formats + RulesOf(TokensFrom(env, i)) == old(formats) + Rules(env)
        decreases |env| - i
      {
        ghost var i0 := i;
        i := SkipSpaces(env, i);
        var f, next := ScanRule(env, i);
        RulesStep(env, i0, i, SpaceFrom(env, i), next, f, formats);
        AddFormat(f.name, f.value, f.bg, f.fg, f.fill);
        i := next;
      }
      assert formats + [] == formats;
    }

    /** What `format` reads of the object. */
    function Settings(): Formatter.Settings
      reads this
    {
      Formatter.Settings(split, prompt, postfix, breakLen, color, Terminal(term, shellName, colorTerm),
                         promptColor, formats)
    }

    /** `format`: everything written for `dir`. */
    method Format(dir: string) returns (out: string)
      ensures out == Formatter.Formatted(Settings(), dir)
    {
      out := Formatter.FormatDir(Settings(), dir);
    }
  }

  /** `main` once its arguments are read: build the formatter, set the options (a
      non-positive break length becomes `BREAK_LEN`) and format the directory. */
  method Run(dirFmtEnv: Option<string>, colorEnv: Option<string>, termEnv: Option<string>,
             shellEnv: Option<string>, split: bool, prompt: bool, postfix: string,
             breakLenArg: int, color: bool, directory: string) returns (out: string)
    ensures out == Formatter.Formatted(
                     Formatter.Settings(split, prompt, postfix, EffectiveBreakLen(breakLenArg), color,
                                        Terminal(ValueOr(termEnv, "xterm"), ValueOr(shellEnv, "/bin/sh"), true),
                                        ValueOr(colorEnv, ""), Rules(ValueOr(dirFmtEnv, ""))),
                     directory)
  {
    var breakLen := breakLenArg;
    if breakLen <= 0 {
      breakLen := BREAK_LEN;
    }
    var dirfmt := new CDirFmt(dirFmtEnv, colorEnv, termEnv, shellEnv);
    dirfmt.SetSplit(split);
    dirfmt.SetPrompt(prompt);
    dirfmt.SetPostfix(postfix);
    dirfmt.SetBreakLen(breakLen);
    dirfmt.SetColor(color);
    out := dirfmt.Format(directory);
  }
}
