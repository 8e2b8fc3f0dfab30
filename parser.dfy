/** The rule parser `CDirFmt::parseEnv`.

    The specification half reads the configuration string as whitespace-separated tokens and
    says what rule each token yields (`RuleOf`); the method half (`ScanRule`) is the index-driven
    scan of the program, proved to agree with it. */
module Parser {
  import opened Text
  import opened Records

  predicate IsDelim(c: char)
  {
    c == '=' || c == '@'
  }

  /** First index of '=' or '@' in `tok`, or `|tok|`. */
  function IndexOfDelim(tok: string): (k: nat)
    ensures k <= |tok|
    ensures forall m :: 0 <= m < k ==> !IsDelim(tok[m])
    ensures k < |tok| ==> IsDelim(tok[k])
  {
    DelimFrom(tok, 0)
  }

  /** First index at or after `i` of '=' or '@' in `tok`, or `|tok|`. */
  function DelimFrom(tok: string, i: nat): (k: nat)
    requires i <= |tok|
    ensures i <= k <= |tok|
    ensures forall m :: i <= m < k ==> !IsDelim(tok[m])
    ensures k < |tok| ==> IsDelim(tok[k])
    decreases |tok| - i
  {
    if i == |tok| || IsDelim(tok[i]) then i else DelimFrom(tok, i + 1)
  }

  /** The three colour fields a rule's `@` tokens may set. */
  datatype Colors = Colors(bg: string, fg: string, fill: string)

  const NoColors: Colors := Colors("", "", "")

  /** A colour token `key:value` splits at its first ':'; a token without ':' or with an empty
      key is a foreground colour as a whole. */
  function KeyValue(arg: string): (string, string)
  {
    var k := IndexOfChar(arg, ':');
    if 0 < k < |arg| then (arg[..k], arg[k + 1..]) else ("fg", arg)
  }

  /** How a colour token splits: at its first ':' when that is not its first character, and
      otherwise not at all, the whole token being a foreground colour. */
  lemma KeyValueSplit(arg: string)
    ensures var kv := KeyValue(arg);
            if ':' in arg && arg[0] != ':' then kv.0 != [] && ':' !in kv.0 && arg == kv.0 + ":" + kv.1
            else kv == ("fg", arg)
  {
    var k := IndexOfChar(arg, ':');
    if 0 < k < |arg| {
      assert arg == arg[..k] + ":" + arg[k + 1..];
    } else if ':' in arg {
      assert k == 0;
    }
  }

  /** The effect of one colour token: keys "fg", "bg" and "fill" set their field, others nothing. */
  function ApplyArg(c: Colors, arg: string): Colors
  {
    var (key, val) := KeyValue(arg);
    if key == "fg" then c.(fg := val)
    else if key == "bg" then c.(bg := val)
    else if key == "fill" then c.(fill := val)
    else c
  }

  /** The effect of the '@'-separated colour tokens `specs`, applied from left to right. */
  function ApplyArgs(c: Colors, specs: string): Colors
    decreases |specs|
  {
    var k := IndexOfChar(specs, '@');
    if k == |specs| then ApplyArg(c, specs)
    else ApplyArgs(ApplyArg(c, specs[..k]), specs[k + 1..])
  }

  /** `ApplyArgs` on a single token, one without '@'. */
  lemma {:induction false} ApplyArgsLast(c: Colors, specs: string)
    requires IndexOfChar(specs, '@') == |specs|
    ensures ApplyArgs(c, specs) == ApplyArg(c, specs)
  {
  }

  /** One step of `ApplyArgs`, with the position `k` of the first '@' named: the first token,
      then the rest. */
  lemma {:induction false} ApplyArgsNext(c: Colors, specs: string, k: nat)
    requires k < |specs| && k == IndexOfChar(specs, '@')
    ensures ApplyArgs(c, specs) == ApplyArgs(ApplyArg(c, specs[..k]), specs[k + 1..])
  {
  }

  /** The rule one token yields. `atEnd` tells whether the token runs to the end of the
      configuration string rather than stopping at whitespace. */
  function RuleOf(tok: string, atEnd: bool): Format
  {
    var k := IndexOfDelim(tok);
    if k == |tok| then
      // the name is only taken when the scan meets whitespace
      Format(if atEnd then "" else tok, "", "", "", "")
    else if tok[k] == '=' then
      Format(tok[..k], tok[k + 1..], "", "", "")
    else
      ColorRule(tok[..k], tok[k + 1..])
  }

  /** The rule `name@rest`: the colour tokens of `rest` run up to its first '=', the value is
      what follows that '='. */
  function ColorRule(name: string, rest: string): Format
  {
    var q := IndexOfChar(rest, '=');
    var c := ApplyArgs(NoColors, rest[..q]);
    Format(name, if q < |rest| then rest[q + 1..] else "", c.bg, c.fg, c.fill)
  }

  /** A whitespace-delimited token of the configuration, and whether it runs to the end of the
      string rather than stopping at whitespace. */
  datatype Token = Token(text: string, last: bool)

  /** The tokens of `s` from position `i` on: skip whitespace, read up to the next whitespace,
      repeat while input remains. The whitespace after a token is consumed with it, so a
      trailing space adds no token (`WordThenSpace`); only a string of whitespace alone yields
      a token, the empty one (`BlankConfig`). */
  function TokensFrom(s: string, i: nat): seq<Token>
    requires i <= |s|
    decreases |s| - i
  {
    if i == |s| then []
    else
      var j := SkipSpace(s, i);
      var e := SpaceFrom(s, j);
      [Token(s[j..e], e == |s|)] + TokensFrom(s, SkipSpace(s, e))
  }

  /** One step of `TokensFrom`, with the scan positions named. */
  lemma TokensFromStep(s: string, i: nat, j: nat, e: nat, n: nat)
    requires i < |s| && j == SkipSpace(s, i) && e == SpaceFrom(s, j) && n == SkipSpace(s, e)
    ensures TokensFrom(s, i) == [Token(s[j..e], e == |s|)] + TokensFrom(s, n)
  {
  }

  function Tokens(s: string): seq<Token>
  {
    TokensFrom(s, 0)
  }

  /** The rule of each token, in order. */
  function RulesOf(ts: seq<Token>): seq<Format>
  {
    if ts == [] then [] else [RuleOf(ts[0].text, ts[0].last)] + RulesOf(ts[1..])
  }

  /** The rules parsed from a whole configuration string, in order. */
  function Rules(s: string): seq<Format>
  {
    RulesOf(Tokens(s))
  }

  //-------------------------------------------------------------------------------------------
  // The scan

  /** Skip whitespace from `i` on. */
  method SkipSpaces(env: string, i0: nat) returns (i: nat)
    requires i0 <= |env|
    ensures i == SkipSpace(env, i0)
  {
    i := i0;
    while i < |env| && IsSpace(env[i])
      invariant i0 <= i <= SkipSpace(env, i0)
    {
      i := i + 1;
    }
  }

  /** Collect characters from `i` on up to the next whitespace. */
  method ReadWord(env: string, i0: nat) returns (word: string, i: nat)
    requires i0 <= |env|
    ensures i == SpaceFrom(env, i0) && word == env[i0..i]
  {
    word, i := "", i0;
    while i < |env| && !IsSpace(env[i])
      invariant i0 <= i <= SpaceFrom(env, i0)
      invariant word == env[i0..i]
    {
      word := word + [env[i]];
      i := i + 1;
    }
  }

  /** Split one colour token at its first ':'. */
  method SplitColorArg(arg: string) returns (name1: string, value1: string)
    ensures (name1, value1) == KeyValue(arg)
  {
    name1, value1 := "", "";
    var k := 0;
    while k < |arg|
      invariant k <= |arg|
      invariant forall m :: 0 <= m < k ==> arg[m] != ':'
      invariant name1 == "" && value1 == ""
    {
      if arg[k] == ':' {
        name1 := arg[..k];
        value1 := arg[k + 1..];
        break;
      }
      k := k + 1;
    }
    if name1 == "" {
      name1 := "fg";
      value1 := arg;
    }
  }

  /** Collect one colour token: the characters from `a` on up to whitespace, '=' or '@'. */
  method ReadColorArg(env: string, a: nat) returns (arg: string, i: nat)
    requires a <= |env|
    ensures a <= i <= |env| && arg == env[a..i]
    ensures forall m :: a <= m < i ==> !IsSpace(env[m]) && !IsDelim(env[m])
    ensures i < |env| ==> IsSpace(env[i]) || IsDelim(env[i])
  {
    arg, i := "", a;
    while i < |env| && !IsSpace(env[i]) && env[i] != '=' && env[i] != '@'
      invariant a <= i <= |env|
      invariant arg == env[a..i]
      invariant forall m :: a <= m < i ==> !IsSpace(env[m]) && !IsDelim(env[m])
    {
      arg := arg + [env[i]];
      i := i + 1;
    }
  }

  /** One pass of the '@' loop consumes the first of the remaining tokens. */
  lemma ColorArgStep(env: string, a: nat, i: nat, q: nat, c: Colors, arg: string)
    requires a <= i <= q <= |env| && arg == env[a..i]
    requires forall m :: a <= m < i ==> env[m] != '@'
    requires i < q ==> env[i] == '@'
    ensures i == q ==> ApplyArgs(c, env[a..q]) == ApplyArg(c, arg)
    ensures i < q ==> ApplyArgs(c, env[a..q]) == ApplyArgs(ApplyArg(c, arg), env[i + 1..q])
  {
    var specs := env[a..q];
    assert IndexOfChar(specs, '@') == i - a by {
      assert forall m :: 0 <= m < i - a ==> specs[m] == env[a + m];
      if i < q { assert specs[i - a] == env[i]; }
    }
    if i < q {
      var k := i - a;
      ApplyArgsNext(c, specs, k);
      assert ApplyArgs(c, specs) == ApplyArgs(ApplyArg(c, specs[..k]), specs[k + 1..]);
      assert specs[..k] == arg;
      assert specs[k + 1..] == env[i + 1..q];
    } else {
      ApplyArgsLast(c, specs);
      assert specs == arg;
    }
  }

  /** Where the '@' tokens of a rule whose first '@' is at `k0` end: at the '=' that starts the
      value, or at the end of the token. */
  function ColorsEnd(env: string, k0: nat): (q: nat)
    requires k0 < |env| && env[k0] == '@'
    ensures k0 < q <= SpaceFrom(env, k0)
    ensures q == k0 + 1 + IndexOfChar(env[k0 + 1..SpaceFrom(env, k0)], '=')
    ensures forall m :: k0 < m < q ==> env[m] != '=' && !IsSpace(env[m])
    ensures q < |env| ==> env[q] == '=' || IsSpace(env[q])
  {
    var e := SpaceFrom(env, k0);
    var rest := env[k0 + 1..e];
    var q := k0 + 1 + IndexOfChar(rest, '=');
    assert forall m :: k0 < m < q ==> env[m] != '=' && !IsSpace(env[m]) by {
      forall m | k0 < m < q ensures env[m] != '=' && !IsSpace(env[m]) {
        assert rest[m - k0 - 1] == env[m];
      }
    }
    assert q < e ==> env[q] == '=' by {
      if q < e { assert rest[q - k0 - 1] == env[q]; }
    }
    q
  }

  /** The state of the '@' loop at position `i`, with colours `c` so far: before the end `q`
      of the colour tokens, `i` is an '@' and the tokens after it finish the job; at `q`, the
      colours are the result `target`. */
  predicate ColorsPending(env: string, i: nat, q: nat, c: Colors, target: Colors)
    requires i <= q <= |env|
  {
    if i < q then env[i] == '@' && ApplyArgs(c, env[i + 1..q]) == target else c == target
  }

  /** One pass of the '@' loop: the token read after the '@' at `a - 1` takes the loop to the
      next '@' or to the end of the colour tokens. */
  lemma ColorsPendingStep(env: string, k0: nat, q: nat, a: nat, i: nat, arg: string,
                          c: Colors, c1: Colors, target: Colors)
    requires k0 < |env| && env[k0] == '@' && q == ColorsEnd(env, k0)
    requires k0 < a <= q && ColorsPending(env, a - 1, q, c, target)
    requires a <= i <= |env| && arg == env[a..i]
    requires forall m :: a <= m < i ==> !IsSpace(env[m]) && !IsDelim(env[m])
    requires i < |env| ==> IsSpace(env[i]) || IsDelim(env[i])
    requires c1 == ApplyArg(c, arg)
    ensures i <= q && ColorsPending(env, i, q, c1, target)
  {
    ColorArgStep(env, a, i, q, c, arg);
  }

  /** The '@' tokens of a rule (the loop at '@'): starting at the '@' at `k0`, apply each token
      in turn and stop where the colour tokens end. */
  method ScanColorArgs(env: string, k0: nat) returns (bg: string, fg: string, fill: string, i: nat)
    requires k0 < |env| && env[k0] == '@'
    ensures i == ColorsEnd(env, k0)
    ensures Colors(bg, fg, fill) == ApplyArgs(NoColors, env[k0 + 1..i])
  {
    ghost var q := ColorsEnd(env, k0);
    ghost var target := ApplyArgs(NoColors, env[k0 + 1..q]);
    bg, fg, fill := "", "", "";
    i := k0;
    while CharAt(env, i) == '@'
      invariant k0 <= i <= q
      invariant ColorsPending(env, i, q, Colors(bg, fg, fill), target)
      decreases q - i
    {
      ghost var c := Colors(bg, fg, fill);
      i := i + 1;
      var a := i;
      var arg;
      arg, i := ReadColorArg(env, a);
      var name1, value1 := SplitColorArg(arg);
      if name1 == "fg" {
        fg := value1;
      } else if name1 == "bg" {
        bg := value1;
      } else if name1 == "fill" {
        fill := value1;
      }
      ColorsPendingStep(env, k0, q, a, i, arg, c, Colors(bg, fg, fill), target);
    }
  }

  /** A token `env[start..e]` whose first delimiter is at `k0`, position `k` of the token,
      splits there; `a` is the position after the delimiter. */
  lemma TokenDelim(env: string, start: nat, k0: nat, e: nat, k: nat, a: nat)
    requires start <= k0 < e <= |env| && IsDelim(env[k0])
    requires forall m :: start <= m < k0 ==> !IsDelim(env[m])
    requires k == k0 - start && a == k0 + 1
    ensures var tok := env[start..e];
            IndexOfDelim(tok) == k && k < |tok| && tok[k] == env[k0] &&
            tok[..k] == env[start..k0] && tok[k + 1..] == env[a..e]
  {
    var tok := env[start..e];
    assert forall m :: 0 <= m < k ==> tok[m] == env[start + m];
    assert IndexOfDelim(tok) == k;
    SliceOfSlice(env, start, e, 0, k);
    SliceOfSlice(env, start, e, k + 1, |tok|);
  }

  /** The rule of a token whose first delimiter, at `k`, is '@'. */
  lemma RuleOfColored(tok: string, k: nat, b: bool)
    requires k == IndexOfDelim(tok) && k < |tok| && tok[k] == '@'
    ensures RuleOf(tok, b) == ColorRule(tok[..k], tok[k + 1..])
  {
  }

  /** The rule of a token whose first delimiter, at `k`, is '='. */
  lemma RuleOfAssign(tok: string, k: nat, b: bool)
    requires k == IndexOfDelim(tok) && k < |tok| && tok[k] == '='
    ensures RuleOf(tok, b) == Format(tok[..k], tok[k + 1..], "", "", "")
  {
  }

  /** The colour tokens and the value of `rest` as the scan finds them in `env`. */
  lemma ColorRuleAt(env: string, a: nat, q: nat, e: nat, name: string, value: string, c: Colors)
    requires a <= q <= e <= |env|
    requires q == a + IndexOfChar(env[a..e], '=')
    requires c == ApplyArgs(NoColors, env[a..q])
    requires value == if q < e then env[q + 1..e] else ""
    ensures ColorRule(name, env[a..e]) == Format(name, value, c.bg, c.fg, c.fill)
  {
    var rest := env[a..e];
    var r := q - a;
    SplitAt(env, a, q, e, r);
    ColorRuleOf(name, rest, r, c);
  }

  /** `ColorRule` spelled out from the position `q` of its '=' and the colours `c` before it. */
  lemma ColorRuleOf(name: string, rest: string, q: nat, c: Colors)
    requires q == IndexOfChar(rest, '=') && c == ApplyArgs(NoColors, rest[..q])
    ensures ColorRule(name, rest) == Format(name, if q < |rest| then rest[q + 1..] else "", c.bg, c.fg, c.fill)
  {
  }

  /** The rule of a token `env[start..e]` whose first delimiter is the '@' at `k0`. */
  lemma AtRule(env: string, start: nat, k0: nat, q: nat, e: nat, b: bool, name: string, value: string, c: Colors)
    requires start <= k0 < q <= e <= |env| && env[k0] == '@'
    requires forall m :: start <= m < k0 ==> !IsDelim(env[m])
    requires q == k0 + 1 + IndexOfChar(env[k0 + 1..e], '=')
    requires name == env[start..k0] && c == ApplyArgs(NoColors, env[k0 + 1..q])
    requires value == if q < e then env[q + 1..e] else ""
    ensures Format(name, value, c.bg, c.fg, c.fill) == RuleOf(env[start..e], b)
  {
    var tok, k, a := env[start..e], k0 - start, k0 + 1;
    TokenDelim(env, start, k0, e, k, a);
    RuleOfColored(tok, k, b);
    ColorRuleAt(env, a, q, e, name, value, c);
  }

  /** The rule of a token whose first delimiter is the '=' at `k`. */
  lemma AssignRule(env: string, start: nat, k: nat, e: nat, b: bool, name: string, value: string)
    requires start <= k < e <= |env| && env[k] == '='
    requires forall m :: start <= m < k ==> !IsDelim(env[m])
    requires name == env[start..k] && value == env[k + 1..e]
    ensures Format(name, value, "", "", "") == RuleOf(env[start..e], b)
  {
    var tok, j, a := env[start..e], k - start, k + 1;
    TokenDelim(env, start, k, e, j, a);
    RuleOfAssign(tok, j, b);
  }

  /** The rule of a token without delimiters. */
  lemma PlainRule(env: string, start: nat, e: nat)
    requires start <= |env| && e == SpaceFrom(env, start)
    requires forall m :: start <= m < e ==> !IsDelim(env[m])
    ensures Format(if e == |env| then "" else env[start..e], "", "", "", "") == RuleOf(env[start..e], e == |env|)
  {
    var tok := env[start..e];
    assert IndexOfDelim(tok) == |tok| by {
      assert forall m :: 0 <= m < |tok| ==> tok[m] == env[start + m];
    }
  }

  /** What one scan from `start` must produce: the rule of the token there, and the start of
      the next rule. */
  ghost predicate Scanned(env: string, start: nat, f: Format, i: nat)
    requires start <= |env|
  {
    var e := SpaceFrom(env, start);
    f == RuleOf(env[start..e], e == |env|) && i == SkipSpace(env, e)
  }

  /** What the scan of an '@' rule finds, from the '@' at `k0` on: the colour tokens up to `q`,
      then either '=' and the value up to `w`, or nothing (`w == q`). */
  lemma AtScanned(env: string, start: nat, k0: nat, q: nat, w: nat, value: string, c: Colors, i: nat)
    requires start <= k0 < |env| && env[k0] == '@'
    requires forall m :: start <= m < k0 ==> !IsDelim(env[m]) && !IsSpace(env[m])
    requires q == ColorsEnd(env, k0) && c == ApplyArgs(NoColors, env[k0 + 1..q])
    requires CharAt(env, q) == '=' ==> q < |env| && w == SpaceFrom(env, q + 1) && value == env[q + 1..w]
    requires CharAt(env, q) != '=' ==> w == q && value == ""
    requires w <= |env| && i == SkipSpace(env, w)
    ensures Scanned(env, start, Format(env[start..k0], value, c.bg, c.fg, c.fill), i)
  {
    var e := SpaceFrom(env, start);
    SpaceFromInside(env, start, k0);
    if CharAt(env, q) == '=' {
      SpaceFromInside(env, k0, q + 1);
    } else {
      assert q == e;
    }
    AtRule(env, start, k0, q, e, e == |env|, env[start..k0], value, c);
  }

  /** The '@' case: a rule `name@tok@tok...[=value]` whose first delimiter is the '@' at `k0`. */
  method ScanAtRule(env: string, start: nat, k0: nat) returns (f: Format, i: nat)
    requires start <= k0 < |env| && env[k0] == '@'
    requires forall m :: start <= m < k0 ==> !IsDelim(env[m]) && !IsSpace(env[m])
    ensures Scanned(env, start, f, i)
  {
    var name := env[start..k0];
    var value := "";
    var bg, fg, fill;
    bg, fg, fill, i := ScanColorArgs(env, k0);
    ghost var q := i;
    if CharAt(env, i) == '=' {
      i := i + 1;
      value, i := ReadWord(env, i);
    }
    ghost var w := i;
    i := SkipSpaces(env, i);
    AtScanned(env, start, k0, q, w, value, Colors(bg, fg, fill), i);
    f := Format(name, value, bg, fg, fill);
  }

  /** The '=' case: a rule `name=value` whose first delimiter is the '=' at `k`. */
  method ScanAssignRule(env: string, start: nat, k: nat) returns (f: Format, i: nat)
    requires start <= k < |env| && env[k] == '='
    requires forall m :: start <= m < k ==> !IsDelim(env[m]) && !IsSpace(env[m])
    ensures Scanned(env, start, f, i)
  {
    ghost var e := SpaceFrom(env, start);
    var name := env[start..k];
    i := k + 1;
    SpaceFromInside(env, start, i);
    var value;
    value, i := ReadWord(env, i);
    AssignRule(env, start, k, e, e == |env|, name, value);
    i := SkipSpaces(env, i);
    f := Format(name, value, "", "", "");
  }

  /** One pass of the outer loop of `parseEnv` after its leading whitespace is skipped: scan one
      rule starting at `start` and return it with the index where the next rule starts. */
  method ScanRule(env: string, start: nat) returns (f: Format, i: nat)
    requires start <= |env|
    ensures var e := SpaceFrom(env, start);
            f == RuleOf(env[start..e], e == |env|) && i == SkipSpace(env, e)
  {
    ghost var e := SpaceFrom(env, start);
    i := start;
    var j := i;
    while i < |env|
      invariant start <= i <= e
      invariant forall m :: start <= m < i ==> !IsDelim(env[m]) && !IsSpace(env[m])
    {
      if CharAt(env, i) == '\\' && CharAt(env, i + 1) != '\0' {
        // a backslash: only the backslash itself is stepped over, it escapes nothing
        i := i + 1;
      } else if CharAt(env, i) == '@' {
        f, i := ScanAtRule(env, j, i);
        return;
      } else if CharAt(env, i) == '=' {
        f, i := ScanAssignRule(env, j, i);
        return;
      } else if IsSpace(CharAt(env, i)) {
        PlainRule(env, start, e);
        f := Format(env[j..i], "", "", "", "");
        i := SkipSpaces(env, i);
        return;
      } else {
        i := i + 1;
      }
    }
    // the input ended inside the token: the name is never taken
    PlainRule(env, start, e);
    f := Format("", "", "", "", "");
  }
}
