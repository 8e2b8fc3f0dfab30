/** What the rule parser promises: the rules of blank configurations, how one colour token and
    a run of them set the colour fields, one rule per token in token order, that the tokens of
    a string depend only on what is left of it, and that a configuration written out from
    well-formed rules is read back as exactly those rules. */
module RuleFacts {
  import opened Text
  import opened Records
  import opened Parser

  //-------------------------------------------------------------------------------------------
  // One rule per token

  /** The rules of a token list: exactly one per token, the k-th rule read from the k-th token. */
  lemma {:induction false} RulesOfTokens(ts: seq<Token>)
    ensures |RulesOf(ts)| == |ts|
    ensures forall k :: 0 <= k < |ts| ==> RulesOf(ts)[k] == RuleOf(ts[k].text, ts[k].last)
  {
    if ts != [] {
      RulesOfTokens(ts[1..]);
    }
  }

  /** No configuration, no rules; a configuration of whitespace alone gives one rule with
      every field empty, because the outer loop runs once and finds an empty token. */
  lemma {:induction false} BlankConfig(s: string)
    requires forall i :: 0 <= i < |s| ==> IsSpace(s[i])
    ensures s == [] ==> Rules(s) == []
    ensures s != [] ==> Tokens(s) == [Token("", true)] && Rules(s) == [Format("", "", "", "", "")]
  {
    if s != [] {
      SkipSpaceInside(s, 0, |s|);
      assert SkipSpace(s, 0) == |s| && SpaceFrom(s, |s|) == |s| && SkipSpace(s, |s|) == |s|;
      assert s[|s|..|s|] == [];
      assert TokensFrom(s, |s|) == [];
      assert RulesOf([]) == [];
    }
  }

  //-------------------------------------------------------------------------------------------
  // Searching concatenations

  /** `IndexOfChar` is the first occurrence: any `k` with the defining properties is it. */
  lemma IndexOfCharIs(s: string, c: char, k: nat)
    requires k <= |s| && forall m :: 0 <= m < k ==> s[m] != c
    requires k < |s| ==> s[k] == c
    ensures IndexOfChar(s, c) == k
  {
  }

  /** Searching `a + b` for a character that `a` lacks searches `b`. */
  lemma IndexOfCharConcat(a: string, b: string, c: char)
    requires forall m :: 0 <= m < |a| ==> a[m] != c
    ensures IndexOfChar(a + b, c) == |a| + IndexOfChar(b, c)
  {
    var s, k := a + b, |a| + IndexOfChar(b, c);
    forall m | 0 <= m < k
      ensures s[m] != c
    {
      if m >= |a| {
        assert s[m] == b[m - |a|];
      }
    }
    if k < |s| {
      assert s[k] == b[k - |a|];
    }
    IndexOfCharIs(s, c, k);
  }

  /** The first delimiter of `a + b`, when `a` has none and `b` starts with one. */
  lemma IndexOfDelimConcat(a: string, b: string)
    requires forall m :: 0 <= m < |a| ==> !IsDelim(a[m])
    requires b != [] && IsDelim(b[0])
    ensures IndexOfDelim(a + b) == |a|
  {
    var s := a + b;
    assert forall m :: 0 <= m < |a| ==> s[m] == a[m];
    assert s[|a|] == b[0];
  }

  /** The two halves of a concatenation. */
  lemma Halves(a: string, b: string)
    ensures (a + b)[..|a|] == a && (a + b)[|a|..] == b
  {
  }

  //-------------------------------------------------------------------------------------------
  // Colour tokens

  /** `key:value`. */
  function Keyed(key: string, value: string): string
  {
    key + (":" + value)
  }

  /** A token `key:value` whose key is not empty and has no ':' splits into that key and value. */
  lemma KeyValueOf(key: string, value: string)
    requires key != [] && forall m :: 0 <= m < |key| ==> key[m] != ':'
    ensures KeyValue(Keyed(key, value)) == (key, value)
  {
    var arg := Keyed(key, value);
    IndexOfCharConcat(key, ":" + value, ':');
    assert IndexOfChar(":" + value, ':') == 0;
    Halves(key, ":" + value);
    assert arg[|key| + 1..] == value;
  }

  /** The effect of one token on the colours: a token with a ':' after a non-empty key sets the
      field that key names (nothing for other keys); any other token is a foreground colour. */
  lemma {:induction false} ApplyArgEffect(c: Colors, arg: string)
    ensures ':' in arg && arg[0] != ':' ==>
              var (key, value) := KeyValue(arg);
              ApplyArg(c, arg) == if key == "fg" then c.(fg := value)
                                  else if key == "bg" then c.(bg := value)
                                  else if key == "fill" then c.(fill := value)
                                  else c
    ensures !(':' in arg && arg[0] != ':') ==> ApplyArg(c, arg) == c.(fg := arg)
  {
    KeyValueSplit(arg);
  }

  /** The tokens `toks` joined by '@'. */
  function JoinAt(toks: seq<string>): string
    requires toks != []
  {
    if |toks| == 1 then toks[0] else toks[0] + ("@" + JoinAt(toks[1..]))
  }

  /** Applying tokens one after the other, from the first to the last. */
  function ApplyAll(c: Colors, toks: seq<string>): Colors
    decreases |toks|
  {
    if toks == [] then c else ApplyAll(ApplyArg(c, toks[0]), toks[1..])
  }

  predicate NoAt(s: string)
  {
    forall m :: 0 <= m < |s| ==> s[m] != '@'
  }

  /** The two sides of a character `ch` placed between `a` and `b`. */
  lemma AroundChar(a: string, ch: char, b: string)
    ensures var s := a + ([ch] + b);
            |s| == |a| + 1 + |b| && s[|a|] == ch && s[..|a|] == a && s[|a| + 1..] == b
  {
    var s := a + ([ch] + b);
    assert s[..|a|] == a;
    assert s[|a| + 1..] == b;
  }

  /** A run of tokens is its first token followed by the rest. */
  lemma ApplyArgsCons(c: Colors, arg: string, rest: string)
    requires NoAt(arg)
    ensures ApplyArgs(c, arg + ("@" + rest)) == ApplyArgs(ApplyArg(c, arg), rest)
  {
    var specs := arg + ("@" + rest);
    var k := |arg|;
    AroundChar(arg, '@', rest);
    IndexOfCharIs(specs, '@', k);
    ApplyArgsNext(c, specs, k);
  }

  /** `ApplyArgs` applies the '@'-separated tokens from left to right. */
  lemma {:induction false} ApplyArgsJoin(c: Colors, toks: seq<string>)
    requires toks != [] && forall i :: 0 <= i < |toks| ==> NoAt(toks[i])
    ensures ApplyArgs(c, JoinAt(toks)) == ApplyAll(c, toks)
    decreases |toks|
  {
    if |toks| == 1 {
      IndexOfCharIs(toks[0], '@', |toks[0]|);
      ApplyArgsLast(c, toks[0]);
      assert ApplyAll(ApplyArg(c, toks[0]), []) == ApplyArg(c, toks[0]);
    } else {
      ApplyArgsCons(c, toks[0], JoinAt(toks[1..]));
      ApplyArgsJoin(ApplyArg(c, toks[0]), toks[1..]);
    }
  }

  /** One token more at the end is applied last. */
  lemma {:induction false} ApplyAllSnoc(c: Colors, toks: seq<string>, arg: string)
    ensures ApplyAll(c, toks + [arg]) == ApplyArg(ApplyAll(c, toks), arg)
    decreases |toks|
  {
    if toks == [] {
      assert [] + [arg] == [arg];
    } else {
      assert (toks + [arg])[1..] == toks[1..] + [arg];
      ApplyAllSnoc(ApplyArg(c, toks[0]), toks[1..], arg);
    }
  }

  /** Setting one field by its key. */
  lemma ApplyKeyed(c: Colors, key: string, value: string)
    requires key in {"fg", "bg", "fill"}
    ensures ApplyArg(c, Keyed(key, value)) == if key == "fg" then c.(fg := value)
                                              else if key == "bg" then c.(bg := value)
                                              else c.(fill := value)
  {
    KeyValueOf(key, value);
  }

  /** Whatever tokens came before, a last token `fg:v`, `bg:v` or `fill:v` decides its field. */
  lemma LastTokenWins(c: Colors, toks: seq<string>, key: string, value: string)
    requires forall i :: 0 <= i < |toks| ==> NoAt(toks[i])
    requires key in {"fg", "bg", "fill"} && NoAt(value)
    ensures var r := ApplyArgs(c, JoinAt(toks + [Keyed(key, value)]));
            (key == "fg" ==> r.fg == value) && (key == "bg" ==> r.bg == value) &&
            (key == "fill" ==> r.fill == value)
  {
    var arg := Keyed(key, value);
    assert NoAt(arg) by {
      forall m | 0 <= m < |arg| ensures arg[m] != '@' {
        if m > |key| { assert arg[m] == value[m - |key| - 1]; }
      }
    }
    ApplyArgsJoin(c, toks + [arg]);
    ApplyAllSnoc(c, toks, arg);
    ApplyKeyed(ApplyAll(c, toks), key, value);
  }

  //-------------------------------------------------------------------------------------------
  // The tokens of a string depend only on what follows the scan position

  // Positions inside `s` are passed as named parameters (`a == |p| + m`) rather than written
  // as sums inside function applications, which keeps each proof small.

  lemma {:induction false} SkipSpaceShift(s: string, p: string, t: string, m: nat, a: nat)
    requires s == p + t && m <= |t| && a == |p| + m
    ensures SkipSpace(s, a) == |p| + SkipSpace(t, m)
    decreases |t| - m
  {
    if m < |t| {
      assert s[a] == t[m];
      if IsSpace(t[m]) {
        SkipSpaceShift(s, p, t, m + 1, a + 1);
      }
    }
  }

  lemma {:induction false} SpaceFromShift(s: string, p: string, t: string, m: nat, a: nat)
    requires s == p + t && m <= |t| && a == |p| + m
    ensures SpaceFrom(s, a) == |p| + SpaceFrom(t, m)
    decreases |t| - m
  {
    if m < |t| {
      assert s[a] == t[m];
      if !IsSpace(t[m]) {
        SpaceFromShift(s, p, t, m + 1, a + 1);
      }
    }
  }

  lemma ShiftSlice(s: string, p: string, t: string, j: nat, e: nat, b: nat, c: nat)
    requires s == p + t && j <= e <= |t| && b == |p| + j && c == |p| + e
    ensures s[b..c] == t[j..e]
  {
    var u := s[b..c];
    forall x | 0 <= x < e - j
      ensures u[x] == t[j + x]
    {
    }
  }

  /** One step of the token scan agrees in `s` from `a` and in `t` from `m`, `o` places
      earlier, when the scan positions and the token agree and the scans of the rest do. */
  lemma TokensStep(s: string, t: string, o: nat, m: nat, j: nat, e: nat, n: nat, a: nat, b: nat, c: nat, d: nat)
    requires o + |t| == |s| && m < |t| && j <= e <= |t| && n <= |t|
    requires a == o + m && b == o + j && c == o + e && d == o + n
    requires SkipSpace(t, m) == j && SpaceFrom(t, j) == e && SkipSpace(t, e) == n
    requires SkipSpace(s, a) == b && SpaceFrom(s, b) == c && SkipSpace(s, c) == d
    requires s[b..c] == t[j..e]
    requires TokensFrom(s, d) == TokensFrom(t, n)
    ensures TokensFrom(s, a) == TokensFrom(t, m)
  {
    TokensFromStep(s, a, b, c, d);
    TokensFromStep(t, m, j, e, n);
  }

  /** Scanning `s == p + t` from inside `t` reads the same tokens as scanning `t` alone. */
  lemma {:induction false} TokensFromShift(s: string, p: string, t: string, m: nat, a: nat)
    requires s == p + t && m <= |t| && a == |p| + m
    ensures TokensFrom(s, a) == TokensFrom(t, m)
    decreases |t| - m
  {
    if m < |t| {
      var o := |p|;
      var j := SkipSpace(t, m);
      var e := SpaceFrom(t, j);
      var n := SkipSpace(t, e);
      var b, c, d := o + j, o + e, o + n;
      SkipSpaceShift(s, p, t, m, a);
      SpaceFromShift(s, p, t, j, b);
      SkipSpaceShift(s, p, t, e, c);
      ShiftSlice(s, p, t, j, e, b, c);
      TokensFromShift(s, p, t, n, d);
      TokensStep(s, t, o, m, j, e, n, a, b, c, d);
    }
  }

  //-------------------------------------------------------------------------------------------
  // Writing rules out and reading them back

  /** No whitespace in `s`. */
  predicate Solid(s: string)
  {
    forall m :: 0 <= m < |s| ==> !IsSpace(s[m])
  }

  /** No whitespace and no delimiter in `s`. */
  predicate Plain(s: string)
  {
    forall m :: 0 <= m < |s| ==> !IsSpace(s[m]) && !IsDelim(s[m])
  }

  /** A rule the configuration syntax can express: names and colours free of whitespace and
      delimiters, a value free of whitespace. */
  predicate Expressible(f: Format)
  {
    Plain(f.name) && Plain(f.bg) && Plain(f.fg) && Plain(f.fill) && Solid(f.value)
  }

  /** The colour tokens that set all three colours of `f`. */
  function ColorSpecs(f: Format): string
  {
    JoinAt([Keyed("fg", f.fg), Keyed("bg", f.bg), Keyed("fill", f.fill)])
  }

  /** The token that spells `f` out: `name@fg:..@bg:..@fill:..=value`. */
  function Spelling(f: Format): string
  {
    f.name + ("@" + (ColorSpecs(f) + ("=" + f.value)))
  }

  /** A configuration string holding the spellings of `fs` in order, each followed by a space. */
  function Config(fs: seq<Format>): string
  {
    if fs == [] then [] else (Spelling(fs[0]) + " ") + Config(fs[1..])
  }

  /** The tokens the scan should find in `Config(fs)`: the spellings, none at the end. */
  function SpellingTokens(fs: seq<Format>): seq<Token>
  {
    if fs == [] then [] else [Token(Spelling(fs[0]), false)] + SpellingTokens(fs[1..])
  }

  /** No whitespace and no '=' in `s`: text that can stand among the colour tokens. */
  predicate Bare(s: string)
  {
    forall m :: 0 <= m < |s| ==> !IsSpace(s[m]) && s[m] != '='
  }

  /** Two bare texts joined by '@' are bare. */
  lemma BareJoin(x: string, y: string)
    requires Bare(x) && Bare(y)
    ensures Bare(x + ("@" + y))
  {
    var s := x + ("@" + y);
    forall m | 0 <= m < |s| ensures !IsSpace(s[m]) && s[m] != '=' {
      if m < |x| { assert s[m] == x[m]; }
      else if m > |x| { assert s[m] == y[m - |x| - 1]; }
    }
  }

  /** A keyed token with a bare key and a plain value is bare. */
  lemma KeyedBare(key: string, value: string)
    requires Bare(key) && Plain(value)
    ensures Bare(Keyed(key, value))
  {
    var arg := Keyed(key, value);
    forall m | 0 <= m < |arg| ensures !IsSpace(arg[m]) && arg[m] != '=' {
      if m < |key| { assert arg[m] == key[m]; }
      else if m > |key| { assert arg[m] == value[m - |key| - 1]; }
    }
  }

  /** Three tokens joined by '@'. */
  lemma JoinAtThree(a: string, b: string, c: string)
    ensures JoinAt([a, b, c]) == a + ("@" + (b + ("@" + c)))
  {
    assert [a, b, c][1..] == [b, c];
    assert [b, c][1..] == [c];
    assert JoinAt([c]) == c;
    assert JoinAt([b, c]) == b + ("@" + c);
  }

  /** A keyed token with a plain value has no '@'. */
  lemma KeyedNoAt(key: string, value: string)
    requires NoAt(key) && Plain(value)
    ensures NoAt(Keyed(key, value))
  {
    var arg := Keyed(key, value);
    forall m | 0 <= m < |arg| ensures arg[m] != '@' {
      if m < |key| { assert arg[m] == key[m]; }
      else if m > |key| { assert arg[m] == value[m - |key| - 1]; }
    }
  }

  /** The three colour tokens of an expressible rule set exactly its three colours. */
  lemma ColorSpecsApply(f: Format)
    requires Expressible(f)
    ensures ApplyArgs(NoColors, ColorSpecs(f)) == Colors(f.bg, f.fg, f.fill)
  {
    var a, b, c := Keyed("fg", f.fg), Keyed("bg", f.bg), Keyed("fill", f.fill);
    var toks := [a, b, c];
    KeyedNoAt("fg", f.fg);
    KeyedNoAt("bg", f.bg);
    KeyedNoAt("fill", f.fill);
    ApplyArgsJoin(NoColors, toks);
    var c1 := NoColors.(fg := f.fg);
    var c2 := c1.(bg := f.bg);
    ApplyKeyed(NoColors, "fg", f.fg);
    ApplyKeyed(c1, "bg", f.bg);
    ApplyKeyed(c2, "fill", f.fill);
    assert toks[1..] == [b, c] && [b, c][1..] == [c] && [c][1..] == [];
    assert ApplyAll(NoColors, toks) == ApplyAll(c1, [b, c]);
    assert ApplyAll(c1, [b, c]) == ApplyAll(c2, [c]);
    assert ApplyAll(c2, [c]) == ApplyAll(c2.(fill := f.fill), []);
  }

  /** The colour tokens of an expressible rule hold no whitespace and no '='. */
  lemma ColorSpecsPlain(f: Format)
    requires Expressible(f)
    ensures Bare(ColorSpecs(f))
  {
    var a, b, c := Keyed("fg", f.fg), Keyed("bg", f.bg), Keyed("fill", f.fill);
    KeyedBare("fg", f.fg);
    KeyedBare("bg", f.bg);
    KeyedBare("fill", f.fill);
    BareJoin(b, c);
    BareJoin(a, b + ("@" + c));
    JoinAtThree(a, b, c);
  }

  /** The spelling of a rule splits at the '@' after its name. */
  lemma SpellingSplit(f: Format)
    requires Plain(f.name)
    ensures var tok := Spelling(f); var n := |f.name|;
            IndexOfDelim(tok) == n && n < |tok| && tok[n] == '@' &&
            tok[..n] == f.name && tok[n + 1..] == ColorSpecs(f) + ("=" + f.value)
  {
    var rest := ColorSpecs(f) + ("=" + f.value);
    IndexOfDelimConcat(f.name, "@" + rest);
    Halves(f.name, "@" + rest);
  }

  /** Colour tokens without '=' followed by `=value`: the first '=' is the one after them. */
  lemma SpecsThenValue(specs: string, value: string)
    requires forall m :: 0 <= m < |specs| ==> specs[m] != '='
    ensures var rest := specs + ("=" + value);
            IndexOfChar(rest, '=') == |specs| && rest[..|specs|] == specs && rest[|specs| + 1..] == value
  {
    IndexOfCharConcat(specs, "=" + value, '=');
    assert IndexOfChar("=" + value, '=') == 0;
    Halves(specs, "=" + value);
  }

  /** The spelling of an expressible rule is read back as that rule. */
  lemma SpellingRule(f: Format, last: bool)
    requires Expressible(f)
    ensures RuleOf(Spelling(f), last) == f
  {
    var specs := ColorSpecs(f);
    var rest := specs + ("=" + f.value);
    SpellingSplit(f);
    ColorSpecsPlain(f);
    SpecsThenValue(specs, f.value);
    ColorSpecsApply(f);
    ColorRuleOf(f.name, rest, |specs|, Colors(f.bg, f.fg, f.fill));
  }

  /** Spellings hold no whitespace and start with a character that is not whitespace. */
  lemma SpellingSolid(f: Format)
    requires Expressible(f)
    ensures Solid(Spelling(f)) && Spelling(f) != [] && !IsSpace(Spelling(f)[0])
  {
    var tok := Spelling(f);
    var n := |f.name|;
    var specs := ColorSpecs(f);
    ColorSpecsPlain(f);
    forall m | 0 <= m < |tok| ensures !IsSpace(tok[m]) {
      if m < n { assert tok[m] == f.name[m]; }
      else if n < m <= n + |specs| { assert tok[m] == specs[m - n - 1]; }
      else if n + |specs| + 1 < m { assert tok[m] == f.value[m - n - |specs| - 2]; }
    }
  }

  /** The tokens of a configuration written out from expressible rules are their spellings. */
  lemma {:induction false} ConfigTokens(fs: seq<Format>)
    requires forall i :: 0 <= i < |fs| ==> Expressible(fs[i])
    ensures Tokens(Config(fs)) == SpellingTokens(fs)
  {
    if fs != [] {
      var tok, rest := Spelling(fs[0]), Config(fs[1..]);
      var s, p := Config(fs), tok + " ";
      SpellingSolid(fs[0]);
      if fs[1..] != [] {
        ConfigStart(fs[1..]);
      }
      FirstWord(s, tok, rest);
      var n, d := |tok|, |tok| + 1;
      TokensFromStep(s, 0, 0, n, d);
      TokensFromShift(s, p, rest, 0, d);
      ConfigTokens(fs[1..]);
    }
  }

  /** A non-empty configuration starts with the first character of the first spelling. */
  lemma ConfigStart(fs: seq<Format>)
    requires fs != [] && Expressible(fs[0])
    ensures Config(fs) != [] && !IsSpace(Config(fs)[0])
  {
    SpellingSolid(fs[0]);
    assert Config(fs)[0] == Spelling(fs[0])[0];
  }

  /** Scanning `tok rest` from the start: the first token is `tok`, the next starts after the
      one space. */
  lemma FirstWord(s: string, tok: string, rest: string)
    requires tok != [] && Solid(tok) && s == (tok + " ") + rest
    requires rest != [] ==> !IsSpace(rest[0])
    ensures SkipSpace(s, 0) == 0 && SpaceFrom(s, 0) == |tok| && SkipSpace(s, |tok|) == |tok| + 1
    ensures s[0..|tok|] == tok
  {
    assert forall m :: 0 <= m < |tok| ==> s[m] == tok[m];
    assert s[|tok|] == ' ';
    if rest != [] {
      assert s[|tok| + 1] == rest[0];
    }
    SpaceFromInside(s, 0, |tok|);
  }

  /** The rules of the spellings of expressible rules are those rules. */
  lemma {:induction false} SpellingsRead(fs: seq<Format>)
    requires forall i :: 0 <= i < |fs| ==> Expressible(fs[i])
    ensures RulesOf(SpellingTokens(fs)) == fs
  {
    if fs != [] {
      var ts := SpellingTokens(fs);
      assert ts[0] == Token(Spelling(fs[0]), false) && ts[1..] == SpellingTokens(fs[1..]);
      SpellingRule(fs[0], false);
      SpellingsRead(fs[1..]);
    }
  }

  /** A configuration written out from expressible rules is parsed back into exactly those
      rules: one rule per token, in the order of the tokens. */
  lemma ConfigRoundTrip(fs: seq<Format>)
    requires forall i :: 0 <= i < |fs| ==> Expressible(fs[i])
    ensures Rules(Config(fs)) == fs
  {
    ConfigTokens(fs);
    SpellingsRead(fs);
  }

  //-------------------------------------------------------------------------------------------
  // Quirks of the scan

  /** A string without whitespace is one token, running to the end. */
  lemma OneToken(s: string)
    requires s != [] && Solid(s)
    ensures Tokens(s) == [Token(s, true)]
  {
    SpaceFromInside(s, 0, |s|);
    assert s[0..|s|] == s;
    TokensFromStep(s, 0, 0, |s|, |s|);
  }

  /** A word followed by one space is one token that stops at whitespace. */
  lemma WordThenSpace(tok: string)
    requires tok != [] && Solid(tok)
    ensures Tokens(tok + " ") == [Token(tok, false)]
  {
    var s := tok + " ";
    assert s == (tok + " ") + [];
    FirstWord(s, tok, []);
    TokensFromStep(s, 0, 0, |tok|, |tok| + 1);
  }

  lemma RulesOfOne(t: Token)
    ensures RulesOf([t]) == [RuleOf(t.text, t.last)]
  {
    assert [t][1..] == [];
  }

  /** A token without delimiters is named only when whitespace follows it: at the very end of
      the configuration it yields a rule with an empty name. */
  lemma UnterminatedName(tok: string)
    requires tok != [] && Plain(tok)
    ensures Rules(tok) == [Format("", "", "", "", "")]
    ensures Rules(tok + " ") == [Format(tok, "", "", "", "")]
  {
    assert IndexOfDelim(tok) == |tok|;
    OneToken(tok);
    RulesOfOne(Token(tok, true));
    WordThenSpace(tok);
    RulesOfOne(Token(tok, false));
  }

  /** A backslash escapes nothing: `a\=b` is the rule with name `a\` and value `b`. */
  lemma BackslashKept(a: string, b: string)
    requires Plain(a) && Solid(b)
    ensures Rules(a + ("\\" + ("=" + b))) == [Format(a + "\\", b, "", "", "")]
  {
    var n := |a| + 1;
    var name := a + "\\";
    var s := a + ("\\" + ("=" + b));
    assert s == name + ("=" + b);
    assert forall m :: 0 <= m < n ==> !IsDelim(name[m]);
    IndexOfDelimConcat(name, "=" + b);
    Halves(name, "=" + b);
    assert Solid(s) by {
      forall m | 0 <= m < |s| ensures !IsSpace(s[m]) {
        if m < |a| { assert s[m] == a[m]; } else if m > n { assert s[m] == b[m - n - 1]; }
      }
    }
    OneToken(s);
    RulesOfOne(Token(s, true));
    assert s[n + 1..] == b;
  }

  //-------------------------------------------------------------------------------------------
  // Whitespace ends a rule

  /** `home=~ @fg:blue` is two tokens, split at the space. */
  lemma {:induction false} SpaceSplitsTokens(s: string)
    requires s == "home=~ @fg:blue"
    ensures Tokens(s) == [Token("home=~", false), Token("@fg:blue", true)]
  {
    var home, blue := "home=~", "@fg:blue";
    assert Solid(home) && Solid(blue);
    assert s == (home + " ") + blue;
    FirstWord(s, home, blue);
    TokensFromStep(s, 0, 0, 6, 7);
    assert forall x :: 7 <= x < |s| ==> s[x] == blue[x - 7];
    SpaceFromInside(s, 7, |s|);
    TokensFromStep(s, 7, 7, |s|, |s|);
    assert s[7..|s|] == blue;
  }

  /** The colour token `@fg:blue` with nothing before it is a rule with the empty name and a
      blue foreground. */
  lemma {:induction false} BlueRule(tok: string)
    requires tok == "@fg:blue"
    ensures RuleOf(tok, true) == Format("", "", "", "blue", "")
  {
    assert IndexOfDelim(tok) == 0;
    var rest := tok[1..];
    assert rest == "fg:blue";
    assert IndexOfChar(rest, '=') == |rest|;
    assert rest[..|rest|] == rest;
    assert IndexOfChar(rest, '@') == |rest|;
    ApplyArgsLast(NoColors, rest);
    assert IndexOfChar(rest, ':') == 2 by { assert rest[2] == ':'; }
    assert KeyValue(rest) == ("fg", "blue");
  }

  /** Whitespace ends a rule: `home=~ @fg:blue` is the uncoloured rule replacing `home` with
      `~`, and then a rule with the empty name whose foreground is blue. */
  lemma {:induction false} SpaceSplitsRule(s: string)
    requires s == "home=~ @fg:blue"
    ensures Rules(s) == [Format("home", "~", "", "", ""), Format("", "", "", "blue", "")]
  {
    SpaceSplitsTokens(s);
    var home := "home=~";
    assert IndexOfDelim(home) == 4 by { assert home[4] == '='; }
    assert RuleOf(home, false) == Format("home", "~", "", "", "");
    BlueRule("@fg:blue");
    var ts := Tokens(s);
    assert RulesOf(ts) == [RuleOf(ts[0].text, ts[0].last)] + RulesOf(ts[1..]);
    assert RulesOf(ts[1..]) == [RuleOf(ts[1].text, ts[1].last)] + RulesOf(ts[2..]);
  }
}
