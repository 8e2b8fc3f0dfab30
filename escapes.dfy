/** The colour resolvers `colorEscape` and `fillEscape`: pure tables from a colour name and the
    terminal and shell identity to an escape string. Sequences follow ECMA-48: SGR (section
    8.3.117) with the standard foreground codes 30-37 and the widespread bright codes 90-97,
    and OSC (section 8.3.89) 11, xterm's "set text background colour", ended by ST. */
module Escapes {
  import opened Text

  /** The ESC control character, which the program's escape literals hold as a raw byte. */
  const ESC: char := '\U{1B}'

  /** The shell whose prompts need non-printing sequences wrapped in `%{ ... %}`. */
  const TCSH: string := "/bin/tcsh"

  /** The eight base colour names, in SGR code order. */
  const BaseColors: seq<string> := ["black", "red", "green", "yellow", "blue", "magenta", "cyan", "white"]

  /** What the resolvers know of the terminal and the shell. */
  datatype Terminal = Terminal(term: string, shellName: string, colorTerm: bool)

  /** Select Graphic Rendition with parameter `code`: ESC [ code m. */
  function Sgr(code: string): string
  {
    [ESC] + "[" + code + "m"
  }

  /** The two device-specific sequences of hpterm. */
  const HP_NORM: string := [ESC] + "&v0S"
  const HP_BOLD: string := [ESC] + "&v3S"

  /** tcsh's `%{ ... %}`: the enclosed text takes no columns in the prompt. */
  function TcshLiteral(esc: string): string
  {
    "%{" + esc + "%}"
  }

  /** OSC 11 ; name ST: set the terminal's background colour to `name`. */
  function Osc11(name: string): string
  {
    [ESC] + "]11;" + name + [ESC] + "\\"
  }

  /** Position of `c` among the base colours. */
  function ColorNumber(c: string): (r: Option<nat>)
    ensures r.Some? <==> c in BaseColors
    ensures r.Some? ==> r.value < |BaseColors| && BaseColors[r.value] == c
  {
    if c == "black" then Some(0)
    else if c == "red" then Some(1)
    else if c == "green" then Some(2)
    else if c == "yellow" then Some(3)
    else if c == "blue" then Some(4)
    else if c == "magenta" then Some(5)
    else if c == "cyan" then Some(6)
    else if c == "white" then Some(7)
    else None
  }

  /** The two-digit SGR foreground parameter of base colour `k`: 3k, or 9k for the bright variant. */
  function ColorCode(k: nat, bright: bool): (code: string)
    requires k < |BaseColors|
    ensures |code| == 2 && code[1] == "01234567"[k]
    ensures code[0] == (if bright then '9' else '3')
  {
    [if bright then '9' else '3', "01234567"[k]]
  }

  /** The colour name with a leading "bold-" and then a leading "alt-" removed, and the two flags. */
  datatype Style = Style(bold: bool, alt: bool, color: string)

  function ParseStyle(str: string): (s: Style)
    ensures s.bold <==> StartsWith(str, "bold-")
    ensures var rest := if s.bold then str[5..] else str;
            (s.alt <==> StartsWith(rest, "alt-")) && s.color == if s.alt then rest[4..] else rest
  {
    var bold := StartsWith(str, "bold-");
    var rest := if bold then str[5..] else str;
    var alt := StartsWith(rest, "alt-");
    Style(bold, alt, if alt then rest[4..] else rest)
  }

  predicate TcshPrompt(t: Terminal, prompt: bool)
  {
    prompt && t.shellName == TCSH
  }

  /** Terminals `colorEscape` has entries for, compared for exact equality. */
  predicate KnownTerm(term: string)
  {
    term == "xterm" || term == "hpterm" || term == "iris-ansi" || term == "iris-ansi-net"
  }

  /** `colorEscape(str, prompt)`: the escape that switches to colour `str`. */
  function ColorEscape(t: Terminal, str: string, prompt: bool): (r: string)
    ensures TcshPrompt(t, prompt) ==>
              r != [] && StartsWith(r, TcshLiteral(Sgr(if StartsWith(str, "bold-") then "1" else "0")))
    ensures !TcshPrompt(t, prompt) && !KnownTerm(t.term) ==> r == []
    ensures !TcshPrompt(t, prompt) && !t.colorTerm ==> r in {[], Sgr("0"), Sgr("1"), HP_NORM, HP_BOLD}
  {
    var style := ParseStyle(str);
    var c := style.color;
    if TcshPrompt(t, prompt) then
      var attr := TcshLiteral(Sgr(if style.bold then "1" else "0"));
      var color := ColorNumber(c);
      if color.Some? then attr + TcshLiteral(Sgr(ColorCode(color.value, style.alt))) else attr
    else if t.term == "iris-ansi" || t.term == "iris-ansi-net" then
      if c == "norm" then Sgr("0") else if c == "bold" then Sgr("1") else []
    else if t.term == "hpterm" then
      if c == "norm" then HP_NORM else if c == "bold" then HP_BOLD else []
    else if t.term == "xterm" then
      if c == "norm" then Sgr("0")
      else if c == "bold" then Sgr("1")
      else if t.colorTerm && ColorNumber(c).Some? then Sgr(ColorCode(ColorNumber(c).value, false))
      else []
    else []
  }

  /** `fillEscape(str, prompt)`: the sequence that sets the terminal background to `str`. */
  function FillEscape(t: Terminal, str: string, prompt: bool): (r: string)
    ensures r != [] <==> str != [] && t.term == "xterm" && !TcshPrompt(t, prompt)
    ensures r != [] ==> r == Osc11(str)
  {
    if str == [] then []
    else if TcshPrompt(t, prompt) then []
    else if t.term == "xterm" then Osc11(str)
    else []
  }

  /** None of the base colour names starts with either style prefix. */
  lemma BaseColorsUnprefixed(k: nat)
    requires k < |BaseColors|
    ensures !StartsWith(BaseColors[k], "bold-") && !StartsWith(BaseColors[k], "alt-")
    ensures ColorNumber(BaseColors[k]) == Some(k)
  {
    var c := BaseColors[k];
    assert |c| >= 3 && c[0] != 'a' && (c[0] != 'b' || c[1] != 'o');
    assert |c| >= 5 ==> c[..5][0] == c[0] && c[..5][1] == c[1];
    assert |c| >= 4 ==> c[..4][0] == c[0];
  }

  /** An optional "bold-" in front of a string that does not start with one is read back. */
  lemma BoldPrefix(bold: bool, rest: string, str: string)
    requires !StartsWith(rest, "bold-")
    requires str == (if bold then "bold-" else "") + rest
    ensures StartsWith(str, "bold-") == bold
    ensures (if bold then str[5..] else str) == rest
  {
    if bold {
      assert str[..5] == "bold-" && str[5..] == rest;
    }
  }

  /** An optional "alt-" in front of a string that does not start with one is read back, and
      what it yields does not start with "bold-". */
  lemma AltPrefix(alt: bool, c: string, rest: string)
    requires !StartsWith(c, "bold-") && !StartsWith(c, "alt-")
    requires rest == (if alt then "alt-" else "") + c
    ensures StartsWith(rest, "alt-") == alt && !StartsWith(rest, "bold-")
    ensures (if alt then rest[4..] else rest) == c
  {
    if alt {
      assert rest[..4] == "alt-" && rest[4..] == c;
      assert rest[0] == 'a';
    }
  }

  /** Every combination of the "bold-" and "alt-" prefixes in front of a base colour is read
      back as that colour with the matching flags. */
  lemma StyleOfPrefixed(bold: bool, alt: bool, k: nat, str: string)
    requires k < |BaseColors|
    requires str == (if bold then "bold-" else "") + (if alt then "alt-" else "") + BaseColors[k]
    ensures ParseStyle(str) == Style(bold, alt, BaseColors[k])
  {
    BaseColorsUnprefixed(k);
    PrefixedStyle(bold, alt, BaseColors[k], str);
  }

  /** The prefixes in front of a colour name that starts with neither are read back. */
  lemma PrefixedStyle(bold: bool, alt: bool, c: string, str: string)
    requires !StartsWith(c, "bold-") && !StartsWith(c, "alt-")
    requires str == (if bold then "bold-" else "") + (if alt then "alt-" else "") + c
    ensures ParseStyle(str) == Style(bold, alt, c)
  {
    var rest := (if alt then "alt-" else "") + c;
    assert str == (if bold then "bold-" else "") + rest;
    AltPrefix(alt, c, rest);
    BoldPrefix(bold, rest, str);
  }

  /** For tcsh prompts a base colour, with any prefixes, resolves to the attribute sequence
      (bold or plain) followed by the colour, 90-97 for "alt-" and 30-37 otherwise. */
  lemma TcshBaseColor(t: Terminal, bold: bool, alt: bool, k: nat, str: string)
    requires k < |BaseColors|
    requires str == (if bold then "bold-" else "") + (if alt then "alt-" else "") + BaseColors[k]
    requires t.shellName == TCSH
    ensures ColorEscape(t, str, true)
            == TcshLiteral(Sgr(if bold then "1" else "0")) + TcshLiteral(Sgr(ColorCode(k, alt)))
  {
    StyleOfPrefixed(bold, alt, k, str);
    BaseColorsUnprefixed(k);
  }

  /** On xterm (outside a tcsh prompt) a base colour resolves to its 30-37 code when the terminal
      takes colours, whatever the prefixes: the bold and bright flags are ignored there. */
  lemma XtermBaseColor(t: Terminal, prompt: bool, bold: bool, alt: bool, k: nat, str: string)
    requires k < |BaseColors|
    requires str == (if bold then "bold-" else "") + (if alt then "alt-" else "") + BaseColors[k]
    requires t.term == "xterm" && !TcshPrompt(t, prompt)
    ensures ColorEscape(t, str, prompt) == if t.colorTerm then Sgr(ColorCode(k, false)) else []
  {
    StyleOfPrefixed(bold, alt, k, str);
    BaseColorsUnprefixed(k);
    assert BaseColors[k] != "norm" && BaseColors[k] != "bold";
    XtermColor(t, str, prompt, BaseColors[k]);
  }

  /** On xterm (outside a tcsh prompt) a colour other than "norm" and "bold" gives its 30-37
      code when it is a base colour and the terminal takes colours, and nothing otherwise. */
  lemma XtermColor(t: Terminal, str: string, prompt: bool, c: string)
    requires t.term == "xterm" && !TcshPrompt(t, prompt)
    requires ParseStyle(str).color == c && c != "norm" && c != "bold"
    ensures ColorEscape(t, str, prompt) ==
            if t.colorTerm && ColorNumber(c).Some? then Sgr(ColorCode(ColorNumber(c).value, false)) else []
  {
  }

  /** On hpterm and the iris terminals only "norm" and "bold" produce anything. */
  lemma NormBoldOnly(t: Terminal, str: string, prompt: bool)
    requires !TcshPrompt(t, prompt)
    requires t.term in {"hpterm", "iris-ansi", "iris-ansi-net"}
    ensures ColorEscape(t, str, prompt) != [] ==> ParseStyle(str).color in {"norm", "bold"}
  {
  }

  /** On every known terminal (outside a tcsh prompt) "norm" gives the terminal's reset and
      "bold" its bold sequence, whatever the prefixes and whether it takes colours: hpterm's
      own sequences, SGR 0 and SGR 1 on the others. */
  lemma NormBoldEscape(t: Terminal, str: string, prompt: bool)
    requires !TcshPrompt(t, prompt) && KnownTerm(t.term)
    requires ParseStyle(str).color == "norm" || ParseStyle(str).color == "bold"
    ensures var norm := ParseStyle(str).color == "norm";
            ColorEscape(t, str, prompt) ==
              if t.term == "hpterm" then (if norm then HP_NORM else HP_BOLD)
              else Sgr(if norm then "0" else "1")
  {
  }

  /** In a tcsh prompt a name that is not a base colour (such as "norm", or the empty string
      of an unset colour) gives the attribute sequence alone. */
  lemma TcshOtherName(t: Terminal, str: string)
    requires t.shellName == TCSH && ColorNumber(ParseStyle(str).color).None?
    ensures ColorEscape(t, str, true) == TcshLiteral(Sgr(if StartsWith(str, "bold-") then "1" else "0"))
  {
  }

  /** The reset written after every coloured part, `colorEscape("norm", prompt)`, on each kind
      of terminal: plain SGR 0 in a tcsh prompt, xterm and iris; hpterm's own; nothing on an
      unknown terminal. */
  lemma NormReset(t: Terminal, prompt: bool, norm: string)
    requires norm == "norm"
    ensures ColorEscape(t, norm, prompt) ==
              if TcshPrompt(t, prompt) then TcshLiteral(Sgr("0"))
              else if t.term == "hpterm" then HP_NORM
              else if KnownTerm(t.term) then Sgr("0")
              else []
  {
    assert !StartsWith(norm, "bold-") && !StartsWith(norm, "alt-") by {
      assert norm[0] == 'n';
    }
    assert ParseStyle(norm) == Style(false, false, norm);
    assert ColorNumber(norm).None?;
  }

  /** An unset colour, the empty string, gives the plain attribute in a tcsh prompt and nothing
      elsewhere. */
  lemma UnsetColor(t: Terminal, prompt: bool)
    ensures ColorEscape(t, "", prompt) == if TcshPrompt(t, prompt) then TcshLiteral(Sgr("0")) else []
  {
    assert ParseStyle("") == Style(false, false, "");
  }
}
