# CDirFmt in Dafny

CDirFmt turns a directory path into the decorated string a shell prompt prints. Its
configuration, the `DIRFMT` environment variable, is a list of whitespace-separated rules:

- `name=value` replaces the first occurrence of `name` with `value`.
- `name@fg:red@bg:blue@fill:grey=value` does the same and also colours the value.

`format` does the following:

1. Cuts the path to `MAX_DIR` (1024) characters and drops its trailing whitespace.
2. Splits the path at the first occurrence of each rule's name, rule by rule, each search in
   what the earlier rules left.
3. Prints the pieces with their colour escapes against a column budget, the break length (54
   unless given). The first piece that reaches the budget is either cut short with `"..."`
   or, in split mode, printed whole with a line-break marker at the end.
4. In colour-query mode, prints only the background ("fill") sequence of the last matched rule.

The escape sequences depend on the terminal (`TERM`), on the shell (`SHELL`, tcsh prompts get
`%{...%}` literals) and on whether the output is for a prompt. The program's escape literals
hold a raw ESC byte (0x1B) before `[..m`, `&v..S` and `]11;` and before the backslash that
ends OSC 11; the model writes the same bytes.

The Dafny modules follow the program:

- `Records` (`records.dfy`): the `Format` and `Part` records and the two constants.
- `Text` (`text.dfy`): `isspace`, `std::string::find` and the character scans.
- `Escapes` (`escapes.dfy`): `colorEscape` and `fillEscape`.
- `Parser` (`parser.dfy`): the rule language, as a declarative specification (`Rules`) and
  as the scanning loops of `parseEnv`, each proved against it.
- `RuleFacts` (`rule_facts.dfy`): properties of the rule language.
- `Formatter` (`formatter.dfy`): `format`. It has specification functions (`Prepared`,
  `Segment`, `Render`, `Formatted`) and methods with the program's loops proved to compute
  them.
- `DirFormatter` (`dirfmt.dfy`): the `CDirFmt` object with its fields, constructor, setters,
  `addFormat`, `parseEnv` and `format`, and `Run`, which is `main` after argument parsing.

Environment variables are constructor parameters; `None` stands for an unset variable.
Standard output is the string `format` returns.

## Model

| member | source | states |
|---|---|---|
| Records.NewFormat | src/CDirFmt.h:14-18 | the record holds the name, value and colours it was given |
| Records.NewFormatDefaults | src/CDirFmt.h:14-18 | the three colours default to the empty string |
| Records.EffectiveBreakLen | src/CDirFmt.cpp:27-28 | the break length is positive; a positive request is kept, any other becomes `BREAK_LEN` (54) |
| Text.IsSpace | src/CDirFmt.cpp:111 | `isspace` holds only of the space and the control characters from tab to carriage return |
| Text.CharAt | src/CDirFmt.cpp:124 | reading at the end of the configuration string yields NUL, as `std::string` does |
| Text.Find | src/CDirFmt.cpp:255-258 | `find` returns an occurrence with no earlier occurrence, and `npos` only when the pattern occurs nowhere |
| Text.FindEmpty | src/CDirFmt.cpp:255 | the empty name is found at position 0 of any directory |
| Text.SkipSpace | src/CDirFmt.cpp:111-112 | the scan stops at the first non-whitespace character after `i` or at the end |
| Text.SpaceFrom | src/CDirFmt.cpp:171-172 | the scan stops at the first whitespace character after `i` or at the end |
| Escapes.ParseStyle | src/CDirFmt.cpp:361-383 | "bold-" is stripped first and then "alt-", each only as a prefix, and each sets its flag |
| Escapes.ColorNumber | src/CDirFmt.cpp:398-415 | only the eight base colour names have a number, and that number is the name's index |
| Escapes.ColorCode | src/CDirFmt.cpp:398-415 | the code is "3" followed by the colour digit, or "9" and the digit for "alt-" |
| Escapes.ColorEscape | src/CDirFmt.cpp:357-447 | a tcsh prompt always gets the bold or plain attribute first; an unknown terminal gets nothing; a terminal without colours gets at most "norm" or "bold" |
| Escapes.StyleOfPrefixed | src/CDirFmt.cpp:361-383 | every combination of the prefixes in front of a base colour is read back as that colour with those flags |
| Escapes.TcshBaseColor | src/CDirFmt.cpp:390-419 | for a tcsh prompt, a base colour gives the attribute literal and then the 30-37 or 90-97 literal |
| Escapes.XtermBaseColor | src/CDirFmt.cpp:430-446 | outside a tcsh prompt on xterm, a base colour gives its 30-37 code when the terminal takes colours and nothing otherwise; "bold-" and "alt-" are ignored |
| Escapes.NormBoldOnly | src/CDirFmt.cpp:422-429 | outside a tcsh prompt on hpterm and iris, only "norm" and "bold" produce an escape |
| Escapes.NormBoldEscape | src/CDirFmt.cpp:422-433 | outside a tcsh prompt, on every known terminal, "norm" gives the terminal's reset and "bold" its bold sequence: hpterm's own, SGR 0 and SGR 1 on the others, whether or not the terminal takes colours |
| Escapes.TcshOtherName | src/CDirFmt.cpp:390-419 | in a tcsh prompt a name that is not a base colour gives the attribute literal alone |
| Escapes.NormReset | src/CDirFmt.cpp:390-446 | the reset written after each coloured part is SGR 0 (as a tcsh literal in a tcsh prompt), hpterm's own reset, or nothing on an unknown terminal |
| Escapes.UnsetColor | src/CDirFmt.cpp:357-446 | an unset colour, the empty string, gives the plain attribute literal in a tcsh prompt and nothing elsewhere |
| Escapes.FillEscape | src/CDirFmt.cpp:449-474 | the fill sequence is non-empty exactly for a non-empty colour on xterm outside a tcsh prompt, and is then OSC 11 with the colour |
| Parser.KeyValueSplit | src/CDirFmt.cpp:139-156 | a colour token splits at its first ':' unless that is its first character; otherwise the whole token is a foreground colour |
| Parser.SplitColorArg | src/CDirFmt.cpp:139-156 | the ':' loop computes that split |
| Parser.SkipSpaces | src/CDirFmt.cpp:110-112 | the loop stops where `SkipSpace` says |
| Parser.ReadWord | src/CDirFmt.cpp:171-172 | the value loop collects the characters up to the next whitespace |
| Parser.ReadColorArg | src/CDirFmt.cpp:136-137 | a colour token runs up to whitespace, '=' or '@' |
| Parser.ColorsEnd | src/CDirFmt.cpp:131-168 | the colour tokens end at the first '=' or whitespace after the first '@' |
| Parser.ScanColorArgs | src/CDirFmt.cpp:131-164 | the '@' loop ends where the colour tokens end and applies them from left to right |
| Parser.AtRule | src/CDirFmt.cpp:128-179 | a token whose first delimiter is '@' gives the name before it, the colours of the '@' tokens and the value after the next '=' |
| Parser.AssignRule | src/CDirFmt.cpp:181-193 | a token whose first delimiter is '=' gives the name before it and the value after it |
| Parser.PlainRule | src/CDirFmt.cpp:194-205 | a token without delimiter gives a rule named by the token when whitespace follows it, and a rule with the empty name at the end of the string |
| Parser.ScanAtRule | src/CDirFmt.cpp:128-179 | the '@' branch yields the rule of the token and stops after the whitespace that follows it |
| Parser.ScanAssignRule | src/CDirFmt.cpp:181-193 | the '=' branch yields the rule of the token and stops after the whitespace that follows it |
| Parser.ScanRule | src/CDirFmt.cpp:117-206 | one pass of the outer loop yields the rule of the next token and stops after the whitespace that follows it |
| RuleFacts.RulesOfTokens | src/CDirFmt.cpp:109-210 | there is one rule per token, in order |
| RuleFacts.BlankConfig | src/CDirFmt.cpp:109-210 | an empty configuration has no rules; one of only whitespace has one rule with every field empty |
| RuleFacts.ConfigRoundTrip | src/CDirFmt.cpp:102-211 | writing rules as `name@fg:..@bg:..@fill:..=value` separated by spaces and parsing the result gives the same rules |
| RuleFacts.UnterminatedName | src/CDirFmt.cpp:194-205 | a bare name is kept only when whitespace follows it; at the end of the string the rule has the empty name |
| RuleFacts.BackslashKept | src/CDirFmt.cpp:124-126 | a backslash in front of '=' does not stop the '=' from ending the name, and the backslash stays in the name |
| RuleFacts.SpaceSplitsTokens | src/CDirFmt.cpp:109-112 | `home=~ @fg:blue` is read as two tokens, split at the space |
| RuleFacts.BlueRule | src/CDirFmt.cpp:128-164 | `@fg:blue` at the end of the string is a rule with the empty name and a blue foreground |
| RuleFacts.SpaceSplitsRule | src/CDirFmt.cpp:102-211 | `home=~ @fg:blue` gives the uncoloured rule `home` to `~` and then the empty-named blue rule |
| RuleFacts.KeyValueOf | src/CDirFmt.cpp:141-151 | a token `key:value` whose key has no ':' splits into that key and value |
| RuleFacts.ApplyArgEffect | src/CDirFmt.cpp:153-163 | a colour token sets fg, bg or fill as its key says, ignores other keys, and without a key sets fg |
| RuleFacts.ApplyArgsJoin | src/CDirFmt.cpp:131-164 | the '@' tokens are applied one after the other from left to right |
| RuleFacts.LastTokenWins | src/CDirFmt.cpp:131-164 | of several tokens for the same colour, the last one wins |
| Formatter.Clamped | src/CDirFmt.cpp:218-225 | the directory is cut to at most `MAX_DIR` characters, a prefix of the input, and is unchanged when it fits |
| Formatter.TrimLen | src/CDirFmt.cpp:229-235 | the trimmed length ends on a non-whitespace character and only whitespace is dropped |
| Formatter.TrimmedIdempotent | src/CDirFmt.cpp:229-235 | trimming a trimmed string changes nothing |
| Formatter.PreparedShape | src/CDirFmt.cpp:217-237 | the prepared directory is a prefix of the input, at most `MAX_DIR` long, does not end in whitespace, and only whitespace was dropped below the limit |
| Formatter.PreparedIdempotent | src/CDirFmt.cpp:217-237 | preparing a prepared directory changes nothing |
| Formatter.Prepare | src/CDirFmt.cpp:217-237 | the cut and the trailing-whitespace loop compute the prepared directory |
| Formatter.SegmentRoundTrip | src/CDirFmt.cpp:253-273 | putting each matched rule's name back between the pieces gives the directory again |
| Formatter.SegmentFirstMatches | src/CDirFmt.cpp:253-262 | every rule is applied at the first occurrence of its name in what the earlier rules left |
| Formatter.SegmentSplit | src/CDirFmt.cpp:253-271 | segmenting with the first `k` rules and then with the rest, from what the first `k` left, is segmenting with all of them |
| Formatter.SegmentApplies | src/CDirFmt.cpp:255-262 | rule `k` is applied exactly when its name occurs in what the earlier rules left: it then adds one cut at the first occurrence and leaves what follows the name, and otherwise changes nothing |
| Formatter.SegmentInOrder | src/CDirFmt.cpp:253-258 | the matched rules are a subsequence of the rules, in their order |
| Formatter.EmptyNameMatchesFirst | src/CDirFmt.cpp:255-262 | a rule with the empty name always matches, at the start, with empty text before it |
| Formatter.FgColorsAt | src/CDirFmt.cpp:266 | the colour of the i-th value is `colorEscape` of its rule's foreground colour |
| Formatter.PartsShape | src/CDirFmt.cpp:253-273 | the parts alternate: the text before a match in the prompt colour, then its value in its rule's colour; the rest comes last in the prompt colour |
| Formatter.FillOf | src/CDirFmt.cpp:247-268 | the remembered fill is non-empty exactly when the last matched rule has a fill, on xterm outside a tcsh prompt, and is then its OSC 11 sequence; a later rule without a fill clears an earlier one's |
| Formatter.SegmentDir | src/CDirFmt.cpp:247-273 | the rule loop builds exactly those parts and that fill |
| Formatter.Clip | src/CDirFmt.cpp:306 | `substr(0, n)` keeps `n` characters, or the whole text when `n` is past the end or, wrapped as `size_t`, negative |
| Formatter.ShowPartText | src/CDirFmt.cpp:290-315 | a part without colour is printed as its text alone; a coloured one as its colour, its text and the normal colour |
| Formatter.RenderNewline | src/CDirFmt.cpp:296-302 | the line break is asked for only in split mode, and only when the parts reach the break length |
| Formatter.OverflowIsFirst | src/CDirFmt.cpp:289-321 | the part that overflows is the first whose running column total reaches the break length, and there is none when the total never does |
| Formatter.TruncateShape | src/CDirFmt.cpp:303-320 | in truncate mode, the parts before the overflowing one are printed whole, that one is cut with "...", nothing follows it, and no line break is asked for |
| Formatter.TruncatedWidth | src/CDirFmt.cpp:306-308 | with at least three columns left, the cut line is exactly the break length wide |
| Formatter.TruncatedWrap | src/CDirFmt.cpp:306-308 | with fewer than three columns left, the overflowing part is printed whole before "..." and the line is at least three columns too wide |
| Formatter.SplitShowsAll | src/CDirFmt.cpp:298-302 | in split mode every part is printed whole |
| Formatter.SplitMarker | src/CDirFmt.cpp:296-299 | in split mode the line break is asked for exactly when the total width reaches the break length |
| Formatter.RenderParts | src/CDirFmt.cpp:284-321 | the printing loop computes the rendering of the parts from column 0 |
| Formatter.ColorModeFillOnly | src/CDirFmt.cpp:277-280 | in colour-query mode the output is empty or the fill of the last matched rule, and no path text |
| Formatter.PostfixLast | src/CDirFmt.cpp:353-354 | outside colour-query mode the output ends with the postfix |
| Formatter.FormatDir | src/CDirFmt.cpp:213-355 | `format` writes the specified output: the fill in colour-query mode, otherwise the rendering, then the line break if one was asked for, then the postfix |
| DirFormatter.ValueOr | src/CDirFmt.cpp:84-89 | an unset variable gives the fallback, a set one its value |
| DirFormatter.CDirFmt.constructor | src/CDirFmt.cpp:61-100 | the fields hold their declared defaults (src/CDirFmt.h:82-97), the rules are those of `DIRFMT`, TERM defaults to "xterm" and SHELL to "/bin/sh" |
| DirFormatter.CDirFmt.SetSplit | src/CDirFmt.h:39-40 | `isSplit()` then returns the new value; of what `format` reads, only that field changes |
| DirFormatter.CDirFmt.SetPrompt | src/CDirFmt.h:42-43 | `isPrompt()` then returns the new value; only that field changes |
| DirFormatter.CDirFmt.SetPostfix | src/CDirFmt.h:45-46 | `postfix()` then returns the new value; only that field changes |
| DirFormatter.CDirFmt.SetBreakLen | src/CDirFmt.h:48-49 | `breakLen()` then returns the new value; only that field changes |
| DirFormatter.CDirFmt.SetNoColor | src/CDirFmt.h:51-52 | `isNoColor()` then returns the new value; nothing `format` reads changes |
| DirFormatter.CDirFmt.SetColor | src/CDirFmt.h:54-55 | `isColor()` then returns the new value; only that field changes |
| DirFormatter.CDirFmt.SetClip | src/CDirFmt.h:57-58 | `clip()` then returns the new value; nothing `format` reads changes |
| DirFormatter.CDirFmt.AddFormat | src/CDirFmt.h:65-69 | the rule is appended to the list |
| DirFormatter.CDirFmt.ParseEnv | src/CDirFmt.cpp:102-211 | `parseEnv` appends the rules of the configuration string, in order |
| DirFormatter.CDirFmt.Format | src/CDirFmt.cpp:213-355 | `format` writes the specified output for the object's settings |
| DirFormatter.Run | src/CDirFmt.cpp:27-56 | `main` writes the specified output for its arguments, the environment's rules and terminal, and the effective break length |

## Left out

- Argument parsing (`CArgs`), reading the directory from standard input and `exit` are not
  modelled. `Run` starts from the parsed arguments and the directory.
- `getenv` is not modelled: each variable is a parameter.
- The block between `#if 0` and `#endif` in `format` is not modelled; it is not compiled.
- `isTcsh` and `escapeTcsh` are not modelled: they are declared, and `format` never calls them.
- The three-argument declaration of `colorEscape`, with a background flag, is not modelled.
  The definition takes no such flag and always gives a foreground colour.
- The fields `postfixBgColor_` and `postfixFgColor_` are not modelled: nothing reads them.
- `nocolor_` and `clip_` are stored and read back through their getters, but `format` ignores
  them. A rule's `bg` colour is parsed and stored but never printed.
- `isspace` is the "C" locale's: space, tab, newline, vertical tab, form feed, carriage return.
  Characters are not bytes: there is no encoding.
- Formatter.Render: does not model 32-bit `int` overflow of the column total `len1` or of
  `breakLen_ - len1 - 3`. The model uses unbounded integers, and a negative cut width keeps
  the whole text, as `substr` does with the wrapped `size_t`.
- DirFormatter.CDirFmt.constructor: `envLen_` is `size()` as an unbounded integer, with no
  32-bit truncation.
- Formatter.Clamped: the length is an unbounded integer. The program holds it in an `int len`,
  which cannot hold a size of 2^31 or more; for such a directory it can skip both the cut to
  `MAX_DIR` and the trim of trailing whitespace. `Prepared` and `Prepare` always cut and trim.

## Behaviour worth knowing

- A break length of zero or less given on the command line becomes 54 (`main`); a
  negative value passed to `setBreakLen` directly still limits the width (`Render` compares
  the column count with it).
- Split mode does not stop at the first part that reaches the break length: every part is
  printed, and the line break comes at the end (`SplitShowsAll`, `SplitMarker`).
- `setNoColor` and `setClip` are never called, and `format` ignores `nocolor_` and `clip_`.
  The postfix is printed without colours.
- The value of a coloured rule is printed in its foreground colour only; its background
  colour is never printed.
- Only the last matched rule decides the fill: a later matched rule without a fill clears an
  earlier rule's fill (`FillOf`).
- A backslash escapes nothing. The scan steps over the backslash alone, the next character is
  still tested as '=', '@' or whitespace, and the backslash stays in the name
  (`BackslashKept`).
- Whitespace ends a rule, so `home=~ @fg:blue` is two rules: `home` replaced by `~`
  (uncoloured), and a rule with the empty name coloured blue (`SpaceSplitsRule`). The empty
  name matches at the start of what is left (`EmptyNameMatchesFirst`), so the blue escape
  is followed by no text, and the rest of the path is printed in the prompt colour
  (`DIRFMT_PROMPT_COLOR`), not in blue.
