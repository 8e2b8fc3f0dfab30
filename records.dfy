/** The two records of the formatter and its fixed limits. */
module Records {

  /** Break length used when none, or a non-positive one, is given on the command line. */
  const BREAK_LEN: int := 54

  /** Longest directory string that is formatted; longer input is cut to this length. */
  const MAX_DIR: nat := 1024

  /** One substitution rule: replace `name` by `value`, coloured by `fg`; `fill` asks for a
      terminal background colour. `bg` is parsed and stored but never used when formatting. */
  datatype Format = Format(name: string, value: string, bg: string, fg: string, fill: string)

  /** One output segment: its text and the escape sequence written before it. */
  datatype Part = Part(str: string, color: string)

  /** The `Format` constructor, whose colour arguments default to the empty string. */
  function NewFormat(name: string, value: string, bg: string := "", fg: string := "",
                     fill: string := ""): (f: Format)
    ensures f.name == name && f.value == value
    ensures f.bg == bg && f.fg == fg && f.fill == fill
  {
    Format(name, value, bg, fg, fill)
  }

  /** A rule built from a name and a value alone has no colours. */
  lemma NewFormatDefaults(name: string, value: string)
    ensures NewFormat(name, value) == Format(name, value, "", "", "")
  {
  }

  /** The break length `main` hands to the formatter: a non-positive request becomes `BREAK_LEN`. */
  function EffectiveBreakLen(requested: int): (b: int)
    ensures b > 0
    ensures requested > 0 ==> b == requested
    ensures requested <= 0 ==> b == BREAK_LEN
  {
    if requested <= 0 then BREAK_LEN else requested
  }
}
