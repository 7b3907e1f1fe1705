/** How a POSIX shell reads one word made of literal characters, backslash
    escapes and single-quoted runs (section 2.2 "Quoting" of the Shell
    Command Language, IEEE Std 1003.1). This is the reference the quoting
    helper is checked against. Expansions are not modelled: a word that
    contains an unquoted character the standard says must be quoted to
    represent itself is rejected. */
module PosixShell {
  import opened Wrappers

  /** Characters that must be quoted to represent themselves (section 2.2),
      including those special in some positions (`* ? [ # ~ = %`). */
  predicate MustBeQuoted(c: char) {
    c in "|&;<>()$`\\\"' \t\n*?[#~=%"
  }

  /** The literal value of a single word, or `None` when `w` is not one
      well-formed word (an unterminated single quote, a trailing backslash,
      or an unquoted special character). */
  function ReadWord(w: string): Option<string>
    decreases |w|
  {
    if |w| == 0 then Some("")
    else if w[0] == '\'' then ReadQuoted(w[1..])
    else if w[0] == '\\' then
      if |w| < 2 then None
      // section 2.2.1: backslash-newline is a line continuation
      else if w[1] == '\n' then ReadWord(w[2..])
      else Prepend(w[1], ReadWord(w[2..]))
    else if MustBeQuoted(w[0]) then None
    else Prepend(w[0], ReadWord(w[1..]))
  }

  /** Inside single quotes every character is literal up to the next single
      quote (section 2.2.2); a single quote cannot occur inside. */
  function ReadQuoted(w: string): Option<string>
    decreases |w|
  {
    if |w| == 0 then None
    else if w[0] == '\'' then ReadWord(w[1..])
    else Prepend(w[0], ReadQuoted(w[1..]))
  }
}
