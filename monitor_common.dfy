/**
 * What both monitor variants share: the filter that decides which key names
 * are typed into the text, the seed text shown at start-up, and the caret's
 * blink step.
 */
module MonitorCommon {

  /** The text both monitors show before any key is pressed. */
  const Seed: string := "i just hope ur doing well"

  /**
   * Membership in the bracket expression `[\w`~!@#$%^&*()_+-=\[\]{}\\|'"<>? ]`.
   * `\w` is `[A-Za-z0-9_]`, and `+-=` is a RANGE from '+' to '='
   * (`+ , - . / 0-9 : ; < =`), not three separate characters.
   */
  predicate InKeyClass(c: char)
  {
    || ('a' <= c <= 'z') || ('A' <= c <= 'Z') || ('0' <= c <= '9') || c == '_'
    || c == '`' || c == '~' || c == '!' || c == '@' || c == '#' || c == '$'
    || c == '%' || c == '^' || c == '&' || c == '*' || c == '(' || c == ')'
    || ('+' <= c <= '=')
    || c == '[' || c == ']' || c == '{' || c == '}' || c == '\\' || c == '|'
    || c == '\'' || c == '"' || c == '<' || c == '>' || c == '?' || c == ' '
  }

  /**
   * The key filter `/^[...]$/`: a key name is typed only when it is exactly
   * one character of the class. `"Shift"`, `"Enter"` and `"\n"` are not.
   */
  predicate IsInsertable(key: string)
  {
    |key| == 1 && InKeyClass(key[0])
  }

  /** The class is exactly printable ASCII, from ' ' to '~'. */
  lemma KeyClassIsPrintableAscii(c: char)
    ensures InKeyClass(c) <==> ' ' <= c <= '~'
  {
  }

  /** An insertable key never carries a line break of any kind. */
  lemma InsertableHasNoBreak(key: string)
    requires IsInsertable(key)
    ensures key[0] != '\n' && key[0] != '\r' && key[0] != '\U{2028}' && key[0] != '\U{2029}'
    ensures key != "Backspace" && key != "Enter"
  {
  }

  /** One tick of the caret blink: a caret under half opacity becomes opaque, any other becomes transparent. */
  function Blinked(opacity: real): (r: real)
    ensures r == 0.0 || r == 1.0
    ensures opacity == 1.0 ==> r == 0.0
    ensures opacity == 0.0 ==> r == 1.0
  {
    if opacity < 0.5 then 1.0 else 0.0
  }

  /** Two ticks restore an opacity that was already fully on or off. */
  lemma BlinkTwiceRestores(opacity: real)
    requires opacity == 0.0 || opacity == 1.0
    ensures Blinked(Blinked(opacity)) == opacity
  {
  }
}
