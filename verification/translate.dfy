/**
  The translate function `Serve` binds into the request's value store for
  later handlers. The catalog's `LocalizeMessage` is not visible, so it is a
  parameter: any function from (language, message id, description) to a
  translation or an error.
 */
module Translation {

  /** A variadic argument: a Go `string`, or a value of any other dynamic type. */
  datatype Arg = StringArg(s: string) | OtherArg

  /** What the catalog's localizer returns: a translation, or an error with its text. */
  datatype Localized = Translated(text: string) | LocalizeError(message: string)

  /** The description handed to the catalog: the first argument when it is a string, "" otherwise. */
  function Description(args: seq<Arg>): (desc: string)
    ensures |args| > 0 && args[0].StringArg? ==> desc == args[0].s
    ensures desc != "" ==> |args| > 0 && args[0] == StringArg(desc)
  {
    if |args| > 0 && args[0].StringArg? then args[0].s else ""
  }

  /**
    Translate message `id` for `language`. A failed lookup is not an error of
    the handler: the error's text stands in for the translation.
   */
  function Translate(localize: (string, string, string) -> Localized, language: string, id: string, args: seq<Arg>): (r: string)
    ensures localize(language, id, Description(args)) in {Translated(r), LocalizeError(r)}
  {
    match localize(language, id, Description(args))
    case Translated(text) => text
    case LocalizeError(message) => message
  }

  /** Only the first argument is ever looked at; the rest are dropped. */
  lemma TranslateIgnoresLaterArgs(localize: (string, string, string) -> Localized, language: string, id: string,
                                  args: seq<Arg>, extra: seq<Arg>)
    requires |args| > 0
    ensures Translate(localize, language, id, args + extra) == Translate(localize, language, id, args)
  {
    assert (args + extra)[0] == args[0];
  }

  /** A first argument that is not a string counts as no description at all. */
  lemma TranslateNonStringFirstArg(localize: (string, string, string) -> Localized, language: string, id: string,
                                   rest: seq<Arg>)
    ensures Translate(localize, language, id, [OtherArg] + rest) == Translate(localize, language, id, [])
  {
  }

  /** An error from the catalog comes back as its text, whatever the arguments. */
  lemma TranslateErrorDegrades(localize: (string, string, string) -> Localized, language: string, id: string,
                               args: seq<Arg>, message: string)
    requires localize(language, id, Description(args)) == LocalizeError(message)
    ensures Translate(localize, language, id, args) == message
  {
  }
}
