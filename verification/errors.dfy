/** The error kinds of the configuration layer and of the state layer.

    A Rust panic ends the operation that reaches it, as an early `?` return
    does. The model gives each panic the code can reach a variant of its own,
    one the source never returns as a value, so that every input has an
    outcome and the first failure or panic reached is the one reported. */
module Errors {

  /** `config::Error`: the only variant the modelled code produces, plus the
      panic of `&hex[..1]` on a colour string that cannot be sliced there. */
  datatype ConfigError =
    | InvalidColorHexString(hex: string)
    | SlicePanic(hex: string)

  /** `state::Error`, completed with the two variants the state code uses
      but the declaration lacks (`RegexError`, `ButtonNotFound`), plus the
      panic of the `.unwrap()` on a configured named button's setup. */
  datatype StateError =
    | ConfigError(cause: ConfigError)
    | PageNotFound(page: string)
    | DuplicateNamedButton(name: string)
    | RegexError(pattern: string)
    | ButtonNotFound(button: string)
    | UnwrapPanic(name: string)
}
