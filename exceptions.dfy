/** The Python exceptions that the modelled workflow nodes can raise. */
module Exceptions {

  datatype PyError =
    /** `parts[0]` or `parts[1]` on a token list that is too short; carries the scanned line. */
    | IndexError(line: string)
    /** `int < str` (or `int < None`) in a comparison. */
    | TypeError
    /** `.items()` called on `None`. */
    | AttributeError
    /** `open(path, "r")` on a path that is not in the project folder. */
    | FileNotFoundError(path: string)
}
