/** The Python exceptions that the attribute helpers can raise. */
module Exceptions {

  datatype Error =
    | IndexError               // a value outside an `_AttrRange`
    | KeyError(key: string)    // a name missing from the constants namespace
    | ValueError(text: string) // `int()` of a string that is not a number
}
