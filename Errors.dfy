/** The Python exception classes the helpers of mypy/utils.py can raise. */
module Errors {

  datatype Error =
    | AssertionError  // a failed `assert`
    | LookupError     // an `IndexError` or a `KeyError` raised by a subscript
    | KeyError        // a `KeyError` raised explicitly
    | ValueError      // e.g. the argmin of an empty vector, or unpacking the wrong number of values
    | TypeError       // e.g. iterating over a number
}
