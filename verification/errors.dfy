/** The Python exceptions the modelled code can raise. */
module Errors {

  datatype Error =
    | IndexError                  // indexing the first row of an empty argument tuple
    | TypeError(message: string)  // an element fails the element check, or a first row has no length
    | ValueError(message: string) // a row is not a list, or row lengths differ
    | AttributeError              // a name that is neither an alias nor a registered widget,
                                  // or a placed widget without `text()` (message not modelled)
}
