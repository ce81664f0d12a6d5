/**
 * The regular-expression engine the blacklist rules are compiled with. Its
 * internals are outside the model: an engine is given by which patterns
 * compile, the error text reported for those that do not, and whether a
 * compiled pattern matches somewhere inside a text (unanchored search).
 */
module Regex {

  datatype Engine = Engine(
    compiles: string -> bool,
    errorText: string -> string,
    isMatch: (string, string) -> bool)
}
