/**
 * The errors the specenum compiler raises. The source raises `ValueError` with a
 * formatted message; each kind of message is one constructor here, carrying the
 * values the message mentions.
 */
module Errors {

  datatype Error =
    // The input ended inside a block comment.
    | EofInBlockComment
    // A value line (or the argument of `zero`/`count`) is not a value definition.
    | InvalidValue(line: string)
    // An option line does not have the shape of an option; `text` is the line stripped.
    | MalformedOption(enumName: string, text: string)
    // An option given twice in one enum.
    | DuplicateOption(option: string, enumName: string)
    // An option that needs an argument was given none (or an empty one).
    | ArgumentRequired(option: string, enumName: string)
    // A flag option was given an argument.
    | ArgumentNotSupported(option: string, enumName: string)
    // The argument of `generic` is not an amount and a stem.
    | MalformedArgument(option: string, enumName: string)
    // The amount of `generic` is zero.
    | AmountNotPositive(option: string, enumName: string)
    // An option name the compiler does not know.
    | UnrecognizedOption(option: string, enumName: string)
    // `zero` without `bitwise`.
    | ZeroRequiresBitwise(enumName: string)
    // `count` together with `bitwise`.
    | CountConflictsBitwise(enumName: string)
    // A non-empty `bitvector` together with `bitwise`.
    | BitvectorConflictsBitwise(enumName: string)
    // `zero` without argument and without `prefix`.
    | ZeroRequiresPrefix(enumName: string)
    // `count` without argument and without `prefix`.
    | CountRequiresPrefix(enumName: string)
    // An enum name defined a second time.
    | DuplicateEnum(name: string)
    // A line outside an enum that is not an enum header.
    | UnexpectedLine(line: string)
}
