/** Validation issues as the schema library reports them: the offending
    field and a message. */
module Validation {

  datatype Issue = Issue(path: string, message: string)

  /** The library's e-mail syntax check, whose pattern is not modelled. */
  type EmailSyntax = string -> bool
}
