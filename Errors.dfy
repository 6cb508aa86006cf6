/** The situations in which tools/cleanup_kdbx.py raises `CleanupError`.
    The Python code carries them as formatted messages; the model keeps the
    pieces of context each message names. */
module Errors {

  datatype CleanupError =
    | NoHeaders                                          // the CSV has no header row
    | ColumnNotFound(column: string, available: seq<string>)
    | NoEmails(column: string)                           // the chosen column yields no address
    | EmptyGroupPath                                     // nothing left of the path after splitting
    | GroupNotFound(segment: string, parent: string)     // no subgroup called `segment` under `parent`
}
