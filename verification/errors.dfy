/** The library's error type (`Error`): what merging reports to its caller, as opposed to the
    panics of `Wrappers.Panic`. The wrapped parse error is reduced to its message. */
module Errors {
  /** An exported item's kind (`ExportKind`). */
  datatype ExportKind = FunctionKind | TableKind | MemoryKind | GlobalKind

  datatype Error =
    | Parse(message: string)
    | ComponentModelUnsupported(moduleName: string)
    | ImportCycle
    | TypeMismatch
    | ExportNameClash
    | DuplicateNameExport(exportName: string, kind: ExportKind)
}
