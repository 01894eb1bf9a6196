/**
 * The browser objects the component reads, reduced to the data it uses:
 * a `DataTransfer` is its list of items, and an item is its `kind`, its MIME
 * `type` and the value its `getAsFile()` would return (absent for `null`).
 */
module Host {
  import opened Wrappers

  /** A `File` handle; the name is kept so that results can be told apart. */
  datatype File = File(name: string, mimeType: string)

  /** A `DataTransferItem`. */
  datatype DataItem = DataItem(kind: string, mimeType: string, asFile: Option<File>)

  /** A non-null `DataTransfer`; a null one is `None` where it can occur. */
  datatype DataTransfer = DataTransfer(items: seq<DataItem>)

  /** `item.kind === 'file'`. */
  predicate IsFileKind(item: DataItem) { item.kind == "file" }
}
