/** The data model of the tar reader: header layout constants, bytes, entries
    and the error values that cross the library boundary. */
module TarTypes {

  /** One octet of the input buffer. */
  type byte = b: int | 0 <= b < 0x100

  /** Size of one header block; also the smallest buffer that can be a tar stream. */
  const TarHeaderLen: nat := 512
  /** Length of the file name field, which starts at offset 0 of a header. */
  const FilenameLen: nat := 100
  /** Offset of the size field inside a header. */
  const FileSizeOffset: nat := 124
  /** Length of the octal size field. */
  const FileSizeLen: nat := 12
  /** Payloads are padded to a multiple of this many bytes. */
  const FileEntryPaddingBase: nat := 512

  /** The kinds of entry a tar header can describe. The reader never reads the
      type flag, so every decoded entry is a NormalFile; the variant names are
      those of the library. */
  datatype EntryType =
    | NormalFile
    | HardLink
    | SymbolicLink
    | CharacterSpecial
    | BlockSpecial
    | Directory
    | FIFO
    | Contagious
    | GlobalExtenderHeaderMetadata
    | NextFileExtenderHeaderMetadata
    | VendorSpecificExtension

  /** The error values the library reports. */
  datatype TarError = NotATarFile | DamagedHeader | SizeUnreadable | FileNotFound

  /** A decoded archive member: its kind, its decoded name, the size read from
      its header and its own copy of the payload bytes. */
  datatype Entry = Entry(variant: EntryType, filename: string, size: nat, payload: seq<byte>)

  /** An optional value (what an iterator's `find` yields). */
  datatype Option<T> = None | Some(value: T)

  /** Success or one of the library's errors. */
  datatype Result<T> = Ok(value: T) | Err(error: TarError)
}
