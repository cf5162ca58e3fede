# Tar reader model

This project models the tar reader of `crate/src/lib.rs`, a Rust library
compiled to WebAssembly. It covers three parts:

- **`parse_tar`** makes one pass over a byte buffer, one 512-byte header
  block at a time.
  - It reads the 100-byte name field at offset 0 of each header and the
    12-byte octal size field at offset 124.
  - It copies `size` payload bytes that follow the header into an entry.
  - It moves the cursor past the header and the payload, which is rounded
    up to whole 512-byte blocks.
  - It stops at the end of the buffer or at an empty name. Any error
    aborts the whole parse.
- **`Tar`** holds the decoded entries. It lists their names and looks up
  the payload of the first entry with a given name.
- **Two text conversions** feed the header fields:
  - lossy UTF-8 decoding (`String::from_utf8_lossy`) followed by
    `trim_end_matches('\0')`;
  - `usize::from_str_radix(_, 8)` on the 32-bit WebAssembly target.

Modules:

- `TarTypes` (tar_types.dfy) holds the layout constants, bytes, `Entry`,
  `EntryType` and the error values.
- `Text` (text.dfy) holds lossy UTF-8 decoding and trimming of trailing
  padding.
- `Radix` (radix.dfy) holds the base-8 integer parse with checked 32-bit
  arithmetic.
- `Archive` (archive.dfy) holds the `Tar` value with `GetFilenames` and
  `GetPayload`.
- `Scanner` (scanner.dfy) holds the scanner. Three pieces work together:
  - `HeaderStep` is one pass of the loop body.
  - `Walk` is the loop, written for any loop body.
  - `Parse` is `parse_tar` as a function.

  `ParseTar` is the imperative loop itself. It is proved equal to `Parse`.
  Lemmas then say what `Parse` returns in terms of the header bytes.

How a parse ends is an `Outcome`:

- `Success` with the archive;
- `Failure` with one of the library's errors;
- `Panic`, for the payload slice at line 56. The code does not compare
  `entry_offset + 512 + size` with the buffer length before slicing, so
  Rust's slice bounds check panics when the size read from a header
  reaches past the buffer.

Two behaviours of the code differ from what a reader of the tar format
might expect. The model follows the code in both:

- **The header check uses `>=` (line 34).** At least one byte must follow
  the 512-byte header block.
  - A buffer of exactly 512 bytes gives `DamagedHeader`; see
    `OneBlockIsDamaged`.
  - So does a complete header that ends exactly at the end of the buffer.
    A one-file archive that ends right after its all-zero block is refused
    for this reason; see `HelloArchiveExactLength`.
- **An out-of-range payload slice panics.** It does not return
  `DamagedHeader`.

## Model

| member | source | states |
|---|---|---|
| Text.Utf8Lossy | crate/src/lib.rs:40 | `String::from_utf8_lossy`: the text has at most as many characters as there are bytes, and is empty exactly when the bytes are; LossyAscii, LossyAllNul and LossyAppend state what it keeps |
| Text.LossyFrom | crate/src/lib.rs:49-51 | decoding a non-empty field gives at least one and at most as many characters as bytes |
| Text.NextUnit | crate/src/lib.rs:40 | lossy decoding consumes 1 to 4 bytes per character; an ASCII byte becomes the character with its code, and a byte at or above 0x80 never becomes an ASCII character |
| Text.TrimEnd | crate/src/lib.rs:40 | `trim_end_matches`: the result is a prefix of the input that does not end in the padding character, and everything removed is padding |
| Text.TrimEndUnique | crate/src/lib.rs:40 | those three properties determine the trimmed string |
| Text.TrimEndEmpty | crate/src/lib.rs:41 | the trimmed string is empty exactly when the input is all padding |
| Text.LossyAppend | crate/src/lib.rs:40 | decoding distributes over concatenation when the second part starts with an ASCII byte |
| Text.LossyAscii | crate/src/lib.rs:40 | the bytes are all ASCII exactly when the decoded text is, and then every code is kept |
| Text.LossyAllNul | crate/src/lib.rs:40-41 | the bytes are all zero exactly when the decoded text is all U+0000 |
| Text.LossyLastNotNul | crate/src/lib.rs:40 | bytes that do not end in zero do not decode to text ending in U+0000 |
| Text.TrimNulAfterLossy | crate/src/lib.rs:40 | trimming U+0000 after decoding equals trimming zero bytes before decoding |
| Text.LossyCollides | crate/src/lib.rs:83 | decoding is not injective: any two bytes that cannot start a sequence both become U+FFFD, so different raw names can compare equal in a lookup |
| Radix.FromStrRadix8 | crate/src/lib.rs:48-55 | the parse succeeds exactly when the string is an optional '+' and one or more octal digits whose value fits in 32 bits; it then yields that value; the empty string and only it gives the Empty error |
| Radix.Accumulate | crate/src/lib.rs:48-54 | the checked digit loop never reports Empty; AccumulateValue states when it succeeds and with what value |
| Radix.AccumulateValue | crate/src/lib.rs:48-54 | the digit loop with checked multiply and add succeeds exactly when every character is a digit and the exact value fits, and then it yields the exact value |
| Radix.LeadingZeros | crate/src/lib.rs:48-54 | zero digits in front do not change what the digit loop yields |
| Radix.ZeroPadded | crate/src/lib.rs:48-55 | a zero-padded size field reads as the numeral without its padding |
| Radix.ShortNumeralsFit | crate/src/lib.rs:48-55 | a numeral of at most ten digits never overflows |
| Radix.NumeralExamples | crate/src/lib.rs:48-55 | "12" reads as 10 and "+17" as 15 |
| Radix.SizeFieldRejects | crate/src/lib.rs:48-55 | these are refused: the empty string, a lone '+', a trailing blank, the digit 8, a minus sign and 2^32 |
| Archive.Tar | crate/src/lib.rs:69-72 | the archive holds the decoded entries and nothing else; GetFilenames and GetPayload below are its queries |
| Scanner.Outcome | crate/src/lib.rs:20 | the result of `parse_tar`: `Success` with the archive or `Failure` with an error, as Rust's `Result<Tar, TarErrors>`, plus a third case `Panic` for the out-of-range payload slice at line 56 |
| TarTypes.Result | crate/src/lib.rs:82 | the result of `get_payload`: `Ok` with the payload bytes or `Err` with an error, as Rust's `Result<Vec<u8>, TarErrors>` |
| TarTypes.Entry | crate/src/lib.rs:90-95 | an entry is its kind, its decoded name, the size read from its header and its payload bytes |
| TarTypes.EntryType | crate/src/lib.rs:98-110 | the eleven entry kinds of the library; ParsedEntries shows that every decoded entry is a NormalFile |
| TarTypes.TarError | crate/src/lib.rs:114-119 | the four error values; NotATarFileIff, FirstBadHeaderDecides and GetPayload say when each occurs |
| Archive.Find | crate/src/lib.rs:83 | `find` yields the index of the first entry with the name, or none when no entry has it |
| Archive.Tar.GetFilenames | crate/src/lib.rs:77-79 | one name per entry, in entry order, duplicates kept |
| Archive.Tar.GetPayload | crate/src/lib.rs:82-87 | FileNotFound exactly when no entry has the name, otherwise the payload of the first entry that has it |
| Archive.ListedIffFound | crate/src/lib.rs:77-87 | lookup succeeds exactly for the names in the listing |
| Archive.LookupExample | crate/src/lib.rs:77-87 | with two files, each name gives its own payload and a third name gives FileNotFound |
| Scanner.NameAt | crate/src/lib.rs:39-40 | the name read from a header has at most 100 characters and never ends in U+0000; NameBytes relates it to the field's bytes |
| Scanner.SizeAt | crate/src/lib.rs:48-52 | a readable size fits in a 32-bit usize, and the parse reports an empty numeral exactly when all 12 bytes of the field are zero; SizeBytes relates it to the field's bytes |
| Scanner.DivCeil | crate/src/lib.rs:58 | `div_ceil`: the quotient times the divisor is the least multiple of the divisor that is at least the dividend |
| Scanner.Advance | crate/src/lib.rs:58 | the cursor step is a multiple of 512, at least one block more than the payload size and less than two blocks more |
| Scanner.HeaderStep | crate/src/lib.rs:34-57 | the loop body reports only DamagedHeader or SizeUnreadable as errors; an entry it yields is a NormalFile with a non-empty name and `size` payload bytes that lie inside the buffer |
| Scanner.Walk | crate/src/lib.rs:27-59 | the loop as a function of the cursor, for any loop body; WalkSucceeds, WalkAfterChain, WalkReachesStop and WalkEndsAt state what it returns |
| Scanner.Run | crate/src/lib.rs:20-65 | the length check and then the loop from offset 0, for any loop body; RunDecodes, RunAfterChain, RunEntry and RunFails state what it returns |
| Scanner.Parse | crate/src/lib.rs:20-65 | `parse_tar` as a function of the buffer; ParseTar is proved equal to it, and ParseDecodes, ParsedEntries, ParsedOrderAndCount, NotATarFileIff and FirstBadHeaderDecides state what it returns |
| Scanner.HeaderStepYields | crate/src/lib.rs:34-57 | the loop body yields an entry exactly at a complete header whose name, size and payload decode to that entry |
| Scanner.HeaderYields | crate/src/lib.rs:39-57 | a complete header with a name and a size whose payload fits yields the entry built from them |
| Scanner.ParseTar | crate/src/lib.rs:20-65 | the imperative loop returns exactly what `Parse` returns |
| Scanner.NextHeader | crate/src/lib.rs:56-58 | one loop turn adds the header's entry to the collected run and moves the cursor one advance on |
| Scanner.EndOfArchive | crate/src/lib.rs:30-46 | at the end of the buffer or at an empty name, the result is the archive of the entries collected so far |
| Scanner.SpanGrows | crate/src/lib.rs:58 | header offsets are multiples of 512 and at least one block apart |
| Scanner.ChainExtend | crate/src/lib.rs:56-58 | a run of yielded entries grows by one when the body yields at its end |
| Scanner.ChainAt | crate/src/lib.rs:27-59 | in a run, entry i comes from the header at the sum of the advances before it |
| Scanner.WalkAfterChain | crate/src/lib.rs:27-59 | after a run, the loop's outcome is the run's entries followed by whatever the loop gives from there |
| Scanner.WalkReachesStop | crate/src/lib.rs:27-59 | every execution of the loop is a run of yielded entries up to a cursor where the body does not yield |
| Scanner.PrependOne | crate/src/lib.rs:57 | a success with one entry pushed in front starts with that entry and continues with the rest |
| Scanner.WalkSucceeds | crate/src/lib.rs:27-59 | the loop succeeds with a list exactly when the body yields that list from the cursor and the loop then stops cleanly |
| Scanner.WalkEndsAt | crate/src/lib.rs:41-46 | the loop yields nothing at a cursor inside the buffer exactly when the body finds the terminator there |
| Scanner.RunDecodes | crate/src/lib.rs:20-65 | the length check and the loop succeed with an archive exactly when the body yields its entries from offset 0 and the loop then stops cleanly |
| Scanner.RunEntry | crate/src/lib.rs:20-65 | entry i of a successful parse is what the body yields at the i-th header offset |
| Scanner.RunAfterChain | crate/src/lib.rs:27-64 | after a run, a clean stop returns the run as the archive, an error discards it, and an overrun panics |
| Scanner.RunFails | crate/src/lib.rs:27-59 | a failure after the length check is an error the body reported at the end of a run |
| Scanner.ParseDecodes | crate/src/lib.rs:20-65 | `parse_tar` returns an archive exactly when the buffer holds a block, the headers from offset 0 decode one after another to its entries, and the buffer then ends or an empty name follows |
| Scanner.ParsedEntries | crate/src/lib.rs:56-57 | each entry comes from a header at a multiple of 512: it is a NormalFile with that header's non-empty name and readable size, and its payload is the `size` bytes after the header |
| Scanner.ParsedOrderAndCount | crate/src/lib.rs:58 | entries appear in buffer order, their headers at least one block apart, and the entry count times 512 is less than the buffer length, so there are at most `len / 512` entries |
| Scanner.NotATarFileIff | crate/src/lib.rs:21-23 | NotATarFile is returned exactly for buffers shorter than 512 bytes |
| Scanner.OneBlockIsDamaged | crate/src/lib.rs:34-36 | a buffer of exactly 512 bytes gives DamagedHeader |
| Scanner.FirstBadHeaderDecides | crate/src/lib.rs:34-57 | after any run of good entries, the first bad header decides the result: a truncated header gives DamagedHeader, an unreadable size gives SizeUnreadable, an overrunning payload panics, and no partial archive is returned |
| Scanner.NameBytes | crate/src/lib.rs:39-41 | the name is the lossy decoding of the field without its trailing zero bytes; it is plain character codes when those bytes are ASCII, and it is empty exactly when all 100 bytes are zero |
| Scanner.SizeBytes | crate/src/lib.rs:48-55 | the size is readable exactly when the field without trailing zero bytes is ASCII and parses as base 8, and it is then that number |
| Scanner.TerminatorBlock | crate/src/lib.rs:39-46 | at a complete header, the loop stops with no further entries exactly when the name field is all zero bytes |
| Scanner.HelloArchive | crate/src/lib.rs:20-87 | a one-file archive followed by an all-zero name field and at least one more byte lists its one name, returns its five payload bytes and reports FileNotFound for every other name |
| Scanner.HelloArchiveExactLength | crate/src/lib.rs:30-36 | the same archive cut off right after its all-zero block, at exactly 1536 bytes, gives DamagedHeader |

## Left out

- The console trace at line 28 writes to the host console and has no
  effect on the result.
- The `wasm_bindgen` attributes and the marshalling of buffers, name
  lists and errors across the JavaScript boundary are left out. This
  includes the error message strings at lines 115-118. Only the error
  variants are kept.
- The header's type flag is never read, so every entry is a `NormalFile`.
  The other `EntryType` variants are declared but never mapped to.
- Offsets are unbounded `nat`. The `usize` overflow of the offset
  arithmetic at lines 56 and 58 is not modelled. The parsed size is still
  bounded by the 32-bit `usize` maximum, as the parser checks.
- A Rust panic ends the WebAssembly call. It is modelled as the `Panic`
  outcome, not as an abort.
- Entries own copies of their names and payloads in Rust (`to_string`,
  `Vec::from`, `clone`). In the model they are immutable values, so the
  copies are implicit.
- `ParseTar` builds the entry list as a value and not by pushing onto a
  vector in place. The order of the entries is still modelled.
- webpack.config.js is build configuration. index.ts is a demo page that
  decodes a fixture and logs it. Neither is part of this model.
