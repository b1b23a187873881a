# lsgit: the Git index decoder, modelled in Dafny

lsgit lists the paths recorded in a Git index file (`.git/index`). Its core is
`parse_git_index`. It reads a version-2 index from a binary file object:

- a 12-byte header: the signature `DIRC`, a big-endian u32 version and a
  big-endian u32 entry count;
- then, for each declared entry:
  - a 62-byte fixed part: ten u32 stat fields, a 20-byte object name and a
    u16 of flags;
  - the path, read one byte at a time up to a NUL;
  - zero to seven padding bytes that align the entry to a multiple of 8.

It returns the paths in on-disk order.

The model has five modules:

- `BigEndian`: the `!I` and `!H` fields of Python's `struct`, as big-endian
  decoding and encoding of byte strings.
- `ByteStream`: the file object, as a class `Stream` with a constant `data`
  and a read position `pos`. `Read(n)` returns up to `n` bytes, fewer only
  at the end of the data, just as `read(n)` does.
- `GitIndex`: the decoder.
  - `ParseIndex` is a method that reads a `Stream` as the source does. It
    has the same header check and the same entry loop (split out as
    `ReadEntries`). It reads a path byte by byte (`ReadPath`) and reads the
    padding, which may come back short.
  - `ParseIndex` is proved to return what `Parse` says and to leave the
    stream where `Parse` says. `Parse` is a function of the bytes and the
    starting position, so decoding is deterministic.
  - The properties of the format are lemmas about `Parse` and the functions
    under it: `Entries` for the entry loop, `ReadEntry` for one entry,
    `FirstNul` for the path scan and `Padding` for the alignment.
- `IndexLayout`: the partner of the decoder, an encoder from a list of
  entries to index bytes. It carries the round-trip and truncation lemmas.
- `Slices`: generic facts about slices of concatenated sequences.

Python's exceptions become values of the `Error` datatype:

- `ShortHeader`: `struct.unpack` raises on fewer than 12 header bytes.
- `BadSignature`: the `ValueError` of a wrong signature.
- `IncompleteEntry`: the `ValueError` of a fixed part shorter than 62 bytes.
- `NoTerminator`: see below.

In each case the whole call fails. No list is returned.

The source's own structure suggests a recovering loop: each entry is read
inside a `try` whose handler `break`s out of the loop (lsgit.py:44, 68-70),
which would keep the paths read so far. The code does not behave that way,
and the model follows the code:

- **Truncated fixed part.** With fewer than 62 bytes left, the code raises
  `ValueError("Incomplete entry in the index file.")` (lsgit.py:47-48). The
  only handler, at lsgit.py:68, catches `struct.error`, so the `ValueError`
  escapes and nothing is returned. `TruncatedIndexFails` states this.
- **Missing terminator.** At the end of the data, `read(1)` returns `b''`
  forever, and the `while True` loop at lsgit.py:56-60 never ends. The model
  stops there with `Fail(NoTerminator)` in place of the non-terminating run.
  No other outcome of the model stands for non-termination.
- **The `struct.error` handler is dead code.** The unpack at lsgit.py:51
  only ever receives exactly 62 bytes, so it cannot raise. In
  `ReadIndexEntry` that branch is proved unreachable.

## Model

| member | source | states |
|---|---|---|
| BigEndian.Decode | lsgit.py:32 | the big-endian value of `n` bytes is below 256^n |
| BigEndian.Encode | lsgit.py:32 | encoding a value below 256^width gives exactly `width` bytes |
| BigEndian.U32 | lsgit.py:32 | a `!I` field is a value below 2^32 |
| BigEndian.U16 | lsgit.py:51 | a `!H` field is a value below 2^16 |
| BigEndian.U32Value | lsgit.py:32 | the four bytes of a u32 weigh 2^24, 2^16, 2^8 and 1, most significant first |
| BigEndian.U16Value | lsgit.py:51 | the two bytes of a u16 weigh 2^8 and 1, most significant first |
| BigEndian.DecodeEncode | lsgit.py:32 | decoding the encoding of a value gives the value back |
| BigEndian.EncodeDecode | lsgit.py:32 | encoding a decoded byte string at its width gives the bytes back |
| BigEndian.DecodeInjective | lsgit.py:32 | equal values at equal width come from equal bytes |
| ByteStream.Stream.constructor | lsgit.py:28 | a new stream holds the given bytes and is positioned at 0 |
| ByteStream.Stream.Read | lsgit.py:31 | `read(n)` returns the next `min(n, remaining)` bytes and advances the position by that many |
| GitIndex.PackHeader | lsgit.py:32 | a packed `!4sII` header is 12 bytes long |
| GitIndex.UnpackHeader | lsgit.py:32 | the unpack succeeds exactly on 12 bytes and yields a 4-byte signature and two u32 values |
| GitIndex.PackUnpackHeader | lsgit.py:32 | the unpacked header is the one header that packs to the given 12 bytes |
| GitIndex.UnpackPackHeader | lsgit.py:32 | unpacking a packed header gives it back |
| GitIndex.PackWords | lsgit.py:51 | `n` packed u32 words take `4n` bytes |
| GitIndex.UnpackWords | lsgit.py:51 | unpacking `4n` bytes gives `n` words, each below 2^32 |
| GitIndex.UnpackWordsTail | lsgit.py:51 | the first word comes from the first four bytes and the rest from the remaining bytes |
| GitIndex.PackUnpackWords | lsgit.py:51 | packing unpacked words gives the bytes back |
| GitIndex.PackWordsAt | lsgit.py:51 | word `i` of packed words sits at bytes `4i` to `4i+4` |
| GitIndex.UnpackPackWordAt | lsgit.py:51 | word `i` of packed words unpacks to itself |
| GitIndex.UnpackPackWords | lsgit.py:51 | unpacking packed words gives them back |
| GitIndex.PackFixed | lsgit.py:51 | a packed `!10I20sH` fixed part is 62 bytes long |
| GitIndex.UnpackFixed | lsgit.py:51 | the unpack of the fixed part succeeds exactly on 62 bytes |
| GitIndex.PackUnpackFixed | lsgit.py:51 | the unpacked fixed part is valid and packs back to the given 62 bytes |
| GitIndex.UnpackPackFixed | lsgit.py:51 | unpacking a packed fixed part gives it back |
| GitIndex.Padding | lsgit.py:65 | the padding is at most 7 and brings the entry length to a multiple of 8 |
| GitIndex.PaddingIsUnique | lsgit.py:65 | the padding is the only amount below 8 that aligns the entry, and it is 0 exactly when the entry is already aligned |
| GitIndex.FirstNul | lsgit.py:55-60 | the terminator found lies at or after the start of the path and inside the data |
| GitIndex.FirstNulMeaning | lsgit.py:55-60 | the scan finds a NUL with no NUL before it, and finds none only when the rest of the data holds none |
| GitIndex.ReadEntry | lsgit.py:46-66 | a decoded entry moves the position forward and stays within the data |
| GitIndex.ReadEntryMeaning | lsgit.py:46-66 | an entry is incomplete exactly when fewer than 62 bytes remain, and unterminated exactly when no NUL follows its fixed part; otherwise the path is exactly the bytes between the fixed part and the first NUL, holds no NUL, and the position moves by `62 + len + 1 + padding`, or to the end of the data if that comes first |
| GitIndex.NameTerminated | lsgit.py:55-66 | a NUL-free path followed by a NUL after the fixed part is what the entry decodes to, with the position right after its padding |
| GitIndex.NameUnterminated | lsgit.py:56-60 | with no NUL after the fixed part the entry is unterminated |
| GitIndex.EntriesStopAt | lsgit.py:46-48 | an entry that does not decode ends the loop with its error at the end of the data |
| GitIndex.EntriesDecoded | lsgit.py:42-62 | a decoded entry puts its path in front of the paths of the remaining iterations |
| GitIndex.Prepend | lsgit.py:62 | paths go in front of a successful result and leave a failure unchanged |
| GitIndex.PrependPrepend | lsgit.py:62 | appending paths one batch after another is appending them all at once |
| GitIndex.Entries | lsgit.py:40-72 | the loop returns exactly `k` NUL-free paths or fails with `IncompleteEntry` or `NoTerminator` at the end of the data, and never moves backwards |
| GitIndex.DecodesToStep | lsgit.py:42-66 | an entry that decodes, followed by entries that decode from where it ends, decode together |
| GitIndex.EntriesOfDecoded | lsgit.py:40-72 | asked for as many entries as decode in sequence, the loop returns their paths in order and stops where the last one ends |
| GitIndex.EntriesOkDecodes | lsgit.py:40-72 | conversely, the paths of a successful loop are those of entries decoding one after another from its start, the last ending where the loop stops |
| GitIndex.EntriesPastDecoded | lsgit.py:42-48 | asked for more entries than there are, with fewer than 62 bytes after the last one, the loop fails with `IncompleteEntry` and loses the paths already read |
| GitIndex.Parse | lsgit.py:28-72 | the decode ends between its starting position and the end of the data |
| GitIndex.ParseMeaning | lsgit.py:31-42 | `ShortHeader` exactly when fewer than 12 bytes are left; `BadSignature` exactly when the first 4 bytes are not `DIRC`, with only the 12 header bytes read; success only with a `DIRC` header, as many NUL-free paths as the u32 at bytes 8..11 says |
| GitIndex.ParseOkDecodes | lsgit.py:28-72 | a successful decode returns exactly the paths of entries decoding one after another from the end of the header, and stops where the last ends |
| GitIndex.ReadPath | lsgit.py:55-60 | the byte-by-byte loop returns the NUL-free bytes up to the first NUL and consumes the NUL; without a NUL it reaches the end of the data |
| GitIndex.ReadIndexEntry | lsgit.py:44-70 | one iteration of the entry loop returns `ReadEntry` of its starting position and leaves the stream where the next entry starts |
| GitIndex.ReadEntries | lsgit.py:40-72 | the entry loop returns the outcome of `Entries` and leaves the stream at its end position |
| GitIndex.ParseIndex | lsgit.py:28-72 | the decoder returns the outcome of `Parse` and leaves the stream at its end position |
| IndexLayout.Zeros | lsgit.py:66 | `n` zero bytes of padding |
| IndexLayout.EncodeEntry | lsgit.py:46-66 | an encoded entry takes `62 + len + 1 + padding` bytes, a multiple of 8 |
| IndexLayout.Names | lsgit.py:62 | the paths of the entries, in order |
| IndexLayout.EncodeIndex | lsgit.py:31-66 | an encoded index is the 12-byte header followed by the encoded entries |
| IndexLayout.ReadEncodedEntry | lsgit.py:46-66 | an encoded entry decodes to its path and moves past all of it, padding included |
| IndexLayout.EncodedIsLaidOut | lsgit.py:42-66 | encoded entries lie one after another in the data |
| IndexLayout.LaidOutDecodes | lsgit.py:42-66 | entries lying one after another decode one after another to their paths |
| IndexLayout.EncodedIndexLayout | lsgit.py:31-42 | the header of an encoded index passes and declares its count, and the entries decode in order after it |
| IndexLayout.RoundTrip | lsgit.py:28-72 | an index declaring as many entries as it holds decodes to their paths, in order, whatever follows it, and stops right after the last entry |
| IndexLayout.TruncatedIndexFails | lsgit.py:46-48 | a header that declares more entries than the file holds, with fewer than 62 bytes after the last entry, makes the whole decode fail with `IncompleteEntry` and return no paths (with 62 bytes or more there, the outcome depends on those bytes) |
| IndexLayout.TwoEntryExample | lsgit.py:28-72 | a two-entry index with paths of 5 and 9 bytes pads them by 4 and 0 and decodes to both paths |

## Left out

- `is_url` and `read_file` (lsgit.py:8-26): URL parsing, HTTP download and
  file opening are I/O. The decoder is given the file's bytes as a `Stream`.
- `main` (lsgit.py:74 on): argument parsing, writing the output file and exit
  codes are outside the decoder.
- The `print` calls at lsgit.py:37 and 69 only write to the console.
- UTF-8 decoding with `errors='replace'` (lsgit.py:61) is Python codec
  behaviour. Paths stay raw byte strings.
- What the ten u32 fields, the object name and the flags mean is not modelled
  (lsgit.py:51-52). The decoder only skips them. `unpacked_data[9]` at
  lsgit.py:52 is the tenth u32 (the file size), not the object name, and it
  is never used.
- ParseIndex: where the data ends inside a path, the source never returns.
  The model returns `Fail(NoTerminator)` there, so it does not capture
  non-termination.
- The exception messages and types are left out. Each failure is the
  `Error` value that names its cause.
