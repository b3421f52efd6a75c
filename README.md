# git-java object store, modelled in Dafny

`git-java` is a small Git clone in a single Java class (`Main.java`). Its
commands store and read Git objects under `.git/objects`:

- `hash-object -w` and `createBlob` frame a file's bytes as a blob.
- `commit-tree` builds a commit payload and frames it.
- `write-tree` sorts and encodes tree entries and frames the result.
- All three hash the framed buffer with SHA-1, render the digest as 40
  lower-case hex digits, derive the object path from the digest, and store
  the buffer there.
- `cat-file -p` prints an object's content: everything after the first NUL.
- `ls-tree --name-only` parses a tree payload back into entry names.

This project models that byte-level core and proves its round trips:

| module (file) | what it models |
|---|---|
| `Bytes` (`bytes.dfy`) | the byte type, ASCII text, `Integer.toString`, and forward search for a byte |
| `Wrappers` (`wrappers.dfy`) | `Option`, `Result`, and the exceptions the commands throw |
| `ObjectFormat` (`object_format.dfy`) | the `"<kind> <size>\0"` header, in-place framing with `System.arraycopy`, the NUL search and the content split |
| `HexCodec` (`hex_codec.dfy`) | `String.format("%02x")` over a digest, and `(byte) Integer.parseInt(.., 16)` over hash pairs |
| `ObjectPaths` (`object_paths.dfy`) | `.git/objects/<2 chars>/<rest>` |
| `TreeEntries` (`tree_entries.dfy`) | `TreeEntry`, `compareTo`, and `Collections.sort` |
| `TreeEncoding` (`tree_encoding.dfy`) | write-tree's entry parts, the running size, and the assembled tree buffer |
| `TreeListing` (`tree_listing.dfy`) | the ls-tree loops and their specification |
| `CommitCodec` (`commit_codec.dfy`) | the commit payload |
| `Store` (`object_store.dfy`) | the object directory as a class, and the commands' read-after-write behaviour |

The source's imperative loops are `method`s proved against specification
functions:

- the NUL search with `break` (`FindNul`)
- the `StringBuilder` hex loop (`HexEncode`)
- the hash-decoding loop (`DecodeHash`)
- `System.arraycopy` into a fresh array (`CopyInto`, `FrameObject`)
- write-tree's parts list and `pos` loop (`EntryParts`, `AssembleTree`)
- the nested ls-tree `while` loops (`ListTree`, `ListEntries`, `ReadEntry`, `SkipUntil`)

The object directory is a class (`Store.ObjectStore`) whose `files` map the
writing commands update.

Bytes are the unsigned reading of Java's `byte` (0..255). SHA-1 is a
parameter of the store: any function returning 20 bytes. Each object file is
represented by the buffer it inflates to.

The model follows the code where the code does less than a full Git reader:

- cat-file and ls-tree never check the header's kind or declared length; they only look for its NUL.
- ls-tree recovers the entry names only, not the modes or hashes.
- A missing object file and a buffer without NUL are distinct errors.

## Model

| member | source | states |
|---|---|---|
| Bytes.Ascii | git-java/src/main/java/Main.java:93 | `String.getBytes()` on the ASCII literals the commands use: one byte per character |
| Bytes.Decimal | git-java/src/main/java/Main.java:92 | the decimal length in a header is a non-empty string of ASCII digits with no leading zero |
| Bytes.DecimalRoundTrip | git-java/src/main/java/Main.java:92 | the decimal digits of a length denote that length, so a header states the content size exactly |
| Bytes.DecimalInjective | git-java/src/main/java/Main.java:282 | different lengths give different digit strings |
| Bytes.NextIndex | git-java/src/main/java/Main.java:164-172 | the scan stops at the first occurrence of the byte at or after the start, or at the end of the buffer when there is none |
| Bytes.NextIndexAt | git-java/src/main/java/Main.java:170-172 | a position holding the byte, with none before it from the start on, is where the scan stops |
| ObjectFormat.Header | git-java/src/main/java/Main.java:282-283 | the header bytes: the kind, a space, the content length in decimal, and a NUL |
| ObjectFormat.Framed | git-java/src/main/java/Main.java:285-287 | the buffer that is hashed and stored: the header, then the content |
| ObjectFormat.ObjectContent | git-java/src/main/java/Main.java:56-70 | fails with the invalid-format error exactly when the buffer has no NUL; otherwise gives the bytes after the first NUL, and nothing before that NUL is NUL |
| ObjectFormat.CopyInto | git-java/src/main/java/Main.java:96-98 | `System.arraycopy`: the target holds the source at the offset and is unchanged elsewhere |
| ObjectFormat.FrameObject | git-java/src/main/java/Main.java:92-98 | the new buffer is exactly the header `kind SP decimal(size) NUL` followed by the content |
| ObjectFormat.FindNul | git-java/src/main/java/Main.java:56-63 | the index is -1 exactly when there is no NUL; otherwise it is the first NUL |
| ObjectFormat.ExtractContent | git-java/src/main/java/Main.java:65-70 | the cat-file split equals the content specification, including the error path |
| ObjectFormat.HeaderNulFree | git-java/src/main/java/Main.java:222-223 | a header built from a NUL-free kind has its only NUL as its last byte |
| ObjectFormat.FramedNulIndex | git-java/src/main/java/Main.java:58-63 | in a framed buffer, the first NUL is the one closing the header |
| ObjectFormat.FrameSplitRoundTrip | git-java/src/main/java/Main.java:56-70 | splitting a framed buffer gives back the original content |
| ObjectFormat.FrameLayout | git-java/src/main/java/Main.java:92-98 | the framed length is kind + 1 + digits + 1 + content; the kind, the space, the digits and the content sit at their offsets |
| ObjectFormat.KindsNulFree | git-java/src/main/java/Main.java:282 | "blob", "tree" and "commit" contain no NUL |
| ObjectFormat.HelloBlob | git-java/src/main/java/Main.java:92-98 | the blob for "hello\n" is "blob 6\0hello\n" |
| HexCodec.HexDigit | git-java/src/main/java/Main.java:107 | every value below 16 is printed as a lower-case hex digit |
| HexCodec.HexPair | git-java/src/main/java/Main.java:107 | `String.format("%02x", b)`: two lower-case hex digits, the high four bits first |
| HexCodec.Hex | git-java/src/main/java/Main.java:105-109 | the hash has two characters per digest byte, all lower-case hex digits |
| HexCodec.HexEncode | git-java/src/main/java/Main.java:105-109 | the appending loop builds exactly the hex rendering of the digest |
| HexCodec.DigitValue | git-java/src/main/java/Main.java:350 | a character has a base-16 value (below 16) exactly when it is a hex digit of either case |
| HexCodec.ParsePair | git-java/src/main/java/Main.java:350 | `(byte) Integer.parseInt(s, 16)` on two characters: two hex digits, or a sign and one digit, kept to its low eight bits; none where `parseInt` throws |
| HexCodec.DecodePairs | git-java/src/main/java/Main.java:349-351 | a successful decoding has one byte per two characters |
| HexCodec.HashBytes | git-java/src/main/java/Main.java:348-351 | a decoded entry hash is 20 bytes; a hash shorter than 40 characters is rejected |
| HexCodec.PairFailure | git-java/src/main/java/Main.java:349-351 | one unparsable pair makes the whole decoding fail |
| HexCodec.DecodeHash | git-java/src/main/java/Main.java:348-351 | the loop fills 20 bytes; it succeeds exactly when the hash decodes, and then holds the decoded bytes |
| HexCodec.PairRoundTrip | git-java/src/main/java/Main.java:350 | the two hex digits of a byte parse back to that byte |
| HexCodec.PairPrintBack | git-java/src/main/java/Main.java:350 | a pair of lower-case hex digits parses to a byte that prints as that pair |
| HexCodec.DecodeEncoded | git-java/src/main/java/Main.java:348-351 | decoding the hex rendering of any bytes gives those bytes |
| HexCodec.EncodeDecoded | git-java/src/main/java/Main.java:348-351 | an even-length lower-case hex string decodes, and re-encoding gives the string back |
| HexCodec.DigestHexRoundTrip | git-java/src/main/java/Main.java:348-351 | the 40-character hash of a 20-byte digest decodes back to the digest |
| HexCodec.HashHexRoundTrip | git-java/src/main/java/Main.java:348-351 | 40 lower-case hex digits decode to 20 bytes that print as the same 40 digits |
| ObjectPaths.SplitHash | git-java/src/main/java/Main.java:47-48 | defined exactly for hashes of at least two characters; the parts have lengths 2 and length-2 and concatenate to the hash |
| ObjectPaths.ObjectPath | git-java/src/main/java/Main.java:47-49 | a path exists exactly when the hash has at least two characters |
| ObjectPaths.PathHashRoundTrip | git-java/src/main/java/Main.java:112-118 | the hash is recovered from its object path |
| ObjectPaths.PathInjective | git-java/src/main/java/Main.java:298-303 | distinct hashes are stored at distinct paths |
| TreeEntries.CompareNames | git-java/src/main/java/Main.java:273-275 | `compareTo`: the difference of the first differing name bytes, or of the lengths when one name is a prefix of the other; zero exactly when the names are equal |
| TreeEntries.CompareAntisymmetric | git-java/src/main/java/Main.java:273-275 | swapping the names negates the comparison |
| TreeEntries.CompareTransitive | git-java/src/main/java/Main.java:273-275 | "no greater than" is transitive |
| TreeEntries.CompareIsLexicographic | git-java/src/main/java/Main.java:273-275 | a negative comparison holds exactly when the first name is a proper prefix of the second or has the smaller byte at the first difference |
| TreeEntries.SortEntries | git-java/src/main/java/Main.java:338 | `Collections.sort` by `compareTo`: a stable insertion sort |
| TreeEntries.InsertByName | git-java/src/main/java/Main.java:338 | the sort's step: an entry goes in front of the first entry whose name it does not compare above |
| TreeEntries.InsertPermutes | git-java/src/main/java/Main.java:338 | inserting an entry adds exactly that entry |
| TreeEntries.InsertSorted | git-java/src/main/java/Main.java:338 | inserting into a sorted list keeps it sorted |
| TreeEntries.SortPermutes | git-java/src/main/java/Main.java:338 | the sorted entries are a permutation of the input |
| TreeEntries.SortSorts | git-java/src/main/java/Main.java:337-338 | the sorted entries are in ascending name order |
| TreeEntries.SortedUnique | git-java/src/main/java/Main.java:337-338 | two name-sorted lists holding the same entries are equal when entries with the same name are the same entry |
| TreeEntries.SortedHeadsEqual | git-java/src/main/java/Main.java:273-275 | two such lists start with the same entry |
| TreeEntries.SortOrderIndependent | git-java/src/main/java/Main.java:337-338 | when no two different entries share a name, as in one directory listing, the sorted entries depend only on which entries there are, not on the order they arrive in |
| TreeEncoding.EntryPrefix | git-java/src/main/java/Main.java:345-346 | an entry's prefix bytes: mode, space, name, NUL |
| TreeEncoding.EntryBytes | git-java/src/main/java/Main.java:345-354 | one entry in the payload: its prefix, then the 20 bytes its hash decodes to |
| TreeEncoding.EncodeEntries | git-java/src/main/java/Main.java:343-354 | the tree payload: each entry's prefix followed by its 20 decoded hash bytes, in list order |
| TreeEncoding.EncodedSize | git-java/src/main/java/Main.java:355 | `totalSize`: mode + 1 + name + 1 + 20 summed over the entries |
| TreeEncoding.EncodeAppend | git-java/src/main/java/Main.java:343-354 | encoding one more entry appends its prefix and its 20 hash bytes |
| TreeEncoding.EncodedSizeAppend | git-java/src/main/java/Main.java:355 | each entry adds mode + 1 + name + 1 + 20 to the size |
| TreeEncoding.EncodedLength | git-java/src/main/java/Main.java:355-358 | the payload length equals the summed size, and the tree header states that size |
| TreeEncoding.SortKeepsHashes | git-java/src/main/java/Main.java:337-351 | the sorted entries all decode exactly when the input entries do |
| TreeEncoding.ConcatPrefixLength | git-java/src/main/java/Main.java:366-368 | the parts copied so far are never longer than all the parts |
| TreeEncoding.PartsGrow | git-java/src/main/java/Main.java:345-354 | adding one entry's prefix and 20 hash bytes to the parts extends their concatenation by that entry's encoding |
| TreeEncoding.EntryParts | git-java/src/main/java/Main.java:343-356 | succeeds exactly when every hash decodes; then the parts concatenate to the encoded entries and the total is the summed size |
| TreeEncoding.AssembleTree | git-java/src/main/java/Main.java:358-369 | the buffer is the header followed by every part in order |
| TreeEncoding.EncodeTree | git-java/src/main/java/Main.java:337-369 | succeeds exactly when every hash decodes; the buffer is then the tree framing of the sorted entries' encoding |
| TreeListing.ListFrom | git-java/src/main/java/Main.java:162-179 | the names the outer loop prints from a position: end of buffer stops; no space ahead fails as `copyOfRange` does; otherwise the name up to the next NUL, then 20 bytes skipped |
| TreeListing.ListTreeNames | git-java/src/main/java/Main.java:147-161 | ls-tree on an inflated buffer: without a NUL it fails; otherwise the entries are read from right after the first NUL |
| TreeListing.ListTree | git-java/src/main/java/Main.java:145-179 | the ls-tree loops print exactly the specified names and end with the specified failure |
| TreeListing.SkipUntil | git-java/src/main/java/Main.java:164-166 | the scanning loop stops where the search specification says |
| TreeListing.ReadEntry | git-java/src/main/java/Main.java:163-178 | one entry read advances the position strictly, or fails because there is no space |
| TreeListing.ListEntries | git-java/src/main/java/Main.java:161-179 | the outer loop prints exactly the names the specification lists from its start |
| TreeListing.Names | git-java/src/main/java/Main.java:174-175 | the listed names are the entries' names, in order |
| TreeListing.ListOneEntry | git-java/src/main/java/Main.java:163-178 | an encoded entry is read as its name, and reading resumes right after its 20 hash bytes, whatever those bytes are |
| TreeListing.ListEntryLayout | git-java/src/main/java/Main.java:163-178 | an entry laid out as mode, space, name, NUL and 20 bytes is read as that name, and reading resumes after the 20 bytes |
| TreeListing.ListEncoded | git-java/src/main/java/Main.java:160-179 | an encoded payload parses to the entries' names with no failure |
| TreeListing.ListAfterHeader | git-java/src/main/java/Main.java:147-161 | parsing starts right after the header's NUL |
| TreeListing.ListEncodedTree | git-java/src/main/java/Main.java:147-179 | ls-tree on a framed tree lists its entries' names |
| TreeListing.SortKeepsListable | git-java/src/main/java/Main.java:338 | sorting keeps modes without spaces, names without NULs and decodable hashes |
| TreeListing.WrittenTreeListsSortedNames | git-java/src/main/java/Main.java:337-369 | the tree write-tree builds lists back as the sorted names, in ascending order, a permutation of the input names |
| TreeListing.InsertPermutesNames | git-java/src/main/java/Main.java:338 | inserting an entry adds exactly its name |
| TreeListing.SortPermutesNames | git-java/src/main/java/Main.java:338 | sorting rearranges the names only |
| CommitCodec.CommitPayload | git-java/src/main/java/Main.java:207-220 | the payload bytes: `tree T`, `parent P`, the fixed author and committer lines, a blank line, then the message, each ending in a newline |
| CommitCodec.CommitLines | git-java/src/main/java/Main.java:207-218 | read line by line, the payload is tree, parent, author, committer, a blank line, then the message's lines |
| CommitCodec.IdentitiesHaveNoLF | git-java/src/main/java/Main.java:212-213 | the fixed author and committer lines hold no newline before their end |
| CommitCodec.CommitPayloadLayout | git-java/src/main/java/Main.java:207-222 | the payload length that goes into the header is the sum of its parts, and the payload ends with the message and a newline |
| Store.ReadObject | git-java/src/main/java/Main.java:137-145 | opening the object a hash names: fewer than two characters fails as `substring` does; no file at the path fails as the stream does; otherwise the inflated buffer |
| Store.CatFileResult | git-java/src/main/java/Main.java:46-72 | what cat-file yields for a hash: the read error, or the split of the inflated buffer at its first NUL |
| Store.LsTreeResult | git-java/src/main/java/Main.java:137-179 | the names and failure ls-tree yields for a hash: the read error with no names, or the parse of the inflated tree |
| Store.Written | git-java/src/main/java/Main.java:371-389 | the hash a buffer gets (hex of its SHA-1) and the store with the buffer at that hash's path |
| Store.TreeObject | git-java/src/main/java/Main.java:337-369 | the buffer write-tree stores: the tree framing of the encoding of the sorted entries |
| Store.ObjectStore.WriteObject | git-java/src/main/java/Main.java:371-391 | the hash is the hex digest of the buffer (40 lower-case hex digits), and the buffer is stored at that hash's path with nothing else changed |
| Store.ObjectStore.HashObject | git-java/src/main/java/Main.java:89-124 | stores the framed blob under its hash |
| Store.ObjectStore.CommitTree | git-java/src/main/java/Main.java:207-250 | stores the framed commit payload under its hash |
| Store.ObjectStore.WriteTree | git-java/src/main/java/Main.java:337-391 | fails without writing exactly when an entry hash does not decode; otherwise stores the framed sorted tree under its hash |
| Store.ObjectStore.CatFile | git-java/src/main/java/Main.java:46-72 | the content bytes cat-file hands to `new String`, or why it fails: short hash, missing object, or no NUL |
| Store.ObjectStore.LsTree | git-java/src/main/java/Main.java:137-179 | the name bytes ls-tree hands to `new String`, or why it fails: short hash, missing object, or a malformed tree |
| Store.ReadAfterWrite | git-java/src/main/java/Main.java:382-389 | a written buffer is read back from the hash it was written under |
| Store.WriteKeepsOthers | git-java/src/main/java/Main.java:382-389 | writing an object leaves what every other hash reads unchanged |
| Store.CatFileAfterHashObject | git-java/src/main/java/Main.java:92-124 | cat-file's content bytes on the hash that hash-object printed are the file's bytes |
| Store.CatFileAfterCommitTree | git-java/src/main/java/Main.java:207-250 | cat-file's content bytes on the printed commit hash are the payload, for any arguments; when the two hashes hold no LF, its lines are tree, parent, author, committer, a blank line and the message |
| Store.LsTreeAfterWriteTree | git-java/src/main/java/Main.java:337-391 | ls-tree on the hash that write-tree returns lists the sorted names, without failure |
| Store.WriteTreeOrderIndependent | git-java/src/main/java/Main.java:316-338 | the same entries, one per name as in a directory listing, make the same tree object and hash in whatever order `listFiles` gives them |

## Left out

- SHA-1 (`MessageDigest`) is a parameter that is only known to return 20 bytes, so no property depends on SHA-1 itself.
- `NoSuchAlgorithmException` is not modelled.
- Compression is not modelled. `DeflaterOutputStream` and `InflaterInputStream` are foreign code. Each object file is the buffer it inflates to, and corrupt compressed data is not modelled.
- Filesystem I/O is outside the model:
  - `File`, `FileInputStream`, `FileOutputStream`, `Files.readAllBytes` and `mkdirs`
  - I/O errors other than a missing object file
  - `java.io.File` path normalisation
  - The object directory is a map from path string to buffer.
- Directory traversal in `writeTree` (`Main.java:316-335`) is not modelled. This covers `listFiles`, skipping `.git`, the choice of `100644`, `100755` or `40000` from `canExecute` and `isDirectory`, and the recursion into subdirectories. `WriteTree` takes the entry list that loop would build. The blobs and subtrees it writes along the way are separate `HashObject` and `WriteTree` calls.
- `init` (`Main.java:25-38`) is not modelled.
- Command dispatch, argument and usage checks, and printing to `System.out` are not modelled.
- `new String(...)` decoding before printing is not modelled. cat-file prints `new String(content)` (`Main.java:72`) and ls-tree prints `new String(name)` (`Main.java:174-175`). Both decode with the platform charset, and `System.out` encodes again. `Store.ObjectStore.CatFile` and `Store.ObjectStore.LsTree` return the bytes before that decoding. Bytes that are not valid in the charset print differently: under UTF-8, a 0xFF byte prints as EF BF BD.
- Character encoding is not modelled. Names, modes, messages and the `commit-tree` arguments are byte sequences, standing for `String.getBytes()` on ASCII text. `String.compareTo` on UTF-16 characters is modelled as the same comparison on bytes.
- `TreeEntries.SortEntries` stands for `Collections.sort`, as a functional stable insertion sort on a sequence rather than in place on the `ArrayList`. It keeps equal names in input order, but that stability is not stated as a lemma.
- `TreeEncoding.EncodeEntries`: injectivity of the encoding is not proved. ls-tree recovers only the names, and no parser for modes and hash bytes is modelled. `TreeEntries.SortOrderIndependent` proves that the same entries always encode the same way when no two different entries share a name, as in one directory listing.
- This is plain name order, not Git's order that treats a directory name as if it ended in `/`. The source does the same.
- `HexCodec.DigitValue` accepts ASCII digits only; the non-ASCII digits `Character.digit` also accepts are outside the model.
- `HexCodec.ParsePair` and `HexCodec.HashBytes` reject those non-ASCII digits for the same reason. Java would accept, for example, a pair of full-width digits.
- Java's 32-bit `int` is not modelled for sizes, `totalSize`, `pos` and array lengths. The model uses unbounded integers, so buffers of 2 GiB or more are out of scope.
- Read-only inputs are `seq`s rather than `byte[]`. The inflated buffer, the file content and the parts are never modified in place.
- `CommitCodec.Lines` is a reading aid for the payload. It is not part of the source.
- `Store.ObjectStore.HashObject` models both `hash-object -w` (`Main.java:84-124`) and `createBlob` (`Main.java:279-310`). The two are the same code.
