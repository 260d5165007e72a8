# git-rust loose-object store, modelled in Dafny

git-rust is a small reimplementation of Git's object database. This project models its core and
proves properties of the model. The core has three parts:

- **Writing objects** (`src/object/write.rs`):
  - the comparator the directory walk sorts entries with;
  - the mode recorded for each entry;
  - the `mode SP name NUL digest` tree entries;
  - the `<kind> <size>\0` framing that every object is hashed and stored with;
  - the `.git/objects/xx/yyyy…` object path;
  - the commit text, including its hour-only time zone;
  - `calc_hash_object`.
- **Reading objects** (`src/object.rs`):
  - `ObjectKind::from_str`;
  - `open`, which resolves a full or abbreviated hex hash to one object file or to an error;
  - `TreeEntry::parse`;
  - the `Display` line that `ls-tree` prints.
- **The configuration file** (`src/config.rs`):
  - `parse_config_from_file`;
  - `Config::get`.

Modules:

| module | file | contents |
|---|---|---|
| `Wrappers` | `wrappers.dfy` | `Option` and `Result` |
| `Bytes` | `bytes.dfy` | bytes, ASCII text, `IndexOf` (the position `split_once` cuts at), `StartsWith`, `PadLeft` (`{:0>N}`) |
| `Numerals` | `numerals.dfy` | `to_string` of integers, and reading decimal digits back |
| `Hex` | `hex.dfy` | `hex::encode` and `hex::decode` |
| `Utf8` | `utf8.dfy` | the UTF-8 bytes of a Rust `String`, and the validity check that `to_str` makes |
| `GitObject` | `object.dfy` | `src/object.rs` |
| `GitConfig` | `config.dfy` | `src/config.rs` |
| `ObjectWrite` | `write.dfy` | `src/object/write.rs` |

Where the source changes things step by step, the model is imperative:

- `ObjectWrite.ObjectStore` is a class. Its field `objects` maps each object path to the framed
  bytes stored there.
  - `HashObject`, `WriteTree`, `WriteEntry` and `WriteCommit` update `objects`.
  - Each of them is proved against a specification function: `TreeSpec`, `EntryStep` or `CommitSpec`.
  - Every write keeps the store content-addressed: each file holds a well-framed object at the path
    of its own digest, and no file is removed.
- The loops of `open` and `parse_config_from_file` are methods too: `ScanBucket`, `Open` and
  `ParseConfig`. They are proved equal to the functions `Pick`, `Resolve` and `ParseLines`.

SHA-1 is not modelled. It is an arbitrary function from the framed bytes to a 20-byte digest,
given to the store's constructor. Every property is proved for any such function.

The model follows the code, including where the code departs from Git:

- **Sort order.** With a directory `foo` and files `foo.txt` and `foo2`, the comparator orders them
  `foo.txt`, `foo2`, `foo` (`FixtureOrder`). Git orders them `foo.txt`, `foo`, `foo2`. The reason:
  the comparator compares only the common prefix of two names. It then breaks the tie with `/` or
  NUL, never with the next byte of the longer name.
- **Not a total order.** The comparator ties a file `foo` with both `foo.txt` and `foo2`
  (`EqualNotTransitive`). So two listings of the same files can both be sorted and still produce
  different tree payloads (`ListingOrderMatters`). A tree's digest therefore depends on the order
  the walk lists the directory in. A stable sort can also leave a listing in which a later entry
  compares Less than an earlier one (`EqualNeighboursNotSorted`).
- **Symlinks to directories.** The comparator asks `Path::is_dir`, which follows a symlink, so a
  link to a directory sorts as a directory while its entry is recorded with the symlink mode
  (`LinkToDirectorySortsAsDirectory`).
- **Empty subdirectories.** Git cannot record an empty directory, and an empty subdirectory writes
  no tree object here either. Its `40000 name\0` header stays in the parent's payload, with no
  digest after it (`EmptySubdirLeavesHeader`), because the header is appended before `continue`
  skips the entry. A directory whose only entry is an empty subdirectory is therefore written,
  not skipped.
- **Time zone.** The zone is `offset / 3600` rounded toward zero, followed by `00`. Minutes are
  dropped (`TimezoneDropsMinutes`), so half an hour west of UTC is written `+0000`.

The model splits two source functions into parts:

- `write_tree` is modelled as `WriteTree`, which holds the loop over the entries, and
  `WriteEntry`, which holds one pass of the loop body. The two call each other for subdirectories.
- The text building of `write_commit` is the method `BuildCommit`, which `WriteCommit` calls.

## Specification functions

These functions define what the operations compute. Their contracts are not where their
properties are stated: the lemmas listed beside each one state them, and those lemmas have rows
under "## Model".

| function | source | properties stated by |
|---|---|---|
| `ObjectWrite.Sorted` | src/object/write.rs:47-72 | `ListingOrderMatters`, `EqualNeighboursNotSorted`, `LinkToDirectorySortsAsDirectory` |
| `ObjectWrite.EntryHeader` | src/object/write.rs:101-104 | `EntryHeaderParses`, `EmptySubdirLeavesHeader` |
| `ObjectWrite.Frame` | src/object/write.rs:123-128, 189-193, 235 | `FrameRoundTrip`, `FrameInjective`, `KindTagIsName` |
| `ObjectWrite.ParseFrame` | none: the source only writes frames | the inverse the model defines in order to state `FrameRoundTrip` and `ParseFrameSound` |
| `ObjectWrite.ObjectPath` | src/object/write.rs:133 | `ObjectPathInjective`, `DigestTextWellFormed`, `OpenFindsStored` |
| `ObjectWrite.TreeSpec`, `ObjectWrite.EntriesSpec`, `ObjectWrite.EntryStep` | src/object/write.rs:35-146 | `TreeNoneIffEmpty`, `TreeOfFiles`, `EntriesOfFiles`, `EmptySubdirLeavesHeader`, `StepExtends`, `EntriesExtend`, `FileStep`, `DirectoryStep`, `DirectoryOfFilesStep`, `TreeFails`, `EntriesFail`, `StepFails`, `TreeSpecAddressed`, `EntriesSpecAddressed`, `StepAddressed`, and the methods `WriteTree` and `WriteEntry` |
| `ObjectWrite.NodeFails`, `ObjectWrite.FailsFrom` | src/object/write.rs:86-99, 106-116 | `TreeFails`, `EntriesFail`, `StepFails` |
| `ObjectWrite.Timezone` | src/object/write.rs:165-171 | `TimezoneForm`, `HoursTowardZero`, `TimezoneDropsMinutes`, `ZoneSingleLine` |
| `ObjectWrite.CommitText` | src/object/write.rs:160-188 | `CommitLines`, `HeadersSingleLine`, `BuildCommit` |
| `ObjectWrite.CommitSpec` | src/object/write.rs:152-214 | `CommitNeedsIdentity`, `NoHeaderNoCommit`, `WriteCommit` |
| `GitObject.Resolve` | src/object.rs:39-69 | `ResolveMalformed`, `ResolveNotFound`, `ResolveAmbiguous`, `ResolveFound`, `Open` |
| `GitObject.Pick` | src/object.rs:57-67 | `ScanBucket`, `MatchesNone`, `MatchesMany`, `MatchesOne` |
| `GitObject.Display` | src/object.rs:99-106 | `DisplayColumns` |
| `Utf8.IsValid` | src/object.rs:81 | `EncodeIsValid`, `AsciiPrefixIsValid`, `AsciiPrefixOfValid`, `ParseEntry` |
| `GitConfig.Config.Get` | src/config.rs:11-24 | `GetWithoutDot`, `GetSectionKey`, `GetAfterSection`, `LastAssignmentWins`, `UserNameQuery`, `UserEmailQuery` |
| `GitConfig.ApplyLine` | src/config.rs:37-46 | `HeaderStartsSection`, `AssignmentStored`, `OtherLineIgnored` |
| `GitConfig.ParseLines` | src/config.rs:27-49 | `ParseConfig`, `ParseFromAppend`, `StopsAtReadError`, `NoHeaderNoSections`, `LastAssignmentWins` |
| `GitConfig.Trim` | src/config.rs:44 | `TrimStartSuffix`, `TrimEndPrefix`, `TrimInfix`, `TrimTrimmed` |

## Model

| member | source | states |
|---|---|---|
| `GitObject.FromStr` | src/object.rs:26-33 | parsing succeeds exactly for `blob`, `tree` and `commit`, and the parsed kind has the text as its name |
| `GitObject.FromStrKindName` | src/object.rs:26-33 | every kind's name parses back to that kind |
| `GitObject.Open` | src/object.rs:39-69 | the validation and the directory scan give exactly `Resolve`'s answer: a path or BadLength, NonHex, NotFound or Ambiguous |
| `GitObject.ScanBucket` | src/object.rs:49-67 | the loop over a bucket's listing gives the single file starting with the prefix, stops with Ambiguous at a second match, and gives NotFound with none |
| `GitObject.HexTextIsAscii` | src/object.rs:43-45 | a hash that `hex::decode` accepts is ASCII, so slicing it at 2 cuts bytes and characters alike |
| `GitObject.ResolveMalformed` | src/object.rs:40-43 | BadLength exactly when the byte length is outside 4..40; NonHex exactly when the length is in range and `hex::decode` fails |
| `GitObject.ResolveNotFound` | src/object.rs:44-67 | for a well-formed hash: NotFound exactly when the bucket directory is missing or no file in it starts with the rest of the hash |
| `GitObject.ResolveAmbiguous` | src/object.rs:57-61 | for a well-formed hash: Ambiguous exactly when two files of the bucket start with the prefix |
| `GitObject.ResolveFound` | src/object.rs:57-68 | a matching file is the result exactly when no other file of the bucket matches; the result is `<bucket>/<file>` |
| `GitObject.Matches` | src/object.rs:57-62 | the `starts_with` filter keeps only listed names that start with the prefix, and no more names than are listed |
| `GitObject.MatchesNone` | src/object.rs:57-63 | no match is collected exactly when no listed name starts with the prefix |
| `GitObject.MatchesMany` | src/object.rs:57-63 | two matches are collected exactly when two distinct listed names start with the prefix |
| `GitObject.MatchesOne` | src/object.rs:57-65 | a single match is a listed name with the prefix, and no other listed name has it |
| `GitObject.ModeKind` | src/object.rs:85-89 | exactly `40000` is a tree and exactly `100644`, `100755` and `120000` are blobs; every other mode is rejected; no accepted mode contains a space, NUL or TAB |
| `GitObject.ParseEntry` | src/object.rs:79-96 | an accepted header is `mode SP name NUL`, its name is free of NUL and is valid UTF-8, the kind matches the mode, and the hash is the digest's lower-case hex |
| `GitObject.ParseEntryOfHeader` | src/object.rs:79-96 | the converse: every `mode SP name NUL` with a known mode and a NUL-free, valid UTF-8 name parses to exactly that mode and name |
| `GitObject.PaddedMode` | src/object.rs:103 | `{:0>6}` turns `40000` into `040000` and leaves the six-digit modes as they are |
| `GitObject.DisplayColumns` | src/object.rs:99-106 | the line `{mode:0>6} {kind} {hash}\t{name}` column by column: the zero-padded mode in the first six bytes (`040000` for a directory), a space, the kind's name, a space, the 40 hex digits of the hash, then the first TAB, and after it exactly the name |
| `Hex.Encode` | src/object/write.rs:131 | two lower-case hex digits per byte |
| `Hex.Decode` | src/object.rs:43 | accepts exactly even-length text made of hex digits, and gives half as many bytes |
| `Hex.DecodeEncode` | src/object.rs:43 | decoding the hex text of bytes gives those bytes back |
| `Hex.EncodeInjective` | src/object/write.rs:131 | different byte strings have different hex text |
| `Utf8.Encode` | src/object/write.rs:189 | a string's bytes are at least as many as its characters, and empty exactly when the string is empty |
| `Utf8.EncodeIsValid` | src/object.rs:81 | the bytes of every Rust string pass the UTF-8 check that `to_str` makes |
| `Utf8.AsciiPrefixIsValid` | src/object.rs:81-82 | an ASCII prefix followed by valid UTF-8 is valid UTF-8 |
| `Utf8.AsciiPrefixOfValid` | src/object.rs:81-82 | what follows an ASCII prefix in valid UTF-8 is itself valid |
| `Utf8.EncodeAppend` | src/object/write.rs:189-193 | the bytes of a concatenation are the concatenation of the bytes |
| `Utf8.EncodeAscii` | src/object/write.rs:124 | an ASCII string's bytes are its characters' codes |
| `Numerals.NatToString` | src/object/write.rs:101 | the decimal text is digits only, has no leading zero, and is one digit long exactly below 10 |
| `Numerals.IntToString` | src/object/write.rs:177 | a negative number is `-` followed by the digits of its magnitude; any other number is its digits |
| `Numerals.NatToStringRoundTrip` | src/object/write.rs:101 | reading the decimal text of a number back gives the number |
| `Numerals.NatToStringInjective` | src/object/write.rs:101 | different numbers have different decimal text |
| `Bytes.PadLeft` | src/object.rs:103 | `{:0>N}`: the result is N long or the input's length if that is longer, ends with the input, and is the fill before it |
| `Bytes.IndexOf` | src/object.rs:82 | the first occurrence: the element is there, not before, and there is none exactly when the element is absent |
| `GitConfig.GetWithoutDot` | src/config.rs:11-16 | a query without a `.` finds nothing |
| `GitConfig.GetSectionKey` | src/config.rs:11-22 | `section.key` finds the value stored under that section and key, and so does `section.key.more`: components after the second are ignored |
| `GitConfig.GetAfterSection` | src/config.rs:12-21 | the text before the first `.` picks the section, and the text up to the next `.` picks the key |
| `GitConfig.TrimStartSuffix` | src/config.rs:44 | `trim_start` keeps a suffix: what it drops is whitespace, and what it keeps starts with a non-whitespace character or is empty |
| `GitConfig.TrimEndPrefix` | src/config.rs:44 | `trim_end` keeps a prefix: what it drops is whitespace, and what it keeps ends with a non-whitespace character or is empty |
| `GitConfig.TrimInfix` | src/config.rs:44 | `trim` keeps a contiguous infix that neither starts nor ends with whitespace, and only whitespace is removed around it |
| `GitConfig.TrimTrimmed` | src/config.rs:44 | a string that neither starts nor ends with whitespace is unchanged by `trim` |
| `GitConfig.ParseConfig` | src/config.rs:27-49 | the loop over the lines builds exactly the configuration `ParseLines` specifies |
| `GitConfig.ParseFromAppend` | src/config.rs:33-47 | the file is read line by line: reading `a` then `b` is reading `b` from the state `a` leaves, when `a` had no read error |
| `GitConfig.StopsAtReadError` | src/config.rs:34-36 | the first read error ends parsing: nothing after it has any effect |
| `GitConfig.HeaderStartsSection` | src/config.rs:37-41 | a `[name]` line makes `name` the current section and gives it a fresh empty map, discarding an earlier one of that name; no other section changes |
| `GitConfig.AssignmentStored` | src/config.rs:42-45 | a non-header line with `=` stores the trimmed key and trimmed value in the current section, replacing an earlier value; before any header it is dropped |
| `GitConfig.OtherLineIgnored` | src/config.rs:37-46 | a line that is neither a header nor contains `=` changes nothing |
| `GitConfig.NoHeaderNoSections` | src/config.rs:43 | until a header is read no section exists, so every assignment is dropped |
| `GitConfig.LastAssignmentWins` | src/config.rs:42-45 | right after `key = value` in section S, `S.key` gives the trimmed value, whatever was assigned before |
| `ObjectWrite.Lex` | src/object/write.rs:55 | byte-slice comparison is Equal exactly for equal slices |
| `ObjectWrite.LexFirstDifference` | src/object/write.rs:55 | the first differing byte decides the byte-slice comparison |
| `ObjectWrite.LexFlip` | src/object/write.rs:55 | swapping the byte slices reverses the comparison |
| `ObjectWrite.Compare` | src/object/write.rs:47-72 | two entries tie only when one name is a prefix of the other; then the shorter one is a directory exactly when both names are equal and both are directories; equal names of the same kind always tie |
| `ObjectWrite.CompareFirstDifference` | src/object/write.rs:54-70 | where two names first differ within their common length, that byte decides the order, whatever the directory flags |
| `ObjectWrite.ComparePrefix` | src/object/write.rs:57-68 | with one name a prefix of the other: a shorter directory sorts after the longer name, a shorter non-directory ties with it, and equal names put file before directory |
| `ObjectWrite.CompareAntisymmetric` | src/object/write.rs:47-72 | swapping the two entries reverses the comparator's result |
| `ObjectWrite.FixtureOrder` | src/object/write.rs:47-72 | with a directory `foo` and files `foo.txt` and `foo2`, the order is `foo.txt` < `foo2` < `foo` |
| `ObjectWrite.EqualNotTransitive` | src/object/write.rs:47-72 | a file `foo` ties with `foo.txt` and with `foo2`, which do not tie with each other |
| `ObjectWrite.ModeOf` | src/object/write.rs:86-99 | a directory is 40000, a symlink 120000, a regular file 100755 when one of the `0o111` bits is set and 100644 otherwise; it fails exactly for an unknown file type |
| `ObjectWrite.DecimalBytes` | src/object/write.rs:101 | `to_string().as_bytes()`: non-empty ASCII with no space and no NUL |
| `ObjectWrite.TreeModeDecimal` | src/object/write.rs:87 | 40000 is written `40000` |
| `ObjectWrite.RegularModeDecimal` | src/object/write.rs:93 | 100644 is written `100644` |
| `ObjectWrite.ExecutableModeDecimal` | src/object/write.rs:91 | 100755 is written `100755` |
| `ObjectWrite.SymlinkModeDecimal` | src/object/write.rs:96 | 120000 is written `120000` |
| `ObjectWrite.ModeTexts` | src/object/write.rs:86-101 | the four modes are written as exactly the texts that `TreeEntry::parse` recognises |
| `ObjectWrite.ModeOfParses` | src/object/write.rs:86-99 | each recorded mode parses back to the entry's kind (a directory is a tree, a file or symlink a blob); a file is executable exactly when one of its three execute bits is set |
| `ObjectWrite.EntryHeaderParses` | src/object/write.rs:101-104 | an entry header that `write_tree` emits for a NUL-free, valid UTF-8 name parses back as that mode, kind and name |
| `ObjectWrite.KindTagIsName` | src/object/write.rs:124 | the tag in a header is the UTF-8 of the kind's name |
| `ObjectWrite.KindOfTag` | src/object/write.rs:124 | a recognised tag is the tag of the kind it gives |
| `ObjectWrite.KindTagHeader` | src/object/write.rs:124 | a tag contains no space and is read back as its kind |
| `ObjectWrite.ParseFrameSound` | src/object/write.rs:123-128 | whatever reads as a frame is exactly the frame of the kind and payload read |
| `ObjectWrite.FrameRoundTrip` | src/object/write.rs:123-128 | reading `<kind> <size>\0payload` gives back that kind and payload |
| `ObjectWrite.FrameInjective` | src/object/write.rs:189-193 | different objects have different frames |
| `ObjectWrite.ObjectPathInjective` | src/object/write.rs:133 | different digests are stored at different paths |
| `ObjectWrite.DigestTextWellFormed` | src/object/write.rs:131-133 | a digest's hex text passes `open`'s checks, and `open`'s bucket and name split it where the object path does |
| `ObjectWrite.OpenFindsStored` | src/object.rs:39-69 | `open` with a stored object's full hex digest finds its path when its bucket lists it once among 38-character names |
| `ObjectWrite.SharedPrefixAmbiguous` | src/object.rs:57-61 | two stored digests with the same first two bytes make the four-digit abbreviation of either Ambiguous |
| `ObjectWrite.HexPrefix` | src/object/write.rs:131 | the hex text of a prefix of the bytes is the matching prefix of the hex text |
| `ObjectWrite.StepExtends` | src/object/write.rs:100-118 | an entry only appends to the payload, and one that does not fail appends at least its header |
| `ObjectWrite.EntriesExtend` | src/object/write.rs:37-119 | the loop only appends, and a payload with entries left grows unless an entry fails |
| `ObjectWrite.TreeNoneIffEmpty` | src/object/write.rs:120-122 | the result is None exactly for a directory without entries, and then nothing is written |
| `ObjectWrite.EmptySubdirLeavesHeader` | src/object/write.rs:106-111 | a directory holding only an empty subdirectory is written, as the frame of the subdirectory's header with no digest |
| `ObjectWrite.EntriesOfFiles` | src/object/write.rs:100-118 | over files and symlinks, the loop never fails and extends the payload by each entry's header and blob digest, in walk order |
| `ObjectWrite.FileStep` | src/object/write.rs:113-118 | a file or symlink appends its header and its blob's digest, and stores the blob |
| `ObjectWrite.DirectoryStep` | src/object/write.rs:100-112 | a directory appends its `40000 name\0` header and then its subtree's digest; an empty subtree appends nothing more, a failing subtree stops the loop with that error; the store is what the subtree's writing left |
| `ObjectWrite.DirectoryOfFilesStep` | src/object/write.rs:100-112 | a subdirectory holding only files, at least one, appends its header and the digest of the tree frame of those files' payload, and that frame is stored at its path |
| `ObjectWrite.TreeFails` | src/object/write.rs:35-146 | `write_tree` fails exactly when an entry of unknown type is reachable through directories, whatever the store holds |
| `ObjectWrite.EntriesFail` | src/object/write.rs:76-119 | the loop from entry i fails exactly when some entry from i on cannot be recorded |
| `ObjectWrite.StepFails` | src/object/write.rs:86-116 | one entry fails exactly when it is of unknown type or a directory below which such an entry sits |
| `ObjectWrite.TreeOfFiles` | src/object/write.rs:120-145 | a non-empty directory of files has the digest of the tree frame of its entries, and that frame is stored at its path |
| `ObjectWrite.ListingOrderMatters` | src/object/write.rs:47-72 | files `foo` and `foo.txt` are sorted in both orders, and the two orders give different tree payloads |
| `ObjectWrite.EqualNeighboursNotSorted` | src/object/write.rs:47-72 | the files `foo2`, `foo`, `foo.txt` in that order tie with their neighbours, so a stable sort keeps them, yet `foo2` compares Greater than `foo.txt` |
| `ObjectWrite.LinkToDirectorySortsAsDirectory` | src/object/write.rs:58-63 | a symlink `foo` to a directory gets mode 120000, yet sorts after `foo.txt` as a directory would, where a file `foo` ties with it |
| `ObjectWrite.PutAddressed` | src/object/write.rs:133-143 | storing a framed object at its digest's path keeps the store content-addressed and removes no file |
| `ObjectWrite.TreeSpecAddressed` | src/object/write.rs:35-146 | writing a tree, its blobs and its subtrees keeps the store content-addressed and removes no file |
| `ObjectWrite.EntriesSpecAddressed` | src/object/write.rs:37-119 | the same for the loop over the entries |
| `ObjectWrite.StepAddressed` | src/object/write.rs:100-118 | the same for one entry |
| `ObjectWrite.HoursTowardZero` | src/object/write.rs:166 | `offset / 3600` is the number of whole hours in the offset, counted toward zero |
| `ObjectWrite.TwoDigitsValue` | src/object/write.rs:168 | `{:0>2}` of an hour below 100 is two digits that read back as the hour |
| `ObjectWrite.TimezoneForm` | src/object/write.rs:165-171 | for any offset under a day, the zone is a sign and two digits that read back as the whole hours rounded toward zero; it is negative exactly from a full hour west of UTC on |
| `ObjectWrite.TimezoneDropsMinutes` | src/object/write.rs:166-171 | -1800 s is written `+00`, 19800 s is `+05`, and -3600 s is `-01` |
| `ObjectWrite.ZoneSingleLine` | src/object/write.rs:167-171 | the zone contains no newline |
| `ObjectWrite.UserNameQuery` | src/object/write.rs:154 | `get("user.name")` looks up `name` in the `user` section |
| `ObjectWrite.UserEmailQuery` | src/object/write.rs:157 | `get("user.email")` looks up `email` in the `user` section |
| `ObjectWrite.CommitNeedsIdentity` | src/object/write.rs:153-159 | a commit is made exactly when the `user` section has both `name` and `email`; a missing name is reported first; the two values are the author and the committer |
| `ObjectWrite.NoHeaderNoCommit` | src/object/write.rs:153-156 | a configuration file without any section header never yields a commit |
| `ObjectWrite.IdentityLineSingle` | src/object/write.rs:172-187 | an author or committer line has no newline when the name, email and zone have none |
| `ObjectWrite.JoinAppend` | src/object/write.rs:161 | each `writeln!` appends its line and a newline |
| `ObjectWrite.SplitJoin` | src/object/write.rs:160-188 | lines without newlines, written one after another, split back into the same lines |
| `ObjectWrite.HeadersSingleLine` | src/object/write.rs:161-187 | no header line breaks across lines when the hashes, name and email have no newline |
| `ObjectWrite.CommitLines` | src/object/write.rs:160-188 | line by line, the commit text is the header lines (tree, parent, author, committer), an empty line, then the message's own lines |
| `ObjectWrite.BuildCommit` | src/object/write.rs:160-188 | the successive `writeln!` calls build exactly `CommitText`, whose line structure `CommitLines` states |
| `ObjectWrite.ObjectStore.HashObject` | src/object/write.rs:216-251 | the digest of the blob frame of the bytes; when saving, that frame is stored at its digest's path and nothing else changes; otherwise the store is unchanged; the store stays content-addressed |
| `ObjectWrite.ObjectStore.WriteTree` | src/object/write.rs:35-146 | the result and the new store are exactly `TreeSpec`'s: an error, None for an empty directory, or the digest of the stored tree frame; the store stays content-addressed |
| `ObjectWrite.ObjectStore.WriteEntry` | src/object/write.rs:79-118 | one pass of the loop does exactly what `EntryStep` specifies: the same payload, error and store |
| `ObjectWrite.ObjectStore.WriteCommit` | src/object/write.rs:152-214 | without a config file, or without `user.name` or `user.email`, it fails with that error and writes nothing; otherwise it returns the digest of the commit frame of the UTF-8 commit text and stores that frame at its path |

## Left out

- SHA-1 is a function parameter, so no property of the real hash function is used. zlib is not modelled: an object file holds the framed bytes it would decompress to.
- The `ignore` crate's walk is not modelled: ignore files, hidden-file handling and the filter that skips `.git`. A directory is its entries in the order the walk yields them, already filtered. The sort itself is not modelled: `WriteTree` takes the children in the given order and does not sort them. The comparator is modelled and proved about directly, and `Sorted` states only that no entry compares Greater than a later one; because the comparator is not transitive, this is not a description of every order the walk produces (`EqualNeighboursNotSorted`).
- Walker entries that are errors, and entries without a file type, are skipped with `continue` in the source. The model has no such entries.
- Reading an entry never fails in the model: the `?` on `entry.metadata()` (src/object/write.rs:79) and on `fs::metadata`, `File::open` and the copy in `calc_hash_object` (src/object/write.rs:217-236) always succeed. For example, `write_blob` on a symlink to a directory fails at the read in the source, while `EntryStep` always continues past a `Symlink` node.
- `metadata()` and permission reads are not modelled: a node carries its permission bits and the bytes that reading its path gives. A symlink's bytes are those of its target, since `calc_hash_object` opens the path and so follows the link.
- ObjectWrite.ObjectStore.HashObject: the header size is the number of bytes read, not `metadata.len()`. The two differ only when the file changes between the stat and the read.
- Temporary files, `create_dir_all`, `File::create_new` and `rename` are left out, along with how they can fail and collide. A store write always succeeds and overwrites the object's path.
- The clock is not modelled: `chrono::Local::now()` is given as the `timestamp` and `offset` parameters of `WriteCommit`.
- File I/O for the configuration is not modelled. `File::open(".git/config")` failing is `configFile == None`. `BufRead::lines` is given as a sequence of lines or read errors.
- `read_dir` errors are left out, along with the panic on non-Unicode file names: a bucket is a listing of strings.
- The bytes of an `open` result are not modelled: the model stops at the resolved path, and opening that file is I/O.
- `src/object/read.rs`, the command modules under `src/commands/`, `src/commands.rs` and `src/main.rs` are not part of this model.
