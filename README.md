# Index maps of the version-control tool

This project models the layer of the version-control tool that records which
working-tree file carries which content hash (VersionControl/classes/indexmap.h).
The model is written in Dafny.

- An `Indexmap` maps filenames to the SHA-256 hex digests of their contents.
- A `Commitmap` maps digests to filenames.
- Both are stored as text, one line `filename,hash` per entry.
- A `basic_indexmapLoader` loads such a map from its file when it is
  constructed and writes the map back, replacing the file, when it is
  destroyed.

The modules follow that structure:

| file | module | what it holds |
|---|---|---|
| strings.dfy | `Strings` | std::string's ordering, `find_first_of`, `npos` and the width of `size_t` |
| ordered_map.dfy | `OrderedMaps` | `std::map<std::string, std::string>` as the ascending sequence of its entries, and `operator[]` assignment (`Insert`, `InsertAll`) |
| codec.dfy | `Codec` | the text format: `std::getline`, the split at the first comma, `operator>>`, `operator<<`, and the round trips between them |
| conversion.dfy | `Conversion` | the conversion constructors between the two maps |
| files.dfy | `Files` | the files the program reads and truncates, and the digest function |
| indexmap.dfy | `IndexMaps` | the classes `Indexmap`, `Commitmap`, `IndexmapLoader` and `CommitmapLoader` |

Each class keeps its `std::map` as a field `entries: seq<Entry>`, in iteration
order. The class invariant `Valid()` is that the keys are strictly ascending.
`Map()` is the abstract map that `entries` stands for. Every state-changing
method states its new `entries` in terms of `Insert`/`InsertAll` on the old
ones. The lemmas in `OrderedMaps` state what those mean for `Map()`.

SHA-256 is a parameter, `sha256: Hasher`, a function from a file's content to
64 lower-case hexadecimal digits. The file system is the class
`Files.FileSystem`, a map from path to content. Opening a missing file, or the
empty path, reads as empty. Writing to the empty path changes nothing.

The model follows the code, not the expected behaviour, in two places:

- A line without a comma is read with `sep == npos`. `substr(0, npos)` is the
  whole line. `sep + 1` wraps round to 0 in `size_t`, so `substr(0)` is also
  the whole line. Such a line therefore maps the line to itself, not to an
  empty hash (`Codec.LineWithoutComma`).
- `add` on a file that cannot be opened hashes the empty stream and stores
  that digest. It does not report an error.

## Model

| member | source | states |
|---|---|---|
| Strings.Less | VersionControl/classes/indexmap.h:122 | std::string `operator<`, the order of the map's keys: never relates a string to itself, and puts a proper prefix first |
| Strings.LessTransitive | VersionControl/classes/indexmap.h:122 | the key order of std::map is transitive |
| Strings.LessTotal | VersionControl/classes/indexmap.h:122 | any two distinct keys are ordered one way or the other |
| Strings.LessAsymmetric | VersionControl/classes/indexmap.h:122 | no two keys are each less than the other |
| Strings.FindFirstOf | VersionControl/classes/indexmap.h:113 | `find_first_of(c)` gives npos (None) exactly when `c` does not occur, otherwise the first index holding `c` |
| Strings.FindFirstOfAfter | VersionControl/classes/indexmap.h:113 | in `a + c + b` with no `c` in `a`, the first `c` is found at the length of `a` |
| OrderedMaps.Insert | VersionControl/classes/indexmap.h:116 | `m[k] = v` makes the map send `k` to `v` and leaves every other key as it was; nothing else enters the map |
| OrderedMaps.InsertSorted | VersionControl/classes/indexmap.h:80 | assignment keeps the map in ascending key order and adds an entry exactly when the key was absent |
| OrderedMaps.InsertAll | VersionControl/classes/indexmap.h:111-118 | a run of assignments stores only pairs that were already there or were assigned |
| OrderedMaps.InsertAllSorted | VersionControl/classes/indexmap.h:111-118 | a run of assignments keeps key order and adds at most one entry per assignment |
| OrderedMaps.InsertAllLast | VersionControl/classes/indexmap.h:111-118 | of several assignments to one key, the last decides the stored value |
| OrderedMaps.InsertAllUntouched | VersionControl/classes/indexmap.h:111-118 | a key that no assignment mentions keeps its presence and its value |
| OrderedMaps.InsertAllKeys | VersionControl/classes/indexmap.h:111-118 | after a run of assignments, the keys are the old keys plus the assigned ones |
| OrderedMaps.InsertAllAppend | VersionControl/classes/indexmap.h:101-106 | assigning keys in ascending order, each above those present, appends them in that order |
| OrderedMaps.InsertAllCollapse | VersionControl/classes/indexmap.h:28-32 | two assignments to one key leave fewer entries than assignments |
| OrderedMaps.SortedUnique | VersionControl/classes/indexmap.h:122 | two ascending entry sequences that stand for the same map are equal, so iteration order is determined by the map |
| OrderedMaps.Lookup | VersionControl/classes/indexmap.h:38-40 | `at`/`count`: the stored value exactly when the key is present; None stands for std::out_of_range |
| OrderedMaps.FirstKeyWith | VersionControl/classes/indexmap.h:42-49 | the forward scan returns "" when no entry holds the value, otherwise a key holding it that is the smallest such key |
| OrderedMaps.Swapped | VersionControl/classes/indexmap.h:137-139 | the pairs the conversion loop assigns, one per source entry, value first |
| OrderedMaps.SwappedTwice | VersionControl/classes/indexmap.h:137-139 | turning every pair round twice gives the pairs back |
| OrderedMaps.Inverted | VersionControl/classes/indexmap.h:136-140 | the conversion constructors never add entries; the Conversion lemmas state the rest |
| Codec.LineEnd | VersionControl/classes/indexmap.h:110 | `std::getline` extracts up to, not including, the first '\n', or to the end of input |
| Codec.GetLine | VersionControl/classes/indexmap.h:117 | one `getline` delivers a line without '\n' and consumes input |
| Codec.Lines | VersionControl/classes/indexmap.h:109-118 | the lines `getline` delivers until the stream fails; each line consumes at least one character |
| Codec.SplitRecord | VersionControl/classes/indexmap.h:113-115 | a line holding a comma splits into a first field without a comma, the comma, and the rest; a line without one splits into the whole line twice, since `npos + 1` wraps to 0 |
| Codec.SplitAll | VersionControl/classes/indexmap.h:111-118 | one record per line read: record `i` is line `i` split at its first comma |
| Codec.RecordsStep | VersionControl/classes/indexmap.h:109-118 | reading a text is splitting its first line, then reading what follows that line |
| Codec.ParseIndex | VersionControl/classes/indexmap.h:87-91 | `loadFrom`: the loaded Indexmap is ordered, no larger than the number of lines, and every entry comes from a line |
| Codec.ParseCommit | VersionControl/classes/indexmap.h:195-199 | `loadFrom`: the loaded Commitmap is ordered, no larger than the number of lines, and every entry is a line's pair turned round |
| Codec.SerialiseIndex | VersionControl/classes/indexmap.h:101-106 | Indexmap's `operator<<`: every line, the last included, ends in '\n'; when no field holds a newline, line `j` is `filename,hash` of entry `j` in ascending filename order |
| Codec.SerialiseCommit | VersionControl/classes/indexmap.h:209-214 | Commitmap's `operator<<`: every line, the last included, ends in '\n'; when no field holds a newline, line `j` is still `filename,hash`, of entry `j` in ascending hash order |
| Codec.JoinEndsInNewline | VersionControl/classes/indexmap.h:101-106 | the text `operator<<` writes for a non-empty map ends in '\n' |
| Codec.GetLineCons | VersionControl/classes/indexmap.h:117 | `getline` on `line + "\n" + rest` with no '\n' in `line` delivers `line` and leaves `rest` |
| Codec.LinesCons | VersionControl/classes/indexmap.h:110-117 | reading `line + "\n" + rest` delivers `line`, then the lines of `rest` |
| Codec.RecordsCons | VersionControl/classes/indexmap.h:110-117 | reading `line + "\n" + rest` assigns the pair of `line` first, then the pairs of `rest` |
| Codec.SplitRecordLine | VersionControl/classes/indexmap.h:113-115 | splitting `first,second` with no comma in `first` gives back `first` and `second` |
| Codec.SplitRecordPlain | VersionControl/classes/indexmap.h:113-115 | the fields of a line hold no '\n', and the first field holds no comma |
| Codec.LinesOfJoin | VersionControl/classes/indexmap.h:101-106 | `operator<<` writes exactly one line per entry, `first,second`, in iteration order, whenever no field holds a newline (commas included) |
| Codec.RecordsOfJoin | VersionControl/classes/indexmap.h:108-120 | `operator>>` reads back exactly the pairs `operator<<` wrote, in order, when no first field holds ',' or '\n' and no second field holds '\n' |
| Codec.UnterminatedLine | VersionControl/classes/indexmap.h:110-117 | a last line without a newline is still read, since `getline` then sets only eofbit and `while (stream)` goes on |
| Codec.RecordsOfJoinUnterminated | VersionControl/classes/indexmap.h:108-120 | a written text followed by an unterminated line reads as the written pairs followed by that line's pair |
| Codec.IndexRoundTrip | VersionControl/classes/indexmap.h:87-120 | `loadFrom` of what an Indexmap wrote is that Indexmap |
| Codec.CommitRoundTrip | VersionControl/classes/indexmap.h:195-228 | `loadFrom` of what a Commitmap wrote is that Commitmap; hashes may hold commas, filenames may not |
| Codec.RecordsWritable | VersionControl/classes/indexmap.h:108-120 | every pair read from any text meets the format's restrictions |
| Codec.ParsedIndexWritable | VersionControl/classes/indexmap.h:87-91 | any loaded Indexmap is in key order and can be written faithfully |
| Codec.ParsedCommitWritable | VersionControl/classes/indexmap.h:195-199 | any loaded Commitmap is in key order and can be written faithfully |
| Codec.IndexReloadStable | VersionControl/classes/indexmap.h:87-120 | loading an Indexmap, writing it and loading it again gives the same map |
| Codec.CommitReloadStable | VersionControl/classes/indexmap.h:195-228 | loading a Commitmap, writing it and loading it again gives the same map |
| Codec.SplitWithoutComma | VersionControl/classes/indexmap.h:113-115 | a line without a comma splits into the whole line as first field and, since `npos + 1` wraps to 0, the whole line as second field |
| Codec.LineWithoutComma | VersionControl/classes/indexmap.h:113-116 | a line without a comma loads as the line mapped to itself, in either map |
| Codec.ParseIndexLastWins | VersionControl/classes/indexmap.h:111-118 | of several lines with one filename, the last decides the loaded hash |
| Codec.ParseIndexKeys | VersionControl/classes/indexmap.h:111-118 | the filenames of a loaded Indexmap are exactly the first fields of the lines |
| Codec.ParseCommitLastWins | VersionControl/classes/indexmap.h:216-228 | of several lines with one hash, the last decides the filename the loaded Commitmap holds |
| Codec.ParseCommitKeys | VersionControl/classes/indexmap.h:216-228 | the hashes of a loaded Commitmap are exactly the second fields of the lines |
| Conversion.InvertedKeys | VersionControl/classes/indexmap.h:136-140 | the converted map is in key order, and its keys are exactly the values of the source map |
| Conversion.InvertedPicksGreatest | VersionControl/classes/indexmap.h:136-140 | each hash of the converted map goes to a filename carrying it, the greatest such filename |
| Conversion.LastCarrierIsGreatest | VersionControl/classes/indexmap.h:137-139 | in ascending key order, the last entry holding a hash carries the greatest filename with that hash |
| Conversion.InversionCollapses | VersionControl/classes/indexmap.h:136-140 | two files with the same hash make the converted map strictly smaller |
| Conversion.DoubleInversion | VersionControl/classes/indexmap.h:28-32 | converting twice gives the original map back if and only if no two files share a hash |
| Conversion.CommitReadsIndexText | VersionControl/classes/indexmap.h:216-228 | a Commitmap loaded from an Indexmap's file equals the converted Indexmap |
| Conversion.IndexReadsCommitText | VersionControl/classes/indexmap.h:108-120 | an Indexmap loaded from a Commitmap's file equals the converted Commitmap |
| Files.Overwrite | VersionControl/classes/indexmap.h:253-255 | after a truncating write, the written path reads as the new text and every other path reads as before; the empty path changes nothing |
| Files.FileSystem.Write | VersionControl/classes/indexmap.h:253 | the file table becomes the overwritten one |
| IndexMaps.Indexmap.constructor | VersionControl/classes/indexmap.h:25 | a new Indexmap is empty |
| IndexMaps.Indexmap.Copy | VersionControl/classes/indexmap.h:26 | the copy holds the same entries |
| IndexMaps.Indexmap.Move | VersionControl/classes/indexmap.h:27 | the entries move over and the source is left empty |
| IndexMaps.Indexmap.FromCommitmap | VersionControl/classes/indexmap.h:28-32 | the loop leaves exactly the converted map |
| IndexMaps.Indexmap.Add | VersionControl/classes/indexmap.h:34-36 | `file` now maps to the digest of its content and nothing else changes |
| IndexMaps.Indexmap.GetHash | VersionControl/classes/indexmap.h:38-40 | the stored hash, or None (std::out_of_range) when the file is absent |
| IndexMaps.Indexmap.GetFile | VersionControl/classes/indexmap.h:42-49 | the smallest filename whose hash is the argument, or "" when there is none |
| IndexMaps.Indexmap.Exists | VersionControl/classes/indexmap.h:75-77 | true exactly when the file is present |
| IndexMaps.Indexmap.Slot | VersionControl/classes/indexmap.h:79-81 | returns the stored hash; an absent file is first added with the empty hash; nothing else changes |
| IndexMaps.Indexmap.Assign | VersionControl/classes/indexmap.h:79-81 | assignment through the slot maps the file to the hash and changes nothing else |
| IndexMaps.Indexmap.Read | VersionControl/classes/indexmap.h:108-120 | the loop assigns every line's pair in order, keeping key order |
| IndexMaps.Indexmap.LoadFrom | VersionControl/classes/indexmap.h:87-91 | a fresh Indexmap holding exactly what the text parses to |
| IndexMaps.Commitmap.constructor | VersionControl/classes/indexmap.h:133 | a new Commitmap is empty |
| IndexMaps.Commitmap.Copy | VersionControl/classes/indexmap.h:134 | the copy holds the same entries |
| IndexMaps.Commitmap.Move | VersionControl/classes/indexmap.h:135 | the entries move over and the source is left empty |
| IndexMaps.Commitmap.FromIndexmap | VersionControl/classes/indexmap.h:136-140 | the loop leaves exactly the converted map |
| IndexMaps.Commitmap.Add | VersionControl/classes/indexmap.h:142-144 | the digest of `file`'s content now maps to `file` and nothing else changes |
| IndexMaps.Commitmap.GetHash | VersionControl/classes/indexmap.h:146-153 | the smallest hash stored with the filename, or "" when there is none |
| IndexMaps.Commitmap.GetFile | VersionControl/classes/indexmap.h:155-157 | the stored filename, or None (std::out_of_range) when the hash is absent |
| IndexMaps.Commitmap.Exists | VersionControl/classes/indexmap.h:183-185 | true exactly when the hash is present |
| IndexMaps.Commitmap.Slot | VersionControl/classes/indexmap.h:187-189 | returns the stored filename; an absent hash is first added with the empty filename; nothing else changes |
| IndexMaps.Commitmap.Assign | VersionControl/classes/indexmap.h:187-189 | assignment through the slot maps the hash to the file and changes nothing else |
| IndexMaps.Commitmap.Read | VersionControl/classes/indexmap.h:216-228 | the loop assigns every line's pair, swapped, in order, keeping key order |
| IndexMaps.Commitmap.LoadFrom | VersionControl/classes/indexmap.h:195-199 | a fresh Commitmap holding exactly what the text parses to |
| IndexMaps.IndexmapLoader.constructor | VersionControl/classes/indexmap.h:243 | the loader holds the Indexmap loaded from the given path and remembers that path |
| IndexMaps.IndexmapLoader.Move | VersionControl/classes/indexmap.h:244-246 | the map and location move over; the source keeps an empty map and the empty location, so it writes nowhere |
| IndexMaps.IndexmapLoader.Write | VersionControl/classes/indexmap.h:252-256 | the file at the location now holds exactly the serialised map, replacing what was there; other files are unchanged |
| IndexMaps.IndexmapLoader.Destroy | VersionControl/classes/indexmap.h:248-250 | destruction writes the map back as `write` does |
| IndexMaps.CommitmapLoader.constructor | VersionControl/classes/indexmap.h:243 | the loader holds the Commitmap loaded from the given path and remembers that path |
| IndexMaps.CommitmapLoader.Move | VersionControl/classes/indexmap.h:244-246 | the map and location move over; the source keeps an empty map and the empty location |
| IndexMaps.CommitmapLoader.Write | VersionControl/classes/indexmap.h:252-256 | the file at the location now holds exactly the serialised map; other files are unchanged |
| IndexMaps.CommitmapLoader.Destroy | VersionControl/classes/indexmap.h:248-250 | destruction writes the map back as `write` does |
| IndexMaps.InsertWritable | VersionControl/classes/indexmap.h:34-36 | adding a pair that meets the format's restrictions keeps the map writable |
| IndexMaps.InsertSwappedWritable | VersionControl/classes/indexmap.h:142-144 | adding a pair whose filename holds no comma or newline, and whose hash holds no newline, keeps a Commitmap writable |
| IndexMaps.IndexAddPersists | VersionControl/classes/indexmap.h:238-256 | load, `add(file)`, write back: reloading the file gives the map written, which maps `file` to its digest |
| IndexMaps.CommitAddPersists | VersionControl/classes/indexmap.h:238-256 | the same session for a Commitmap: the reloaded map sends `file`'s digest to `file` |
| IndexMaps.LoadedAsWritten | VersionControl/classes/indexmap.h:242-243 | what the constructors load as written, from the unconstructed location string; the result is in key order |
| IndexMaps.InitOrderMissesIndexFile | VersionControl/classes/indexmap.h:240-258 | as written, a loader given the path of an existing index file can load an empty map instead of that file's contents |

## Left out

- VersionControl/crossplatform.h is not part of this model. Neither are the
  directory helpers or `hero.h`.
- The default loader constructor (indexmap.h:242) reads the repository's
  index path from `repositoryPath(INDEXMAP_PATH)`, defined in `hero.h`. Here
  that path is the constructor's `path` argument.
- SHA-256 itself (picosha2) is not modelled. It is the parameter `sha256`, a
  function of the content alone, so its determinism holds by construction.
- Streams are taken as whole texts. Stream errors other than end of input,
  and the failure of the write itself, are not modelled.
- Line lengths of 2^64 characters or more, where `size_t` itself would wrap,
  are not modelled.
- The iterator members `begin`, `end`, `cbegin` and `cend` are not modelled
  as methods. Iteration is the field `entries`, in ascending key order.
- The `loadFrom(const std::string&)` and `loadFrom(const char*)` overloads
  (indexmap.h:93-99, 201-207) are `LoadFrom(fs.Read(path))`. The loader
  constructors do exactly that.
- The loader's private copy constructor (indexmap.h:261) is modelled by its
  absence: the loaders have no copy operation.
- After `std::move`, the C++ standard only says that the source map is valid
  with unspecified contents. `Indexmap.Move`, `Commitmap.Move` and the
  loaders' `Move` take it to be empty.
- IndexMaps.IndexmapLoader.Move and IndexMaps.CommitmapLoader.Move: the new
  loader takes over the source's map object and the source gets a fresh
  empty one. In the code (indexmap.h:244) the new loader's `map` is a new
  object move-constructed from `il.map`, and `il.map` stays the same object,
  emptied. The contents agree; a reference held to the source's map would see
  the difference.
- IndexMaps.Indexmap.FromCommitmap models the evident intent of
  indexmap.h:28-32. As written, that constructor iterates over a
  `const Commitmap&` while `Commitmap` is only forward-declared (line 15) and
  defined later (line 125), so it does not compile.
- IndexMaps.Indexmap.Slot, IndexMaps.Indexmap.Assign and their Commitmap
  counterparts: the non-const `operator[]` (indexmap.h:79-81, 187-189)
  returns a reference into the map, which stays valid across later inserts.
  The model splits it into a read (`Slot`) and an assignment (`Assign`), so
  it does not capture a caller holding that reference and writing through
  it later. Nothing in indexmap.h does so.
- The loaders' destructor is the method `Destroy`. Nothing calls it
  automatically at the end of a scope.
- The loader constructors are modelled as intended: they load from the
  given path. The as-written initialisation order is under Findings.

## Findings

| source | as written | input that shows it | evidently intended | confidence | as-written member | corrected member |
|---|---|---|---|---|---|---|
| VersionControl/classes/indexmap.h:242-243 | `map` is declared (line 240) before `m_location` (line 258). It is therefore initialised first, and `T::loadFrom(m_location)` reads a string that has not been constructed yet. That is undefined behaviour; the model takes it as loading from an arbitrary path | path `index` naming a file that holds `a,b\n`, with the unconstructed location read as the empty path: the loader starts with an empty map instead of `{a: b}` | load the map from the path just stored in `m_location` | not executed; high that the order is wrong, but the outcome of the undefined behaviour depends on the compiler | IndexMaps.InitOrderMissesIndexFile | IndexMaps.IndexmapLoader.constructor |
