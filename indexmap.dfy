/**
 The two index maps and their scoped loaders.

 An Indexmap maps filenames to the SHA-256 digests of their contents, a
 Commitmap maps digests to filenames.  Each keeps its std::map as the
 sequence of its entries in ascending key order (`entries`), which is what
 iteration, and so operator<<, sees.  A loader loads a map from its file when
 constructed and writes it back, replacing the file, when destroyed.
 */
module IndexMaps {
  import opened Strings
  import opened OrderedMaps
  import opened Codec
  import opened Files

  class Indexmap {
    /** m_map: filename to hash, in ascending filename order. */
    var entries: seq<Entry>

    ghost predicate Valid()
      reads this
    {
      Sorted(entries)
    }

    ghost function Map(): map<string, string>
      reads this
    {
      ToMap(entries)
    }

    constructor ()
      ensures Valid() && entries == []
    {
      entries := [];
    }

    /** Indexmap(const Indexmap&). */
    constructor Copy(other: Indexmap)
      requires other.Valid()
      ensures Valid() && entries == other.entries
    {
      entries := other.entries;
    }

    /** Indexmap(Indexmap&&): the entries move over; the moved-from map is left empty. */
    constructor Move(other: Indexmap)
      requires other.Valid()
      modifies other
      ensures Valid() && entries == old(other.entries)
      ensures other.Valid() && other.entries == []
    {
      entries := other.entries;
      new;
      other.entries := [];
    }

    /** Indexmap(const Commitmap&): `m_map[it.second] = it.first` for every entry, in ascending hash order. */
    constructor FromCommitmap(c: Commitmap)
      requires c.Valid()
      ensures Valid() && entries == Inverted(c.entries)
    {
      var src := c.entries;
      var acc: seq<Entry> := [];
      var n := 0;
      while n < |src|
        invariant n <= |src| && Sorted(acc)
        invariant InsertAll(acc, Swapped(src)[n..]) == Inverted(src)
      {
        assert Swapped(src)[n..][1..] == Swapped(src)[n + 1..];
        InsertSorted(acc, src[n].value, src[n].key);
        acc := Insert(acc, src[n].value, src[n].key);
        n := n + 1;
      }
      entries := acc;
    }

    /**
     add: `m_map[file] = hash of the file's content`.  The file is read now;
     one that cannot be opened is hashed as empty.
     */
    method Add(file: string, fs: FileSystem, sha256: Hasher)
      requires Valid()
      modifies this
      ensures Valid()
      ensures entries == Insert(old(entries), file, sha256(fs.Read(file)))
      ensures Map() == old(Map())[file := sha256(fs.Read(file))]
    {
      InsertSorted(entries, file, sha256(fs.Read(file)));
      entries := Insert(entries, file, sha256(fs.Read(file)));
    }

    /** getHash and the const operator[]: `m_map.at(file)`, None standing for std::out_of_range. */
    function GetHash(file: string): (r: Option<string>)
      reads this
      requires Valid()
      ensures r.Some? <==> file in Map()
      ensures r.Some? ==> r.value == Map()[file]
    {
      Lookup(entries, file)
    }

    /** getFile: the smallest filename whose hash is `hash`, or "" when no file has it. */
    function GetFile(hash: string): (r: string)
      reads this
      requires Valid()
      ensures hash !in Map().Values ==> r == ""
      ensures hash in Map().Values ==>
                r in Map() && Map()[r] == hash &&
                forall f :: f in Map() && Map()[f] == hash ==> LessEq(r, f)
    {
      FirstKeyWith(entries, hash)
    }

    /** exists: `m_map.count(file) > 0`. */
    function Exists(file: string): (r: bool)
      reads this
      requires Valid()
      ensures r <==> file in Map()
    {
      Lookup(entries, file).Some?
    }

    /** The non-const operator[]: the slot for `file`, created holding "" when absent. */
    method Slot(file: string) returns (hash: string)
      requires Valid()
      modifies this
      ensures Valid()
      ensures entries == if file in old(Map()) then old(entries) else Insert(old(entries), file, "")
      ensures file in Map() && hash == Map()[file]
    {
      match Lookup(entries, file)
      case Some(h) =>
        hash := h;
      case None =>
        InsertSorted(entries, file, "");
        entries := Insert(entries, file, "");
        hash := "";
    }

    /** `map[file] = hash` through the non-const operator[]. */
    method Assign(file: string, hash: string)
      requires Valid()
      modifies this
      ensures Valid()
      ensures entries == Insert(old(entries), file, hash)
      ensures Map() == old(Map())[file := hash]
    {
      InsertSorted(entries, file, hash);
      entries := Insert(entries, file, hash);
    }

    /** operator>>: `m_map[first] = second` for every line, until getline fails. */
    method Read(text: string)
      requires Valid()
      modifies this
      ensures Valid()
      ensures entries == InsertAll(old(entries), Records(text))
    {
      var rest := text;
      while rest != []
        invariant Valid()
        invariant InsertAll(entries, Records(rest)) == InsertAll(old(entries), Records(text))
        decreases |rest|
      {
        var (line, next) := GetLine(rest);
        var e := SplitRecord(line);
        RecordsStep(rest);
        InsertSorted(entries, e.key, e.value);
        entries := Insert(entries, e.key, e.value);
        rest := next;
      }
    }

    /** loadFrom(std::istream&): operator>> into a new, empty map. */
    static method LoadFrom(text: string) returns (r: Indexmap)
      ensures fresh(r) && r.Valid() && r.entries == ParseIndex(text)
    {
      r := new Indexmap();
      r.Read(text);
    }
  }

  class Commitmap {
    /** m_map: hash to filename, in ascending hash order. */
    var entries: seq<Entry>

    ghost predicate Valid()
      reads this
    {
      Sorted(entries)
    }

    ghost function Map(): map<string, string>
      reads this
    {
      ToMap(entries)
    }

    constructor ()
      ensures Valid() && entries == []
    {
      entries := [];
    }

    /** Commitmap(const Commitmap&). */
    constructor Copy(other: Commitmap)
      requires other.Valid()
      ensures Valid() && entries == other.entries
    {
      entries := other.entries;
    }

    /** Commitmap(Commitmap&&): the entries move over; the moved-from map is left empty. */
    constructor Move(other: Commitmap)
      requires other.Valid()
      modifies other
      ensures Valid() && entries == old(other.entries)
      ensures other.Valid() && other.entries == []
    {
      entries := other.entries;
      new;
      other.entries := [];
    }

    /** Commitmap(const Indexmap&): `m_map[it.second] = it.first` for every entry, in ascending filename order. */
    constructor FromIndexmap(idx: Indexmap)
      requires idx.Valid()
      ensures Valid() && entries == Inverted(idx.entries)
    {
      var src := idx.entries;
      var acc: seq<Entry> := [];
      var n := 0;
      while n < |src|
        invariant n <= |src| && Sorted(acc)
        invariant InsertAll(acc, Swapped(src)[n..]) == Inverted(src)
      {
        assert Swapped(src)[n..][1..] == Swapped(src)[n + 1..];
        InsertSorted(acc, src[n].value, src[n].key);
        acc := Insert(acc, src[n].value, src[n].key);
        n := n + 1;
      }
      entries := acc;
    }

    /** add: `m_map[hash of the file's content] = file`, the file read now (as empty if it cannot be opened). */
    method Add(file: string, fs: FileSystem, sha256: Hasher)
      requires Valid()
      modifies this
      ensures Valid()
      ensures entries == Insert(old(entries), sha256(fs.Read(file)), file)
      ensures Map() == old(Map())[sha256(fs.Read(file)) := file]
    {
      InsertSorted(entries, sha256(fs.Read(file)), file);
      entries := Insert(entries, sha256(fs.Read(file)), file);
    }

    /** getHash: the smallest hash stored with filename `file`, or "" when there is none. */
    function GetHash(file: string): (r: string)
      reads this
      requires Valid()
      ensures file !in Map().Values ==> r == ""
      ensures file in Map().Values ==>
                r in Map() && Map()[r] == file &&
                forall h :: h in Map() && Map()[h] == file ==> LessEq(r, h)
    {
      FirstKeyWith(entries, file)
    }

    /** getFile and the const operator[]: `m_map.at(hash)`, None standing for std::out_of_range. */
    function GetFile(hash: string): (r: Option<string>)
      reads this
      requires Valid()
      ensures r.Some? <==> hash in Map()
      ensures r.Some? ==> r.value == Map()[hash]
    {
      Lookup(entries, hash)
    }

    /** exists: `m_map.count(hash) > 0`. */
    function Exists(hash: string): (r: bool)
      reads this
      requires Valid()
      ensures r <==> hash in Map()
    {
      Lookup(entries, hash).Some?
    }

    /** The non-const operator[]: the slot for `hash`, created holding "" when absent. */
    method Slot(hash: string) returns (file: string)
      requires Valid()
      modifies this
      ensures Valid()
      ensures entries == if hash in old(Map()) then old(entries) else Insert(old(entries), hash, "")
      ensures hash in Map() && file == Map()[hash]
    {
      match Lookup(entries, hash)
      case Some(f) =>
        file := f;
      case None =>
        InsertSorted(entries, hash, "");
        entries := Insert(entries, hash, "");
        file := "";
    }

    /** `map[hash] = file` through the non-const operator[]. */
    method Assign(hash: string, file: string)
      requires Valid()
      modifies this
      ensures Valid()
      ensures entries == Insert(old(entries), hash, file)
      ensures Map() == old(Map())[hash := file]
    {
      InsertSorted(entries, hash, file);
      entries := Insert(entries, hash, file);
    }

    /** operator>>: `m_map[second] = first` for every line, until getline fails. */
    method Read(text: string)
      requires Valid()
      modifies this
      ensures Valid()
      ensures entries == InsertAll(old(entries), Swapped(Records(text)))
    {
      var rest := text;
      while rest != []
        invariant Valid()
        invariant InsertAll(entries, Swapped(Records(rest))) == InsertAll(old(entries), Swapped(Records(text)))
        decreases |rest|
      {
        var (line, next) := GetLine(rest);
        var e := SplitRecord(line);
        RecordsStep(rest);
        SwappedConcat([e], Records(next));
        InsertSorted(entries, e.value, e.key);
        entries := Insert(entries, e.value, e.key);
        rest := next;
      }
    }

    /** loadFrom(std::istream&): operator>> into a new, empty map. */
    static method LoadFrom(text: string) returns (r: Commitmap)
      ensures fresh(r) && r.Valid() && r.entries == ParseCommit(text)
    {
      r := new Commitmap();
      r.Read(text);
    }
  }

  /** basic_indexmapLoader<Indexmap>. */
  class IndexmapLoader {
    /** The field `map` (a reserved word in Dafny). */
    var contents: Indexmap
    /** m_location: the file the map is written back to; "" after a move. */
    var location: string

    ghost predicate Valid()
      reads this, contents
    {
      contents.Valid()
    }

    /**
     basic_indexmapLoader(const std::string&): load the map from `path`.  The
     default constructor is this one with the repository's index path.
     */
    constructor (fs: FileSystem, path: string)
      ensures Valid() && fresh(contents)
      ensures location == path && contents.entries == ParseIndex(fs.Read(path))
    {
      var text := fs.Read(path);
      var loaded := Indexmap.LoadFrom(text);
      location := path;
      contents := loaded;
    }

    /** The move constructor: take the map and the location over, and disarm `other`. */
    constructor Move(other: IndexmapLoader)
      requires other.Valid()
      modifies other
      ensures Valid() && contents == old(other.contents) && location == old(other.location)
      ensures other.Valid() && fresh(other.contents) && other.contents.entries == [] && other.location == ""
    {
      contents := other.contents;
      location := other.location;
      new;
      other.contents := new Indexmap();
      other.location := "";
    }

    /** write: truncate the file at `location` and write the map into it. */
    method Write(fs: FileSystem)
      requires Valid()
      modifies fs
      ensures fs.files == Overwrite(old(fs.files), location, SerialiseIndex(contents.entries))
    {
      fs.Write(location, SerialiseIndex(contents.entries));
    }

    /** The destructor: write. */
    method Destroy(fs: FileSystem)
      requires Valid()
      modifies fs
      ensures fs.files == Overwrite(old(fs.files), location, SerialiseIndex(contents.entries))
    {
      Write(fs);
    }
  }

  /** basic_indexmapLoader<Commitmap>. */
  class CommitmapLoader {
    /** The field `map` (a reserved word in Dafny). */
    var contents: Commitmap
    /** m_location: the file the map is written back to; "" after a move. */
    var location: string

    ghost predicate Valid()
      reads this, contents
    {
      contents.Valid()
    }

    /** basic_indexmapLoader(const std::string&): load the map from `path`. */
    constructor (fs: FileSystem, path: string)
      ensures Valid() && fresh(contents)
      ensures location == path && contents.entries == ParseCommit(fs.Read(path))
    {
      var text := fs.Read(path);
      var loaded := Commitmap.LoadFrom(text);
      location := path;
      contents := loaded;
    }

    /** The move constructor: take the map and the location over, and disarm `other`. */
    constructor Move(other: CommitmapLoader)
      requires other.Valid()
      modifies other
      ensures Valid() && contents == old(other.contents) && location == old(other.location)
      ensures other.Valid() && fresh(other.contents) && other.contents.entries == [] && other.location == ""
    {
      contents := other.contents;
      location := other.location;
      new;
      other.contents := new Commitmap();
      other.location := "";
    }

    /** write: truncate the file at `location` and write the map into it. */
    method Write(fs: FileSystem)
      requires Valid()
      modifies fs
      ensures fs.files == Overwrite(old(fs.files), location, SerialiseCommit(contents.entries))
    {
      fs.Write(location, SerialiseCommit(contents.entries));
    }

    /** The destructor: write. */
    method Destroy(fs: FileSystem)
      requires Valid()
      modifies fs
      ensures fs.files == Overwrite(old(fs.files), location, SerialiseCommit(contents.entries))
    {
      Write(fs);
    }
  }

  // ---------------------------------------------------------------------------
  // A session: load the map from its file, add a file, write the map back

  /** Every entry of a map written through Insert meets the format's restrictions when the new pair does. */
  lemma InsertWritable(es: seq<Entry>, k: string, v: string)
    requires Writable(es) && ',' !in k && '\n' !in k && '\n' !in v
    ensures Writable(Insert(es, k, v))
  {
    var r := Insert(es, k, v);
    forall j | 0 <= j < |r|
      ensures ',' !in r[j].key && '\n' !in r[j].key && '\n' !in r[j].value
    {
      assert r[j] in r;
    }
  }

  /** The same for a map written turned round, as a Commitmap is. */
  lemma InsertSwappedWritable(es: seq<Entry>, k: string, v: string)
    requires Writable(Swapped(es)) && ',' !in v && '\n' !in v && '\n' !in k
    ensures Writable(Swapped(Insert(es, k, v)))
  {
    var added := Insert(es, k, v);
    forall j | 0 <= j < |Swapped(added)|
      ensures ',' !in Swapped(added)[j].key && '\n' !in Swapped(added)[j].key && '\n' !in Swapped(added)[j].value
    {
      assert added[j] in added;
      if added[j] != Entry(k, v) {
        var m :| 0 <= m < |es| && es[m] == added[j];
        assert Swapped(es)[m] == Swapped(added)[j];
      }
    }
  }

  /**
   An IndexmapLoader on `path`, an add of `file`, and the destructor's write:
   reading the index file again gives the map that was written, and that map
   holds the digest of `file` under `file`.
   */
  lemma IndexAddPersists(files: map<string, string>, path: string, file: string, sha256: Hasher)
    requires path != "" && ',' !in file && '\n' !in file
    ensures var added := Insert(ParseIndex(ReadFile(files, path)), file, sha256(ReadFile(files, file)));
            var after := Overwrite(files, path, SerialiseIndex(added));
            ParseIndex(ReadFile(after, path)) == added &&
            Lookup(added, file) == Option<string>.Some(sha256(ReadFile(files, file)))
  {
    var es := ParseIndex(ReadFile(files, path));
    var d := sha256(ReadFile(files, file));
    ParsedIndexWritable(ReadFile(files, path));
    DigestIsPlain(d);
    InsertSorted(es, file, d);
    InsertWritable(es, file, d);
    var added := Insert(es, file, d);
    IndexRoundTrip(added);
    assert ReadFile(Overwrite(files, path, SerialiseIndex(added)), path) == SerialiseIndex(added);
  }

  /** The same session with a CommitmapLoader: the reloaded map sends the digest of `file` to `file`. */
  lemma CommitAddPersists(files: map<string, string>, path: string, file: string, sha256: Hasher)
    requires path != "" && ',' !in file && '\n' !in file
    ensures var added := Insert(ParseCommit(ReadFile(files, path)), sha256(ReadFile(files, file)), file);
            var after := Overwrite(files, path, SerialiseCommit(added));
            ParseCommit(ReadFile(after, path)) == added &&
            Lookup(added, sha256(ReadFile(files, file))) == Some(file)
  {
    var es := ParseCommit(ReadFile(files, path));
    var d := sha256(ReadFile(files, file));
    ParsedCommitWritable(ReadFile(files, path));
    DigestIsPlain(d);
    InsertSorted(es, d, file);
    var added := Insert(es, d, file);
    InsertSwappedWritable(es, d, file);
    CommitRoundTrip(added);
    assert ReadFile(Overwrite(files, path, SerialiseCommit(added)), path) == SerialiseCommit(added);
  }

  // ---------------------------------------------------------------------------
  // The loader's constructors as written

  /**
   What `map(T::loadFrom(m_location))` loads as the constructors are written:
   `map` is declared before `m_location`, so it is initialised first, from a
   string whose constructor has not yet run.  `unread` stands for whatever
   that string is taken to hold.
   */
  function LoadedAsWritten(files: map<string, string>, path: string, unread: string): (es: seq<Entry>)
    ensures Sorted(es)
  {
    InsertAllSorted([], Records(ReadFile(files, unread)));
    ParseIndex(ReadFile(files, unread))
  }

  /** The path the loader is given plays no part in what it loads: an existing index file is missed. */
  lemma InitOrderMissesIndexFile()
    ensures var files := map["index" := SerialiseIndex([Entry("a", "b")])];
            LoadedAsWritten(files, "index", "") == [] &&
            ParseIndex(ReadFile(files, "index")) == [Entry("a", "b")]
  {
    var es := [Entry("a", "b")];
    assert Sorted(es);
    assert Writable(es);
    IndexRoundTrip(es);
  }
}
