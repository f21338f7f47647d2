/**
 What the index layer takes from its surroundings: the bytes of named files,
 read through std::ifstream and written through std::ofstream, and the
 SHA-256 digest picosha2 computes from a file's bytes.
 */
module Files {

  /** picosha2::hash256_hex_string: 64 lower-case hexadecimal digits. */
  predicate IsHexDigest(s: string)
  {
    |s| == 64 && forall i :: 0 <= i < |s| ==> s[i] in "0123456789abcdef"
  }

  type Digest = s: string | IsHexDigest(s)
    witness seq(64, _ => '0')

  /** SHA-256 as a function of a file's content alone (its name and metadata play no part). */
  type Hasher = string -> Digest

  /** A digest holds neither of the two characters the file format gives a meaning to. */
  lemma DigestIsPlain(d: Digest)
    ensures ',' !in d && '\n' !in d
  {
  }

  /** What std::ifstream delivers for a path: a file that is missing or cannot be opened reads as empty. */
  function ReadFile(files: map<string, string>, path: string): string
  {
    if path != "" && path in files then files[path] else ""
  }

  /**
   std::ofstream(path, std::ios::out | std::ios::trunc) followed by writing
   `text`: the file's content becomes `text`, whatever it was; the empty path
   opens nothing and nothing changes.
   */
  function Overwrite(files: map<string, string>, path: string, text: string): (r: map<string, string>)
    ensures forall q :: ReadFile(r, q) == if q == path && path != "" then text else ReadFile(files, q)
  {
    if path == "" then files else files[path := text]
  }

  /** The files the program sees, by path. */
  class FileSystem {
    var files: map<string, string>

    constructor (files: map<string, string>)
      ensures this.files == files
    {
      this.files := files;
    }

    function Read(path: string): string
      reads this
    {
      ReadFile(files, path)
    }

    method Write(path: string, text: string)
      modifies this
      ensures files == Overwrite(old(files), path, text)
    {
      files := Overwrite(files, path, text);
    }
  }
}
