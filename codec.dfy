/**
 The text format both maps are stored in: one record per line, the filename
 first, then a comma, then the hash, then '\n' (operator<< of Indexmap and of
 Commitmap), read back line by line and split at the first comma
 (operator>>).  Nothing is escaped.
 */
module Codec {
  import opened Strings
  import opened OrderedMaps

  // ---------------------------------------------------------------------------
  // Reading

  /** How many characters std::getline extracts into its buffer: up to the first '\n'. */
  function LineEnd(s: string): (i: nat)
    ensures i <= |s| && '\n' !in s[..i]
    ensures i < |s| ==> s[i] == '\n'
  {
    match FindFirstOf(s, '\n')
    case None => assert s[..|s|] == s; |s|
    case Some(i) => i
  }

  /** One std::getline on input that is not exhausted: the line, and what follows its '\n'. */
  function GetLine(s: string): (r: (string, string))
    requires s != []
    ensures '\n' !in r.0 && |r.1| < |s|
  {
    var i := LineEnd(s);
    (s[..i], if i < |s| then s[i + 1..] else [])
  }

  /**
   The lines std::getline delivers before the stream fails: a last line
   without '\n' is still delivered, the empty rest after a final '\n' is not.
   */
  function Lines(s: string): (ls: seq<string>)
    ensures |ls| <= |s|
    decreases |s|
  {
    if s == [] then []
    else [GetLine(s).0] + Lines(GetLine(s).1)
  }

  /**
   One line split as operator>> splits it: `first = buffer.substr(0, sep)`
   and `second = buffer.substr(sep + 1)` with `sep` the first comma.
   */
  function SplitRecord(line: string): (e: Entry)
    ensures ',' in line ==> ',' !in e.key && line == e.key + "," + e.value
    ensures ',' !in line ==> e == Entry(line, line)
  {
    var sep := FindFirstOf(line, ',');
    assert sep.Some? ==> line == line[..sep.value] + "," + line[sep.value + 1..];
    assert (NPOS + 1) % SIZE_T_RANGE == 0;
    // substr(0, npos) is the whole line
    var first := match sep case None => line case Some(i) => line[..i];
    // sep + 1 is computed in size_t, so npos + 1 wraps round to 0
    var from := match sep case None => (NPOS + 1) % SIZE_T_RANGE case Some(i) => i + 1;
    Entry(first, line[from..])
  }

  /** Each line split at its first comma into (first, second). */
  function SplitAll(ls: seq<string>): (rs: seq<Entry>)
    ensures |rs| == |ls|
    ensures forall i :: 0 <= i < |ls| ==> rs[i] == SplitRecord(ls[i])
  {
    if ls == [] then [] else [SplitRecord(ls[0])] + SplitAll(ls[1..])
  }

  /** The (first, second) fields of every line of a text, in file order. */
  function Records(text: string): (rs: seq<Entry>)
  {
    SplitAll(Lines(text))
  }

  /** Reading a text is reading its first line, then the rest. */
  lemma RecordsStep(s: string)
    requires s != []
    ensures Records(s) == [SplitRecord(GetLine(s).0)] + Records(GetLine(s).1)
  {
    var ls := Lines(s);
    assert ls == [GetLine(s).0] + Lines(GetLine(s).1);
    assert ls[1..] == Lines(GetLine(s).1);
  }

  /** Indexmap::loadFrom: operator>> into an empty map, `m[first] = second` per line. */
  function ParseIndex(text: string): (es: seq<Entry>)
    ensures Sorted(es) && |es| <= |Records(text)|
    ensures forall e :: e in es ==> e in Records(text)
  {
    InsertAllSorted([], Records(text));
    InsertAll([], Records(text))
  }

  /** Commitmap::loadFrom: operator>> into an empty map, `m[second] = first` per line. */
  function ParseCommit(text: string): (es: seq<Entry>)
    ensures Sorted(es) && |es| <= |Records(text)|
    ensures forall e :: e in es ==> e in Swapped(Records(text))
  {
    InsertAllSorted([], Swapped(Records(text)));
    InsertAll([], Swapped(Records(text)))
  }

  // ---------------------------------------------------------------------------
  // Writing

  function RecordLine(first: string, second: string): string
  {
    first + "," + second
  }

  /** `stream << first << ',' << second << '\n'` for every pair in turn. */
  function Join(rs: seq<Entry>): (text: string)
  {
    if rs == [] then ""
    else RecordLine(rs[0].key, rs[0].value) + "\n" + Join(rs[1..])
  }

  /** Indexmap's operator<<: `filename,hash` in ascending filename order. */
  function SerialiseIndex(es: seq<Entry>): (text: string)
    ensures es != [] ==> text != [] && text[|text| - 1] == '\n'
    ensures NoNewlines(es) ==> |Lines(text)| == |es|
    ensures NoNewlines(es) ==>
              forall j :: 0 <= j < |es| ==> Lines(text)[j] == RecordLine(es[j].key, es[j].value)
  {
    LinesOfJoin(es);
    JoinEndsInNewline(es);
    Join(es)
  }

  /** Commitmap's operator<<: still `filename,hash`, in ascending hash order. */
  function SerialiseCommit(es: seq<Entry>): (text: string)
    ensures es != [] ==> text != [] && text[|text| - 1] == '\n'
    ensures NoNewlines(es) ==> |Lines(text)| == |es|
    ensures NoNewlines(es) ==>
              forall j :: 0 <= j < |es| ==> Lines(text)[j] == RecordLine(es[j].value, es[j].key)
  {
    LinesOfJoin(Swapped(es));
    JoinEndsInNewline(Swapped(es));
    Join(Swapped(es))
  }

  /** Every line written, the last one included, is ended by '\n'. */
  lemma {:induction false} JoinEndsInNewline(rs: seq<Entry>)
    ensures rs != [] ==> Join(rs) != [] && Join(rs)[|Join(rs)| - 1] == '\n'
  {
    if rs != [] {
      var head := RecordLine(rs[0].key, rs[0].value) + "\n";
      JoinEndsInNewline(rs[1..]);
      assert Join(rs) == head + Join(rs[1..]);
      if rs[1..] == [] {
        assert Join(rs) == head;
      }
    }
  }

  /** No field holds a '\n', so every pair is written as exactly one line. */
  predicate NoNewlines(rs: seq<Entry>)
  {
    forall j :: 0 <= j < |rs| ==> '\n' !in rs[j].key && '\n' !in rs[j].value
  }

  /** The pairs survive the format: no comma or newline in a first field, no newline in a second. */
  ghost predicate Writable(rs: seq<Entry>)
  {
    forall j :: 0 <= j < |rs| ==> ',' !in rs[j].key && '\n' !in rs[j].key && '\n' !in rs[j].value
  }

  // ---------------------------------------------------------------------------
  // Properties

  /** A line followed by '\n' is delivered whole, and reading goes on after it. */
  lemma GetLineCons(l: string, rest: string)
    requires '\n' !in l
    ensures GetLine(l + "\n" + rest) == (l, rest)
  {
    var s := l + "\n" + rest;
    FindFirstOfAfter(l, '\n', rest);
    assert LineEnd(s) == |l|;
    assert s[..|l|] == l;
    assert s[|l| + 1..] == rest;
  }

  /** A written record line holds no '\n' when its fields hold none. */
  lemma RecordLinePlain(e: Entry)
    requires '\n' !in e.key && '\n' !in e.value
    ensures '\n' !in RecordLine(e.key, e.value)
  {
  }

  /** operator<< emits one line per entry, in the entries' order, whenever no field holds a '\n'. */
  lemma {:induction false} LinesOfJoin(rs: seq<Entry>)
    ensures NoNewlines(rs) ==> |Lines(Join(rs))| == |rs|
    ensures NoNewlines(rs) ==>
              forall j :: 0 <= j < |rs| ==> Lines(Join(rs))[j] == RecordLine(rs[j].key, rs[j].value)
  {
    if rs != [] && NoNewlines(rs) {
      var l, tail := RecordLine(rs[0].key, rs[0].value), Join(rs[1..]);
      RecordLinePlain(rs[0]);
      NoNewlinesTail(rs);
      LinesOfJoin(rs[1..]);
      LinesCons(l, tail);
      LinesOfJoinStep(rs, Lines(tail));
    }
  }

  lemma NoNewlinesTail(rs: seq<Entry>)
    requires rs != [] && NoNewlines(rs)
    ensures NoNewlines(rs[1..])
  {
    forall j | 0 <= j < |rs[1..]|
      ensures '\n' !in rs[1..][j].key && '\n' !in rs[1..][j].value
    {
      assert rs[1..][j] == rs[j + 1];
    }
  }

  /** Reading a line followed by '\n' gives that line, then the lines of what follows. */
  lemma LinesCons(l: string, rest: string)
    requires '\n' !in l
    ensures Lines(l + "\n" + rest) == [l] + Lines(rest)
  {
    GetLineCons(l, rest);
  }

  /** The line layout of a written sequence, one entry at a time. */
  lemma LinesOfJoinStep(rs: seq<Entry>, ls: seq<string>)
    requires rs != [] && |ls| == |rs| - 1
    requires forall j :: 0 <= j < |rs| - 1 ==> ls[j] == RecordLine(rs[1..][j].key, rs[1..][j].value)
    ensures var all := [RecordLine(rs[0].key, rs[0].value)] + ls;
            |all| == |rs| && forall j :: 0 <= j < |rs| ==> all[j] == RecordLine(rs[j].key, rs[j].value)
  {
    var all := [RecordLine(rs[0].key, rs[0].value)] + ls;
    forall j | 1 <= j < |rs|
      ensures all[j] == RecordLine(rs[j].key, rs[j].value)
    {
      assert all[j] == ls[j - 1];
      assert rs[1..][j - 1] == rs[j];
    }
  }

  lemma WritableTail(rs: seq<Entry>)
    requires Writable(rs) && rs != []
    ensures Writable(rs[1..])
  {
    forall j | 0 <= j < |rs[1..]|
      ensures ',' !in rs[1..][j].key && '\n' !in rs[1..][j].key && '\n' !in rs[1..][j].value
    {
      assert rs[1..][j] == rs[j + 1];
    }
  }

  /** Splitting `first,second` at its first comma gives the two fields back. */
  lemma SplitRecordLine(first: string, second: string)
    requires ',' !in first
    ensures SplitRecord(RecordLine(first, second)) == Entry(first, second)
  {
    var line := RecordLine(first, second);
    FindFirstOfAfter(first, ',', second);
    assert line[..|first|] == first && line[|first| + 1..] == second;
  }

  /** Reading back what operator<< wrote gives the same pairs in the same order. */
  lemma {:induction false} RecordsOfJoin(rs: seq<Entry>)
    requires Writable(rs)
    ensures Records(Join(rs)) == rs
  {
    if rs != [] {
      RecordLinePlain(rs[0]);
      WritableTail(rs);
      GetLineCons(RecordLine(rs[0].key, rs[0].value), Join(rs[1..]));
      RecordsStep(Join(rs));
      SplitRecordLine(rs[0].key, rs[0].value);
      RecordsOfJoin(rs[1..]);
      assert rs == [rs[0]] + rs[1..];
    }
  }

  /** A last line without '\n' is still read: getline sets only eofbit, and the loop goes on. */
  lemma UnterminatedLine(l: string)
    requires l != [] && '\n' !in l
    ensures Records(l) == [SplitRecord(l)]
  {
    assert LineEnd(l) == |l|;
    assert l[..|l|] == l;
    RecordsStep(l);
  }

  /** Reading a line followed by '\n' gives that line's record, then the records of what follows. */
  lemma RecordsCons(l: string, rest: string)
    requires '\n' !in l
    ensures Records(l + "\n" + rest) == [SplitRecord(l)] + Records(rest)
  {
    GetLineCons(l, rest);
    RecordsStep(l + "\n" + rest);
  }

  /** Text written by operator<< followed by an unterminated line: the pairs written, then that line. */
  lemma {:induction false} RecordsOfJoinUnterminated(rs: seq<Entry>, l: string)
    requires Writable(rs) && l != [] && '\n' !in l
    ensures Records(Join(rs) + l) == rs + [SplitRecord(l)]
  {
    if rs == [] {
      assert Join(rs) + l == l;
      UnterminatedLine(l);
    } else {
      var first, tail := RecordLine(rs[0].key, rs[0].value), Join(rs[1..]) + l;
      RecordLinePlain(rs[0]);
      WritableTail(rs);
      assert Join(rs) + l == first + "\n" + tail;
      RecordsCons(first, tail);
      SplitRecordLine(rs[0].key, rs[0].value);
      RecordsOfJoinUnterminated(rs[1..], l);
      HeadThenRest(rs, SplitRecord(l));
    }
  }

  lemma HeadThenRest(rs: seq<Entry>, x: Entry)
    requires rs != []
    ensures rs + [x] == [rs[0]] + (rs[1..] + [x])
  {
    assert rs == [rs[0]] + rs[1..];
  }

  /** Indexmap round trip: loadFrom of what operator<< wrote is the map written. */
  lemma IndexRoundTrip(es: seq<Entry>)
    requires Sorted(es) && Writable(es)
    ensures ParseIndex(SerialiseIndex(es)) == es
  {
    RecordsOfJoin(es);
    InsertAllAppend([], es);
  }

  /** Commitmap round trip; the hash may contain commas, the filename may not. */
  lemma CommitRoundTrip(es: seq<Entry>)
    requires Sorted(es) && Writable(Swapped(es))
    ensures ParseCommit(SerialiseCommit(es)) == es
  {
    RecordsOfJoin(Swapped(es));
    assert Swapped(Swapped(es)) == es;
    InsertAllAppend([], es);
  }

  /** Every record read from any text meets the restrictions of the format. */
  lemma {:induction false} RecordsWritable(text: string)
    ensures Writable(Records(text))
    decreases |text|
  {
    if text != [] {
      var line, rest := GetLine(text).0, GetLine(text).1;
      RecordsStep(text);
      SplitRecordPlain(line);
      RecordsWritable(rest);
      WritableCons(SplitRecord(line), Records(rest));
    }
  }

  lemma WritableCons(e: Entry, rs: seq<Entry>)
    requires ',' !in e.key && '\n' !in e.key && '\n' !in e.value && Writable(rs)
    ensures Writable([e] + rs)
  {
  }

  /** The fields of a line hold no '\n', and the first holds no comma. */
  lemma SplitRecordPlain(line: string)
    requires '\n' !in line
    ensures ',' !in SplitRecord(line).key && '\n' !in SplitRecord(line).key
    ensures '\n' !in SplitRecord(line).value
  {
    match FindFirstOf(line, ',')
    case None =>
    case Some(i) =>
      assert line == line[..i] + line[i..];
      assert line == line[..i + 1] + line[i + 1..];
  }

  /** Whatever text an Indexmap was loaded from, it can be written and read back unchanged. */
  lemma ParsedIndexWritable(text: string)
    ensures Sorted(ParseIndex(text)) && Writable(ParseIndex(text))
  {
    var rs := Records(text);
    RecordsWritable(text);
    InsertAllSorted([], rs);
    var es := ParseIndex(text);
    forall j | 0 <= j < |es|
      ensures ',' !in es[j].key && '\n' !in es[j].key && '\n' !in es[j].value
    {
      assert es[j] in es;
    }
  }

  /** Whatever text a Commitmap was loaded from, it can be written and read back unchanged. */
  lemma ParsedCommitWritable(text: string)
    ensures Sorted(ParseCommit(text)) && Writable(Swapped(ParseCommit(text)))
  {
    var rs := Records(text);
    RecordsWritable(text);
    InsertAllSorted([], Swapped(rs));
    var es := ParseCommit(text);
    forall j | 0 <= j < |es|
      ensures ',' !in es[j].value && '\n' !in es[j].value && '\n' !in es[j].key
    {
      assert es[j] in Swapped(rs);
      var m :| 0 <= m < |rs| && Swapped(rs)[m] == es[j];
    }
  }

  /** Loading, then writing, then loading again changes nothing. */
  lemma IndexReloadStable(text: string)
    ensures ParseIndex(SerialiseIndex(ParseIndex(text))) == ParseIndex(text)
  {
    ParsedIndexWritable(text);
    IndexRoundTrip(ParseIndex(text));
  }

  /** The same for Commitmap. */
  lemma CommitReloadStable(text: string)
    ensures ParseCommit(SerialiseCommit(ParseCommit(text))) == ParseCommit(text)
  {
    ParsedCommitWritable(text);
    CommitRoundTrip(ParseCommit(text));
  }

  /** A line without a comma splits into the whole line, twice: npos + 1 wraps round to 0. */
  lemma SplitWithoutComma(line: string)
    requires ',' !in line
    ensures SplitRecord(line) == Entry(line, line)
  {
    assert FindFirstOf(line, ',') == None;
    assert (NPOS + 1) % SIZE_T_RANGE == 0;
  }

  /** A text of one line holds one record. */
  lemma RecordsOfOneLine(line: string)
    requires '\n' !in line
    ensures Records(line + "\n") == [SplitRecord(line)]
  {
    GetLineCons(line, "");
    assert line + "\n" + "" == line + "\n";
    RecordsStep(line + "\n");
  }

  /** A line without a comma maps the whole line to itself, in either map. */
  lemma LineWithoutComma(line: string)
    requires ',' !in line && '\n' !in line
    ensures ParseIndex(line + "\n") == [Entry(line, line)]
    ensures ParseCommit(line + "\n") == [Entry(line, line)]
  {
    SplitWithoutComma(line);
    RecordsOfOneLine(line);
    var rs := [Entry(line, line)];
    assert Swapped(rs) == rs;
    assert InsertAll([], rs) == InsertAll(Insert([], line, line), []);
  }

  /** Of several lines with one key, the last decides what the loaded Indexmap holds. */
  lemma ParseIndexLastWins(text: string, j: nat)
    requires j < |Records(text)|
    requires forall m :: j < m < |Records(text)| ==> Records(text)[m].key != Records(text)[j].key
    ensures Lookup(ParseIndex(text), Records(text)[j].key) == Some(Records(text)[j].value)
  {
    InsertAllLast([], Records(text), j);
  }

  /** The keys of a loaded Indexmap are exactly the first fields of the lines. */
  lemma ParseIndexKeys(text: string, k: string)
    ensures Lookup(ParseIndex(text), k).Some? <==>
              exists j :: 0 <= j < |Records(text)| && Records(text)[j].key == k
  {
    var rs := Records(text);
    InsertAllKeys([], rs, k);
    assert ToMap([]) == map[];
    assert ParseIndex(text) == InsertAll([], rs);
    assert Lookup(ParseIndex(text), k).Some? <==> k in ToMap(InsertAll([], rs));
  }

  /** Of several lines with one hash, the last decides the filename the loaded Commitmap holds. */
  lemma ParseCommitLastWins(text: string, j: nat)
    requires j < |Records(text)|
    requires forall m :: j < m < |Records(text)| ==> Records(text)[m].value != Records(text)[j].value
    ensures Lookup(ParseCommit(text), Records(text)[j].value) == Some(Records(text)[j].key)
  {
    InsertAllLast([], Swapped(Records(text)), j);
  }

  /** The keys of a loaded Commitmap are exactly the second fields of the lines. */
  lemma ParseCommitKeys(text: string, h: string)
    ensures Lookup(ParseCommit(text), h).Some? <==>
              exists j :: 0 <= j < |Records(text)| && Records(text)[j].value == h
  {
    var rs := Records(text);
    var ps := Swapped(rs);
    InsertAllKeys([], ps, h);
    assert ToMap([]) == map[];
    assert ParseCommit(text) == InsertAll([], ps);
    assert Lookup(ParseCommit(text), h).Some? <==> h in ToMap(InsertAll([], ps));
    if exists j :: 0 <= j < |rs| && rs[j].value == h {
      var j :| 0 <= j < |rs| && rs[j].value == h;
      assert ps[j].key == h;
    }
  }
}
