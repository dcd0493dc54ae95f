/** The decoder's loops proved against `SourceMaps.Decode`, and the store of uploaded maps. */
module SourceMapStore {
  import opened Wrappers
  import opened SourceMaps
  import opened SourceMapTheorems
  import Registry

  /** A checked cast or addition: the machine result, or the overflow the source would throw. */
  function Checked(n: int): (r: Result<int, Fault>)
    ensures r == if IsInt(n) then Ok(n) else Err(Overflow)
  {
    if -INT_MAX - 1 <= n <= INT_MAX then Ok(n) else Err(Overflow)
  }

  /** Reads one quantity from `index` with 32-bit shifts and ors; the checked cast at the end cannot overflow. */
  method DecodeValue(segment: string, start: nat) returns (r: Result<int, Fault>, index: nat)
    requires start <= |segment|
    ensures match ReadVlq(segment[start..], 0, 0)
            case Err(fault) => r == Err(fault)
            case Ok((value, rest)) => r == Ok(Signed(value)) && start < index <= |segment| && rest == segment[index..]
  {
    hide Pow2, BitOr, Digit, ReadVlq, ShiftLeft, Signed, Checked;
    index := start;
    var value: nat, shift: nat := 0, 0;
    Pow2Values();
    while true
      invariant start <= index <= |segment|
      invariant shift % 5 == 0 && shift <= 35
      invariant shift <= 30 ==> value < Pow2(shift)
      invariant ReadVlq(segment[start..], 0, 0) == ReadVlq(segment[index..], value, shift)
      decreases |segment| - index
    {
      if index >= |segment| || shift > 30 {
        NoDigit(segment[index..], value, shift);
        return Err(Format), index;
      }
      var digit := Digit(segment[index]);
      NoDigit(segment[index..], value, shift);
      index := index + 1;
      if digit.None? || (shift == 30 && digit.value % 32 > 3) {
        return Err(Format), index;
      }
      FirstDigit(segment[index - 1..], value, shift);
      ShiftedDigit(value, digit.value % 32, shift);
      value := BitOr(value, ShiftLeft(digit.value % 32, shift));
      shift := shift + 5;
      if digit.value < 32 {
        break;
      }
    }
    assert value < WORD && ReadVlq(segment[start..], 0, 0) == Ok((value, segment[index..]));
    var magnitude := Checked(value / 2);
    HalfIsChecked(value);
    r := if value % 2 == 0 then magnitude else Ok(-magnitude.value);
  }

  /** A 32-bit quantity without its lowest bit, the sign, fits a signed word. */
  lemma HalfIsChecked(value: nat)
    requires value < WORD
    ensures Checked(value / 2) == Ok(value / 2) && Signed(value) == if value % 2 == 0 then value / 2 else -(value / 2)
  {
  }

  lemma NoDigit(text: string, value: nat, shift: nat)
    ensures text == "" || shift > 30 || Digit(text[0]).None? || (shift == 30 && Digit(text[0]).value % 32 > 3)
      ==> ReadVlq(text, value, shift) == Err(Format)
  {
  }

  /** Shifting a digit into place loses no bit, and or-ing it in adds it. */
  lemma ShiftedDigit(value: nat, d: nat, shift: nat)
    requires IsShift(shift) && value < Pow2(shift) && d < 32 && (shift == 30 ==> d <= 3)
    ensures BitOr(value, ShiftLeft(d, shift)) == value + d * Pow2(shift) < WORD
    ensures shift < 30 ==> value + d * Pow2(shift) < Pow2(shift + 5)
  {
    hide Pow2, BitOr;
    AddsDigit(value, d, shift);
    OrAddsHighBits(value, d, shift);
  }

  /** The numbers of one segment. */
  method DecodeValues(segment: string) returns (r: Result<seq<int>, Fault>)
    ensures r == ReadValues(segment, [])
  {
    hide ReadVlq;
    var values: seq<int> := [];
    var index := 0;
    while index < |segment|
      invariant 0 <= index <= |segment|
      invariant ReadValues(segment, []) == ReadValues(segment[index..], values)
      decreases |segment| - index
    {
      var read;
      read, index := DecodeValue(segment, index);
      if read.Err? {
        return Err(read.error);
      }
      if |values| + 1 > 5 {
        return Err(Format);
      }
      values := values + [read.value];
    }
    r := Ok(values);
  }

  /** The decoder: lines and segments in order, running values updated in place. */
  method DecodeMap(stored: StoredMap, requestedLine: int, requestedColumn: int)
    returns (r: Result<Option<SourcePosition>, Fault>)
    ensures r == Decode(stored, requestedLine, requestedColumn)
  {
    hide ReadValues, Split, Apply;
    var state := BEGIN;
    var lines := Split(stored.mappings, ';');
    for generatedLine := 0 to |lines|
      invariant Decode(stored, requestedLine, requestedColumn)
             == DecodeLines(stored, lines[generatedLine..], requestedLine - generatedLine, requestedColumn, state)
    {
      var wanted := if generatedLine == requestedLine then Some(requestedColumn) else None;
      state := state.(column := 0);
      ghost var begin := state;
      var segments := Segments(lines[generatedLine]);
      for i := 0 to |segments|
        invariant DecodeLine(stored, segments, wanted, begin) == DecodeLine(stored, segments[i..], wanted, state)
      {
        if state.segments + 1 > MAX_SEGMENTS {
          return Err(Format);
        }
        var values := DecodeValues(segments[i]);
        if values.Err? {
          return Err(values.error);
        }
        var decoded := Apply(stored, state.cursor, state.column, values.value);
        if decoded.Err? {
          return Err(decoded.error);
        }
        var result := if wanted.Some? && decoded.value.column <= wanted.value then decoded.value.position
                      else state.result;
        state := LineState(decoded.value.column, decoded.value.cursor, state.segments + 1, result);
      }
    }
    r := Ok(state.result);
  }

  // Uploads

  const MAP_BYTES := 64 * 1024
  const STORE_BYTES := 128 * 1024 * 1024

  /** A label is built from the same characters, within the same length, as an identity of a registration. */
  predicate Label(value: string) {
    Registry.IsIdentity(value)
  }

  function SafeName(value: string): (name: string)
    ensures Label(name) && (Label(value) ==> name == value)
  {
    if Label(value) then value else "unknown"
  }

  function ForwardSlashes(value: string): string {
    seq(|value|, i requires 0 <= i < |value| => if value[i] == '\\' then '/' else value[i])
  }

  function BeforeQuery(value: string): string {
    if value == "" || value[0] == '?' || value[0] == '#' then "" else [value[0]] + BeforeQuery(value[1..])
  }

  function Basename(value: string): (name: string)
    ensures Label(name)
  {
    var parts := Split(BeforeQuery(ForwardSlashes(value)), '/');
    SafeName(parts[|parts| - 1])
  }

  /** An uploaded map, once its fields have the types the format asks for. */
  datatype Document = Document(version: int, sectioned: bool, sources: seq<string>, names: seq<string>,
                               mappings: string)

  /** The name a stored file is found under; its hash is injective on keys. */
  datatype Key = Key(registrationId: Registry.Guid, release: string, file: string)

  datatype StoredFile = StoredFile(key: Key, content: StoredMap, length: nat)

  datatype UploadResponse = UploadRefused | InsufficientStorage | NoContent

  datatype LookupResponse = LookupRefused | NotFound | Found(position: SourcePosition)

  function Sanitize(document: Document): StoredMap {
    StoredMap(seq(|document.sources|, i requires 0 <= i < |document.sources| => Basename(document.sources[i])),
              seq(|document.names|, i requires 0 <= i < |document.names| => SafeName(document.names[i])),
              document.mappings)
  }

  function Total(files: seq<StoredFile>): nat {
    if files == [] then 0 else files[0].length + Total(files[1..])
  }

  lemma {:induction false} TotalSplit(files: seq<StoredFile>, i: nat)
    requires i < |files|
    ensures Total(files) == Total(files[..i]) + files[i].length + Total(files[i + 1..])
  {
    if i > 0 {
      TotalSplit(files[1..], i - 1);
      assert files[1..][..i - 1] == files[..i][1..];
      assert files[1..][i..] == files[i + 1..];
    } else {
      assert files[..0] == [];
    }
  }

  lemma {:induction false} TotalAppend(files: seq<StoredFile>, file: StoredFile)
    ensures Total(files + [file]) == Total(files) + file.length
  {
    if files != [] {
      TotalAppend(files[1..], file);
      assert (files + [file])[1..] == files[1..] + [file];
    } else {
      assert files + [file] == [file];
    }
  }

  lemma TotalReplace(files: seq<StoredFile>, i: nat, file: StoredFile)
    requires i < |files|
    ensures Total(files[i := file]) == Total(files) - files[i].length + file.length
  {
    TotalSplit(files, i);
    TotalSplit(files[i := file], i);
    assert files[i := file][..i] == files[..i];
    assert files[i := file][i + 1..] == files[i + 1..];
  }

  predicate Named(stored: StoredMap) {
    && (forall i :: 0 <= i < |stored.sources| ==> Label(stored.sources[i]))
    && (forall i :: 0 <= i < |stored.names| ==> Label(stored.names[i]))
  }

  /** A stored file can be decoded everywhere, carries only labels, and fits. */
  ghost predicate Servable(file: StoredFile) {
    && file.length <= MAP_BYTES
    && Named(file.content)
    && forall line, column :: Decode(file.content, line, column).Ok?
  }

  /** A decoded position names a file and a function of the map's own tables, and counts from one. */
  ghost predicate FromTables(stored: StoredMap, position: Option<SourcePosition>) {
    position.Some? ==>
      && position.value.file in stored.sources
      && position.value.line >= 1 && position.value.column >= 1
      && (position.value.func.Some? ==> position.value.func.value in stored.names)
  }

  lemma {:induction false} LineFromTables(stored: StoredMap, segments: seq<string>, wanted: Option<int>,
                                          state: LineState)
    requires FromTables(stored, state.result)
    ensures var r := DecodeLine(stored, segments, wanted, state);
            r.Ok? ==> FromTables(stored, r.value.result)
    decreases |segments|
  {
    hide ReadValues;
    if segments != [] && state.segments < MAX_SEGMENTS {
      var read := ReadSegment(stored, state.cursor, state.column, segments[0]);
      if read.Ok? {
        var decoded := read.value;
        var result := if wanted.Some? && decoded.column <= wanted.value then decoded.position else state.result;
        LineFromTables(stored, segments[1..], wanted,
                       LineState(decoded.column, decoded.cursor, state.segments + 1, result));
      }
    }
  }

  lemma {:induction false} LinesFromTables(stored: StoredMap, lines: seq<string>, line: int, column: int,
                                           state: LineState)
    requires FromTables(stored, state.result)
    ensures var r := DecodeLines(stored, lines, line, column, state);
            r.Ok? ==> FromTables(stored, r.value)
    decreases |lines|
  {
    hide DecodeLine, Segments;
    if lines != [] {
      var wanted := if line == 0 then Some(column) else None;
      var begin := state.(column := 0);
      LineFromTables(stored, Segments(lines[0]), wanted, begin);
      var next := DecodeLine(stored, Segments(lines[0]), wanted, begin);
      if next.Ok? {
        LinesFromTables(stored, lines[1..], line - 1, column, next.value);
      }
    }
  }

  /** Whatever is found in a map comes from its tables. */
  lemma DecodeFromTables(stored: StoredMap, line: int, column: int)
    ensures Decode(stored, line, column).Ok? ==> FromTables(stored, Decode(stored, line, column).value)
  {
    LinesFromTables(stored, Split(stored.mappings, ';'), line, column, BEGIN);
  }

  function Table(files: seq<StoredFile>): map<Key, StoredMap> {
    if files == [] then map[] else Table(files[..|files| - 1])[files[|files| - 1].key := files[|files| - 1].content]
  }

  ghost predicate DistinctKeys(files: seq<StoredFile>) {
    forall i, j :: 0 <= i < j < |files| ==> files[i].key != files[j].key
  }

  lemma {:induction false} TableHolds(files: seq<StoredFile>, key: Key)
    requires DistinctKeys(files)
    ensures key in Table(files) <==> exists i :: 0 <= i < |files| && files[i].key == key
    ensures forall i :: 0 <= i < |files| && files[i].key == key ==>
      key in Table(files) && Table(files)[key] == files[i].content
  {
    if files != [] {
      var n := |files| - 1;
      TableHolds(files[..n], key);
      forall i | 0 <= i < |files| && files[i].key == key
        ensures key in Table(files) && Table(files)[key] == files[i].content
      {
        if i < n {
          assert files[..n][i].key == key;
        }
      }
    }
  }

  /** Overwriting a file in place replaces the entry under its key. */
  lemma TableReplaces(files: seq<StoredFile>, i: nat, file: StoredFile)
    requires DistinctKeys(files) && i < |files| && files[i].key == file.key
    ensures Table(files[i := file]) == Table(files)[file.key := file.content]
  {
    var after := files[i := file];
    forall key
      ensures key in Table(after) <==> key in Table(files)[file.key := file.content]
      ensures key in Table(after) ==> Table(after)[key] == Table(files)[file.key := file.content][key]
    {
      TableHolds(files, key);
      TableHolds(after, key);
      assert after[i].key == file.key;
      if key in Table(files) && key != file.key {
        var j :| 0 <= j < |files| && files[j].key == key;
        assert after[j] == files[j];
      }
      if key in Table(after) && key != file.key {
        var j :| 0 <= j < |after| && after[j].key == key;
        assert after[j] == files[j];
      }
    }
  }

  class Store {
    var files: seq<StoredFile>

    ghost predicate Valid()
      reads this
    {
      && DistinctKeys(files)
      && (forall i :: 0 <= i < |files| ==> Servable(files[i]))
      && Total(files) <= STORE_BYTES
    }

    /** What is stored under each key. */
    ghost function Contents(): map<Key, StoredMap>
      reads this
    {
      Table(files)
    }

    constructor ()
      ensures Valid() && files == []
    {
      files := [];
    }

    method Find(key: Key) returns (i: nat)
      requires Valid()
      ensures i <= |files|
      ensures i < |files| ==> files[i].key == key
      ensures i == |files| ==> forall j :: 0 <= j < |files| ==> files[j].key != key
    {
      i := 0;
      while i < |files| && files[i].key != key
        invariant i <= |files| && forall j :: 0 <= j < i ==> files[j].key != key
      {
        i := i + 1;
      }
    }

    /** The bytes in the store, summed file by file. */
    method Size() returns (total: nat)
      ensures total == Total(files)
    {
      total := 0;
      for i := 0 to |files|
        invariant Total(files) == total + Total(files[i..])
      {
        total := total + files[i].length;
      }
    }

    /**
      An upload: refused unless it is a valid map that decodes, turned away when it does not fit,
      otherwise stored under its key in place of what was there. `registered` is whether the
      registration exists and `length` what the sanitized map takes once serialized.
     */
    method Upload(key: Key, registered: bool, document: Option<Document>, length: StoredMap -> nat)
      returns (response: UploadResponse)
      requires Valid()
      modifies this
      ensures Valid()
      ensures response == NoContent <==>
        Acceptable(key, registered, document)
          && var content := Sanitize(document.value); Fits(old(files), key, length(content))
      ensures response == InsufficientStorage <==>
        Acceptable(key, registered, document)
          && var content := Sanitize(document.value); !Fits(old(files), key, length(content))
      ensures Contents() == if response == NoContent then old(Contents())[key := Sanitize(document.value)]
                            else old(Contents())
      ensures response != NoContent ==> files == old(files)
    {
      if !Label(key.release) || !Label(key.file) || !registered || document.None? {
        return UploadRefused;
      }
      var content := Sanitize(document.value);
      if document.value.version != 3 || document.value.sectioned
         || |content.sources| > 1024 || |content.names| > 4096 || |content.mappings| > MAP_BYTES {
        return UploadRefused;
      }
      var decoded := DecodeMap(content, 0, 0);
      if decoded.Err? {
        return UploadRefused;
      }
      var i := Find(key);
      var existing := if i < |files| then files[i].length else 0;
      var total := Size();
      ExistingIs(files, key, i);
      if length(content) > MAP_BYTES || total - existing + length(content) > STORE_BYTES {
        return InsufficientStorage;
      }
      var file := StoredFile(key, content, length(content));
      SanitizedIsServable(document.value, file);
      Put(i, file);
      response := NoContent;
    }

    /** Writes one file in place of the one under its key, which is at `i` if there is one. */
    method Put(i: nat, file: StoredFile)
      requires Valid() && Servable(file) && Fits(files, file.key, file.length)
      requires i <= |files| && (i < |files| ==> files[i].key == file.key)
      requires i == |files| ==> forall j :: 0 <= j < |files| ==> files[j].key != file.key
      modifies this
      ensures Valid() && Contents() == old(Contents())[file.key := file.content]
    {
      hide Servable;
      ExistingIs(files, file.key, i);
      if i < |files| {
        TotalReplace(files, i, file);
        TableReplaces(files, i, file);
        files := files[i := file];
      } else {
        TotalAppend(files, file);
        assert (files + [file])[..|files|] == files;
        files := files + [file];
      }
    }

    /** A lookup, counted from one. It never fails: every stored map decodes everywhere. */
    method Lookup(key: Key, line: int, column: int) returns (response: LookupResponse)
      requires Valid()
      ensures response == LookupRefused <==>
        !Label(key.release) || !Label(key.file) || line < 1 || line > 1000000 || column < 1 || column > 1000000
      ensures response.Found? ==>
        && key in Contents()
        && Decode(Contents()[key], line - 1, column - 1) == Ok(Some(response.position))
        && Label(response.position.file) && (response.position.func.Some? ==> Label(response.position.func.value))
      ensures response == NotFound && key in Contents() ==> Decode(Contents()[key], line - 1, column - 1) == Ok(None)
    {
      hide Decode, Total, Table;
      if !Label(key.release) || !Label(key.file) || line < 1 || line > 1000000 || column < 1 || column > 1000000 {
        return LookupRefused;
      }
      var i := Find(key);
      TableHolds(files, key);
      if i == |files| {
        return NotFound;
      }
      var content := files[i].content;
      assert Servable(files[i]);
      var position := DecodeMap(content, line - 1, column - 1);
      DecodeFromTables(content, line - 1, column - 1);
      response := if position.value.None? then NotFound else Found(position.value.value);
    }
  }

  /** What a map accepted once leaves behind is decoded everywhere. */
  lemma SanitizedIsServable(document: Document, file: StoredFile)
    requires file.content == Sanitize(document) && file.length <= MAP_BYTES && Decode(file.content, 0, 0).Ok?
    ensures Servable(file)
  {
    forall line, column ensures Decode(file.content, line, column).Ok? {
      FailureIndependent(file.content, 0, 0, line, column);
    }
  }

  /** A map that may be stored if there is room. */
  predicate Acceptable(key: Key, registered: bool, document: Option<Document>) {
    && Label(key.release) && Label(key.file) && registered && document.Some?
    && document.value.version == 3 && !document.value.sectioned
    && |document.value.sources| <= 1024 && |document.value.names| <= 4096 && |document.value.mappings| <= MAP_BYTES
    && Decode(Sanitize(document.value), 0, 0).Ok?
  }

  function Existing(files: seq<StoredFile>, key: Key): nat {
    if files == [] then 0 else if files[0].key == key then files[0].length else Existing(files[1..], key)
  }

  predicate Fits(files: seq<StoredFile>, key: Key, length: nat) {
    length <= MAP_BYTES && Total(files) - Existing(files, key) + length <= STORE_BYTES
  }

  lemma {:induction false} ExistingIs(files: seq<StoredFile>, key: Key, i: nat)
    requires DistinctKeys(files) && i <= |files|
    requires i < |files| ==> files[i].key == key
    requires i == |files| ==> forall j :: 0 <= j < |files| ==> files[j].key != key
    ensures Existing(files, key) == if i < |files| then files[i].length else 0
  {
    if files != [] && i > 0 {
      ExistingIs(files[1..], key, i - 1);
    }
  }

  // What is kept of names

  ghost predicate Separates(c: char) {
    c == '/' || c == '\\' || c == '?' || c == '#'
  }

  /**
    The name kept of a path is its last segment, before a query or a fragment, if that is a label. Any
    text is such a path: `front` is empty or ends with a slash of either kind, and `tail` is empty or
    begins a query or a fragment.
   */
  lemma BasenameExactly(front: string, segment: string, tail: string)
    requires front == "" || front[|front| - 1] == '/' || front[|front| - 1] == '\\'
    requires forall i :: 0 <= i < |front| ==> front[i] != '?' && front[i] != '#'
    requires forall i :: 0 <= i < |segment| ==> !Separates(segment[i])
    requires tail == "" || tail[0] == '?' || tail[0] == '#'
    ensures Basename(front + segment + tail) == if Label(segment) then segment else "unknown"
  {
    var slashed := ForwardSlashes(front);
    assert ForwardSlashes(front + segment + tail) == slashed + segment + ForwardSlashes(tail);
    CutsQuery(slashed + segment, ForwardSlashes(tail));
    hide BeforeQuery, ForwardSlashes, Label;
    LastOfSplit(slashed, segment, '/');
  }

  lemma {:induction false} CutsQuery(text: string, tail: string)
    requires forall i :: 0 <= i < |text| ==> text[i] != '?' && text[i] != '#'
    requires tail == "" || tail[0] == '?' || tail[0] == '#'
    ensures BeforeQuery(text + tail) == text
    decreases |text|
  {
    if text == "" {
      assert text + tail == tail;
    } else {
      CutsQuery(text[1..], tail);
      assert (text + tail)[1..] == text[1..] + tail;
    }
  }

  lemma {:induction false} LastOfSplit(front: string, segment: string, separator: char)
    requires front == "" || front[|front| - 1] == separator
    requires forall i :: 0 <= i < |segment| ==> segment[i] != separator
    ensures var parts := Split(front + segment, separator); parts[|parts| - 1] == segment
    ensures |front| > 0 ==> |Split(front + segment, separator)| > 1
    decreases |front|
  {
    if front == "" {
      assert front + segment == segment;
      SplitClean(segment, separator, "");
    } else {
      var text := front + segment;
      assert text[1..] == front[1..] + segment;
      if |front| > 1 {
        assert front[1..][|front| - 2] == separator;
      }
      LastOfSplit(front[1..], segment, separator);
    }
  }

  lemma LabelIsSegment(name: string)
    requires Label(name)
    ensures Basename(name) == name && SafeName(name) == name
  {
    assert forall i :: 0 <= i < |name| ==> !Separates(name[i]);
    hide Label, Basename;
    BasenameExactly("", name, "");
    assert "" + name + "" == name;
  }

  /** A map of labels that is printed from segments within its tables can be uploaded as it is, and is kept as it is. */
  lemma PrintedIsAcceptable(key: Key, sources: seq<string>, names: seq<string>, lines: seq<seq<Mapping>>)
    requires Label(key.release) && Label(key.file)
    requires (forall i :: 0 <= i < |sources| ==> Label(sources[i]))
             && (forall i :: 0 <= i < |names| ==> Label(names[i]))
    requires |sources| <= 1024 && |names| <= 4096 && |Print(lines)| <= 65_536 && Count(lines) <= 16_384
    requires AllExpressible(StoredMap(sources, names, Print(lines)), lines)
    ensures var document := Document(3, false, sources, names, Print(lines));
            Acceptable(key, true, Some(document)) && Sanitize(document) == StoredMap(sources, names, Print(lines))
  {
    hide Label, Basename, Decode, Print, Expressible;
    var document := Document(3, false, sources, names, Print(lines));
    forall i | 0 <= i < |sources| ensures Basename(sources[i]) == sources[i] {
      LabelIsSegment(sources[i]);
    }
    forall i | 0 <= i < |names| ensures SafeName(names[i]) == names[i] {
      LabelIsSegment(names[i]);
    }
    assert Sanitize(document).sources == sources && Sanitize(document).names == names;
    DecodePrint(Sanitize(document), lines, 0, 0);
  }

  /** Whatever else it says, an upload is refused for any of these. */
  lemma RefusedUploads(key: Key, registered: bool, document: Document)
    requires || !registered || !Label(key.release) || !Label(key.file) || document.version != 3 || document.sectioned
             || |document.sources| > 1024 || |document.names| > 4096 || |document.mappings| > 65_536
             || Decode(Sanitize(document), 0, 0).Err?
    ensures !Acceptable(key, registered, Some(document)) && !Acceptable(key, registered, None)
  {
    hide Label, Decode;
  }

  /** The bytes of all files under other keys. */
  function Others(files: seq<StoredFile>, key: Key): nat {
    if files == [] then 0 else (if files[0].key == key then 0 else files[0].length) + Others(files[1..], key)
  }

  /** A file fits if it is at most 64 KiB and, with what is stored under other keys, at most 128 MiB. */
  lemma FitsExactly(files: seq<StoredFile>, key: Key, length: nat)
    requires DistinctKeys(files)
    ensures Fits(files, key, length) <==> length <= 65_536 && Others(files, key) + length <= 134_217_728
  {
    OthersExactly(files, key);
  }

  lemma {:induction false} OthersExactly(files: seq<StoredFile>, key: Key)
    requires DistinctKeys(files)
    ensures Total(files) == Others(files, key) + Existing(files, key)
    decreases |files|
  {
    if files != [] {
      OthersExactly(files[1..], key);
      if files[0].key == key {
        NoneUnder(files[1..], key);
      }
    }
  }

  lemma {:induction false} NoneUnder(files: seq<StoredFile>, key: Key)
    requires forall i :: 0 <= i < |files| ==> files[i].key != key
    ensures Existing(files, key) == 0 && Others(files, key) == Total(files)
    decreases |files|
  {
    if files != [] {
      NoneUnder(files[1..], key);
    }
  }
}
