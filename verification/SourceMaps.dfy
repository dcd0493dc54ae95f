/**
  Reading the "mappings" of a source map (the "Base64 VLQ" and "Mappings structure" sections of
  ECMA-426) and keeping uploaded maps. Machine arithmetic is written out: every 32-bit operation
  that can wrap or overflow says so.
 */
module SourceMaps {
  import opened Wrappers

  const INT_MAX := 0x7FFF_FFFF
  const WORD := 0x1_0000_0000
  const MAX_SEGMENTS := 16384

  datatype StoredMap = StoredMap(sources: seq<string>, names: seq<string>, mappings: string)

  datatype SourcePosition = SourcePosition(file: string, line: int, column: int, func: Option<string>)

  /** The two exceptions decoding can throw. */
  datatype Fault = Format | Overflow

  // Digits

  /** The base64 letter of a six-bit digit. */
  function Letter(digit: nat): (c: char)
    requires digit < 64
    ensures Digit(c) == Some(digit) && c != ',' && c != ';'
  {
    if digit < 26 then 'A' + digit as char
    else if digit < 52 then 'a' + (digit - 26) as char
    else if digit < 62 then '0' + (digit - 52) as char
    else if digit == 62 then '+' else '/'
  }

  /** The position of a character in the base64 alphabet. */
  function Digit(c: char): (digit: Option<nat>)
    ensures digit.Some? ==> digit.value < 64
  {
    if 'A' <= c <= 'Z' then Some(c as nat - 'A' as nat)
    else if 'a' <= c <= 'z' then Some(c as nat - 'a' as nat + 26)
    else if '0' <= c <= '9' then Some(c as nat - '0' as nat + 52)
    else if c == '+' then Some(62) else if c == '/' then Some(63) else None
  }

  function Pow2(n: nat): (p: nat)
    ensures p > 0
  {
    if n == 0 then 1 else 2 * Pow2(n - 1)
  }

  lemma Pow2Values()
    ensures Pow2(0) == 1 && Pow2(5) == 0x20 && Pow2(10) == 0x400 && Pow2(15) == 0x8000 && Pow2(20) == 0x10_0000
    ensures Pow2(25) == 0x200_0000 && Pow2(30) == 0x4000_0000
  {
    assert Pow2(5) == 0x20;
    assert Pow2(10) == 0x400;
    assert Pow2(15) == 0x8000;
    assert Pow2(20) == 0x10_0000;
    assert Pow2(25) == 0x200_0000;
  }

  // Bitwise operations of a 32-bit word

  function BitOr(a: nat, b: nat): nat {
    if a == 0 && b == 0 then 0
    else 2 * BitOr(a / 2, b / 2) + (if a % 2 == 1 || b % 2 == 1 then 1 else 0)
  }

  function ShiftLeft(a: nat, n: nat): nat {
    (a * Pow2(n)) % WORD
  }

  lemma {:induction false} OrWithZero(b: nat)
    ensures BitOr(0, b) == b
  {
    if b != 0 {
      OrWithZero(b / 2);
    }
  }

  /** Setting bits above the highest one in use adds. */
  lemma {:induction false} OrAddsHighBits(a: nat, d: nat, n: nat)
    requires a < Pow2(n)
    ensures BitOr(a, d * Pow2(n)) == a + d * Pow2(n)
  {
    if n == 0 {
      OrWithZero(d);
    } else {
      assert d * Pow2(n) == 2 * (d * Pow2(n - 1));
      OrAddsHighBits(a / 2, d, n - 1);
    }
  }

  // Variable-length quantities

  predicate IsShift(shift: nat) {
    shift <= 30 && shift % 5 == 0
  }

  /**
    The unsigned quantity at the front of `text` and what follows it, given the bits below
    `shift` already read. A quantity takes at most seven digits and 32 bits.
   */
  function ReadVlq(text: string, value: nat, shift: nat): (r: Result<(nat, string), Fault>)
    ensures r.Ok? ==> |r.value.1| < |text|
    decreases |text|
  {
    if text == "" || shift > 30 then Err(Format)
    else match Digit(text[0])
      case None => Err(Format)
      case Some(digit) =>
        if shift == 30 && digit % 32 > 3 then Err(Format)
        else
          var sum := value + digit % 32 * Pow2(shift);
          if digit >= 32 then ReadVlq(text[1..], sum, shift + 5) else Ok((sum, text[1..]))
  }

  /** What follows a quantity is the end of the text. */
  lemma {:induction false} RestIsSuffix(text: string, value: nat, shift: nat)
    requires ReadVlq(text, value, shift).Ok?
    ensures var rest := ReadVlq(text, value, shift).value.1; rest == text[|text| - |rest|..]
    decreases |text|
  {
    var digit := Digit(text[0]).value;
    if digit >= 32 {
      RestIsSuffix(text[1..], value + digit % 32 * Pow2(shift), shift + 5);
    }
  }

  /** The accumulator never leaves 32 bits. */
  lemma {:induction false} VlqFitsWord(text: string, value: nat, shift: nat)
    requires IsShift(shift) && value < Pow2(shift)
    ensures ReadVlq(text, value, shift).Ok? ==> ReadVlq(text, value, shift).value.0 < WORD
    decreases |text|
  {
    hide Pow2;
    Pow2Values();
    if text != "" && Digit(text[0]).Some? && !(shift == 30 && Digit(text[0]).value % 32 > 3) {
      var digit := Digit(text[0]).value;
      AddsDigit(value, digit % 32, shift);
      if digit >= 32 {
        if shift < 30 {
          VlqFitsWord(text[1..], value + digit % 32 * Pow2(shift), shift + 5);
        } else {
          assert ReadVlq(text[1..], value + digit % 32 * Pow2(shift), 35).Err?;
        }
      }
    }
  }

  lemma Pow2Step(shift: nat)
    ensures Pow2(shift + 5) == 32 * Pow2(shift)
  {
    assert Pow2(shift + 3) == 2 * Pow2(shift + 2) == 4 * Pow2(shift + 1);
    assert Pow2(shift + 5) == 2 * Pow2(shift + 4) == 4 * Pow2(shift + 3);
  }

  lemma Times(d: nat, bound: nat, weight: nat)
    requires d <= bound
    ensures d * weight <= bound * weight
  {
  }

  /** A digit added above the bits in use leaves the bits above it free. */
  lemma AddsDigit(value: nat, d: nat, shift: nat)
    requires IsShift(shift) && value < Pow2(shift) && d < 32
    ensures value + d * Pow2(shift) < 32 * Pow2(shift) == Pow2(shift + 5)
    ensures shift < 30 || d <= 3 ==> value + d * Pow2(shift) < WORD
  {
    hide Pow2;
    Pow2Step(shift);
    Pow2Values();
    Times(d, 31, Pow2(shift));
    if d <= 3 {
      Times(d, 3, Pow2(shift));
    }
  }

  /** The signed number a quantity stands for; the lowest bit is the sign. */
  function Signed(value: nat): int {
    if value % 2 == 0 then value / 2 else -(value / 2)
  }

  /** All numbers of one segment; a sixth one is refused as soon as it is read. */
  function ReadValues(text: string, values: seq<int>): Result<seq<int>, Fault>
    decreases |text|
  {
    if text == "" then Ok(values)
    else match ReadVlq(text, 0, 0)
      case Err(fault) => Err(fault)
      case Ok((value, rest)) =>
        if |values| >= 5 then Err(Format) else ReadValues(rest, values + [Signed(value)])
  }

  predicate IsInt(n: int) {
    -INT_MAX - 1 <= n <= INT_MAX
  }

  /** Every number read from a segment is within plus or minus 2^31 - 1. */
  lemma {:induction false} ValuesInRange(text: string, values: seq<int>)
    requires forall i :: 0 <= i < |values| ==> -INT_MAX <= values[i] <= INT_MAX
    ensures var r := ReadValues(text, values);
            r.Ok? ==> forall i :: 0 <= i < |r.value| ==> -INT_MAX <= r.value[i] <= INT_MAX
    decreases |text|
  {
    if text != "" && ReadVlq(text, 0, 0).Ok? && |values| < 5 {
      VlqFitsWord(text, 0, 0);
      var (value, rest) := ReadVlq(text, 0, 0).value;
      ValuesInRange(rest, values + [Signed(value)]);
    }
  }

  // Segments

  /** The running values that carry over from segment to segment and from line to line. */
  datatype Cursor = Cursor(source: int, line: int, column: int, name: int)

  const START := Cursor(0, 0, 0, 0)

  datatype Decoded = Decoded(column: int, cursor: Cursor, position: Option<SourcePosition>)

  function ApplyOriginal(stored: StoredMap, cursor: Cursor, values: seq<int>): Result<(Cursor, SourcePosition), Fault>
    requires |values| == 4 || |values| == 5
  {
    var source := cursor.source + values[1];
    var line := cursor.line + values[2];
    var column := cursor.column + values[3];
    if !IsInt(source) || !IsInt(line) || !IsInt(column) then Err(Overflow)
    else if source < 0 || source >= |stored.sources| || line < 0 || column < 0 then Err(Format)
    else
      var name := if |values| == 5 then cursor.name + values[4] else cursor.name;
      if !IsInt(name) then Err(Overflow)
      else if |values| == 5 && (name < 0 || name >= |stored.names|) then Err(Format)
      else if !IsInt(line + 1) || !IsInt(column + 1) then Err(Overflow)
      else Ok((Cursor(source, line, column, name),
               SourcePosition(stored.sources[source], line + 1, column + 1,
                              if |values| == 5 then Some(stored.names[name]) else None)))
  }

  function Apply(stored: StoredMap, cursor: Cursor, column: int, values: seq<int>): Result<Decoded, Fault> {
    if |values| != 1 && |values| != 4 && |values| != 5 then Err(Format)
    else if !IsInt(column + values[0]) then Err(Overflow)
    else if column + values[0] < 0 then Err(Format)
    else if |values| == 1 then Ok(Decoded(column + values[0], cursor, None))
    else match ApplyOriginal(stored, cursor, values)
      case Err(fault) => Err(fault)
      case Ok((next, position)) => Ok(Decoded(column + values[0], next, Some(position)))
  }

  function ReadSegment(stored: StoredMap, cursor: Cursor, column: int, text: string): Result<Decoded, Fault> {
    match ReadValues(text, [])
    case Err(fault) => Err(fault)
    case Ok(values) => Apply(stored, cursor, column, values)
  }

  // Lines

  /** Cut `text` at every separator. */
  function Split(text: string, separator: char): (parts: seq<string>)
    ensures |parts| > 0
  {
    if text == "" then [""]
    else
      var rest := Split(text[1..], separator);
      if text[0] == separator then [""] + rest else [[text[0]] + rest[0]] + rest[1..]
  }

  function NonEmpty(parts: seq<string>): seq<string> {
    if parts == [] then [] else (if parts[0] == "" then [] else [parts[0]]) + NonEmpty(parts[1..])
  }

  function Segments(line: string): seq<string> {
    NonEmpty(Split(line, ','))
  }

  datatype LineState = LineState(column: int, cursor: Cursor, segments: nat, result: Option<SourcePosition>)

  /** One line's segments; `wanted` is the column asked for if this is the line asked for. */
  function DecodeLine(stored: StoredMap, segments: seq<string>, wanted: Option<int>,
                      state: LineState): Result<LineState, Fault>
    decreases |segments|
  {
    if segments == [] then Ok(state)
    else if state.segments >= MAX_SEGMENTS then Err(Format)
    else match ReadSegment(stored, state.cursor, state.column, segments[0])
      case Err(fault) => Err(fault)
      case Ok(decoded) =>
        var result := if wanted.Some? && decoded.column <= wanted.value then decoded.position else state.result;
        DecodeLine(stored, segments[1..], wanted, LineState(decoded.column, decoded.cursor, state.segments + 1, result))
  }

  function DecodeLines(stored: StoredMap, lines: seq<string>, line: int, column: int,
                       state: LineState): Result<Option<SourcePosition>, Fault>
    decreases |lines|
  {
    if lines == [] then Ok(state.result)
    else match DecodeLine(stored, Segments(lines[0]), if line == 0 then Some(column) else None, state.(column := 0))
      case Err(fault) => Err(fault)
      case Ok(next) => DecodeLines(stored, lines[1..], line - 1, column, next)
  }

  const BEGIN := LineState(0, START, 0, None)

  /** The original position of a generated one, both counted from zero. */
  function Decode(stored: StoredMap, line: int, column: int): Result<Option<SourcePosition>, Fault> {
    DecodeLines(stored, Split(stored.mappings, ';'), line, column, BEGIN)
  }
}
