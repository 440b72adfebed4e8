/**
 * The parts of `std::istream` / `std::ostream` the program uses, over an in-memory byte buffer:
 * a read position, a failure flag that every later extraction respects, `>> std::string`,
 * `>> int`, `get()`, unformatted `read`, and `<<` of text. These are library behaviour, not
 * repository code; they are here so that the repository's readers and writers can be stated
 * over bytes.
 */
module Streams {
  import opened Decimal

  /** One byte of a stream (`char` in the C++ streams, read and written as an unsigned value). */
  type Byte = x: int | 0 <= x < 0x100

  /** The bytes of a stream seen as characters (each byte is one `char`). */
  function Chars(bytes: seq<Byte>): (s: string)
    ensures |s| == |bytes|
    ensures forall i {:trigger s[i]} | 0 <= i < |bytes| :: s[i] == bytes[i] as char
  {
    seq(|bytes|, i requires 0 <= i < |bytes| => bytes[i] as char)
  }

  predicate IsAscii(s: string) {
    forall i | 0 <= i < |s| :: s[i] as int < 0x80
  }

  /** The bytes `<<` writes for an ASCII string. */
  function AsciiBytes(s: string): (bytes: seq<Byte>)
    requires IsAscii(s)
    ensures |bytes| == |s|
    ensures Chars(bytes) == s
  {
    var bytes := seq(|s|, i requires 0 <= i < |s| => s[i] as int);
    assert forall i | 0 <= i < |s| :: bytes[i] as char == s[i];
    bytes
  }

  lemma DecimalIsAscii(x: int)
    ensures IsAscii(IntToString(x))
  {
    var s := IntToString(x);
    if x >= 0 {
      assert AllDigits(s);
    } else {
      assert AllDigits(s[1..]);
      assert forall i | 1 <= i < |s| :: s[i] == s[1..][i - 1];
    }
  }

  lemma AsciiBytesAppend(a: string, b: string)
    requires IsAscii(a) && IsAscii(b)
    ensures IsAscii(a + b) && AsciiBytes(a + b) == AsciiBytes(a) + AsciiBytes(b)
  {
    assert forall i | 0 <= i < |a + b| :: (a + b)[i] == if i < |a| then a[i] else b[i - |a|];
  }

  lemma CharsAppend(a: seq<Byte>, b: seq<Byte>)
    ensures Chars(a + b) == Chars(a) + Chars(b)
  {
  }

  /** The state of an input stream: its bytes, the read position and the fail bit. */
  datatype InState = InState(data: seq<Byte>, pos: nat, failed: bool) {
    ghost predicate Valid() {
      pos <= |data|
    }
  }

  /** The first index at or after `i` that holds a space, or the end. */
  function TokenEnd(s: string, i: nat): (j: nat)
    requires i <= |s|
    ensures i <= j <= |s|
    ensures forall k | i <= k < j :: !IsSpace(s[k])
    ensures j < |s| ==> IsSpace(s[j])
    decreases |s| - i
  {
    if i < |s| && !IsSpace(s[i]) then TokenEnd(s, i + 1) else i
  }

  lemma {:induction false} TokenEndAt(s: string, i: nat, j: nat)
    requires i <= j < |s| && IsSpace(s[j])
    requires forall k | i <= k < j :: !IsSpace(s[k])
    ensures TokenEnd(s, i) == j
    decreases j - i
  {
    if i < j {
      TokenEndAt(s, i + 1, j);
    }
  }

  /** `stream >> std::string`: skip spaces, then take the longest run of non-spaces. */
  function ExtractToken(st: InState): (r: (string, InState))
    requires st.Valid()
    ensures r.1.Valid() && r.1.data == st.data
  {
    if st.failed then ("", st)
    else
      var s := Chars(st.data);
      var j := SkipSpaces(s, st.pos);
      if j == |s| then ("", st.(pos := j, failed := true))
      else
        var k := TokenEnd(s, j);
        (s[j..k], st.(pos := k))
  }

  /**
   * `stream >> int` into a variable that holds 0: a number outside the `int` range is clamped
   * and fails the stream; no digits at all leaves 0 and fails the stream.
   */
  function ExtractInt(st: InState): (r: (int, InState))
    requires st.Valid()
    ensures r.1.Valid() && r.1.data == st.data
    ensures !r.1.failed ==> IsInt(r.0)
  {
    if st.failed then (0, st)
    else
      match ScanNumber(Chars(st.data), st.pos)
      case NoDigits => (0, st.(failed := true))
      case Number(v, e) =>
        if v > INT_MAX then (INT_MAX, st.(pos := e, failed := true))
        else if v < INT_MIN then (INT_MIN, st.(pos := e, failed := true))
        else (v, st.(pos := e))
  }

  /** An extraction whose scan finds an in-range number succeeds with that number. */
  lemma ExtractIntOfNumber(st: InState, v: int, e: nat)
    requires st.Valid() && !st.failed && IsInt(v)
    requires ScanNumber(Chars(st.data), st.pos) == Number(v, e)
    ensures ExtractInt(st) == (v, st.(pos := e))
  {
  }

  /** `stream.get()` with its result discarded: consume one byte, or fail at the end. */
  function Get(st: InState): (r: InState)
    requires st.Valid()
    ensures r.Valid() && r.data == st.data
  {
    if st.failed then st
    else if st.pos == |st.data| then st.(failed := true)
    else st.(pos := st.pos + 1)
  }

  /**
   * `stream.read(buffer, n)`: the next `n` bytes, or a failure that consumes whatever was left.
   */
  function Read(st: InState, n: nat): (r: (seq<Byte>, InState))
    requires st.Valid()
    ensures r.1.Valid() && r.1.data == st.data
    ensures !r.1.failed ==>
              st.pos + n <= |st.data| && r.0 == st.data[st.pos..st.pos + n] && r.1.pos == st.pos + n
    ensures r.1.failed ==> st.failed || st.pos + n > |st.data|
  {
    if st.failed then ([], st)
    else if st.pos + n <= |st.data| then (st.data[st.pos..st.pos + n], st.(pos := st.pos + n))
    else ([], st.(pos := |st.data|, failed := true))
  }

  /** An input stream over a byte buffer. */
  class InputStream {
    var state: InState

    ghost predicate Valid()
      reads this
    {
      state.Valid()
    }

    constructor (data: seq<Byte>)
      ensures Valid() && state == InState(data, 0, false)
    {
      state := InState(data, 0, false);
    }

    method ReadToken() returns (token: string)
      requires Valid()
      modifies this
      ensures Valid()
      ensures (token, state) == ExtractToken(old(state))
    {
      token, state := ExtractToken(state).0, ExtractToken(state).1;
    }

    method ReadInt() returns (value: int)
      requires Valid()
      modifies this
      ensures Valid()
      ensures (value, state) == ExtractInt(old(state))
    {
      value, state := ExtractInt(state).0, ExtractInt(state).1;
    }

    method SkipByte()
      requires Valid()
      modifies this
      ensures Valid()
      ensures state == Get(old(state))
    {
      state := Get(state);
    }

    method ReadBytes(n: nat) returns (bytes: seq<Byte>)
      requires Valid()
      modifies this
      ensures Valid()
      ensures (bytes, state) == Read(old(state), n)
    {
      bytes, state := Read(state, n).0, Read(state, n).1;
    }
  }

  /**
   * An output stream over a growing byte buffer. `bad` is a stream that refuses every write
   * (one whose file could not be opened); writing never changes it.
   */
  class OutputStream {
    var bytes: seq<Byte>
    var bad: bool

    constructor ()
      ensures bytes == [] && !bad
    {
      bytes := [];
      bad := false;
    }

    /** `stream << text`: appended on a good stream, ignored on a bad one. */
    method WriteText(text: string)
      requires IsAscii(text)
      modifies this
      ensures bad == old(bad)
      ensures bytes == if bad then old(bytes) else old(bytes) + AsciiBytes(text)
    {
      if !bad {
        bytes := bytes + AsciiBytes(text);
      }
    }

    /** `stream.write(buffer, n)`: reports whether the bytes were accepted. */
    method WriteBytes(data: seq<Byte>) returns (ok: bool)
      modifies this
      ensures bad == old(bad) && ok == !bad
      ensures bytes == if bad then old(bytes) else old(bytes) + data
    {
      ok := !bad;
      if ok {
        bytes := bytes + data;
      }
    }
  }
}
