/**
 * common/binaryio.hpp: `read_binary<T>` and `write_binary<T>` move the raw bytes of an unsigned
 * integer of `sizeof(T)` bytes between a stream and a value. The host is taken to be
 * little-endian, so the byte image of a value is its little-endian encoding. The program
 * instantiates them with `uint8_t`, `uint16_t` and `uint32_t`, so widths go up to 4 bytes.
 */
module BinaryIo {
  import opened Results
  import opened Streams

  const READ_ERROR: string := "Error reading binary data"
  const WRITE_ERROR: string := "Failed to write binary data."

  /** The byte widths of the unsigned types the program reads and writes. */
  predicate IsWidth(width: nat) {
    width <= 4
  }

  /** 256^width: the number of values of an unsigned integer of `width` bytes. */
  function Limit(width: nat): (r: nat)
    requires IsWidth(width)
    ensures r >= 1
  {
    match width
    case 0 => 1
    case 1 => 0x100
    case 2 => 0x1_0000
    case 3 => 0x100_0000
    case 4 => 0x1_0000_0000
  }

  /** Splitting off the low byte of a value below 256^(width+1). */
  lemma LowByte(v: nat, width: nat)
    requires width < 4 && v < Limit(width + 1)
    ensures v / 0x100 < Limit(width)
    ensures v == v % 0x100 + 0x100 * (v / 0x100)
  {
  }

  /** The little-endian byte image of `v` in `width` bytes. */
  function LittleEndian(v: nat, width: nat): (bytes: seq<Byte>)
    requires IsWidth(width) && v < Limit(width)
    ensures |bytes| == width
  {
    if width == 0 then []
    else
      LowByte(v, width - 1);
      [v % 0x100] + LittleEndian(v / 0x100, width - 1)
  }

  /** The unsigned value whose little-endian byte image is `bytes`. */
  function FromLittleEndian(bytes: seq<Byte>): (v: nat)
    requires IsWidth(|bytes|)
    ensures v < Limit(|bytes|)
  {
    if bytes == [] then 0 else bytes[0] + 0x100 * FromLittleEndian(bytes[1..])
  }

  /** The low byte and the remaining bytes of `low + 256 * high`. */
  lemma DivModByte(low: nat, high: nat)
    requires low < 0x100
    ensures (low + 0x100 * high) % 0x100 == low
    ensures (low + 0x100 * high) / 0x100 == high
  {
  }

  /** Decoding an encoded value gives the value back. */
  lemma {:induction false} FromLittleEndianOfLittleEndian(v: nat, width: nat)
    requires IsWidth(width) && v < Limit(width)
    ensures FromLittleEndian(LittleEndian(v, width)) == v
  {
    if width > 0 {
      LowByte(v, width - 1);
      var q := v / 0x100;
      FromLittleEndianOfLittleEndian(q, width - 1);
      var bytes := LittleEndian(v, width);
      assert bytes[1..] == LittleEndian(q, width - 1);
      assert FromLittleEndian(bytes) == v % 0x100 + 0x100 * FromLittleEndian(bytes[1..]);
    }
  }

  /** Encoding a decoded byte sequence gives the bytes back. */
  lemma {:induction false} LittleEndianOfFromLittleEndian(bytes: seq<Byte>)
    requires IsWidth(|bytes|)
    ensures LittleEndian(FromLittleEndian(bytes), |bytes|) == bytes
  {
    if bytes != [] {
      var rest := FromLittleEndian(bytes[1..]);
      LittleEndianOfFromLittleEndian(bytes[1..]);
      var v := FromLittleEndian(bytes);
      DivModByte(bytes[0], rest);
      assert v % 0x100 == bytes[0];
    }
  }

  /**
   * What `read_binary` does to a stream: the value of the next `width` bytes, or the
   * "Error reading binary data" exception when the stream has failed or too few bytes remain.
   */
  function ReadBinaryF(st: InState, width: nat): (r: (Result<nat>, InState))
    requires st.Valid() && IsWidth(width)
    ensures r.1.Valid() && r.1.data == st.data
    ensures r.0.Ok? ==> r.0.value < Limit(width)
    ensures !st.failed && st.pos + width <= |st.data| ==>
              r.0 == Ok(FromLittleEndian(st.data[st.pos..st.pos + width])) && r.1 == st.(pos := st.pos + width)
    ensures st.failed || st.pos + width > |st.data| ==> r.0 == Err(READ_ERROR) && r.1.failed
  {
    var (bytes, next) := Read(st, width);
    if next.failed then (Err(READ_ERROR), next) else (Ok(FromLittleEndian(bytes)), next)
  }

  /** `read_binary<T>(input)` with `sizeof(T) == width`. */
  method ReadBinary(input: InputStream, width: nat) returns (r: Result<nat>)
    requires input.Valid() && IsWidth(width)
    modifies input
    ensures input.Valid()
    ensures (r, input.state) == ReadBinaryF(old(input.state), width)
  {
    var bytes := input.ReadBytes(width);
    if input.state.failed {
      r := Err(READ_ERROR);
    } else {
      r := Ok(FromLittleEndian(bytes));
    }
  }

  /**
   * `write_binary<T>(output, value)` with `sizeof(T) == width`: appends exactly `width` bytes,
   * or throws "Failed to write binary data." on a stream that refuses the write.
   */
  method WriteBinary(output: OutputStream, value: nat, width: nat) returns (outcome: Outcome)
    requires IsWidth(width) && value < Limit(width)
    modifies output
    ensures output.bad == old(output.bad)
    ensures outcome == if output.bad then Fail(WRITE_ERROR) else Pass
    ensures output.bytes == if output.bad then old(output.bytes) else old(output.bytes) + LittleEndian(value, width)
  {
    var ok := output.WriteBytes(LittleEndian(value, width));
    outcome := if ok then Pass else Fail(WRITE_ERROR);
  }

  /** Reading back, at the same position, what `write_binary` appended yields the written value. */
  lemma ReadBinaryAfterWrite(before: seq<Byte>, value: nat, width: nat, after: seq<Byte>)
    requires IsWidth(width) && value < Limit(width)
    ensures var data := before + LittleEndian(value, width) + after;
            ReadBinaryF(InState(data, |before|, false), width) == (Ok(value), InState(data, |before| + width, false))
  {
    var data := before + LittleEndian(value, width) + after;
    assert data[|before|..|before| + width] == LittleEndian(value, width);
    FromLittleEndianOfLittleEndian(value, width);
  }
}
