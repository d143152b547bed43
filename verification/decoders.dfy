/**
 The cursor decoders of consumer.go. Each takes the whole buffer and the
 current position; Go passes the position by pointer, the model returns the
 new position alongside the value and the error.
 */
module Decoders {
  import opened Wrappers
  import opened GoTypes

  /**
   `IsDivisibleBy(n, d)` tests `n % d == 0` with Go's truncating remainder.
   Go panics on a zero divisor, so callers must pass `d != 0`.
   */
  function IsDivisibleBy(n: int, divisibleBy: int): (r: bool)
    requires divisibleBy != 0
    ensures r <==> n % divisibleBy == 0
  {
    var rem := Rem(n, divisibleBy);
    RemZeroIffEuclideanModZero(n, divisibleBy);
    rem == 0
  }

  datatype DecodeError =
    | NotEnoughBytesForInt
    | NotEnoughBytesForByteArray
    | NotEnoughBytesForString
    | NotEnoughBytesForBool

  /**
   What a decoder hands back: the returned value, the cursor after the call
   and the returned error (`None` for Go's `nil`).
   */
  datatype Decoded<+T> = Decoded(value: T, position: nat, error: Option<DecodeError>) {
    predicate Ok() {
      error.None?
    }
  }

  /** `"nil"`, which `GetString` returns together with its error. */
  const NilText: GoString := Text("nil")

  /** Reads one byte as an integer in 0..255. */
  function GetInt(data: seq<byte>, pos: nat): (r: Decoded<int>)
    ensures r.Ok() <==> pos < |data|
    ensures r.Ok() ==> r.value == data[pos] as int && 0 <= r.value < 256 && r.position == pos + 1
    ensures !r.Ok() ==> r == Decoded(0, pos, Some(NotEnoughBytesForInt))
  {
    if pos >= |data| then
      Decoded(0, pos, Some(NotEnoughBytesForInt))
    else
      Decoded(data[pos] as int, pos + 1, None)
  }

  /** Reads one byte as a boolean: true exactly when the byte is even. */
  function GetBool(data: seq<byte>, pos: nat): (r: Decoded<bool>)
    ensures r.Ok() <==> pos < |data|
    ensures r.Ok() ==> (r.value <==> data[pos] as int % 2 == 0) && r.position == pos + 1
    ensures !r.Ok() ==> r == Decoded(false, pos, Some(NotEnoughBytesForBool))
  {
    if pos >= |data| then
      Decoded(false, pos, Some(NotEnoughBytesForBool))
    else if IsDivisibleBy(data[pos] as int, 2) then
      Decoded(true, pos + 1, None)
    else
      Decoded(false, pos + 1, None)
  }

  /**
   Reads `L = data[pos]` and returns the `L` bytes that start AT the length
   byte, so the length byte is the first byte of a non-empty result, and
   moves the cursor by `L`. A slice that would end exactly at the end of the
   buffer is rejected.
   */
  function GetBytes(data: seq<byte>, pos: nat): (r: Decoded<seq<byte>>)
    ensures r.Ok() <==> pos < |data| && pos + data[pos] as int < |data|
    ensures r.Ok() ==>
              var length := data[pos] as int;
              && r.value == data[pos..pos + length]
              && |r.value| == length
              && (length > 0 ==> r.value[0] == data[pos])
              && r.position == pos + length < |data|
    ensures !r.Ok() ==> r == Decoded([], pos, Some(NotEnoughBytesForByteArray))
  {
    if pos >= |data| then
      Decoded([], pos, Some(NotEnoughBytesForByteArray))
    else
      var length := data[pos] as int;
      if pos + length >= |data| then
        Decoded([], pos, Some(NotEnoughBytesForByteArray))
      else
        Decoded(data[pos..pos + length], pos + length, None)
  }

  /**
   The same slicing as `GetBytes`, converted to a string; on failure it
   returns the text "nil" rather than an empty string.
   */
  function GetString(data: seq<byte>, pos: nat): (r: Decoded<GoString>)
    ensures r.Ok() <==> GetBytes(data, pos).Ok()
    ensures r.position == GetBytes(data, pos).position
    ensures r.Ok() ==> r.value == GetBytes(data, pos).value
    ensures !r.Ok() ==> r.value == NilText && r.error == Some(NotEnoughBytesForString)
  {
    if pos >= |data| then
      Decoded(NilText, pos, Some(NotEnoughBytesForString))
    else
      var length := data[pos] as int;
      if pos + length >= |data| then
        Decoded(NilText, pos, Some(NotEnoughBytesForString))
      else
        Decoded(data[pos..pos + length], pos + length, None)
  }

  // ---------------------------------------------------------------------
  // Properties relating the decoders to the bytes they read
  // ---------------------------------------------------------------------

  /** Every decoder consumes at most what remains: the cursor stays within the buffer. */
  lemma DecodersStayInBounds(data: seq<byte>, pos: nat)
    requires pos <= |data|
    ensures pos <= GetInt(data, pos).position <= |data|
    ensures pos <= GetBool(data, pos).position <= |data|
    ensures pos <= GetBytes(data, pos).position <= |data|
    ensures pos <= GetString(data, pos).position <= |data|
  {
  }

  /** A byte placed at the cursor is read back by `GetInt`. */
  lemma GetIntReadsByte(prefix: seq<byte>, b: byte, suffix: seq<byte>)
    ensures GetInt(prefix + [b] + suffix, |prefix|) == Decoded(b as int, |prefix| + 1, None)
  {
  }

  /** An even byte for true, an odd one for false. */
  function EncodeBool(b: bool): (r: byte)
    ensures (r as int % 2 == 0) <==> b
  {
    if b then 0 else 1
  }

  /** `GetBool` inverts `EncodeBool`. */
  lemma GetBoolReadsEncodedBool(prefix: seq<byte>, b: bool, suffix: seq<byte>)
    ensures GetBool(prefix + [EncodeBool(b)] + suffix, |prefix|) == Decoded(b, |prefix| + 1, None)
  {
  }

  /** `GetBool` reads the same byte `GetInt` would, and reports its parity. */
  lemma GetBoolIsParityOfGetInt(data: seq<byte>, pos: nat)
    ensures GetBool(data, pos).Ok() <==> GetInt(data, pos).Ok()
    ensures GetBool(data, pos).position == GetInt(data, pos).position
    ensures GetBool(data, pos).Ok() ==> (GetBool(data, pos).value <==> GetInt(data, pos).value % 2 == 0)
  {
  }

  /**
   A chunk whose first byte is its own length, followed by at least one more
   byte, is read back whole by `GetBytes`, and the cursor lands on the
   chunk's end.
   */
  lemma GetBytesReadsChunk(prefix: seq<byte>, chunk: seq<byte>, suffix: seq<byte>)
    requires |chunk| > 0 && chunk[0] as int == |chunk|
    requires |suffix| > 0
    ensures GetBytes(prefix + chunk + suffix, |prefix|) == Decoded(chunk, |prefix| + |chunk|, None)
  {
  }

  /** The same chunk at the very end of the buffer is rejected. */
  lemma GetBytesRejectsChunkAtEnd(prefix: seq<byte>, chunk: seq<byte>)
    requires |chunk| > 0 && chunk[0] as int == |chunk|
    ensures GetBytes(prefix + chunk, |prefix|) == Decoded([], |prefix|, Some(NotEnoughBytesForByteArray))
  {
  }

  /** A zero length byte yields an empty slice and leaves the cursor where it was. */
  lemma GetBytesZeroLength(data: seq<byte>, pos: nat)
    requires pos < |data| && data[pos] == 0
    ensures GetBytes(data, pos) == Decoded([], pos, None)
  {
  }

  /**
   On the buffer `[L, p0, ..., p(L-1), x]` a length-prefixed reader would
   return the payload `p0..p(L-1)` and move past it to `L + 1`. `GetBytes`
   instead returns the length byte followed by the first `L - 1` payload
   bytes and stops at `L`, on the payload's last byte.
   */
  lemma GetBytesKeepsLengthByte(payload: seq<byte>, x: byte)
    requires 0 < |payload| < 256
    ensures var length := |payload| as byte;
            GetBytes([length] + payload + [x], 0)
            == Decoded([length] + payload[..|payload| - 1], |payload|, None)
  {
    var length := |payload| as byte;
    var data := [length] + payload + [x];
    assert data[0..|payload|] == [length] + payload[..|payload| - 1];
  }
}
