/** The payload layout shared by `pickPoint`/`data` in
    crypto/edwards/curve.go and `Pick`/`Data` in
    crypto/edwards/ed25519/point.go: byte 0 of the little-endian point
    buffer holds the payload length dl, bytes 1..dl the payload, and the
    remaining bytes come from the randomness stream. */
module Embedding {
  import opened Wrappers
  import opened Bytes

  /** `dl`: min(pickLen, len(data)); a nil payload has length 0. */
  function EmbedLen(pickLen: nat, data: Option<seq<byte>>): (dl: nat)
    ensures dl <= pickLen
    ensures data.None? ==> dl == 0
    ensures data.Some? ==> dl <= |data.value|
    ensures data.Some? && |data.value| <= pickLen ==> dl == |data.value|
    ensures data.Some? && |data.value| >= pickLen ==> dl == pickLen
  {
    var n := if data.Some? then |data.value| else 0;
    if pickLen > n then n else pickLen
  }

  /** `data[dl:]`, the payload left over; nil stays nil (modelled as empty). */
  function Leftover(pickLen: nat, data: Option<seq<byte>>): (rest: seq<byte>)
    ensures data.None? ==> rest == []
    ensures data.Some? ==> data.value[..EmbedLen(pickLen, data)] + rest == data.value
  {
    if data.Some? then data.value[EmbedLen(pickLen, data)..] else []
  }

  /** The candidate buffer: the random block, overwritten (for non-nil data)
      with the length byte `byte(dl)` and then the first dl payload bytes. */
  function Embed(pickLen: nat, data: Option<seq<byte>>, block: seq<byte>): (b: seq<byte>)
    requires pickLen < |block|
    ensures |b| == |block|
    ensures data.None? ==> b == block
    ensures data.Some? ==> b[0] == Truncate(EmbedLen(pickLen, data))
    ensures data.Some? ==> forall i :: 1 <= i <= EmbedLen(pickLen, data) ==> b[i] == data.value[i - 1]
    ensures forall i :: 1 + EmbedLen(pickLen, data) <= i < |b| ==> b[i] == block[i]
  {
    if data.None? then block
    else
      var dl := EmbedLen(pickLen, data);
      [Truncate(dl)] + data.value[..dl] + block[1 + dl..]
  }

  /** Reading the payload back: the length byte, checked against pickLen,
      then that many bytes. A negative pickLen rejects every buffer. */
  function Extract(pickLen: int, b: seq<byte>): (r: Result<seq<byte>>)
    requires |b| > 0 && pickLen < |b|
    ensures r.Err? <==> b[0] as int > pickLen
    ensures r.Ok? ==> |r.value| == b[0] as int
    ensures r.Ok? ==> forall i :: 0 <= i < |r.value| ==> r.value[i] == b[1 + i]
  {
    var dl := b[0] as int;
    if dl > pickLen then Err("invalid embedded data length")
    else Ok(b[1..1 + dl])
  }

  /** Extraction undoes embedding on the first pickLen + 1 bytes: a buffer
      that agrees with the candidate there yields exactly the dl payload
      bytes, which with the leftover make up the whole payload. Needs the
      length to fit its byte (pickLen < 256). */
  lemma EmbedExtract(pickLen: nat, d: seq<byte>, block: seq<byte>, b: seq<byte>)
    requires pickLen < |block| && pickLen < 256
    requires |b| == |block|
    requires forall i :: 0 <= i <= pickLen ==> b[i] == Embed(pickLen, Some(d), block)[i]
    ensures var dl := EmbedLen(pickLen, Some(d));
            && Extract(pickLen, b) == Ok(d[..dl])
            && d[..dl] + Leftover(pickLen, Some(d)) == d
  {
    var dl := EmbedLen(pickLen, Some(d));
    assert b[0] == Truncate(dl);
    assert b[0] as int == dl;
    assert Extract(pickLen, b).value == d[..dl];
  }
}
