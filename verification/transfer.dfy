/** The transfer wire format written by `send_image`: an 8-byte header (width
    and height as little-endian unsigned 32-bit integers) followed by the packed
    payload, cut into a first packet of at most 500 bytes and then 500-byte chunks. */
module Transfer {
  import opened Bytes
  import opened Sequences
  import opened Wrappers
  import opened Grayscale

  /** Bytes taken by the header `struct.pack('<II', width, height)`. */
  const HeaderSize: nat := 8
  /** `chunk_size`: the largest write the sender makes (the BLE MTU it assumes). */
  const ChunkSize: nat := 500
  /** Payload bytes carried by the first packet beside the header (500 - 8). */
  const FirstPayloadSize: nat := 492

  /** `struct.error`: a header field outside the unsigned 32-bit range. */
  datatype SendError = StructError

  function Min(a: nat, b: nat): nat {
    if a <= b then a else b
  }

  /** Reference decoder for the header: width from bytes 0-3, height from bytes 4-7. */
  function DecodeHeader(header: seq<byte>): (dims: (int, int))
    requires |header| == HeaderSize
    ensures IsU32(dims.0) && IsU32(dims.1)
  {
    (DecodeU32(header[..4]), DecodeU32(header[4..]))
  }

  /** `struct.pack('<II', width, height)`, which raises for a value outside [0, 2^32). */
  function EncodeHeader(width: int, height: int): (r: Result<seq<byte>, SendError>)
    ensures r.Success? <==> IsU32(width) && IsU32(height)
    ensures r.Success? ==> |r.value| == HeaderSize && DecodeHeader(r.value) == (width, height)
  {
    if IsU32(width) && IsU32(height) then
      var header := EncodeU32(width) + EncodeU32(height);
      assert header[..4] == EncodeU32(width) && header[4..] == EncodeU32(height);
      DecodeEncodeU32(width);
      DecodeEncodeU32(height);
      Success(header)
    else
      Failure(StructError)
  }

  /** Every 8 bytes are the header of exactly one pair of dimensions. */
  lemma EncodeDecodeHeader(header: seq<byte>)
    requires |header| == HeaderSize
    ensures EncodeHeader(DecodeHeader(header).0, DecodeHeader(header).1) == Success(header)
  {
    EncodeDecodeU32(header[..4]);
    EncodeDecodeU32(header[4..]);
    assert header == header[..4] + header[4..];
  }

  /** `header + image_bytes[:492]`: the header and the start of the payload. */
  function FirstPacket(header: seq<byte>, payload: seq<byte>): (p: seq<byte>)
  {
    header + payload[..Min(FirstPayloadSize, |payload|)]
  }

  /** `image_bytes[492:]`: the payload that the first packet does not carry. */
  function Remaining(payload: seq<byte>): (rest: seq<byte>)
  {
    payload[Min(FirstPayloadSize, |payload|)..]
  }

  /** The first packet never exceeds a chunk, starts with the header, and together
      with the remaining data gives back the header followed by the payload. */
  lemma FirstPacketSplit(header: seq<byte>, payload: seq<byte>)
    requires |header| == HeaderSize
    ensures |FirstPacket(header, payload)| <= ChunkSize
    ensures FirstPacket(header, payload)[..HeaderSize] == header
    ensures |payload| >= FirstPayloadSize ==> |FirstPacket(header, payload)| == ChunkSize
    ensures FirstPacket(header, payload) + Remaining(payload) == header + payload
  {
    var n := Min(FirstPayloadSize, |payload|);
    assert payload == payload[..n] + payload[n..];
  }

  /** `remaining_data[i:i + 500]` for `i` in `range(0, len(remaining_data), 500)`. */
  function Chunks(data: seq<byte>): (cs: seq<seq<byte>>)
    decreases |data|
  {
    if data == [] then []
    else
      var n := Min(ChunkSize, |data|);
      [data[..n]] + Chunks(data[n..])
  }

  /** The chunks, concatenated in order, are the data. */
  lemma {:induction false} ChunksConcat(data: seq<byte>)
    ensures Concat(Chunks(data)) == data
    decreases |data|
  {
    if data != [] {
      var n := Min(ChunkSize, |data|);
      var cs := Chunks(data);
      assert cs[1..] == Chunks(data[n..]);
      ChunksConcat(data[n..]);
      assert data == data[..n] + data[n..];
    }
  }

  /** No chunk is empty or longer than 500 bytes, and all but the last are exactly 500. */
  lemma {:induction false} ChunksSizes(data: seq<byte>)
    ensures forall k :: 0 <= k < |Chunks(data)| ==>
      0 < |Chunks(data)[k]| <= ChunkSize &&
      (k < |Chunks(data)| - 1 ==> |Chunks(data)[k]| == ChunkSize)
    decreases |data|
  {
    if data != [] {
      var n := Min(ChunkSize, |data|);
      var cs := Chunks(data);
      ChunksSizes(data[n..]);
      assert cs[1..] == Chunks(data[n..]);
      if |cs| > 1 {
        assert data[n..] != [];
        assert n == ChunkSize;
      }
    }
  }

  /** `total_chunks = (len(remaining_data) + 500 - 1) // 500` is the number of chunks. */
  lemma {:induction false} ChunksCount(data: seq<byte>)
    ensures |Chunks(data)| == (|data| + ChunkSize - 1) / ChunkSize
    decreases |data|
  {
    if data != [] {
      var n := Min(ChunkSize, |data|);
      ChunksCount(data[n..]);
    }
  }

  /** The chunks of `data` from offset `i` on: the slice `data[i:i + 500]`, then the chunks after it. */
  lemma ChunksFrom(data: seq<byte>, i: nat)
    requires i < |data|
    ensures Chunks(data[i..]) ==
      [data[i..Min(i + ChunkSize, |data|)]] + Chunks(data[Min(i + ChunkSize, |data|)..])
  {
    var rest := data[i..];
    var n := Min(ChunkSize, |rest|);
    assert rest[..n] == data[i..Min(i + ChunkSize, |data|)];
    assert rest[n..] == data[Min(i + ChunkSize, |data|)..];
  }

  /** At the default size of 300 x 396 the payload is 59400 bytes: a full first
      packet, then 118 chunks, and 59408 bytes in all. */
  lemma DefaultSizeTransfer(header: seq<byte>, payload: seq<byte>)
    requires |header| == HeaderSize
    requires |payload| == TargetHeight * (TargetWidth / 2)
    ensures |payload| == 59400
    ensures |FirstPacket(header, payload)| == ChunkSize
    ensures |Chunks(Remaining(payload))| == 118
    ensures |header| + |payload| == 59408
  {
    FirstPacketSplit(header, payload);
    ChunksCount(Remaining(payload));
  }

  /** One write after the first packet: its number, counted from 1, and its bytes. */
  datatype Chunk = Chunk(number: nat, data: seq<byte>)

  /** What `send_image` hands to the link and reports: the first packet, the
      numbered chunks, the announced chunk count and the total size. */
  datatype Transmission = Transmission(
    firstPacket: seq<byte>, chunks: seq<Chunk>, totalChunks: nat, totalSize: nat)

  function ChunkData(chunks: seq<Chunk>): (ds: seq<seq<byte>>)
    ensures |ds| == |chunks|
  {
    seq(|chunks|, k requires 0 <= k < |chunks| => chunks[k].data)
  }

  /** The bytes that cross the link, in order. */
  function Stream(t: Transmission): seq<byte> {
    t.firstPacket + Concat(ChunkData(t.chunks))
  }

  /** A transmission made of the first packet and the chunks of the remaining data
      carries the header and the whole payload, and counts its chunks correctly. */
  lemma TransmissionCarriesPayload(header: seq<byte>, payload: seq<byte>, t: Transmission)
    requires |header| == HeaderSize
    requires t.firstPacket == FirstPacket(header, payload)
    requires ChunkData(t.chunks) == Chunks(Remaining(payload))
    requires t.totalChunks == (|Remaining(payload)| + ChunkSize - 1) / ChunkSize
    ensures |t.firstPacket| <= ChunkSize
    ensures Stream(t) == header + payload
    ensures t.totalChunks == |t.chunks|
  {
    ChunksCount(Remaining(payload));
    ChunksConcat(Remaining(payload));
    FirstPacketSplit(header, payload);
  }

  /** The loop of `send_image` over the remaining data: chunk `k` (numbered `k + 1`)
      is the slice `remaining_data[500 * k:500 * k + 500]`. */
  method SendChunks(remaining: seq<byte>) returns (sent: seq<Chunk>)
    ensures ChunkData(sent) == Chunks(remaining)
    ensures forall k :: 0 <= k < |sent| ==> sent[k].number == k + 1
  {
    sent := [];
    var i := 0;
    while i < |remaining|
      invariant i == |sent| * ChunkSize
      invariant ChunkData(sent) + Chunks(remaining[Min(i, |remaining|)..]) == Chunks(remaining)
      invariant forall k :: 0 <= k < |sent| ==> sent[k].number == k + 1
      decreases |remaining| - i
    {
      var chunk := remaining[i..Min(i + ChunkSize, |remaining|)];
      var chunkNum := i / ChunkSize + 1;
      SendChunksStep(remaining, sent, i, Chunk(chunkNum, chunk));
      sent := sent + [Chunk(chunkNum, chunk)];
      i := i + ChunkSize;
    }
  }

  /** One step of the chunk loop: sending the slice at offset `i` keeps the chunks
      sent so far followed by the chunks still to send equal to all the chunks. */
  lemma SendChunksStep(remaining: seq<byte>, sent: seq<Chunk>, i: nat, c: Chunk)
    requires i < |remaining|
    requires ChunkData(sent) + Chunks(remaining[i..]) == Chunks(remaining)
    requires c.data == remaining[i..Min(i + ChunkSize, |remaining|)]
    ensures ChunkData(sent + [c]) + Chunks(remaining[Min(i + ChunkSize, |remaining|)..]) ==
      Chunks(remaining)
  {
    ChunksFrom(remaining, i);
    ChunkDataAppend(sent, c);
  }

  lemma ChunkDataAppend(chunks: seq<Chunk>, c: Chunk)
    ensures ChunkData(chunks + [c]) == ChunkData(chunks) + [c.data]
  {
  }

  /** The slicing and accounting of `send_image`, with the writes to the link
      (commented out in the source), the pauses and the progress messages left out. */
  method SendImage(imageData: seq<byte>, width: int, height: int)
    returns (r: Result<Transmission, SendError>)
    ensures r.Success? <==> IsU32(width) && IsU32(height)
    ensures r.Success? ==>
      var t := r.value;
      var header := EncodeHeader(width, height).value;
      t.firstPacket == FirstPacket(header, imageData) &&
      ChunkData(t.chunks) == Chunks(Remaining(imageData)) &&
      |t.firstPacket| <= ChunkSize &&
      Stream(t) == header + imageData &&
      t.totalChunks == |t.chunks| &&
      (forall k :: 0 <= k < |t.chunks| ==> t.chunks[k].number == k + 1) &&
      t.totalSize == |imageData| + HeaderSize
  {
    var encoded := EncodeHeader(width, height);
    if encoded.Failure? {
      return Failure(encoded.error);
    }
    var header := encoded.value;
    var imageBytes := imageData;
    var firstPacket := header + imageBytes[..Min(FirstPayloadSize, |imageBytes|)];
    var remaining := imageBytes[Min(FirstPayloadSize, |imageBytes|)..];
    var totalChunks := (|remaining| + ChunkSize - 1) / ChunkSize;
    var sent := SendChunks(remaining);
    var t := Transmission(firstPacket, sent, totalChunks, |imageBytes| + |header|);
    TransmissionCarriesPayload(header, imageData, t);
    return Success(t);
  }

  /** The bytes the sender puts on the link for a `width` x `height` gray image
      decode, with the reference decoders, to the dimensions and the quantised image. */
  lemma WireFormatRoundTrip(gray: seq<seq<byte>>, width: nat, height: nat)
    requires IsGrid(gray, width, height) && width % 2 == 0
    requires IsU32(width) && IsU32(height)
    ensures IsPackable(Quantize(gray))
    ensures var stream := EncodeHeader(width, height).value + PackImage(Quantize(gray));
      |stream| == HeaderSize + GridSize(height, width / 2) == HeaderSize + height * (width / 2) &&
      DecodeHeader(stream[..HeaderSize]) == (width, height) &&
      UnpackImage(stream[HeaderSize..], width, height) == Quantize(gray)
  {
    var q := Quantize(gray);
    var header := EncodeHeader(width, height).value;
    UnpackPackImage(q, width);
    GridSizeIsProduct(height, width / 2);
    var stream := header + PackImage(q);
    assert stream[..HeaderSize] == header;
    assert stream[HeaderSize..] == PackImage(q);
  }
}
