/**
 * client.py: receives the server's public key, encrypts the first 20 bytes
 * of a JPEG file with it and sends the image as
 *   '!I' name length, ASCII name, '!I' body length, body in 4096-byte chunks.
 */
module Client {
  import opened Wire
  import opened Transport

  /** `BUFFER_SIZE`: the largest chunk `send_image` writes at once. */
  const BufferSize: nat := 4096

  /** The prefix of the file that is encrypted (an assumed JPEG header). */
  const JpegHeaderSize: nat := 20

  /** `get_jpeg_image_header(image)`: `(image[0:20], image[20:])`. Python
      slicing clamps, so a file shorter than 20 bytes is all header. */
  function JpegImageHeader(image: seq<byte>): (r: (seq<byte>, seq<byte>))
    ensures r.0 + r.1 == image
    ensures |r.0| == if |image| < JpegHeaderSize then |image| else JpegHeaderSize
  {
    if |image| <= JpegHeaderSize then (image, []) else (image[..JpegHeaderSize], image[JpegHeaderSize..])
  }

  /** `receive_key_size(sock)`: calls `recv(length)` until `HEADER.size`
      bytes have arrived and joins the blocks. The loop never ends if the
      server closes first (every later block is empty), so the server must
      send at least four bytes. */
  method ReceiveKeySize(sock: Socket) returns (size: seq<byte>)
    requires sock.Valid() && HeaderSize <= |sock.Stream()|
    modifies sock
    ensures sock.Valid() && sock.outbox == old(sock.outbox)
    ensures |size| == HeaderSize
    ensures size == old(sock.Stream())[..HeaderSize]
    ensures sock.inbox == Drop(old(sock.inbox), HeaderSize)
  {
    ghost var start := sock.inbox;
    var blocks: seq<seq<byte>> := [];
    var length: int := HeaderSize;
    while length != 0
      invariant 0 <= length <= HeaderSize
      invariant sock.Valid() && sock.outbox == old(sock.outbox)
      invariant |Joined(blocks)| + length == HeaderSize
      invariant Joined(blocks) == Joined(start)[..HeaderSize - length]
      invariant sock.inbox == Drop(start, HeaderSize - length)
      decreases length
    {
      ghost var before := sock.inbox;
      var block := sock.Recv(length);
      DeliverDrops(before, length);
      DropDrop(start, HeaderSize - length, |block|);
      WellFormedEmpty(before);
      assert Joined(start)[HeaderSize - length..][..|block|] == block;
      length := length - |block|;
      JoinedAppend(blocks, block);
      blocks := blocks + [block];
    }
    size := Joined(blocks);
  }

  /** The key read of `receive_public_key`: after the 4-byte size, a single
      `recv(key_size)`. It returns at most `key_size` bytes, the next ones on
      the stream, and at least one when there are any and `key_size > 0`. */
  function KeyRead(inbox: seq<seq<byte>>): (d: Delivery)
    requires HeaderSize <= |Joined(inbox)|
    ensures |d.block| <= Unpack(Joined(inbox)[..HeaderSize])
    ensures Joined(inbox) == Joined(inbox)[..HeaderSize] + d.block + Joined(d.rest)
    ensures WellFormed(inbox) ==> WellFormed(d.rest)
    ensures WellFormed(inbox) && HeaderSize < |Joined(inbox)| && Unpack(Joined(inbox)[..HeaderSize]) > 0 ==> d.block != []
  {
    Deliver(Drop(inbox, HeaderSize), Unpack(Joined(inbox)[..HeaderSize]))
  }

  /** The single `recv` does not wait for the whole key: here the server
      has sent a 2-byte key in two segments and only the first arrives. */
  lemma KeyMayBeShort()
    ensures var inbox := [[0, 0, 0, 2], [65], [66]];
            Joined(inbox) == [0, 0, 0, 2, 65, 66] && KeyRead(inbox).block == [65]
  {
    var inbox: seq<seq<byte>> := [[0, 0, 0, 2], [65], [66]];
    var tail: seq<seq<byte>> := [[66]];
    assert tail[1..] == [] && Joined(tail) == [66];
    assert inbox[1..][1..] == tail && Joined(inbox[1..]) == [65, 66];
    assert Joined(inbox) == [0, 0, 0, 2, 65, 66];
    assert Drop(inbox, HeaderSize) == [[65], [66]] by {
      assert Drop(inbox[1..], 0) == inbox[1..];
    }
    assert Unpack([0, 0, 0, 2]) == 2;
  }

  /** `receive_public_key(sock)`, up to the key bytes handed to
      `load_pem_public_key`. */
  method ReceivePublicKey(sock: Socket) returns (key: seq<byte>)
    requires sock.Valid() && HeaderSize <= |sock.Stream()|
    modifies sock
    ensures sock.Valid() && sock.outbox == old(sock.outbox)
    ensures key == KeyRead(old(sock.inbox)).block
    ensures sock.inbox == KeyRead(old(sock.inbox)).rest
  {
    var size := ReceiveKeySize(sock);
    var keySize := Unpack(size);
    key := sock.Recv(keySize);
  }

  /** The chunks the `send_image` loop writes for a body: full
      `BUFFER_SIZE` slices while at least that much remains, then the rest. */
  function Chunks(body: seq<byte>): (chunks: seq<seq<byte>>)
    ensures Joined(chunks) == body
    decreases |body|
  {
    if body == [] then
      []
    else if |body| >= BufferSize then
      var chunks := [body[..BufferSize]] + Chunks(body[BufferSize..]);
      assert chunks[1..] == Chunks(body[BufferSize..]);
      chunks
    else
      [body]
  }

  /** Every chunk holds between 1 and `BUFFER_SIZE` bytes, all but the last
      exactly `BUFFER_SIZE`, and there are `ceil(|body| / BUFFER_SIZE)` of
      them, never more than `|body|`. */
  lemma {:induction false} ChunkShape(body: seq<byte>)
    ensures var chunks := Chunks(body);
            (forall i :: 0 <= i < |chunks| ==> 0 < |chunks[i]| <= BufferSize)
            && (forall i :: 0 <= i < |chunks| - 1 ==> |chunks[i]| == BufferSize)
            && |chunks| == (|body| + BufferSize - 1) / BufferSize
            && |chunks| <= |body|
    decreases |body|
  {
    if |body| >= BufferSize {
      var rest := body[BufferSize..];
      ChunkShape(rest);
      var chunks := Chunks(body);
      assert chunks == [body[..BufferSize]] + Chunks(rest);
      assert forall i :: 1 <= i < |chunks| ==> chunks[i] == Chunks(rest)[i - 1];
    }
  }

  lemma ChunkPeel(rest: seq<byte>)
    requires rest != []
    ensures var k := if |rest| >= BufferSize then BufferSize else |rest|;
            Chunks(rest) == [rest[..k]] + Chunks(rest[k..])
  {
    if |rest| < BufferSize {
      assert rest[|rest|..] == [];
    }
  }

  /** The chunk that starts at `sent` is peeled off the chunking of the
      unsent suffix. */
  lemma ChunksSuffixPeel(body: seq<byte>, sent: nat, next: nat)
    requires sent < |body|
    requires next == if |body| - sent >= BufferSize then sent + BufferSize else |body|
    ensures Chunks(body[sent..]) == [body[sent..next]] + Chunks(body[next..])
  {
    var rest := body[sent..];
    ChunkPeel(rest);
    var k := next - sent;
    assert rest[..k] == body[sent..next] && rest[k..] == body[next..];
  }

  lemma ShiftChunk(done: seq<seq<byte>>, chunk: seq<byte>, later: seq<seq<byte>>, all: seq<seq<byte>>)
    requires done + ([chunk] + later) == all
    ensures (done + [chunk]) + later == all
  {
  }

  /** One turn of the send loop: moving the next chunk from the unsent
      suffix to the sent prefix keeps the two together equal to the
      chunking of the whole body. */
  lemma ChunksStep(body: seq<byte>, done: seq<seq<byte>>, sent: nat, next: nat)
    requires sent < |body| && done + Chunks(body[sent..]) == Chunks(body)
    requires next == if |body| - sent >= BufferSize then sent + BufferSize else |body|
    ensures (done + [body[sent..next]]) + Chunks(body[next..]) == Chunks(body)
  {
    ChunksSuffixPeel(body, sent, next);
    ShiftChunk(done, body[sent..next], Chunks(body[next..]), Chunks(body));
  }

  /** What `send_image` writes, one entry per `sock.send`, and what it
      returns or raises. */
  datatype Transmission = Transmission(sends: seq<seq<byte>>, outcome: Result<nat>)

  /** `send_image(byte_image, sock, image_name)`, send by send. Each
      exception stops it after the sends that precede it: a name length
      beyond '!I' before anything is sent, a non-ASCII name after the name
      length, a body length beyond '!I' after the name. */
  function ImageTransmission(byteImage: seq<byte>, imageName: string): (t: Transmission)
    ensures t.outcome.Ok? <==> |imageName| < Uint32Limit && IsAscii(imageName) && |byteImage| < Uint32Limit
    ensures t.outcome.Ok? ==> t.outcome.value == |byteImage| && |t.sends| == 3 + |Chunks(byteImage)|
    ensures t.outcome.Err? ==> |t.sends| < 3
    ensures t.outcome == Err(UnicodeEncodeError) <==> |imageName| < Uint32Limit && !IsAscii(imageName)
  {
    match Pack(|imageName|)
    case Err(e) => Transmission([], Err(e))
    case Ok(nameHeader) =>
      match EncodeAscii(imageName)
      case Err(e) => Transmission([nameHeader], Err(e))
      case Ok(nameBytes) =>
        match Pack(|byteImage|)
        case Err(e) => Transmission([nameHeader, nameBytes], Err(e))
        case Ok(sizeHeader) => Transmission([nameHeader, nameBytes, sizeHeader] + Chunks(byteImage), Ok(|byteImage|))
  }

  /** The chunk loop of `send_image` (client.py, lines 57-77): writes
      `Chunks(byte_image)`. `sent + remaining == image_size` holds until the
      last, short chunk; `remaining` is not lowered after it, which changes
      nothing because the loop stops there. Each pass with bytes left sends
      at least one, so `range(image_size)` is always enough passes. */
  method SendBody(byteImage: seq<byte>, sock: Socket)
    modifies sock
    ensures sock.inbox == old(sock.inbox)
    ensures sock.outbox == old(sock.outbox) + Chunks(byteImage)
  {
    var imageSize := |byteImage|;
    ghost var before := sock.outbox;
    ghost var done: seq<seq<byte>> := [];
    var sent := 0;
    var remaining := imageSize;
    for i := 0 to imageSize
      invariant 0 <= sent <= imageSize && 0 <= remaining
      invariant sent < imageSize ==> remaining == imageSize - sent
      invariant sent == imageSize || i <= sent
      invariant sock.inbox == old(sock.inbox)
      invariant sock.outbox == before + done
      invariant done + Chunks(byteImage[sent..]) == Chunks(byteImage)
    {
      if sent >= imageSize {
        break;
      }
      if remaining >= BufferSize {
        ChunksStep(byteImage, done, sent, sent + BufferSize);
        sock.Send(byteImage[sent..sent + BufferSize]);
        done := done + [byteImage[sent..sent + BufferSize]];
        sent := sent + BufferSize;
        remaining := remaining - BufferSize;
      } else {
        ChunksStep(byteImage, done, sent, imageSize);
        assert byteImage[sent..] == byteImage[sent..imageSize];
        sock.Send(byteImage[sent..]);
        done := done + [byteImage[sent..]];
        sent := sent + remaining;
      }
    }
    assert byteImage[sent..] == [];
  }

  /** `send_image`: the three header sends, then the chunk loop; returns
      `len(byte_image)`. */
  method SendImage(byteImage: seq<byte>, sock: Socket, imageName: string) returns (r: Result<nat>)
    modifies sock
    ensures sock.inbox == old(sock.inbox)
    ensures sock.outbox == old(sock.outbox) + ImageTransmission(byteImage, imageName).sends
    ensures r == ImageTransmission(byteImage, imageName).outcome
  {
    var imageSize := |byteImage|;
    var nameSize := |imageName|;

    var nameHeader := Pack(nameSize);
    if nameHeader.Err? {
      return Err(nameHeader.error);
    }
    sock.Send(nameHeader.value);
    var nameBytes := EncodeAscii(imageName);
    if nameBytes.Err? {
      return Err(nameBytes.error);
    }
    sock.Send(nameBytes.value);
    var sizeHeader := Pack(imageSize);
    if sizeHeader.Err? {
      return Err(sizeHeader.error);
    }
    sock.Send(sizeHeader.value);

    SendBody(byteImage, sock);
    r := Ok(imageSize);
  }

  /** A message as the client frames it. */
  datatype Message = Message(name: string, body: seq<byte>)

  /** Reads back the client's framing: name length, name, body length and
      a body of exactly that length. This is the inverse of the bytes
      `send_image` writes (the server script of this repository belongs to
      an earlier protocol and does not read this format). */
  function DecodeImageMessage(wire: seq<byte>): Option<Message>
  {
    if |wire| < HeaderSize then None
    else
      var nameSize := Unpack(wire[..HeaderSize]);
      if |wire| < 2 * HeaderSize + nameSize then None
      else
        var name := DecodeAscii(wire[HeaderSize..HeaderSize + nameSize]);
        var bodySize := Unpack(wire[HeaderSize + nameSize..2 * HeaderSize + nameSize]);
        if name.Err? || |wire| != 2 * HeaderSize + nameSize + bodySize then None
        else Some(Message(name.value, wire[2 * HeaderSize + nameSize..]))
  }

  /** When `send_image` succeeds it writes, in order, the packed name
      length, the ASCII name, the packed body length and the body. */
  lemma ImageTransmissionWire(byteImage: seq<byte>, imageName: string)
    requires ImageTransmission(byteImage, imageName).outcome.Ok?
    ensures var t := ImageTransmission(byteImage, imageName);
            t.sends[..3] == [Pack(|imageName|).value, EncodeAscii(imageName).value, Pack(|byteImage|).value]
            && Joined(t.sends) == Pack(|imageName|).value + EncodeAscii(imageName).value + Pack(|byteImage|).value + byteImage
  {
    var t := ImageTransmission(byteImage, imageName);
    var a, b, c := Pack(|imageName|).value, EncodeAscii(imageName).value, Pack(|byteImage|).value;
    assert t.sends == [a, b, c] + Chunks(byteImage);
    JoinedConcat([a, b, c], Chunks(byteImage));
    var abc: seq<seq<byte>> := [a, b, c];
    assert abc[1..][1..][1..] == [];
    assert Joined(abc[1..][1..]) == c;
    assert Joined(abc[1..]) == b + c;
    assert Joined(abc) == a + b + c;
  }

  /** What a successful `send_image` writes decodes back to its name and
      body. */
  lemma {:induction false} DecodeTransmission(byteImage: seq<byte>, imageName: string)
    requires ImageTransmission(byteImage, imageName).outcome.Ok?
    ensures DecodeImageMessage(Joined(ImageTransmission(byteImage, imageName).sends)) == Some(Message(imageName, byteImage))
  {
    ImageTransmissionWire(byteImage, imageName);
    var a, b, c := Pack(|imageName|).value, EncodeAscii(imageName).value, Pack(|byteImage|).value;
    var wire := a + b + c + byteImage;
    var n := |imageName|;
    assert wire[..HeaderSize] == a;
    assert wire[HeaderSize..HeaderSize + n] == b;
    assert wire[HeaderSize + n..2 * HeaderSize + n] == c;
    assert wire[2 * HeaderSize + n..] == byteImage;
    DecodeEncodeAscii(imageName);
  }

  /** Every byte string the decoder accepts is exactly what a successful
      `send_image` writes for the decoded name and body: the framing is
      unambiguous. */
  lemma {:induction false} TransmissionOfDecoded(wire: seq<byte>)
    requires DecodeImageMessage(wire).Some?
    ensures var m := DecodeImageMessage(wire).value;
            ImageTransmission(m.body, m.name).outcome.Ok?
            && Joined(ImageTransmission(m.body, m.name).sends) == wire
  {
    var m := DecodeImageMessage(wire).value;
    var n := Unpack(wire[..HeaderSize]);
    var nameBytes := wire[HeaderSize..HeaderSize + n];
    EncodeDecodeAscii(nameBytes);
    PackUnpack(wire[..HeaderSize]);
    PackUnpack(wire[HeaderSize + n..2 * HeaderSize + n]);
    ImageTransmissionWire(m.body, m.name);
    assert wire == wire[..HeaderSize] + nameBytes + wire[HeaderSize + n..2 * HeaderSize + n] + m.body;
  }

  /** The body the client sends (client.py, lines 99-110): the encryption of
      the first 20 bytes under the server's key, then the rest unchanged.
      `encrypt` stands for RSA-OAEP, which is not modelled. */
  function EncryptedImage(image: seq<byte>, key: seq<byte>, encrypt: (seq<byte>, seq<byte>) -> seq<byte>): seq<byte>
  {
    var (header, body) := JpegImageHeader(image);
    encrypt(key, header) + body
  }

  /** The bytes after the ciphertext are `image[20:]` untouched, and a
      decryption that undoes the encryption of every header recovers the
      whole image from what was sent. */
  lemma EncryptedImageRecoverable(image: seq<byte>, key: seq<byte>, encrypt: (seq<byte>, seq<byte>) -> seq<byte>,
                                  decrypt: seq<byte> -> seq<byte>, cipherSize: nat)
    requires forall h :: |h| <= JpegHeaderSize ==> |encrypt(key, h)| == cipherSize && decrypt(encrypt(key, h)) == h
    ensures var sent := EncryptedImage(image, key, encrypt);
            cipherSize <= |sent|
            && sent[cipherSize..] == JpegImageHeader(image).1
            && decrypt(sent[..cipherSize]) + sent[cipherSize..] == image
  {
    var (header, body) := JpegImageHeader(image);
    var sent := encrypt(key, header) + body;
    assert |encrypt(key, header)| == cipherSize && decrypt(encrypt(key, header)) == header;
    assert sent[..cipherSize] == encrypt(key, header);
  }

  /** The client's main sequence (client.py, lines 96-111): read the public
      key, split off and encrypt the header, send the image. Parsing the key
      and the final status read are not modelled. */
  method SendEncryptedImage(sock: Socket, image: seq<byte>, imageName: string,
                            encrypt: (seq<byte>, seq<byte>) -> seq<byte>) returns (r: Result<nat>)
    requires sock.Valid() && HeaderSize <= |sock.Stream()|
    modifies sock
    ensures sock.Valid() && sock.inbox == KeyRead(old(sock.inbox)).rest
    ensures var body := EncryptedImage(image, KeyRead(old(sock.inbox)).block, encrypt);
            sock.outbox == old(sock.outbox) + ImageTransmission(body, imageName).sends
            && r == ImageTransmission(body, imageName).outcome
  {
    var key := ReceivePublicKey(sock);
    var (header, body) := JpegImageHeader(image);
    var encryptedImage := encrypt(key, header) + body;
    r := SendImage(encryptedImage, sock, imageName);
  }
}
