/**
 * server.py: an earlier generation of the protocol. Per connection it reads
 * a 4-byte '!I' image size, then the name with one `recv(100)`, then the
 * image body, renames `base.ext` to `base_server.ext` and stores a
 * non-empty image under that name.
 */
module Server {
  import opened Wire
  import opened Transport

  /** `NAME_SIZE` in `receive_name`. */
  const NameSize: nat := 100

  /** `BUFFER_SIZE` in `receive_image`. */
  const BufferSize: nat := 4096

  /** `receive_image_size(sock)`: calls `recv(length)` until `HEADER.size`
      bytes have arrived and joins the blocks. The loop never ends if the
      client closes first, so the client must send at least four bytes. */
  method ReceiveImageSize(sock: Socket) returns (size: seq<byte>)
    requires sock.Valid() && HeaderSize <= |sock.Stream()|
    modifies sock
    ensures sock.Valid() && sock.outbox == old(sock.outbox)
    ensures |size| == HeaderSize
    ensures size == old(sock.Stream())[..HeaderSize]
    ensures sock.inbox == Drop(old(sock.inbox), HeaderSize)
  {
    ghost var start := sock.inbox;
    var blocks: seq<seq<byte>> := [];
    var length: int := HeaderSize;
    while length != 0
      invariant 0 <= length <= HeaderSize
      invariant sock.Valid() && sock.outbox == old(sock.outbox)
      invariant |Joined(blocks)| + length == HeaderSize
      invariant Joined(blocks) == Joined(start)[..HeaderSize - length]
      invariant sock.inbox == Drop(start, HeaderSize - length)
      decreases length
    {
      ghost var before := sock.inbox;
      var block := sock.Recv(length);
      DeliverDrops(before, length);
      DropDrop(start, HeaderSize - length, |block|);
      WellFormedEmpty(before);
      assert Joined(start)[HeaderSize - length..][..|block|] == block;
      length := length - |block|;
      JoinedAppend(blocks, block);
      blocks := blocks + [block];
    }
    size := Joined(blocks);
  }

  /** `receive_name(sock)`: one `recv(NAME_SIZE)` decoded as ASCII. The read
      is not delimited: it returns whatever the next segment holds, up to
      100 bytes, body bytes included. */
  method ReceiveName(sock: Socket) returns (name: Result<string>)
    requires sock.Valid()
    modifies sock
    ensures sock.Valid() && sock.outbox == old(sock.outbox)
    ensures name == DecodeAscii(Deliver(old(sock.inbox), NameSize).block)
    ensures name.Ok? ==> |name.value| <= NameSize
    ensures sock.inbox == Deliver(old(sock.inbox), NameSize).rest
  {
    var block := sock.Recv(NameSize);
    name := DecodeAscii(block);
  }

  /** The body loop of `receive_image` ends with the image complete: every
      `recv(BUFFER_SIZE)` returns at least one byte (the client has not
      closed) and no more than are still owed. */
  predicate BodyArrives(inbox: seq<seq<byte>>, remaining: nat)
    decreases remaining
  {
    remaining == 0 ||
    var d := Deliver(inbox, BufferSize);
    0 < |d.block| <= remaining && BodyArrives(d.rest, remaining - |d.block|)
  }

  /** The bytes a body loop that ends has read: exactly `remaining` bytes,
      the next ones on the stream. */
  lemma {:induction false} BodyArrivesBytes(inbox: seq<seq<byte>>, remaining: nat)
    requires BodyArrives(inbox, remaining)
    ensures remaining <= |Joined(inbox)|
    decreases remaining
  {
    if remaining != 0 {
      var d := Deliver(inbox, BufferSize);
      BodyArrivesBytes(d.rest, remaining - |d.block|);
    }
  }

  /** State of the body loop: the segments not yet read and `image_size`. */
  datatype BodyLoop = BodyLoop(inbox: seq<seq<byte>>, remaining: int)

  /** The body loop after at most `k` more passes; it stops once
      `image_size` is 0, as `while image_size` does. */
  function Passes(inbox: seq<seq<byte>>, remaining: int, k: nat): BodyLoop
    decreases k
  {
    if k == 0 || remaining == 0 then
      BodyLoop(inbox, remaining)
    else
      var d := Deliver(inbox, BufferSize);
      Passes(d.rest, remaining - |d.block|, k - 1)
  }

  /** Once a block overshoots, `image_size` is negative and stays so: the
      loop never exits. */
  lemma {:induction false} OvershootNeverExits(inbox: seq<seq<byte>>, remaining: int, k: nat)
    requires remaining < 0
    ensures Passes(inbox, remaining, k).remaining < 0
    decreases k
  {
    if k != 0 {
      var d := Deliver(inbox, BufferSize);
      OvershootNeverExits(d.rest, remaining - |d.block|, k - 1);
    }
  }

  /** Once the client has closed, every block is empty and the loop spins
      with `image_size` unchanged. */
  lemma {:induction false} ClosedNeverExits(remaining: int, k: nat)
    requires remaining != 0
    ensures Passes([], remaining, k) == BodyLoop([], remaining)
    decreases k
  {
    if k != 0 {
      ClosedNeverExits(remaining, k - 1);
    }
  }

  lemma {:induction false} NeverExits(inbox: seq<seq<byte>>, remaining: nat, k: nat)
    requires WellFormed(inbox) && !BodyArrives(inbox, remaining)
    ensures Passes(inbox, remaining, k).remaining != 0
    decreases k
  {
    if k != 0 {
      var d := Deliver(inbox, BufferSize);
      if d.block == [] {
        ClosedNeverExits(remaining, k);
      } else if |d.block| > remaining {
        OvershootNeverExits(d.rest, remaining - |d.block|, k - 1);
      } else {
        NeverExits(d.rest, remaining - |d.block|, k - 1);
      }
    }
  }

  lemma {:induction false} EventuallyExits(inbox: seq<seq<byte>>, remaining: nat)
    requires BodyArrives(inbox, remaining)
    ensures exists k: nat :: Passes(inbox, remaining, k).remaining == 0
    decreases remaining
  {
    if remaining == 0 {
      assert Passes(inbox, remaining, 0).remaining == 0;
    } else {
      var d := Deliver(inbox, BufferSize);
      EventuallyExits(d.rest, remaining - |d.block|);
      var k: nat :| Passes(d.rest, remaining - |d.block|, k).remaining == 0;
      assert Passes(inbox, remaining, k + 1).remaining == 0;
    }
  }

  /** The body loop exits exactly when no `recv` returns an empty block and
      none returns more than the bytes still owed; otherwise it runs
      forever. */
  lemma BodyLoopExits(inbox: seq<seq<byte>>, remaining: nat)
    requires WellFormed(inbox)
    ensures BodyArrives(inbox, remaining) <==> exists k: nat :: Passes(inbox, remaining, k).remaining == 0
  {
    if BodyArrives(inbox, remaining) {
      EventuallyExits(inbox, remaining);
    } else {
      forall k: nat ensures Passes(inbox, remaining, k).remaining != 0 {
        NeverExits(inbox, remaining, k);
      }
    }
  }

  /** The `recv(100)` of `receive_name`, after the 4 size bytes: at most 100
      bytes, the ones that follow the size. */
  function NameRead(inbox: seq<seq<byte>>): (d: Delivery)
    requires HeaderSize <= |Joined(inbox)|
    ensures |d.block| <= NameSize
    ensures Joined(inbox) == Joined(inbox)[..HeaderSize] + d.block + Joined(d.rest)
    ensures WellFormed(inbox) ==> WellFormed(d.rest)
  {
    Deliver(Drop(inbox, HeaderSize), NameSize)
  }

  /** The image size the first four bytes declare. */
  function DeclaredSize(inbox: seq<seq<byte>>): nat
    requires HeaderSize <= |Joined(inbox)|
  {
    Unpack(Joined(inbox)[..HeaderSize])
  }

  /** `receive_image` returns: four size bytes arrive, and if the name
      decodes, the body loop ends. */
  predicate ImageArrives(inbox: seq<seq<byte>>)
  {
    HeaderSize <= |Joined(inbox)| &&
    (DecodeAscii(NameRead(inbox).block).Ok? ==> BodyArrives(NameRead(inbox).rest, DeclaredSize(inbox)))
  }

  datatype Received = Received(image: seq<byte>, name: string)

  /** `receive_image(sock)`: the size, then the name (a non-ASCII name
      raises before the body is read), then `image_size` body bytes read
      with `recv(BUFFER_SIZE)` and appended in arrival order. */
  method ReceiveImage(sock: Socket) returns (r: Result<Received>)
    requires sock.Valid() && ImageArrives(sock.inbox)
    modifies sock
    ensures sock.Valid() && sock.outbox == old(sock.outbox)
    ensures r.Err? <==> DecodeAscii(NameRead(old(sock.inbox)).block).Err?
    ensures r.Err? ==> r.error == UnicodeDecodeError && sock.inbox == NameRead(old(sock.inbox)).rest
    ensures r.Ok? ==> r.value.name == DecodeAscii(NameRead(old(sock.inbox)).block).value
    ensures r.Ok? ==> |r.value.image| == DeclaredSize(old(sock.inbox))
    ensures r.Ok? ==> old(sock.Stream()) == old(sock.Stream())[..HeaderSize] + NameRead(old(sock.inbox)).block
                                           + r.value.image + sock.Stream()
  {
    ghost var start := sock.inbox;
    var s := ReceiveImageSize(sock);
    var name := ReceiveName(sock);
    if name.Err? {
      return Err(name.error);
    }
    var image := ReceiveBody(sock, Unpack(s));
    r := Ok(Received(image, name.value));
  }

  /** The body loop of `receive_image` (server.py, lines 30-35): asks for
      `BUFFER_SIZE` bytes each time, without capping the request at what is
      still owed, lowers `image_size` by what arrived and appends it. */
  method ReceiveBody(sock: Socket, declared: nat) returns (image: seq<byte>)
    requires sock.Valid() && BodyArrives(sock.inbox, declared)
    modifies sock
    ensures sock.Valid() && sock.outbox == old(sock.outbox)
    ensures |image| == declared
    ensures old(sock.Stream()) == image + sock.Stream()
  {
    var imageSize: int := declared;
    image := [];
    while imageSize != 0
      invariant sock.Valid() && sock.outbox == old(sock.outbox)
      invariant 0 <= imageSize
      invariant |image| + imageSize == declared
      invariant image + sock.Stream() == old(sock.Stream())
      invariant BodyArrives(sock.inbox, imageSize)
      decreases imageSize
    {
      var block := sock.Recv(BufferSize);
      imageSize := imageSize - |block|;
      image := image + block;
    }
  }

  /** Position of the first `c` in `s`. */
  function IndexOf(s: string, c: char): (i: nat)
    requires c in s
    ensures i < |s| && s[i] == c && c !in s[..i]
  {
    if s[0] == c then 0 else 1 + IndexOf(s[1..], c)
  }

  /** `s.split(sep)`: the pieces between separators; there is more than one
      exactly when `s` holds a separator. */
  function Split(s: string, sep: char): (parts: seq<string>)
    ensures |parts| >= 1
    ensures |parts| == 1 <==> sep !in s
    decreases |s|
  {
    if sep !in s then
      [s]
    else
      var i := IndexOf(s, sep);
      [s[..i]] + Split(s[i + 1..], sep)
  }

  /** No piece holds a separator. */
  lemma {:induction false} SplitPieces(s: string, sep: char)
    ensures forall i :: 0 <= i < |Split(s, sep)| ==> sep !in Split(s, sep)[i]
    decreases |s|
  {
    if sep in s {
      var i := IndexOf(s, sep);
      SplitPieces(s[i + 1..], sep);
      assert Split(s, sep)[1..] == Split(s[i + 1..], sep);
    }
  }

  /** `sep.join(parts)`. */
  function Join(parts: seq<string>, sep: char): string
    requires |parts| >= 1
    decreases |parts|
  {
    if |parts| == 1 then parts[0] else parts[0] + [sep] + Join(parts[1..], sep)
  }

  /** Splitting loses nothing: joining the pieces rebuilds the string. */
  lemma {:induction false} JoinSplit(s: string, sep: char)
    ensures Join(Split(s, sep), sep) == s
    decreases |s|
  {
    if sep in s {
      var i := IndexOf(s, sep);
      var parts := Split(s, sep);
      assert parts[1..] == Split(s[i + 1..], sep);
      JoinSplit(s[i + 1..], sep);
      assert s == s[..i] + [sep] + s[i + 1..];
    }
  }

  /** The output name of the main loop (server.py, lines 65-69):
      `n = name.split('.')`, `n[0] += '_server'`, `n[0] + '.' + n[1]`. A name
      without a dot leaves one piece and `n[1]` raises IndexError. */
  function ServerFileName(name: string): (r: Result<string>)
    ensures r.Err? <==> '.' !in name
    ensures r.Err? ==> r.error == IndexError
  {
    var n := Split(name, '.');
    if |n| < 2 then Err(IndexError) else Ok(n[0] + "_server" + "." + n[1])
  }

  lemma {:induction false} IndexOfAfter(a: string, sep: char, b: string)
    requires sep !in a
    ensures IndexOf(a + [sep] + b, sep) == |a|
    decreases |a|
  {
    if a != [] {
      assert (a + [sep] + b)[1..] == a[1..] + [sep] + b;
      IndexOfAfter(a[1..], sep, b);
    }
  }

  /** A piece without the separator, then the separator, splits off first. */
  lemma SplitAfter(a: string, sep: char, b: string)
    requires sep !in a
    ensures Split(a + [sep] + b, sep) == [a] + Split(b, sep)
  {
    var s := a + [sep] + b;
    IndexOfAfter(a, sep, b);
    assert s[..|a|] == a && s[|a| + 1..] == b;
  }

  /** The first two pieces of `base.ext`, followed by nothing or by a
      further separator. */
  lemma SplitOfParts(base: string, ext: string, tail: string, sep: char)
    requires sep !in base && sep !in ext
    requires tail == [] || tail[0] == sep
    ensures var n := Split(base + [sep] + ext + tail, sep); |n| >= 2 && n[0] == base && n[1] == ext
  {
    var rest := ext + tail;
    assert base + [sep] + ext + tail == base + [sep] + rest;
    SplitAfter(base, sep, rest);
    if tail == [] {
      assert rest == ext;
    } else {
      assert rest == ext + [sep] + tail[1..];
      SplitAfter(ext, sep, tail[1..]);
    }
  }

  /** `base.ext` becomes `base_server.ext`; whatever follows a second dot
      is dropped. */
  lemma ServerFileNameOfParts(base: string, ext: string, tail: string)
    requires '.' !in base && '.' !in ext
    requires tail == [] || tail[0] == '.'
    ensures ServerFileName(base + "." + ext + tail) == Ok(base + "_server" + "." + ext)
  {
    SplitOfParts(base, ext, tail, '.');
  }

  /** A file the server writes: its name and contents. */
  datatype SavedFile = SavedFile(fileName: string, contents: seq<byte>)

  /** The rest of the main loop (server.py, lines 65-74): the rename, which
      comes first and so fails for a dotless name even when the image is
      empty, then `if image:` a write of the image under the new name. */
  function SaveDecision(received: Received): (r: Result<Option<SavedFile>>)
    ensures r.Err? <==> '.' !in received.name
    ensures r.Ok? ==> (r.value.Some? <==> received.image != [])
    ensures r.Ok? && r.value.Some? ==>
              r.value.value.contents == received.image && ServerFileName(received.name) == Ok(r.value.value.fileName)
  {
    match ServerFileName(received.name)
    case Err(e) => Err(e)
    case Ok(fileName) => Ok(if received.image != [] then Some(SavedFile(fileName, received.image)) else None)
  }

  /** One pass of the accept loop once a connection is accepted
      (server.py, lines 64-74): receive, rename, and decide the write. */
  method HandleConnection(sc: Socket) returns (received: Result<Received>, saved: Result<Option<SavedFile>>)
    requires sc.Valid() && ImageArrives(sc.inbox)
    modifies sc
    ensures sc.Valid() && sc.outbox == old(sc.outbox)
    ensures received.Err? <==> DecodeAscii(NameRead(old(sc.inbox)).block).Err?
    ensures received.Ok? ==> received.value.name == DecodeAscii(NameRead(old(sc.inbox)).block).value
    ensures received.Ok? ==> |received.value.image| == DeclaredSize(old(sc.inbox))
    ensures received.Ok? ==> old(sc.Stream()) == old(sc.Stream())[..HeaderSize] + NameRead(old(sc.inbox)).block
                                                 + received.value.image + sc.Stream()
    ensures saved == match received
                     case Err(e) => Err(e)
                     case Ok(rec) => SaveDecision(rec)
  {
    received := ReceiveImage(sc);
    match received
    case Err(e) =>
      saved := Err(e);
    case Ok(rec) =>
      saved := SaveDecision(rec);
  }
}
