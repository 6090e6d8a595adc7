/** Responses cut into chunks by re-serialising the document, and request bodies put together from chunks. */
module Streaming {
  import opened Wrappers

  type Byte = b: int | 0 <= b < 256

  // ---- responses ----

  /** The part of the stream `s` from position `from`, at most `len` bytes. */
  function Slice(s: seq<Byte>, from: nat, len: nat): seq<Byte> {
    if |s| <= from then [] else if |s| <= from + len then s[from..] else s[from..from + len]
  }

  lemma SliceOfExtended(s: seq<Byte>, c: Byte, from: nat, len: nat)
    ensures Slice(s + [c], from, len) == Slice(s, from, len) + if from <= |s| < from + len then [c] else []
  {
  }

  /** Once the slice is full nothing further is taken from the stream. */
  lemma SliceIsFull(s: seq<Byte>, t: seq<Byte>, from: nat, len: nat)
    requires |s| >= from + len
    ensures Slice(s + t, from, len) == Slice(s, from, len)
  {
  }

  /** A print target that stores only its slice of everything printed to it. */
  class ChunkPrint {
    const destination: array<Byte>
    var toSkip: nat
    var toWrite: nat
    var pos: nat
    ghost const from: nat
    ghost const len: nat
    ghost const rest: seq<Byte>       // what the destination held when printing began
    ghost var offered: seq<Byte>      // everything printed so far

    constructor (destination: array<Byte>, from: nat, len: nat)
      requires len <= destination.Length
      ensures Valid() && offered == [] && this.destination == destination && this.from == from && this.len == len
      ensures rest == destination[..]
    {
      this.destination, this.from, this.len := destination, from, len;
      toSkip, toWrite, pos, offered, rest := from, len, 0, [], destination[..];
    }

    ghost predicate Valid()
      reads this, destination
    {
      && len <= destination.Length == |rest|
      && toSkip == (if |offered| < from then from - |offered| else 0)
      && pos + toWrite == len
      && (toSkip > 0 ==> pos == 0)
      && destination[..pos] == Slice(offered, from, len)
      && destination[pos..] == rest[pos..]
    }

    /** One byte: skipped, stored or refused. */
    method WriteByte(c: Byte) returns (written: nat)
      requires Valid()
      modifies this, destination
      ensures Valid() && offered == old(offered) + [c]
      ensures written == if |old(offered)| < from + len then 1 else 0
    {
      SliceOfExtended(offered, c, from, len);
      offered := offered + [c];
      if toSkip > 0 {
        toSkip := toSkip - 1;
        return 1;
      } else if toWrite > 0 {
        toWrite := toWrite - 1;
        destination[pos] := c;
        pos := pos + 1;
        return 1;
      }
      return 0;
    }

    /** A block, until a byte is refused. */
    method WriteBlock(buffer: seq<Byte>) returns (written: nat)
      requires Valid()
      modifies this, destination
      ensures Valid() && offered == old(offered) + buffer
      ensures written == if |old(offered)| + |buffer| <= from + len then |buffer|
                         else if |old(offered)| <= from + len then from + len - |old(offered)| else 0
    {
      hide Slice;
      written := 0;
      while written < |buffer|
        invariant Valid() && written <= |buffer|
        invariant offered == old(offered) + buffer[..written]
        invariant written > 0 ==> |old(offered)| + written <= from + len
      {
        var accepted := WriteByte(buffer[written]);
        if accepted == 0 {
          assert offered == old(offered) + buffer[..written + 1];
          SliceIsFull(offered, buffer[written + 1..], from, len);
          offered := offered + buffer[written + 1..];
          assert offered == old(offered) + buffer;
          return;
        }
        written := written + 1;
      }
      assert buffer[..written] == buffer;
    }
  }

  /** A serializer prints single bytes and blocks. */
  datatype Piece = One(c: Byte) | Block(bytes: seq<Byte>)

  function Printed(pieces: seq<Piece>): seq<Byte> {
    if pieces == [] then []
    else Printed(pieces[..|pieces| - 1]) + match pieces[|pieces| - 1] case One(c) => [c] case Block(bytes) => bytes
  }

  /** A response whose document serialises to `Printed(pieces)`, in those pieces, each time. */
  class AsyncJsonResponse {
    const pieces: seq<Piece>
    var contentLength: nat
    var sentLength: nat
    var isValid: bool

    constructor (pieces: seq<Piece>)
      ensures this.pieces == pieces && contentLength == 0 && sentLength == 0 && !isValid
    {
      this.pieces := pieces;
      contentLength, sentLength, isValid := 0, 0, false;
    }

    method SetLength() returns (length: nat)
      modifies this
      ensures length == contentLength == |Printed(pieces)| && sentLength == old(sentLength)
      ensures isValid == (old(isValid) || length > 0)
    {
      contentLength := |Printed(pieces)|;
      if contentLength > 0 {
        isValid := true;
      }
      length := contentLength;
    }

    /** `_fillBuffer`: store the bytes from `sentLength` on and touch nothing else. */
    method FillBuffer(data: array<Byte>, len: nat) returns (filled: nat)
      requires len <= data.Length
      modifies data
      ensures filled == len
      ensures var slice := Slice(Printed(pieces), sentLength, len);
        |slice| <= len && data[..|slice|] == slice && data[|slice|..] == old(data[..])[|slice|..]
    {
      var dest := new ChunkPrint(data, sentLength, len);
      for i := 0 to |pieces|
        invariant fresh(dest) && dest.destination == data && dest.from == sentLength && dest.len == len
            && dest.rest == old(data[..])
        invariant dest.Valid() && dest.offered == Printed(pieces[..i])
      {
        assert pieces[..i + 1][..i] == pieces[..i];
        match pieces[i] {
          case One(c) => var _ := dest.WriteByte(c);
          case Block(bytes) => var _ := dest.WriteBlock(bytes);
        }
      }
      assert pieces[..|pieces|] == pieces;
      return len;
    }

    /**
     * The sending loop of the server: chunks of any positive sizes, clipped to what is left, until the length is
     * sent.
     */
    method Send(sizes: seq<nat>) returns (body: seq<Byte>)
      requires sentLength == 0 && contentLength == |Printed(pieces)|
      requires forall i :: 0 <= i < |sizes| ==> sizes[i] > 0
      modifies this
      ensures body <= Printed(pieces) && |body| == sentLength <= contentLength
      ensures |sizes| >= contentLength ==> body == Printed(pieces)
    {
      body := [];
      var i := 0;
      while i < |sizes| && sentLength < contentLength
        invariant i <= |sizes| && i <= sentLength <= contentLength == |Printed(pieces)|
        invariant body == Printed(pieces)[..sentLength]
      {
        var len := if sizes[i] < contentLength - sentLength then sizes[i] else contentLength - sentLength;
        var data := new Byte[len];
        var filled := FillBuffer(data, len);
        body := body + data[..];
        sentLength := sentLength + filled;
        i := i + 1;
      }
    }
  }

  // ---- request bodies ----

  const WRAP: int := 0x1_0000_0000

  /** `size_t` on the device. */
  type Size = w: int | 0 <= w < WRAP

  function WrapSub(a: Size, b: Size): Size { (a - b) % WRAP }

  lemma WrapSubExactly(a: Size, b: Size)
    ensures WrapSub(a, b) == if a >= b then a - b else 4294967296 - (b - a)
  {
  }

  class Request {
    const contentLength: Size
    var tempObject: array?<Byte>

    constructor (contentLength: Size)
      ensures this.contentLength == contentLength && tempObject == null
    {
      this.contentLength := contentLength;
      tempObject := null;
    }

    /** A buffer, if there is one, has the request's content length. */
    predicate Valid()
      reads this
    {
      tempObject != null ==> tempObject.Length == contentLength
    }
  }

  /** `memcpy(buffer + at, data, |data|)` */
  method CopyInto(buffer: array<Byte>, at: nat, data: seq<Byte>)
    requires at + |data| <= buffer.Length
    modifies buffer
    ensures buffer[..] == old(buffer[..at]) + data + old(buffer[at + |data|..])
  {
    for i := 0 to |data|
      invariant buffer[..at + i] == old(buffer[..at]) + data[..i]
      invariant buffer[at + i..] == old(buffer[at + i..])
    {
      buffer[at + i] := data[i];
    }
    assert buffer[..] == buffer[..at + |data|] + buffer[at + |data|..];
  }

  /** What became of a request: a status code, or the bytes handed to the JSON parser and on. */
  datatype Outcome = Status(code: nat) | Handled(body: seq<Byte>)

  class AsyncJsonWebHandler {
    const hasCallback: bool
    const maxContentLength: Size
    const parses: seq<Byte> -> bool   // does the JSON parser accept these bytes?

    constructor (hasCallback: bool, maxContentLength: Size, parses: seq<Byte> -> bool)
      ensures this.hasCallback == hasCallback && this.maxContentLength == maxContentLength && this.parses == parses
    {
      this.hasCallback, this.maxContentLength, this.parses := hasCallback, maxContentLength, parses;
    }

    /** The guard of `handleBody`, in the order and the modular arithmetic in which it is evaluated. */
    predicate Accepts(contentLength: Size, len: Size, index: Size, total: Size) {
      && hasCallback
      && !(total == 0 || total != contentLength || total > maxContentLength
           || index > total || len > WrapSub(total, index))
    }

    /** An accepted chunk lies inside the buffer; the subtraction did not wrap. */
    lemma AcceptedFits(contentLength: Size, len: Size, index: Size, total: Size)
      ensures Accepts(contentLength, len, index, total) <==>
        hasCallback && 0 < total == contentLength && total <= maxContentLength && index + len <= total
    {
      if index <= total {
        assert WrapSub(total, index) == total - index;
      }
    }

    /** `handleBody`, for any arguments a caller may pass; `heap` says whether an allocation would succeed. */
    method HandleBody(request: Request, data: seq<Byte>, index: Size, total: Size, heap: bool)
      requires |data| < WRAP && request.Valid()
      modifies request, request.tempObject
      ensures request.Valid()
      ensures !Accepts(request.contentLength, |data|, index, total) ==>
        request.tempObject == old(request.tempObject)
            && (request.tempObject != null ==> request.tempObject[..] == old(request.tempObject[..]))
      ensures Accepts(request.contentLength, |data|, index, total) ==>
        if old(request.tempObject) != null then
          request.tempObject == old(request.tempObject)
          && request.tempObject[..] ==
              old(request.tempObject[..])[..index] + data + old(request.tempObject[..])[index + |data|..]
        else if index == 0 && heap then
          request.tempObject != null && fresh(request.tempObject) && request.tempObject[..|data|] == data
        else request.tempObject == null
    {
      AcceptedFits(request.contentLength, |data|, index, total);
      if !Accepts(request.contentLength, |data|, index, total) {
        return;
      }
      if index == 0 && request.tempObject == null && heap {
        request.tempObject := new Byte[total];
      }
      if request.tempObject != null {
        CopyInto(request.tempObject, index, data);
      }
    }

    /** `handleRequest` */
    method HandleRequest(request: Request) returns (outcome: Outcome)
      requires request.Valid()
      ensures outcome ==
        if !hasCallback then Status(500)
        else if request.contentLength > maxContentLength then Status(413)
        else if request.tempObject == null then Status(500)
        else if parses(request.tempObject[..]) then Handled(request.tempObject[..]) else Status(400)
    {
      if !hasCallback {
        return Status(500);
      }
      if request.contentLength > maxContentLength {
        return Status(413);
      }
      if request.tempObject != null {
        var body := request.tempObject[..request.contentLength];
        assert body == request.tempObject[..];
        if parses(body) {
          return Handled(body);
        }
        return Status(400);
      }
      return Status(500);
    }

    /** A request whose body arrives in consecutive chunks, cut anywhere; `heap(i)` for an allocation at chunk i. */
    method Receive(request: Request, chunks: seq<seq<Byte>>, heap: nat -> bool) returns (outcome: Outcome)
      requires request.tempObject == null && request.contentLength == |Joined(chunks)|
      modifies request
      ensures hasCallback && 0 < |Joined(chunks)| <= maxContentLength && (forall i :: heap(i)) ==>
        outcome == if parses(Joined(chunks)) then Handled(Joined(chunks)) else Status(400)
      ensures outcome.Handled? ==> outcome.body == Joined(chunks) && parses(Joined(chunks))
      ensures hasCallback && |Joined(chunks)| > maxContentLength ==> outcome == Status(413)
      ensures !hasCallback || Joined(chunks) == [] ==> outcome == Status(500)
    {
      ghost var body := Joined(chunks);
      var index: Size := 0;
      assert chunks[..0] == [];
      for i := 0 to |chunks|
        invariant request.Valid() && (request.tempObject != null ==> fresh(request.tempObject))
        invariant index == |Joined(chunks[..i])| <= |body| && body[..index] == Joined(chunks[..i])
        invariant request.tempObject != null ==> request.tempObject[..index] == body[..index]
        invariant !hasCallback || body == [] || |body| > maxContentLength ==> request.tempObject == null
        invariant hasCallback && 0 < |body| <= maxContentLength && (forall j :: heap(j)) && i > 0 ==>
            request.tempObject != null
      {
        JoinedPrefix(chunks, i);
        AcceptedFits(request.contentLength, |chunks[i]|, index, request.contentLength);
        ghost var before := if request.tempObject != null then request.tempObject[..] else [];
        HandleBody(request, chunks[i], index, request.contentLength, heap(i));
        index := index + |chunks[i]|;
        if request.tempObject != null {
          assert request.tempObject[..index] == body[..index];
        }
      }
      assert chunks[..|chunks|] == chunks;
      if request.tempObject != null {
        assert request.tempObject[..index] == request.tempObject[..];
      }
      outcome := HandleRequest(request);
    }
  }

  function Joined(chunks: seq<seq<Byte>>): seq<Byte> {
    if chunks == [] then [] else Joined(chunks[..|chunks| - 1]) + chunks[|chunks| - 1]
  }

  lemma {:induction false} JoinedPrefix(chunks: seq<seq<Byte>>, i: nat)
    requires i < |chunks|
    ensures Joined(chunks[..i + 1]) == Joined(chunks[..i]) + chunks[i]
    ensures Joined(chunks[..i + 1]) <= Joined(chunks)
    decreases |chunks| - i
  {
    assert chunks[..i + 1][..i] == chunks[..i];
    if i + 1 == |chunks| {
      assert chunks[..i + 1] == chunks;
    } else {
      JoinedPrefix(chunks, i + 1);
    }
  }
}
