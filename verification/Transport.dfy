/** StreamTransport: messages over one connection, until the first failure. */
module Transport {
  import opened Bytes
  import opened Records

  lemma RecordOfSplit(m: seq<byte>)
    ensures Record(Split(m)) ==
            if |m| <= MAX_SEGMENT then Put32(LAST + |m|) + m
            else Put32(MAX_SEGMENT) + m[..MAX_SEGMENT] + Record(Split(m[MAX_SEGMENT..]))
  {
    if |m| > MAX_SEGMENT {
      assert Split(m)[1..] == Split(m[MAX_SEGMENT..]);
    }
  }

  /** The buffers Send gathers: a header and a segment at a time, consuming the message. */
  method Frame(m: seq<byte>) returns (iov: seq<byte>)
    ensures iov == Record(Split(m))
  {
    hide Split, Record, Put32;
    var left := m;
    iov := [];
    assert [] + Record(Split(m)) == Record(Split(m));
    while true
      invariant iov + Record(Split(left)) == Record(Split(m))
      decreases |left|
    {
      RecordOfSplit(left);
      var n := |left|;
      if n > MAX_SEGMENT {
        n := MAX_SEGMENT;
        var buffers := Put32(n) + left[..n];
        assert iov + (buffers + Record(Split(left[n..]))) == iov + buffers + Record(Split(left[n..]));
        iov, left := iov + buffers, left[n..];
      } else {
        var buffers := Put32(LAST + n) + left[..n];
        assert left[..n] == left;
        iov, left := iov + buffers, left[n..];
        break;
      }
    }
  }

  class StreamTransport {
    const maxMsgSize: nat
    /** What reads of the connection will find, what has been written to it, and how many more
        octets it takes before writing fails. */
    var input: Chunks
    var output: seq<byte>
    var room: nat
    /** Cleared by `fail`, which also closes the connection. */
    var okay: bool

    constructor (input: Chunks, room: nat, maxMsgSize: nat)
      ensures this.input == input && output == [] && this.room == room && okay
      ensures this.maxMsgSize == maxMsgSize
    {
      this.input, this.output, this.room, this.okay, this.maxMsgSize := input, [], room, true, maxMsgSize;
    }

    /** Conn.Write of gathered buffers: all of it, or as much as the connection takes. */
    method Write(b: seq<byte>) returns (ok: bool)
      modifies `output, `room
      ensures ok <==> |b| <= old(room)
      ensures output == old(output) + if ok then b else b[..old(room)]
      ensures room == if ok then old(room) - |b| else 0
    {
      var n := if |b| <= room then |b| else room;
      ok := n == |b|;
      output := output + b[..n];
      room := room - n;
      assert ok ==> b[..n] == b;
    }

    /** Send writes the message as one record, or a front part of that record and fails. */
    method Send(m: seq<byte>) returns (ok: bool)
      modifies `output, `room, `okay
      ensures ok <==> old(okay) && |Record(Split(m))| <= old(room)
      ensures okay == ok
      ensures output == old(output) +
                if ok then Record(Split(m)) else if old(okay) then Record(Split(m))[..old(room)] else []
    {
      if !okay {
        return false;
      }
      var iov := Frame(m);
      ok := Write(iov);
      okay := ok;
    }

    /** Receive delivers what the specification delivers, or fails. However the peer fragments,
        `peak` is the most octets it ever held. */
    method Receive() returns (r: Option<seq<byte>>, ghost peak: nat)
      modifies `input, `okay
      ensures peak <= maxMsgSize
      ensures r.None? <==> !old(okay) || Records.Receive(maxMsgSize, [], old(input)).Failed?
      ensures r.Some? ==> Records.Receive(maxMsgSize, [], old(input)) == Message(r.value, input)
      ensures okay == r.Some?
    {
      peak := 0;
      if !okay {
        return None, 0;
      }
      var ret: seq<byte> := [];
      var last := false;
      while !last
        invariant okay && |ret| <= maxMsgSize && peak == |ret|
        invariant if last then Records.Receive(maxMsgSize, [], old(input)) == Message(ret, input)
                  else Records.Receive(maxMsgSize, [], old(input)) == Records.Receive(maxMsgSize, ret, input)
        decreases !last, |Concat(input)|
      {
        var h := Read(input, 4);
        if h.None? || |h.value.0| != 4 {
          okay := false;
          return None, peak;
        }
        input := h.value.1;
        var n := Get32(h.value.0) % LAST;
        if n > maxMsgSize - |ret| {
          okay := false;
          return None, peak;
        }
        var b := CopyN(input, n);
        if b.None? {
          okay := false;
          return None, peak;
        }
        ret, input := ret + b.value.0, b.value.1;
        peak := |ret|;
        last := Get32(h.value.0) >= LAST;
      }
      r := Some(ret);
    }
  }
}
