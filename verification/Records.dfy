/** Record marking (RFC 5531 section 11) over a stream whose reads return whatever is there. */
module Records {
  import opened Bytes

  const LAST: nat := 0x8000_0000
  const MAX_SEGMENT: nat := 0x7fff_ffff

  // ------------------------------------------------------------------- what is sent

  function Concat(parts: seq<seq<byte>>): seq<byte> {
    if parts == [] then [] else parts[0] + Concat(parts[1..])
  }

  /** The fragment header: a length, and the bit that ends the record. */
  function Header(n: nat, last: bool): (h: seq<byte>)
    requires n <= MAX_SEGMENT
    ensures |h| == 4
  {
    Put32(if last then LAST + n else n)
  }

  /** The bit that ends the record is the top bit of the header's first octet. */
  lemma LastBit(n: nat, last: bool)
    requires n <= MAX_SEGMENT
    ensures Header(n, last)[0] >= 0x80 <==> last
  {
    TopBit(if last then LAST + n else n);
  }

  ghost predicate Fragments(frags: seq<seq<byte>>) {
    frags != [] && forall i :: 0 <= i < |frags| ==> |frags[i]| <= MAX_SEGMENT
  }

  /** A record as a peer may fragment it, empty fragments included. */
  function Record(frags: seq<seq<byte>>): seq<byte>
    requires Fragments(frags)
  {
    var rest := frags[1..];
    Header(|frags[0]|, rest == []) + frags[0] + if rest == [] then [] else Record(rest)
  }

  /** The fragments Send makes of a message. */
  function Split(m: seq<byte>): (frags: seq<seq<byte>>)
    ensures Fragments(frags)
  {
    if |m| <= MAX_SEGMENT then [m] else [m[..MAX_SEGMENT]] + Split(m[MAX_SEGMENT..])
  }

  /** Send cuts a message into max(1, ceil(n / maxSegment)) fragments that make it up again; all
      but the last are full. */
  lemma {:induction false} SplitIs(m: seq<byte>)
    ensures Concat(Split(m)) == m
    ensures |Split(m)| == if |m| == 0 then 1 else (|m| + MAX_SEGMENT - 1) / MAX_SEGMENT
    ensures forall i :: 0 <= i < |Split(m)| - 1 ==> |Split(m)[i]| == MAX_SEGMENT
    ensures forall i :: 0 <= i < |Split(m)| && m != [] ==> Split(m)[i] != []
    decreases |m|
  {
    if |m| <= MAX_SEGMENT {
      assert m + Concat([]) == m;
    } else {
      SplitIs(m[MAX_SEGMENT..]);
      assert m == m[..MAX_SEGMENT] + m[MAX_SEGMENT..];
      assert Split(m)[1..] == Split(m[MAX_SEGMENT..]);
    }
  }

  // ------------------------------------------------------------------- what is read

  /** What the reads of a connection will find before its end: each read returns at most the
      rest of one chunk. */
  type Chunks = seq<seq<byte>>

  /** One Read into a buffer of n octets: what it returns and what is left. None at the end. */
  function Read(c: Chunks, n: nat): (r: Option<(seq<byte>, Chunks)>)
    ensures r.Some? ==> |r.value.0| <= n && r.value.0 + Concat(r.value.1) == Concat(c)
    ensures r.None? <==> c == []
  {
    if c == [] then None
    else if |c[0]| <= n then Some((c[0], c[1..]))
    else
      assert c[0] == c[0][..n] + c[0][n..];
      assert ([c[0][n..]] + c[1..])[1..] == c[1..];
      Some((c[0][..n], [c[0][n..]] + c[1..]))
  }

  function Size(c: Chunks): nat {
    |c| + |Concat(c)|
  }

  /** io.CopyN: as many reads as it takes. None when the stream ends first. */
  function CopyN(c: Chunks, n: nat): (r: Option<(seq<byte>, Chunks)>)
    ensures r.Some? ==> |r.value.0| == n && r.value.0 + Concat(r.value.1) == Concat(c)
    ensures r.Some? ==> Size(r.value.1) <= Size(c)
    ensures r.None? ==> |Concat(c)| < n
    decreases |c|
  {
    if n == 0 then Some(([], c))
    else if c == [] then None
    else if |c[0]| > n then Read(c, n)
    else
      match CopyN(c[1..], n - |c[0]|)
      case None => None
      case Some((b, c')) => Some((c[0] + b, c'))
  }

  lemma CopyInChunk(c: Chunks, a: nat, b: nat)
    requires c != [] && 0 < a < |c[0]|
    ensures var c' := [c[0][a..]] + c[1..];
      && CopyN(c, a) == Some((c[0][..a], c'))
      && CopyN(c', b).Some? == CopyN(c, a + b).Some?
      && (CopyN(c', b).Some? ==>
            && CopyN(c', b).value.1 == CopyN(c, a + b).value.1
            && CopyN(c, a + b).value.0 == c[0][..a] + CopyN(c', b).value.0)
  {
    hide Concat;
    var c' := [c[0][a..]] + c[1..];
    assert c'[1..] == c[1..];
    if b == 0 {
      assert c[0][..a] + [] == c[0][..a];
    } else if |c[0]| <= a + b {
      var r := CopyN(c[1..], a + b - |c[0]|);
      if r.Some? { assert c[0] + r.value.0 == c[0][..a] + (c[0][a..] + r.value.0); }
    } else {
      assert c[0][..a + b] == c[0][..a] + c[0][a..][..b];
      assert c[0][a + b..] == c[0][a..][b..];
    }
  }

  /** Reading a octets and then b is reading a + b. */
  lemma {:induction false} CopyTwice(c: Chunks, a: nat, b: nat)
    requires CopyN(c, a).Some?
    ensures var r, r' := CopyN(CopyN(c, a).value.1, b), CopyN(c, a + b);
            && r.Some? == r'.Some?
            && (r.Some? ==> r.value.1 == r'.value.1 && r'.value.0 == CopyN(c, a).value.0 + r.value.0)
    decreases |c|
  {
    hide Concat, Read;
    if a == 0 {
      if CopyN(c, b).Some? { assert CopyN(c, b).value.0 == [] + CopyN(c, b).value.0; }
    } else if a < |c[0]| {
      CopyInChunk(c, a, b);
    } else {
      CopyTwice(c[1..], a - |c[0]|, b);
      var r := CopyN(c[1..], a - |c[0]|).value;
      if CopyN(r.1, b).Some? {
        assert c[0] + (r.0 + CopyN(r.1, b).value.0) == c[0] + r.0 + CopyN(r.1, b).value.0;
      }
    }
  }

  // ------------------------------------------------------------------- reassembly

  datatype Received = Message(m: seq<byte>, rest: Chunks) | Failed

  /** Receive: a header read in one Read, the fragment, and so on to the last fragment. */
  function Receive(max: nat, acc: seq<byte>, c: Chunks): (r: Received)
    requires |acc| <= max
    ensures r.Message? ==> |acc| <= |r.m| <= max && |Concat(r.rest)| < |Concat(c)|
    decreases |Concat(c)|
  {
    match Read(c, 4)
    case None => Failed
    case Some((h, c1)) =>
      if |h| != 4 then Failed
      else
        var n := Get32(h) % LAST;
        if n > max - |acc| then Failed
        else
          match CopyN(c1, n)
          case None => Failed
          case Some((b, c2)) =>
            if Get32(h) >= LAST then Message(acc + b, c2) else Receive(max, acc + b, c2)
  }

  /** What Receive delivers until it first fails. */
  function ReceiveAll(max: nat, c: Chunks): seq<seq<byte>>
    decreases |Concat(c)|
  {
    match Receive(max, [], c)
    case Failed => []
    case Message(m, rest) => [m] + ReceiveAll(max, rest)
  }

  /** The next Read of four octets returns four. */
  predicate HeaderWhole(c: Chunks) {
    c != [] && |c[0]| >= 4
  }

  function Skip(c: Chunks, n: nat): Chunks {
    match CopyN(c, n)
    case None => []
    case Some((_, rest)) => rest
  }

  /** No fragment header of the record is split over two chunks. */
  ghost predicate Whole(frags: seq<seq<byte>>, c: Chunks) {
    frags != [] ==> HeaderWhole(c) && Whole(frags[1..], Skip(c, 4 + |frags[0]|))
  }

  lemma HeaderIs(n: nat, last: bool)
    requires n <= MAX_SEGMENT
    ensures Get32(Header(n, last)) % LAST == n && (Get32(Header(n, last)) >= LAST <==> last)
  {
    hide Put32, Get32;
    Get32Put32(if last then LAST + n else n, []);
    assert Header(n, last) + [] == Header(n, last);
  }

  lemma ReadFour(c: Chunks)
    ensures if HeaderWhole(c) then CopyN(c, 4).Some? && Read(c, 4) == CopyN(c, 4)
            else Read(c, 4).Some? ==> |Read(c, 4).value.0| != 4
  {
    if HeaderWhole(c) && |c[0]| == 4 {
      assert CopyN(c[1..], 0) == Some(([], c[1..]));
      assert c[0] + [] == c[0];
    }
  }

  /** The front of a stream that carries a fragment and then anything, cut off anywhere. */
  ghost predicate Carries(c: Chunks, missing: seq<byte>, f: seq<byte>, last: bool, tail: seq<byte>) {
    |f| <= MAX_SEGMENT && Concat(c) + missing == Header(|f|, last) + (f + tail)
  }

  /** One turn of Receive's loop. */
  lemma ReceiveStep(max: nat, acc: seq<byte>, c: Chunks, f: seq<byte>, last: bool, missing: seq<byte>, tail: seq<byte>)
    requires |acc| <= max && Carries(c, missing, f, last, tail)
    ensures var c2 := Skip(c, 4 + |f|);
      if HeaderWhole(c) && |acc| + |f| <= max && 4 + |f| <= |Concat(c)| then
        && Concat(c2) + missing == tail && |Concat(c2)| < |Concat(c)|
        && Receive(max, acc, c) == if last then Message(acc + f, c2) else Receive(max, acc + f, c2)
      else Receive(max, acc, c) == Failed
  {
    hide Header, Put32, Get32, CopyN, Concat, Read;
    ReadFour(c);
    if HeaderWhole(c) {
      var h, c1 := CopyN(c, 4).value.0, CopyN(c, 4).value.1;
      assert h == (Concat(c) + missing)[..4] == Header(|f|, last);
      HeaderIs(|f|, last);
      assert Concat(c1) + missing == (Concat(c) + missing)[4..] == f + tail;
      CopyTwice(c, 4, |f|);
      if CopyN(c1, |f|).Some? {
        var b, c2 := CopyN(c1, |f|).value.0, CopyN(c1, |f|).value.1;
        assert b == (Concat(c1) + missing)[..|f|] == f;
        assert Concat(c2) + missing == (Concat(c1) + missing)[|f|..] == tail;
      }
    }
  }

  /** Reassembly of one record, fragmented in any legal way and read in any chunks: Receive
      delivers the concatenation and leaves what follows, or fails. If the record is all there,
      Receive delivers if and only if the record fits and no header of it is split. */
  lemma {:induction false} Reassembles(max: nat, acc: seq<byte>, frags: seq<seq<byte>>, c: Chunks,
                                       missing: seq<byte>, tail: seq<byte>)
    requires |acc| <= max && Fragments(frags) && Concat(c) + missing == Record(frags) + tail
    ensures var r := Receive(max, acc, c);
      && (r.Message? ==> r.m == acc + Concat(frags) && Concat(r.rest) + missing == tail
                         && r.rest == Skip(c, |Record(frags)|))
      && (r.Message? ==> Whole(frags, c) && |acc| + |Concat(frags)| <= max)
      && (Whole(frags, c) && |acc| + |Concat(frags)| <= max && |missing| <= |tail| ==> r.Message?)
    decreases |frags|
  {
    hide Header, CopyN, Receive, Skip, HeaderWhole;
    var f, more := frags[0], frags[1..];
    var last := more == [];
    var rest := (if last then [] else Record(more)) + tail;
    assert Record(frags) + tail == Header(|f|, last) + (f + rest);
    assert Carries(c, missing, f, last, rest);
    ReceiveStep(max, acc, c, f, last, missing, rest);
    assert Concat(frags) == f + Concat(more);
    if HeaderWhole(c) && |acc| + |f| <= max && 4 + |f| <= |Concat(c)| {
      var c2 := Skip(c, 4 + |f|);
      if last {
        assert acc + (f + []) == acc + f;
        assert |Record(frags)| == 4 + |f|;
      } else {
        Reassembles(max, acc + f, more, c2, missing, tail);
        assert acc + (f + Concat(more)) == acc + f + Concat(more);
        SkipTwice(c, 4 + |f|, |Record(more)|);
      }
    }
  }

  lemma SkipTwice(c: Chunks, a: nat, b: nat)
    requires |Concat(c)| >= a
    ensures Skip(Skip(c, a), b) == Skip(c, a + b)
  {
    CopyTwice(c, a, b);
  }

  // ------------------------------------------------------------------- streams of records

  ghost predicate Records(recs: seq<seq<seq<byte>>>) {
    forall i :: 0 <= i < |recs| ==> Fragments(recs[i])
  }

  ghost function Stream(recs: seq<seq<seq<byte>>>): seq<byte>
    requires Records(recs)
  {
    if recs == [] then [] else Record(recs[0]) + Stream(recs[1..])
  }

  function Messages(recs: seq<seq<seq<byte>>>): (ms: seq<seq<byte>>)
    ensures |ms| == |recs|
  {
    if recs == [] then [] else [Concat(recs[0])] + Messages(recs[1..])
  }

  ghost predicate AllWhole(recs: seq<seq<seq<byte>>>, c: Chunks)
    requires Records(recs)
  {
    recs != [] ==> Whole(recs[0], c) && AllWhole(recs[1..], Skip(c, |Record(recs[0])|))
  }

  /** Of any front part of a stream of records, read in any chunks, what is delivered is a prefix
      of what was sent. */
  lemma {:induction false} DeliversPrefix(max: nat, recs: seq<seq<seq<byte>>>, c: Chunks, missing: seq<byte>)
    requires Records(recs) && Concat(c) + missing == Stream(recs)
    ensures ReceiveAll(max, c) <= Messages(recs)
    decreases |recs|
  {
    if recs == [] {
      assert |Concat(c)| == 0;
    } else {
      Reassembles(max, [], recs[0], c, missing, Stream(recs[1..]));
      var r := Receive(max, [], c);
      if r.Message? {
        assert [] + Concat(recs[0]) == Concat(recs[0]);
        DeliversPrefix(max, recs[1..], r.rest, missing);
      }
    }
  }

  /** Of a complete stream all messages are delivered if and only if no header is split and
      every message fits. */
  lemma {:induction false} DeliversAll(max: nat, recs: seq<seq<seq<byte>>>, c: Chunks)
    requires Records(recs) && Concat(c) == Stream(recs)
    ensures ReceiveAll(max, c) == Messages(recs) <==>
              AllWhole(recs, c) && forall i :: 0 <= i < |recs| ==> |Concat(recs[i])| <= max
    decreases |recs|
  {
    assert Concat(c) + [] == Concat(c);
    if recs == [] {
      assert |Concat(c)| == 0;
    } else {
      Reassembles(max, [], recs[0], c, [], Stream(recs[1..]));
      var r := Receive(max, [], c);
      assert [] + Concat(recs[0]) == Concat(recs[0]);
      if r.Message? {
        assert Concat(r.rest) + [] == Concat(r.rest);
        DeliversAll(max, recs[1..], r.rest);
        assert ([r.m] + ReceiveAll(max, r.rest))[1..] == ReceiveAll(max, r.rest);
        assert ([Concat(recs[0])] + Messages(recs[1..]))[1..] == Messages(recs[1..]);
      }
    }
  }

  function SplitAll(ms: seq<seq<byte>>): (recs: seq<seq<seq<byte>>>)
    ensures Records(recs)
  {
    if ms == [] then [] else [Split(ms[0])] + SplitAll(ms[1..])
  }

  lemma {:induction false} SplitAllIs(ms: seq<seq<byte>>)
    ensures Messages(SplitAll(ms)) == ms
  {
    if ms != [] {
      SplitIs(ms[0]);
      SplitAllIs(ms[1..]);
    }
  }

  /** Sender to receiver: for messages sent one after the other, any front part of the octets in
      any chunks delivers a prefix of the messages. */
  lemma SentThenReceived(max: nat, ms: seq<seq<byte>>, c: Chunks, missing: seq<byte>)
    requires Concat(c) + missing == Stream(SplitAll(ms))
    ensures ReceiveAll(max, c) <= ms
  {
    SplitAllIs(ms);
    DeliversPrefix(max, SplitAll(ms), c, missing);
  }
}
