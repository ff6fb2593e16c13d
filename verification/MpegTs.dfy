/** MPEG transport streams: cutting incoming chunks into 188-byte packets. */
module MpegTs {

  import opened Words

  type Data = Bytes

  const PACKET_SIZE := 188
  const SYNC: U8 := 0x47

  // ---------------------------------------------------------------------------------------------
  // Finding packets

  /** First position at or after `i` that holds the sync byte; the length of `b` when there is none. */
  function NextSync(b: Data, i: nat): (p: nat)
    requires i <= |b|
    ensures i <= p <= |b| && (p < |b| ==> b[p] == SYNC) && forall k :: i <= k < p ==> b[k] != SYNC
    decreases |b| - i
  {
    if i == |b| || b[i] == SYNC then i else NextSync(b, i + 1)
  }

  /** Buffered bytes, the read position in them, and whether a packet starts there. */
  datatype Found = Found(buf: Data, off: nat, ok: bool)

  /** One look at the buffer from `off` on: settled, or to be resumed after a byte where the next packet should start. */
  datatype Look = Settled(found: Found) | Resume(at: nat)

  function LookFor(buf: Data, off: nat): (r: Look)
    requires off <= |buf|
    ensures r.Resume? ==> off < r.at <= |buf|
    ensures r.Settled? && r.found.ok ==>
              r.found.buf == buf && off <= r.found.off && r.found.off + PACKET_SIZE <= |buf| && buf[r.found.off] == SYNC
    ensures r.Settled? && !r.found.ok ==> r.found.off == 0 && |r.found.buf| < PACKET_SIZE
  {
    if off + PACKET_SIZE > |buf| then Settled(Found(buf[off..], 0, false))
    else
      var p := NextSync(buf, off);
      if p == |buf| then Settled(Found([], 0, false))
      else if |buf| - p < PACKET_SIZE then Settled(Found(buf[p..], 0, false))
      else if |buf| - p > PACKET_SIZE && buf[p + PACKET_SIZE] != SYNC then Resume(p + PACKET_SIZE + 1)
      else Settled(Found(buf, p, true))
  }

  /** The search for a packet: a sync byte that is followed by another one a packet later, or by nothing yet. */
  function FindSync(buf: Data, off: nat): (f: Found)
    requires off <= |buf|
    ensures f.ok ==> f.buf == buf && off <= f.off && f.off + PACKET_SIZE <= |buf| && buf[f.off] == SYNC
    ensures !f.ok ==> f.off == 0 && |f.buf| < PACKET_SIZE
    decreases |buf| - off
  {
    match LookFor(buf, off)
    case Settled(found) => found
    case Resume(at) => FindSync(buf, at)
  }

  lemma FindSyncStep(buf: Data, off: nat)
    requires off <= |buf|
    ensures FindSync(buf, off) == match LookFor(buf, off)
                                  case Settled(found) => found
                                  case Resume(at) => FindSync(buf, at)
  {
    hide LookFor;
  }

  /** A packet found is followed by a sync byte or by nothing; what is kept is a suffix of what was to be read. */
  predicate Sound(buf: Data, off: nat, f: Found)
    requires off <= |buf|
  {
    if f.ok then off <= f.off && f.off + PACKET_SIZE <= |buf| && (f.off + PACKET_SIZE == |buf| || buf[f.off + PACKET_SIZE] == SYNC)
    else |f.buf| <= |buf| - off && f.buf == buf[|buf| - |f.buf|..]
  }

  lemma LookIsSound(buf: Data, off: nat)
    requires off <= |buf|
    ensures LookFor(buf, off).Settled? ==> Sound(buf, off, LookFor(buf, off).found)
  {
    hide NextSync;
  }

  /** Whatever the bytes, the search ends soundly. */
  lemma {:induction false} SearchIsSound(buf: Data, off: nat)
    requires off <= |buf|
    ensures Sound(buf, off, FindSync(buf, off))
    decreases |buf| - off
  {
    hide LookFor, FindSync, Sound;
    FindSyncStep(buf, off);
    LookIsSound(buf, off);
    var look := LookFor(buf, off);
    if look.Resume? {
      SearchIsSound(buf, look.at);
      SoundFromEarlier(buf, off, look.at, FindSync(buf, off));
    }
  }

  lemma SoundFromEarlier(buf: Data, off: nat, at: nat, f: Found)
    requires off <= at <= |buf| && Sound(buf, at, f)
    ensures Sound(buf, off, f)
  {
  }

  /** The search settles on the first sync byte, unless a packet later there is neither another nor the end: then it goes on
      behind that place, whatever stands before it. */
  lemma SearchIsFirst(buf: Data, off: nat, p: nat)
    requires off <= p && p + PACKET_SIZE <= |buf| && buf[p] == SYNC && forall k :: off <= k < p ==> buf[k] != SYNC
    ensures FindSync(buf, off) == if p + PACKET_SIZE == |buf| || buf[p + PACKET_SIZE] == SYNC then Found(buf, p, true)
                                  else FindSync(buf, p + PACKET_SIZE + 1)
  {
    hide NextSync, FindSync;
    FindSyncStep(buf, off);
    assert NextSync(buf, off) == p;
  }

  /** What is kept when no packet is found: what begins with the first sync byte, or everything when there is too little to
      search. */
  lemma SearchKeeps(buf: Data, off: nat, p: nat)
    requires off <= p <= |buf| && |buf| - p < PACKET_SIZE && forall k :: off <= k < p ==> buf[k] != SYNC
    requires p < |buf| ==> buf[p] == SYNC
    ensures FindSync(buf, off) == Found(if |buf| - off < PACKET_SIZE then buf[off..] else buf[p..], 0, false)
  {
    hide NextSync, FindSync;
    FindSyncStep(buf, off);
    assert NextSync(buf, off) == p;
    assert p == |buf| ==> buf[p..] == [];
  }

  /** Hands every packet found to the handler; yields the packets and the unread tail. */
  function Process(buf: Data, off: nat): (r: (seq<Data>, Data))
    requires off <= |buf|
    ensures |r.1| < PACKET_SIZE
    decreases |buf| - off
  {
    var f := FindSync(buf, off);
    if !f.ok then ([], f.buf)
    else
      var r := Process(buf, f.off + PACKET_SIZE);
      ([buf[f.off..f.off + PACKET_SIZE]] + r.0, r.1)
  }

  /** One chunk: the packets it completes and the bytes kept for later. */
  function Feed(tail: Data, chunk: Data): (seq<Data>, Data) {
    Process(tail + chunk, 0)
  }

  function FeedAll(tail: Data, chunks: seq<Data>): (seq<Data>, Data)
    decreases |chunks|
  {
    if chunks == [] then ([], tail)
    else
      var (ps, t) := Feed(tail, chunks[0]);
      var (qs, u) := FeedAll(t, chunks[1..]);
      (ps + qs, u)
  }

  // ---------------------------------------------------------------------------------------------
  // Aligned streams

  /** Every packet-sized piece starts with the sync byte. */
  predicate Aligned(b: Data) {
    forall i :: 0 <= i < |b| && i % PACKET_SIZE == 0 ==> b[i] == SYNC
  }

  /** The complete packets of a stream, and the incomplete rest. */
  function Complete(b: Data): seq<Data>
    decreases |b|
  {
    if |b| < PACKET_SIZE then [] else [b[..PACKET_SIZE]] + Complete(b[PACKET_SIZE..])
  }

  function Rest(b: Data): (r: Data)
    ensures |r| < PACKET_SIZE
    decreases |b|
  {
    if |b| < PACKET_SIZE then b else Rest(b[PACKET_SIZE..])
  }

  function Concat(chunks: seq<Data>): Data {
    if chunks == [] then [] else chunks[0] + Concat(chunks[1..])
  }

  lemma AlignedDrop(b: Data)
    requires Aligned(b) && |b| >= PACKET_SIZE
    ensures Aligned(b[PACKET_SIZE..])
  {
    forall i | 0 <= i < |b| - PACKET_SIZE && i % PACKET_SIZE == 0 ensures b[PACKET_SIZE..][i] == SYNC {
      assert b[PACKET_SIZE..][i] == b[PACKET_SIZE + i] && (PACKET_SIZE + i) % PACKET_SIZE == 0;
    }
  }

  lemma FindSyncAligned(buf: Data, off: nat)
    requires off <= |buf| && Aligned(buf[off..])
    ensures FindSync(buf, off) == if off + PACKET_SIZE > |buf| then Found(buf[off..], 0, false) else Found(buf, off, true)
  {
    if off + PACKET_SIZE <= |buf| {
      assert buf[off] == buf[off..][0];
      if off + PACKET_SIZE < |buf| {
        assert buf[off + PACKET_SIZE] == buf[off..][PACKET_SIZE];
      }
    }
  }

  lemma {:induction false} ProcessAligned(buf: Data, off: nat)
    requires off <= |buf| && Aligned(buf[off..])
    ensures Process(buf, off) == (Complete(buf[off..]), Rest(buf[off..]))
    decreases |buf| - off
  {
    hide FindSync;
    FindSyncAligned(buf, off);
    if off + PACKET_SIZE <= |buf| {
      var b := buf[off..];
      assert b[..PACKET_SIZE] == buf[off..off + PACKET_SIZE] && b[PACKET_SIZE..] == buf[off + PACKET_SIZE..];
      AlignedDrop(b);
      ProcessAligned(buf, off + PACKET_SIZE);
    }
  }

  lemma ProcessFrom(buf: Data, off: nat, p: nat)
    requires off <= p <= |buf| && FindSync(buf, off) == FindSync(buf, p)
    ensures Process(buf, off) == Process(buf, p)
  {
    hide FindSync;
  }

  /** Bytes without a sync byte before a stream are skipped: once a packet is there, the packets handled are those of the stream. */
  lemma GarbageIsSkipped(garbage: Data, stream: Data)
    requires (forall k :: 0 <= k < |garbage| ==> garbage[k] != SYNC) && Aligned(stream) && |stream| >= PACKET_SIZE
    ensures Process(garbage + stream, 0) == (Complete(stream), Rest(stream))
  {
    var buf, p := garbage + stream, |garbage|;
    assert buf[p] == stream[0] && buf[p..] == stream;
    assert |stream| > PACKET_SIZE ==> buf[p + PACKET_SIZE] == stream[PACKET_SIZE];
    hide FindSync, Process, Complete, Rest;
    SearchIsFirst(buf, 0, p);
    SearchIsFirst(buf, p, p);
    ProcessFrom(buf, 0, p);
    ProcessAligned(buf, p);
  }

  /** The rest of a stream continues with whatever follows it. */
  lemma {:induction false} RestContinues(b: Data, c: Data)
    ensures Complete(b + c) == Complete(b) + Complete(Rest(b) + c) && Rest(b + c) == Rest(Rest(b) + c)
    ensures Aligned(b + c) ==> Aligned(Rest(b) + c)
    decreases |b|
  {
    if |b| >= PACKET_SIZE {
      var d := b[PACKET_SIZE..];
      assert (b + c)[..PACKET_SIZE] == b[..PACKET_SIZE] && (b + c)[PACKET_SIZE..] == d + c;
      if Aligned(b + c) {
        AlignedDrop(b + c);
      }
      RestContinues(d, c);
    }
  }

  /** How a stream is cut into chunks does not matter: the packets handled are exactly the complete packets of all bytes
      fed, in order and once each, and fewer than 188 bytes stay unread. */
  lemma {:induction false} ChunkingDoesNotMatter(tail: Data, chunks: seq<Data>)
    requires |tail| < PACKET_SIZE && Aligned(tail + Concat(chunks))
    ensures FeedAll(tail, chunks) == (Complete(tail + Concat(chunks)), Rest(tail + Concat(chunks)))
    decreases |chunks|
  {
    if chunks == [] {
      assert tail + Concat(chunks) == tail;
    } else {
      hide Process, Complete, Rest, Aligned;
      var b, more := tail + chunks[0], Concat(chunks[1..]);
      assert tail + Concat(chunks) == b + more;
      AlignedPrefix(b, more);
      assert b[0..] == b;
      ProcessAligned(b, 0);
      RestContinues(b, more);
      ChunkingDoesNotMatter(Rest(b), chunks[1..]);
    }
  }

  lemma AlignedPrefix(b: Data, c: Data)
    requires Aligned(b + c)
    ensures Aligned(b)
  {
    forall i | 0 <= i < |b| && i % PACKET_SIZE == 0 ensures b[i] == SYNC {
      assert (b + c)[i] == b[i];
    }
  }

  // ---------------------------------------------------------------------------------------------
  // The demuxer's input side

  lemma ProcessStep(buf: Data, off: nat)
    requires off <= |buf|
    ensures var f, r := FindSync(buf, off), Process(buf, off);
            if !f.ok then r == ([], f.buf)
            else var n := Process(buf, f.off + PACKET_SIZE);
                 r.0 == [buf[f.off..f.off + PACKET_SIZE]] + n.0 && r.1 == n.1
  {
    hide FindSync;
  }

  method FirstSync(b: Data, i: nat) returns (p: nat)
    requires i <= |b|
    ensures p == NextSync(b, i)
  {
    p := i;
    while p < |b| && b[p] != SYNC
      invariant i <= p <= |b| && NextSync(b, p) == NextSync(b, i)
    {
      p := p + 1;
    }
  }

  class Demuxer {
    var buffer: Data
    var readOffset: nat
    ghost var handled: seq<Data>

    ghost predicate Valid()
      reads this
    {
      readOffset == 0 && |buffer| < PACKET_SIZE
    }

    constructor ()
      ensures Valid() && buffer == [] && handled == []
    {
      buffer, readOffset, handled := [], 0, [];
    }

    /** Consumes a chunk, unless a finished frame is waiting to be returned or the chunk is empty; then the caller's count
        stays as it was. */
    method Parse(chunk: Data, frameWaiting: bool, count: nat) returns (consumed: nat)
      requires Valid()
      modifies this
      ensures Valid()
      ensures if frameWaiting || chunk == [] then consumed == count && buffer == old(buffer) && handled == old(handled)
              else consumed == |chunk| && handled == old(handled) + Feed(old(buffer), chunk).0 && buffer == Feed(old(buffer), chunk).1
    {
      consumed := count;
      if frameWaiting || chunk == [] {
        return;
      }
      if |buffer| - readOffset < PACKET_SIZE {
        buffer := buffer[readOffset..];
        readOffset := 0;
      }
      buffer := buffer + chunk;
      consumed := |chunk|;
      ProcessPackets();
    }

    method ProcessPackets()
      requires readOffset <= |buffer|
      modifies this
      ensures Valid()
      ensures var r := Process(old(buffer), old(readOffset));
              handled == old(handled) + r.0 && buffer == r.1
    {
      hide FindSync, Process;
      ghost var whole := Process(buffer, readOffset);
      ghost var before := handled;
      ProcessStep(buffer, readOffset);
      var ok := SeekSync();
      while ok
        invariant |before| <= |handled| && handled[..|before|] == before
        invariant ok ==> readOffset + PACKET_SIZE <= |buffer|
        invariant ok ==> whole.0 == handled[|before|..] + [buffer[readOffset..readOffset + PACKET_SIZE]]
                                    + Process(buffer, readOffset + PACKET_SIZE).0
        invariant ok ==> whole.1 == Process(buffer, readOffset + PACKET_SIZE).1
        invariant !ok ==> Valid() && handled == before + whole.0 && buffer == whole.1
        decreases ok, |buffer| - readOffset
      {
        handled := handled + [buffer[readOffset..readOffset + PACKET_SIZE]];
        readOffset := readOffset + PACKET_SIZE;
        ProcessStep(buffer, readOffset);
        ok := SeekSync();
      }
    }

    /** Moves to the next packet, or keeps only the bytes that may start one. */
    method SeekSync() returns (ok: bool)
      requires readOffset <= |buffer|
      modifies `buffer, `readOffset
      ensures FindSync(old(buffer), old(readOffset)) == Found(buffer, readOffset, ok)
    {
      hide FindSync, LookFor;
      ghost var target := FindSync(buffer, readOffset);
      while readOffset + PACKET_SIZE <= |buffer|
        invariant readOffset <= |buffer| && FindSync(buffer, readOffset) == target
        decreases |buffer| - readOffset
      {
        FindSyncStep(buffer, readOffset);
        var look := LookOnce();
        match look
        case Resume(at) =>
          readOffset := at;
        case Settled(found) =>
          buffer, readOffset := found.buf, found.off;
          return found.ok;
      }
      FindSyncStep(buffer, readOffset);
      TooShort(buffer, readOffset);
      buffer, readOffset := buffer[readOffset..], 0;
      ok := false;
    }

    /** One turn of the search. */
    method LookOnce() returns (look: Look)
      requires readOffset <= |buffer|
      ensures look == LookFor(buffer, readOffset)
    {
      hide NextSync;
      if readOffset + PACKET_SIZE > |buffer| {
        return Settled(Found(buffer[readOffset..], 0, false));
      }
      var p := FirstSync(buffer, readOffset);
      if p == |buffer| {
        return Settled(Found([], 0, false));
      }
      var n := |buffer| - p;
      if n < PACKET_SIZE {
        return Settled(Found(buffer[p..], 0, false));
      } else if n > PACKET_SIZE {
        if buffer[p + PACKET_SIZE] == SYNC {
          return Settled(Found(buffer, p, true));
        }
        return Resume(p + PACKET_SIZE + 1);
      }
      look := Settled(Found(buffer, p, true));
    }
  }

  lemma TooShort(buf: Data, off: nat)
    requires off <= |buf| < off + PACKET_SIZE
    ensures LookFor(buf, off) == Settled(Found(buf[off..], 0, false))
  {
  }
}
