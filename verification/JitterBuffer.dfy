/** The receive-side reorder buffer.

    The specification keeps the packets in a map from extended (32-bit) numbers; the implementation keeps them
    in a list sorted by that number, as an ordered map does. */
module JitterBuffer {
  import opened Words
  import opened Rtp

  /** Times are in nanoseconds, the configured delay in milliseconds. */
  const MS := 1_000_000

  /** Room below 2^32 that an extension step needs. */
  const LIMIT := 0x1_0000_0000 - 0x2_0000

  datatype Core = Core(delay: nat, video: bool, next: nat, first: bool, buf: map<nat, Packet>,
                       gap: Option<int>, wait: Option<int>)

  datatype Entry = Entry(ext: nat, pkt: Packet)

  function Empty(delay: nat, video: bool): Core {
    Core(delay, video, 0, true, map[], None, None)
  }

  // ---------------------------------------------------------------------------------------------
  // Extended numbers

  /** The 32-bit number of a 16-bit one, seen from the read position `last`. */
  function ExtendSeq(s: U16, last: U32): U32 {
    var e := last / 0x1_0000 * 0x1_0000 + s;
    if (e + 0x8000) % 0x1_0000_0000 < last then (e + 0x1_0000) % 0x1_0000_0000 else e
  }

  /** The correction only goes forward: the true number is recovered exactly when it lies in the 65536 numbers
      that start at the read position's block or half a block below the position, whichever is higher. */
  lemma ExtendIsExact(t: nat, last: nat)
    requires last < LIMIT
    ensures ExtendSeq(t % 0x1_0000, last) == t <==>
            0 <= t - Max(last / 0x1_0000 * 0x1_0000, last - 0x8000) < 0x1_0000
  {
  }

  lemma ExtendIsNear(s: U16, last: nat)
    requires last < LIMIT
    ensures last - 0x8000 <= ExtendSeq(s, last) < last + 0x1_0000
  {
  }

  // ---------------------------------------------------------------------------------------------
  // Reference behaviour

  function Push(c: Core, p: Packet): Core
    requires c.next < 0x1_0000_0000
  {
    var e := ExtendSeq(p.seqNo, c.next);
    if c.first && p.payload == [] then c
    else
      var d := if c.first then c.(first := false, next := e) else c;
      if e < d.next || e in d.buf then d else d.(buf := d.buf[e := p])
  }

  /** A packet is kept exactly when its number is neither behind the read position nor taken; the first one kept must have a
      payload and becomes the read position. */
  lemma PushKeepsIff(c: Core, p: Packet)
    requires c.next < LIMIT && (c.first ==> c.buf == map[])
    ensures var n, d := ExtendSeq(p.seqNo, c.next), Push(c, p);
            var kept := if c.first then p.payload != [] else n >= c.next && n !in c.buf;
            && d == c.(buf := d.buf, first := d.first, next := d.next)
            && d.buf == (if kept then c.buf[n := p] else c.buf)
            && d.next == (if c.first && kept then n else c.next) && (d.first <==> c.first && !kept)
  {
    hide ExtendSeq;
  }

  ghost predicate IsLeast(m: map<nat, Packet>, k: nat) {
    k in m && forall j :: j in m ==> k <= j
  }

  lemma LeastExists(m: map<nat, Packet>)
    requires m != map[]
    ensures exists k :: IsLeast(m, k)
  {
    var k :| k in m;
    var rest := m - {k};
    if rest == map[] {
      assert forall j :: j in m ==> j == k || j in rest;
      assert IsLeast(m, k);
    } else {
      assert |rest| < |m| by {
        assert rest.Keys < m.Keys;
      }
      LeastExists(rest);
      var l :| IsLeast(rest, l);
      assert IsLeast(m, if k < l then k else l) by {
        assert forall j :: j in m ==> j == k || j in rest;
      }
    }
  }

  /** Number of the packet at the head of the buffer. */
  ghost function Least(m: map<nat, Packet>): (k: nat)
    requires m != map[]
    ensures IsLeast(m, k)
  {
    LeastExists(m);
    var k :| IsLeast(m, k);
    k
  }

  predicate InRun(m: map<nat, Packet>, k: nat, ts: U32) {
    k in m && m[k].timestamp == ts
  }

  /** First number at or after `from` that is absent or has another timestamp. */
  function RunEnd(m: map<nat, Packet>, from: nat, ts: U32): (end: nat)
    ensures from <= end && !InRun(m, end, ts) && forall k :: from <= k < end ==> InRun(m, k, ts)
    ensures forall k :: from <= k < end ==> k in m
    decreases |m|
  {
    if !InRun(m, from, ts) then from
    else
      var rest := m - {from};
      assert |rest| < |m| by {
        assert rest.Keys < m.Keys;
      }
      var end := RunEnd(rest, from + 1, ts);
      assert forall k :: k != from ==> InRun(rest, k, ts) == InRun(m, k, ts);
      assert forall k :: k in rest ==> k in m;
      assert forall k | from <= k < end :: k in m by {
        forall k | from <= k < end ensures k in m {
          assert k == from || k in rest;
        }
      }
      end
  }

  function Slice(m: map<nat, Packet>, from: nat, to: nat): (es: seq<Entry>)
    requires from <= to && forall k :: from <= k < to ==> k in m
    ensures |es| == to - from && forall i :: 0 <= i < |es| ==> es[i] == Entry(from + i, m[from + i])
  {
    seq(to - from, i requires 0 <= i < to - from => Entry(from + i, m[from + i]))
  }

  /** A deadline that is armed on first use. */
  function Armed(t: Option<int>, now: int): int {
    if t.Some? then t.value else now
  }

  /** Delivers the run at the read position, which the head of the buffer has reached. */
  ghost function Deliver(c: Core, now: int): (Core, seq<Entry>)
    requires c.next in c.buf
  {
    var d := c.(gap := None);
    var end := RunEnd(d.buf, d.next, d.buf[d.next].timestamp);
    var last := forall k :: k in d.buf ==> k < end;
    if d.video && last && now - Armed(d.wait, now) < d.delay / 2 * MS then
      (d.(wait := Some(Armed(d.wait, now))), [])
    else
      (d.(next := end, buf := map k | k in d.buf && k >= end :: d.buf[k],
          wait := if d.video && last then Some(Armed(d.wait, now)) else None),
       Slice(d.buf, d.next, end))
  }

  /** Nothing in the buffer lies behind the read position. */
  ghost predicate Ordered(c: Core) {
    forall k :: k in c.buf ==> c.next <= k
  }

  ghost function Pop(c: Core, now: int): (Core, seq<Entry>)
    requires Ordered(c)
  {
    if c.buf == map[] then (c, [])
    else
      var e := Least(c.buf);
      if e == c.next then Deliver(c, now)
      else if now - Armed(c.gap, now) >= c.delay * MS then Deliver(c.(next := e, gap := None), now)
      else (c.(gap := Some(Armed(c.gap, now))), [])
  }

  /** `es` is the maximal run of consecutive numbers with one timestamp that starts at `from`, and `d` is what
      remains of `buf` without it. */
  ghost predicate TakesRun(buf: map<nat, Packet>, d: Core, from: nat, es: seq<Entry>) {
    && es != [] && d.next == from + |es|
    && (forall i :: 0 <= i < |es| ==> es[i].ext == from + i && InRun(buf, from + i, es[0].pkt.timestamp))
    && (forall i :: 0 <= i < |es| ==> es[i].pkt == buf[from + i])
    && !InRun(buf, d.next, es[0].pkt.timestamp)
    && (forall k :: k in buf && k >= d.next <==> k in d.buf)
    && (forall k :: k in d.buf ==> d.buf[k] == buf[k])
  }

  lemma DeliverTakesRun(c: Core, now: int)
    requires c.next in c.buf && Ordered(c)
    ensures var (d, es) := Deliver(c, now);
            && d.delay == c.delay && d.video == c.video && d.first == c.first && d.gap == None
            && Ordered(d) && d.next >= c.next
            && if es == [] then d.next == c.next && d.buf == c.buf else es[0].ext == c.next && TakesRun(c.buf, d, c.next, es)
  {
    assert InRun(c.buf, c.next, c.buf[c.next].timestamp);
    assert RunEnd(c.buf, c.next, c.buf[c.next].timestamp) > c.next;
  }

  /** A pop is either nothing or a maximal run of consecutive numbers with one timestamp, which starts at the
      read position or, once the gap there is `delay` old, at the first number present. */
  lemma PopTakesRun(c: Core, now: int)
    requires Ordered(c)
    ensures var (d, es) := Pop(c, now);
            && d.delay == c.delay && d.video == c.video && d.first == c.first
            && Ordered(d) && d.next >= c.next
            && (d.gap.Some? ==> d.next == c.next && (c.gap == d.gap || (c.gap == None && d.gap == Some(now))))
            && if es == [] then d.buf == c.buf && (d.next == c.next || IsLeast(c.buf, d.next))
               else TakesRun(c.buf, d, es[0].ext, es) && IsLeast(c.buf, es[0].ext)
  {
    hide Deliver, TakesRun;
    if c.buf != map[] {
      var e := Least(c.buf);
      if e == c.next {
        DeliverTakesRun(c, now);
      } else if now - Armed(c.gap, now) >= c.delay * MS {
        DeliverTakesRun(c.(next := e, gap := None), now);
      }
    }
  }

  // ---------------------------------------------------------------------------------------------
  // Whole runs

  /** A pop at time `at` found the read position `pos` missing. */
  datatype Sight = Sight(at: int, pos: nat)

  /** A pop at time `at` gave up on the numbers from `from` up to `to`. */
  datatype Skip = Skip(at: int, from: nat, to: nat)

  /** What a pop at time `at` found: the read position, the least number present, and whether the run of one timestamp that
      starts there is all there is. */
  datatype Look = Look(at: int, pos: nat, head: nat, alone: bool)

  ghost predicate OneRun(buf: map<nat, Packet>)
    requires buf != map[]
  {
    forall j, k :: Least(buf) <= j <= k && k in buf ==> InRun(buf, j, buf[Least(buf)].timestamp)
  }

  ghost function LookAt(c: Core, now: int): Look
    requires c.buf != map[]
  {
    Look(now, c.next, Least(c.buf), OneRun(c.buf))
  }

  /** The buffer together with everything that happened to it. */
  datatype World = World(core: Core, accepted: seq<Entry>, delivered: seq<Entry>, seen: seq<Sight>, skips: seq<Skip>,
                         looks: seq<Look>)

  function NewWorld(delay: nat, video: bool): World {
    World(Empty(delay, video), [], [], [], [], [])
  }

  datatype Event = Arrive(p: Packet) | Ask(now: int)

  ghost predicate GapAtHead(c: Core) {
    c.buf != map[] && Least(c.buf) != c.next
  }

  ghost function Step(w: World, e: Event): World
    requires Ordered(w.core) && w.core.next < LIMIT
  {
    var c := w.core;
    match e
    case Arrive(p) =>
      var d, n := Push(c, p), ExtendSeq(p.seqNo, c.next);
      w.(core := d, accepted := if n in d.buf && n !in c.buf then w.accepted + [Entry(n, p)] else w.accepted)
    case Ask(now) =>
      var (d, es) := Pop(c, now);
      w.(core := d, delivered := w.delivered + es,
         seen := if GapAtHead(c) then w.seen + [Sight(now, c.next)] else w.seen,
         skips := if GapAtHead(c) && d.gap == None then w.skips + [Skip(now, c.next, Least(c.buf))] else w.skips,
         looks := if c.buf == map[] then w.looks else w.looks + [LookAt(c, now)])
  }

  predicate Increasing(es: seq<Entry>) {
    forall i, j :: 0 <= i < j < |es| ==> es[i].ext < es[j].ext
  }

  /** Every accepted packet is either delivered or still buffered, and nothing else is. */
  ghost predicate Accounted(w: World) {
    && (forall x :: x in w.accepted <==> x in w.delivered || (x.ext in w.core.buf && x.pkt == w.core.buf[x.ext]))
    && (forall i, j :: 0 <= i < j < |w.accepted| ==> w.accepted[i].ext != w.accepted[j].ext)
  }

  /** A skip happens only when a pop at least `delay` earlier saw the gap at that same position. */
  ghost predicate Justified(w: World) {
    && (w.core.gap.Some? ==> Sight(w.core.gap.value, w.core.next) in w.seen)
    && forall s :: s in w.skips ==> exists g :: g in w.seen && g.pos == s.from && s.at - g.at >= w.core.delay * MS
  }

  predicate Passed(w: World, n: nat) {
    (exists x :: x in w.delivered && x.ext == n) || (exists s :: s in w.skips && s.from <= n < s.to)
  }

  /** Every number the read position has gone past was delivered or is part of a recorded skip. */
  ghost predicate Covered(w: World) {
    && (!w.core.first ==> w.accepted != [])
    && (w.accepted != [] ==> forall n :: w.accepted[0].ext <= n < w.core.next ==> Passed(w, n))
  }

  ghost predicate Inv(w: World) {
    && Ordered(w.core) && Covered(w)
    && (w.core.first ==> w.core.buf == map[] && w.core.gap == None && w.accepted == [] && w.delivered == [])
    && Increasing(w.delivered) && (forall x :: x in w.delivered ==> x.ext < w.core.next)
    && Accounted(w)
    && Justified(w)
  }

  lemma PushKeepsInv(w: World, p: Packet)
    requires Inv(w) && w.core.next < LIMIT
    ensures Inv(Step(w, Arrive(p)))
  {
    hide ExtendSeq;
    var v, n := Step(w, Arrive(p)), ExtendSeq(p.seqNo, w.core.next);
    if n in v.core.buf && n !in w.core.buf {
      assert forall x :: x in v.accepted <==> x in w.accepted || x == Entry(n, p);
      assert forall x :: x in w.accepted ==> x.ext != n;
    }
    forall k: nat | v.accepted != [] && v.accepted[0].ext <= k < v.core.next ensures Passed(v, k) {
      assert !w.core.first;
      assert Passed(w, k);
    }
  }

  lemma PopKeepsJustified(w: World, now: int)
    requires Ordered(w.core) && w.core.next < LIMIT && Justified(w)
    ensures Justified(Step(w, Ask(now)))
  {
    var c, v := w.core, Step(w, Ask(now));
    PopTakesRun(c, now);
    hide Deliver;
    assert forall g :: g in w.seen ==> g in v.seen;
    if GapAtHead(c) {
      assert Sight(now, c.next) in v.seen;
      if v.core.gap == None {
        var s := Skip(now, c.next, Least(c.buf));
        var g := Sight(Armed(c.gap, now), c.next);
        assert g in v.seen && s.at - g.at >= c.delay * MS;
        assert forall t :: t in v.skips ==> t in w.skips || t == s;
      }
    }
  }

  lemma RunEntries(buf: map<nat, Packet>, d: Core, from: nat, es: seq<Entry>, x: Entry)
    requires TakesRun(buf, d, from, es) && IsLeast(buf, from)
    ensures x in es <==> x.ext in buf && x.ext < d.next && x.pkt == buf[x.ext]
  {
    if x.ext in buf && x.ext < d.next && x.pkt == buf[x.ext] {
      assert es[x.ext - from] == x;
    }
  }

  lemma PopKeepsAccounts(w: World, now: int)
    requires Inv(w) && w.core.next < LIMIT
    ensures var v := Step(w, Ask(now));
            && Accounted(v) && Increasing(v.delivered) && (forall x :: x in v.delivered ==> x.ext < v.core.next)
  {
    var v, es := Step(w, Ask(now)), Pop(w.core, now).1;
    PopTakesRun(w.core, now);
    hide Deliver;
    if es != [] {
      forall x ensures x in es <==> x.ext in w.core.buf && x.ext < v.core.next && x.pkt == w.core.buf[x.ext] {
        RunEntries(w.core.buf, v.core, es[0].ext, es, x);
      }
      forall i | 0 <= i < |es| ensures es[i].ext == es[0].ext + i {}
      assert forall x :: x in v.delivered <==> x in w.delivered || x in es;
      assert forall i :: 0 <= i < |w.delivered| ==> w.delivered[i] in w.delivered;
    } else {
      assert v.delivered == w.delivered;
    }
  }

  lemma PopKeepsCovered(w: World, now: int)
    requires Inv(w) && w.core.next < LIMIT
    ensures Covered(Step(w, Ask(now)))
  {
    var c, v, es := w.core, Step(w, Ask(now)), Pop(w.core, now).1;
    PopTakesRun(c, now);
    hide Deliver;
    assert forall x :: x in w.delivered ==> x in v.delivered;
    assert forall x :: x in es ==> x in v.delivered;
    assert forall s :: s in w.skips ==> s in v.skips;
    forall n | w.accepted != [] && w.accepted[0].ext <= n < v.core.next ensures Passed(v, n) {
      if n < c.next {
        assert Passed(w, n);
      } else if n < Least(c.buf) {
        assert Skip(now, c.next, Least(c.buf)) in v.skips;
      } else {
        assert es[n - es[0].ext].ext == n;
      }
    }
  }

  lemma StepKeepsInv(w: World, e: Event)
    requires Inv(w) && w.core.next < LIMIT
    ensures Inv(Step(w, e))
  {
    match e
    case Arrive(p) => PushKeepsInv(w, p);
    case Ask(now) =>
      PopTakesRun(w.core, now);
      PopKeepsJustified(w, now);
      PopKeepsAccounts(w, now);
      PopKeepsCovered(w, now);
  }

  ghost predicate Runs(w: World, es: seq<Event>, v: World)
    decreases |es|
  {
    if es == [] then v == w
    else Ordered(w.core) && w.core.next < LIMIT && Runs(Step(w, es[0]), es[1..], v)
  }

  /** Over every run from an empty buffer that stays clear of the 32-bit wrap: deliveries are strictly
      increasing, every accepted packet is delivered once or still buffered, nothing is invented, and a number
      is passed over only after its gap was seen at least `delay` earlier. */
  lemma RunIsSafe(delay: nat, video: bool, es: seq<Event>, v: World)
    requires Runs(NewWorld(delay, video), es, v)
    ensures Inv(v)
  {
    RunFrom(NewWorld(delay, video), es, v);
  }

  lemma {:induction false} RunFrom(w: World, es: seq<Event>, v: World)
    requires Inv(w) && Runs(w, es, v)
    ensures Inv(v)
    decreases |es|
  {
    if es != [] {
      StepKeepsInv(w, es[0]);
      RunFrom(Step(w, es[0]), es[1..], v);
    }
  }

  // ---------------------------------------------------------------------------------------------
  // The sorted list

  /** `list` holds the entries of `m` in increasing order. */
  ghost predicate Lists(list: seq<Entry>, m: map<nat, Packet>) {
    && Increasing(list)
    && (forall i :: 0 <= i < |list| ==> list[i].ext in m && m[list[i].ext] == list[i].pkt)
    && (forall k :: k in m ==> exists i :: 0 <= i < |list| && list[i].ext == k)
  }

  lemma ListsInsert(list: seq<Entry>, m: map<nat, Packet>, at: nat, x: Entry)
    requires Lists(list, m) && at <= |list| && x.ext !in m
    requires forall i :: 0 <= i < at ==> list[i].ext < x.ext
    requires forall i :: at <= i < |list| ==> x.ext < list[i].ext
    ensures Lists(list[..at] + [x] + list[at..], m[x.ext := x.pkt])
  {
    var l := list[..at] + [x] + list[at..];
    assert l[at] == x;
    var m' := m[x.ext := x.pkt];
    forall k | k in m' ensures exists i :: 0 <= i < |l| && l[i].ext == k {
      if k != x.ext {
        var i := ListsFind(list, m, k);
        assert l[if i < at then i else i + 1].ext == k;
      }
    }
  }

  /** Where the search for a number's place ends. */
  lemma ListsPlace(list: seq<Entry>, m: map<nat, Packet>, at: nat, ext: nat)
    requires Lists(list, m) && at <= |list| && forall i :: 0 <= i < at ==> list[i].ext < ext
    requires at < |list| ==> list[at].ext >= ext
    ensures ext in m <==> at < |list| && list[at].ext == ext
    ensures ext !in m ==> forall i :: at <= i < |list| ==> ext < list[i].ext
  {
    if ext in m {
      var i := ListsFind(list, m, ext);
    }
  }

  lemma ListsHead(list: seq<Entry>, m: map<nat, Packet>)
    requires Lists(list, m)
    ensures list == [] <==> m == map[]
    ensures list != [] ==> Least(m) == list[0].ext && list[0].pkt == m[list[0].ext]
  {
    if list != [] {
      assert list[0].ext in m;
      var i :| 0 <= i < |list| && list[i].ext == Least(m);
    }
    if m != map[] {
      var k :| k in m;
    }
  }

  lemma ListsDrop(list: seq<Entry>, m: map<nat, Packet>, n: nat, end: nat)
    requires Lists(list, m) && n <= |list|
    requires forall i :: 0 <= i < n ==> list[i].ext < end
    requires n < |list| ==> list[n].ext >= end
    ensures Lists(list[n..], map k | k in m && k >= end :: m[k])
  {
    var r, l := map k | k in m && k >= end :: m[k], list[n..];
    forall i | 0 <= i < |l| ensures l[i].ext in r && r[l[i].ext] == l[i].pkt {
      assert l[i] == list[n + i];
    }
    forall k | k in r ensures exists i :: 0 <= i < |l| && l[i].ext == k {
      hide Lists;
      var i := ListsFind(list, m, k);
      assert l[i - n].ext == k;
    }
  }

  lemma ListsAllBelow(list: seq<Entry>, m: map<nat, Packet>, n: nat, end: nat)
    requires Lists(list, m) && n <= |list|
    requires forall i :: 0 <= i < n ==> list[i].ext < end
    requires n < |list| ==> list[n].ext >= end
    ensures (forall k :: k in m ==> k < end) <==> n == |list|
  {
    if n < |list| {
      ListsAt(list, m, n);
    } else {
      forall k | k in m ensures k < end {
        var i := ListsFind(list, m, k);
      }
    }
  }

  lemma ListsRun(list: seq<Entry>, m: map<nat, Packet>, from: nat, n: nat, ts: U32)
    requires Lists(list, m) && n <= |list|
    requires forall i :: 0 <= i < n ==> list[i].ext == from + i && list[i].pkt.timestamp == ts
    requires n < |list| ==> list[n].ext != from + n || list[n].pkt.timestamp != ts
    requires list != [] && list[0].ext == from && n > 0
    ensures RunEnd(m, from, ts) == from + n
    ensures forall i :: 0 <= i < n ==> from + i in m && m[from + i] == list[i].pkt
  {
    hide Lists, RunEnd;
    forall i | 0 <= i < n ensures from + i in m && m[from + i] == list[i].pkt {
      ListsAt(list, m, i);
    }
    forall k | from <= k < from + n ensures InRun(m, k, ts) {
      ListsAt(list, m, k - from);
    }
    if InRun(m, from + n, ts) {
      var i := ListsFind(list, m, from + n);
      ListsAt(list, m, n - 1);
      ListsAt(list, m, i);
      ListsOrder(list, m, n - 1, i);
      ListsAt(list, m, n);
      ListsOrder(list, m, n - 1, n);
      ListsOrder(list, m, n, i);
    }
  }

  lemma ListsAt(list: seq<Entry>, m: map<nat, Packet>, i: nat)
    requires Lists(list, m) && i < |list|
    ensures list[i].ext in m && m[list[i].ext] == list[i].pkt
  {
  }

  lemma ListsOrder(list: seq<Entry>, m: map<nat, Packet>, i: nat, j: nat)
    requires Lists(list, m) && i < |list| && j < |list|
    ensures i < j <==> list[i].ext < list[j].ext
  {
  }

  lemma ListsFind(list: seq<Entry>, m: map<nat, Packet>, k: nat) returns (i: nat)
    requires Lists(list, m) && k in m
    ensures i < |list| && list[i].ext == k
  {
    i :| 0 <= i < |list| && list[i].ext == k;
  }

  lemma ListsBound(list: seq<Entry>, m: map<nat, Packet>, n: nat, end: nat)
    requires Lists(list, m) && n <= |list| && forall i :: 0 <= i < n ==> list[i].ext == list[0].ext + i
    requires n > 0 && end == list[0].ext + n
    ensures list[0].ext in m && (n < |list| ==> list[n].ext >= end)
  {
    assert n < |list| ==> list[n - 1].ext < list[n].ext;
  }

  /** What a pop delivers when the run at the head of the list has `it` entries. */
  lemma HeadRun(c: Core, list: seq<Entry>, it: nat, ts: U32, now: int)
    requires Lists(list, c.buf) && 0 < it <= |list| && list[0].ext == c.next
    requires forall i :: 0 <= i < it ==> list[i].ext == c.next + i && list[i].pkt.timestamp == ts
    requires it < |list| ==> list[it].ext != c.next + it || list[it].pkt.timestamp != ts
    ensures c.next in c.buf
    ensures var d, last, since := c.(gap := None), it == |list|, Armed(c.wait, now);
            if c.video && last && now - since < c.delay / 2 * MS then Deliver(c, now) == (d.(wait := Some(since)), [])
            else var left := Deliver(c, now).0.buf;
                 && Lists(list[it..], left) && (forall k :: k in left ==> c.next + it <= k)
                 && Deliver(c, now) == (d.(next := c.next + it, buf := left,
                                           wait := if c.video && last then Some(since) else None), list[..it])
  {
    hide RunEnd, Lists;
    ListsRun(list, c.buf, c.next, it, ts);
    ListsBound(list, c.buf, it, c.next + it);
    ListsAt(list, c.buf, 0);
    ListsDrop(list, c.buf, it, c.next + it);
    ListsAllBelow(list, c.buf, it, c.next + it);
    assert Slice(c.buf, c.next, c.next + it) == list[..it];
  }

  class Buffer {
    const maxDelay: nat
    const isVideo: bool
    var sorted: seq<Entry>
    var next: nat
    var firstPacket: bool
    var gapStart: Option<int>
    var videoWaitStart: Option<int>
    ghost var core: Core

    ghost predicate Valid()
      reads this
    {
      && core == Core(maxDelay, isVideo, next, firstPacket, core.buf, gapStart, videoWaitStart)
      && Lists(sorted, core.buf) && Ordered(core) && (firstPacket ==> core.buf == map[])
    }

    constructor (delay: nat, video: bool)
      ensures Valid() && core == Empty(delay, video)
    {
      maxDelay, isVideo := delay, video;
      sorted, next, firstPacket, gapStart, videoWaitStart := [], 0, true, None, None;
      core := Empty(delay, video);
    }

    method PushPacket(p: Packet)
      requires Valid() && next < LIMIT
      modifies this
      ensures Valid() && core == Push(old(core), p)
    {
      hide Lists, ExtendSeq;
      var extended := ExtendSeq(p.seqNo, next);
      core := Push(core, p);
      if firstPacket {
        if p.payload == [] {
          return;
        }
        firstPacket := false;
        next := extended;
      }
      if extended < next {
        return;
      }
      var at := 0;
      while at < |sorted| && sorted[at].ext < extended
        invariant at <= |sorted| && forall i :: 0 <= i < at ==> sorted[i].ext < extended
      {
        at := at + 1;
      }
      ListsPlace(sorted, old(core).buf, at, extended);
      if at < |sorted| && sorted[at].ext == extended {
        return;
      }
      ListsInsert(sorted, old(core).buf, at, Entry(extended, p));
      sorted := sorted[..at] + [Entry(extended, p)] + sorted[at..];
    }

    method Reset()
      requires Valid()
      modifies this
      ensures Valid() && core == Empty(maxDelay, isVideo)
    {
      sorted, next, firstPacket, gapStart, videoWaitStart := [], 0, true, None, None;
      core := Empty(maxDelay, isVideo);
    }

    method PopFrame(now: int) returns (packets: seq<Packet>)
      requires Valid()
      modifies this
      ensures Valid() && core == Pop(old(core), now).0
      ensures packets == Packets(Pop(old(core), now).1)
    {
      hide RunEnd, Lists, Deliver;
      ListsHead(sorted, core.buf);
      packets := [];
      if sorted == [] {
        return;
      }
      var extended := sorted[0].ext;
      if extended > next {
        if gapStart == None {
          gapStart := Some(now);
        }
        if now - gapStart.value >= maxDelay * MS {
          next := extended;
          gapStart := None;
        } else {
          core := core.(gap := gapStart);
          return;
        }
      }
      if extended < next {
        assert false;
      }
      core := core.(next := next, gap := gapStart);
      packets := Take(now);
    }

    /** Counts the consecutive packets with timestamp `ts` from the read position on. */
    method ScanForward(ts: U32) returns (nextExpected: nat, it: nat)
      requires sorted != [] && sorted[0].ext == next && sorted[0].pkt.timestamp == ts
      ensures 0 < it <= |sorted| && nextExpected == next + it
      ensures forall i :: 0 <= i < it ==> sorted[i].ext == next + i && sorted[i].pkt.timestamp == ts
      ensures it < |sorted| ==> sorted[it].ext != nextExpected || sorted[it].pkt.timestamp != ts
    {
      nextExpected, it := next, 0;
      while it < |sorted| && sorted[it].ext == nextExpected && sorted[it].pkt.timestamp == ts
        invariant it <= |sorted| && nextExpected == next + it
        invariant forall i :: 0 <= i < it ==> sorted[i].ext == next + i && sorted[i].pkt.timestamp == ts
      {
        nextExpected := nextExpected + 1;
        it := it + 1;
      }
    }

    /** The second half of a pop: the head of the list is at the read position. */
    method Take(now: int) returns (packets: seq<Packet>)
      requires Valid() && sorted != [] && sorted[0].ext == next
      modifies this
      ensures Valid() && old(next in core.buf) && core == Deliver(old(core), now).0
      ensures packets == Packets(Deliver(old(core), now).1)
    {
      hide RunEnd, Lists, Deliver;
      gapStart := None;
      core := core.(gap := None);
      var ts := sorted[0].pkt.timestamp;
      var nextExpected, it := ScanForward(ts);
      if it < |sorted| && sorted[it].ext == nextExpected && sorted[it].pkt.timestamp == ts {
        assert false;
      }
      HeadRun(old(core), sorted, it, ts, now);
      core := Deliver(old(core), now).0;
      packets := [];
      if isVideo && it == |sorted| {
        if videoWaitStart == None {
          videoWaitStart := Some(now);
        }
        if now - videoWaitStart.value < maxDelay / 2 * MS {
          return;
        }
      } else {
        videoWaitStart := None;
      }
      var list := sorted;
      packets := seq(it, i requires 0 <= i < it => list[i].pkt);
      next := nextExpected;
      sorted := sorted[it..];
    }
  }

  function Packets(es: seq<Entry>): seq<Packet> {
    seq(|es|, i requires 0 <= i < |es| => es[i].pkt)
  }
}
