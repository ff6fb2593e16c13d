/** When the reorder buffer waits, gives up and delivers, told from the history of its pops alone. */
module JitterHistory {
  import opened Words
  import opened Rtp
  import opened JitterBuffer

  // ---------------------------------------------------------------------------------------------
  // What the history says

  predicate SeesGap(l: Look, pos: nat) {
    l.pos == pos && l.head > pos
  }

  /** When the first of the first `n` pops found the read position `pos` missing. */
  function FirstGap(looks: seq<Look>, n: nat, pos: nat): (r: Option<int>)
    requires n <= |looks|
    ensures r.None? <==> forall i :: 0 <= i < n ==> !SeesGap(looks[i], pos)
    ensures r.Some? ==> exists i :: 0 <= i < n && SeesGap(looks[i], pos) && looks[i].at == r.value
                                    && forall j :: 0 <= j < i ==> !SeesGap(looks[j], pos)
  {
    if n == 0 then None
    else
      var r := FirstGap(looks, n - 1, pos);
      if r.Some? then r else if SeesGap(looks[n - 1], pos) then Some(looks[n - 1].at) else None
  }

  /** The `i`-th pop gets to the head: nothing is missing before it, or has been for the whole delay. */
  predicate Reached(looks: seq<Look>, i: nat, delay: nat)
    requires i < |looks|
  {
    SeesGap(looks[i], looks[i].pos) ==> looks[i].at - FirstGap(looks, i + 1, looks[i].pos).value >= delay * MS
  }

  /** When the first of those pops came that, last of all to get to the head, found nothing but the run there. */
  function AloneSince(looks: seq<Look>, n: nat, delay: nat): Option<int>
    requires n <= |looks|
  {
    if n == 0 then None
    else if !Reached(looks, n - 1, delay) then AloneSince(looks, n - 1, delay)
    else if !looks[n - 1].alone then None
    else
      var r := AloneSince(looks, n - 1, delay);
      if r.Some? then r else Some(looks[n - 1].at)
  }

  /** The `i`-th pop delivers: it gets to the head, and for video more than the run is there or half the delay is over. */
  predicate Delivers(looks: seq<Look>, i: nat, delay: nat, video: bool)
    requires i < |looks|
  {
    && Reached(looks, i, delay)
    && (video && looks[i].alone ==>
          var since := AloneSince(looks, i + 1, delay);
          since.Some? && looks[i].at - since.value >= delay / 2 * MS)
  }

  // ---------------------------------------------------------------------------------------------
  // The timers agree with the history

  ghost predicate Timed(c: Core, looks: seq<Look>) {
    && (forall i :: 0 <= i < |looks| ==> looks[i].pos <= looks[i].head && looks[i].pos <= c.next)
    && (c.next !in c.buf ==> c.gap == FirstGap(looks, |looks|, c.next))
    && (c.first ==> looks == [] && c.buf == map[] && c.gap == None)
    && c.wait == (if c.video then AloneSince(looks, |looks|, c.delay) else None)
  }

  lemma {:induction false} SameFirstGap(looks: seq<Look>, l: Look, n: nat, pos: nat)
    requires n <= |looks|
    ensures FirstGap(looks + [l], n, pos) == FirstGap(looks, n, pos)
  {
    if n > 0 {
      SameFirstGap(looks, l, n - 1, pos);
      assert (looks + [l])[n - 1] == looks[n - 1];
    }
  }

  lemma {:induction false} SameAloneSince(looks: seq<Look>, l: Look, n: nat, delay: nat)
    requires n <= |looks|
    ensures AloneSince(looks + [l], n, delay) == AloneSince(looks, n, delay)
  {
    if n > 0 {
      SameAloneSince(looks, l, n - 1, delay);
      SameFirstGap(looks, l, n, looks[n - 1].pos);
      assert (looks + [l])[n - 1] == looks[n - 1];
    }
  }

  /** What one more pop adds to the history. */
  lemma OneMore(looks: seq<Look>, l: Look, pos: nat, delay: nat)
    ensures var all, n := looks + [l], |looks|;
            && FirstGap(all, n + 1, pos) == (if FirstGap(looks, n, pos).Some? then FirstGap(looks, n, pos)
                                             else if SeesGap(l, pos) then Some(l.at) else None)
            && AloneSince(all, n + 1, delay) == (if !Reached(all, n, delay) then AloneSince(looks, n, delay)
                                                 else if !l.alone then None
                                                 else if AloneSince(looks, n, delay).Some? then AloneSince(looks, n, delay)
                                                 else Some(l.at))
  {
    hide Reached, SeesGap;
    SameFirstGap(looks, l, |looks|, pos);
    SameAloneSince(looks, l, |looks|, delay);
  }

  lemma AloneIsLast(buf: map<nat, Packet>)
    requires buf != map[]
    ensures (forall k :: k in buf ==> k < RunEnd(buf, Least(buf), buf[Least(buf)].timestamp)) <==> OneRun(buf)
  {
    hide RunEnd;
    var n, ts := Least(buf), buf[Least(buf)].timestamp;
    var end := RunEnd(buf, n, ts);
    if k :| k in buf && k >= end {
      assert !InRun(buf, end, ts);
    }
  }

  /** Delivering, in the terms of the history. */
  lemma DeliverIs(c: Core, now: int)
    requires Ordered(c) && c.next in c.buf
    ensures c.next == Least(c.buf)
    ensures var since := if OneRun(c.buf) then Some(if c.wait.Some? then c.wait.value else now) else None;
            var (d, out) := Deliver(c, now);
            && d.gap == None && d.wait == (if c.video then since else None)
            && if c.video && OneRun(c.buf) && now - since.value < c.delay / 2 * MS then out == [] && d.buf == c.buf && d.next == c.next
               else out != [] && TakesRun(c.buf, d, c.next, out) && d.next > c.next
    ensures var d := Deliver(c, now).0; d.delay == c.delay && d.video == c.video && d.first == c.first && Ordered(d)
  {
    hide RunEnd, OneRun;
    AloneIsLast(c.buf);
    DeliverTakesRun(c, now);
    assert InRun(c.buf, c.next, c.buf[c.next].timestamp);
  }

  lemma PopIs(c: Core, now: int)
    requires Ordered(c) && c.buf != map[]
    ensures var e := Least(c.buf);
            && e in c.buf && c.next <= e && (e == c.next <==> c.next in c.buf) && Ordered(c.(next := e, gap := None))
            && if e == c.next then Pop(c, now) == Deliver(c, now)
               else
                 var since := if c.gap.Some? then c.gap.value else now;
                 if now - since >= c.delay * MS then Pop(c, now) == Deliver(c.(next := e, gap := None), now)
                 else Pop(c, now) == (c.(gap := Some(since)), [])
  {
    hide Deliver;
    assert IsLeast(c.buf, Least(c.buf));
  }

  /** What a pop must do in state `c` given all pops so far, itself included. */
  ghost predicate Follows(c: Core, looks: seq<Look>, d: Core, out: seq<Entry>)
    requires looks != [] && c.buf != map[]
  {
    var i := |looks| - 1;
    if !Reached(looks, i, c.delay) then out == [] && d.buf == c.buf && d.next == c.next
    else if !Delivers(looks, i, c.delay, c.video) then out == [] && d.buf == c.buf && d.next == Least(c.buf)
    else out != [] && TakesRun(c.buf, d, Least(c.buf), out)
  }

  /** A pop that gets to the head, once that is the read position. */
  lemma {:induction false} HeadReached(h: Core, looks: seq<Look>, l: Look, now: int)
    requires Ordered(h) && h.next in h.buf && h.buf != map[] && l == Look(now, l.pos, h.next, OneRun(h.buf)) && l.pos <= h.next
    requires forall i :: 0 <= i < |looks| ==> looks[i].pos <= looks[i].head && looks[i].pos <= h.next
    requires h.wait == (if h.video then AloneSince(looks, |looks|, h.delay) else None) && !h.first
    requires Reached(looks + [l], |looks|, h.delay)
    ensures var (d, out), all := Deliver(h, now), looks + [l]; Follows(h, all, d, out) && Timed(d, all) && Ordered(d)
  {
    var (d, out) := Deliver(h, now);
    hide Deliver, OneRun, Reached, TakesRun, FirstGap, AloneSince, Ordered;
    DeliverIs(h, now);
    OneMore(looks, l, d.next, h.delay);
  }

  /** One pop does what the history of all pops says, and leaves timers that agree with it. */
  lemma {:induction false} PopFollows(c: Core, looks: seq<Look>, now: int)
    requires Ordered(c) && Timed(c, looks) && c.buf != map[]
    ensures var (d, out), all := Pop(c, now), looks + [LookAt(c, now)]; Follows(c, all, d, out) && Timed(d, all) && Ordered(d)
  {
    var l := LookAt(c, now);
    PopIs(c, now);
    hide Pop, Deliver, OneRun, FirstGap, AloneSince, Ordered, TakesRun;
    OneMore(looks, l, c.next, c.delay);
    if c.next in c.buf {
      HeadReached(c, looks, l, now);
    } else if Reached(looks + [l], |looks|, c.delay) {
      HeadReached(c.(next := Least(c.buf), gap := None), looks, l, now);
    }
  }

  lemma PushKeepsTimed(c: Core, looks: seq<Look>, p: Packet)
    requires Ordered(c) && Timed(c, looks) && c.next < LIMIT
    ensures Timed(Push(c, p), looks)
  {
    hide ExtendSeq, FirstGap, AloneSince;
  }

  lemma {:induction false} RunIsTimed(w: World, es: seq<Event>, v: World)
    requires Inv(w) && Timed(w.core, w.looks) && Runs(w, es, v)
    ensures Inv(v) && Timed(v.core, v.looks)
    decreases |es|
  {
    if es != [] {
      hide Inv, Timed, Push, Pop;
      assert Ordered(w.core);
      StepKeepsInv(w, es[0]);
      match es[0] {
        case Arrive(p) => PushKeepsTimed(w.core, w.looks, p);
        case Ask(now) =>
          if w.core.buf != map[] {
            PopFollows(w.core, w.looks, now);
          } else {
            assert Pop(w.core, now) == (w.core, []);
          }
      }
      RunIsTimed(Step(w, es[0]), es[1..], v);
    }
  }

  // ---------------------------------------------------------------------------------------------
  // Over whole runs

  /** In every run each pop of a non-empty buffer does exactly what the history of pops says: it waits while the number it
      should read next has been missing for less than the delay; otherwise it moves to the least number present and delivers
      the run there, unless this is video, nothing else is there, and half the delay is not over since that was first so. */
  lemma PopIsExact(delay: nat, video: bool, es: seq<Event>, w: World, now: int)
    requires Runs(NewWorld(delay, video), es, w) && w.core.buf != map[]
    ensures w.core.delay == delay && w.core.video == video && Ordered(w.core)
    ensures var (d, out), looks := Pop(w.core, now), w.looks + [LookAt(w.core, now)]; Follows(w.core, looks, d, out)
  {
    hide Pop, Follows;
    NewIsTimed(delay, video);
    RunIsTimed(NewWorld(delay, video), es, w);
    SettingsStay(NewWorld(delay, video), es, w);
    PopFollows(w.core, w.looks, now);
  }

  lemma NewIsTimed(delay: nat, video: bool)
    ensures Inv(NewWorld(delay, video)) && Timed(NewWorld(delay, video).core, [])
  {
  }

  lemma {:induction false} SettingsStay(w: World, es: seq<Event>, v: World)
    requires Runs(w, es, v)
    ensures v.core.delay == w.core.delay && v.core.video == w.core.video
    decreases |es|
  {
    if es != [] {
      hide Pop;
      if es[0].Ask? {
        PopTakesRun(w.core, es[0].now);
      }
      SettingsStay(Step(w, es[0]), es[1..], v);
    }
  }

  /** The clock never goes back. */
  predicate Steady(looks: seq<Look>, now: int) {
    forall i :: 0 <= i < |looks| ==> looks[i].at <= now && forall j :: i <= j < |looks| ==> looks[i].at <= looks[j].at
  }

  /** A gap is given up: once a pop has seen it, and it is still there the whole delay later, the next pop moves the read
      position to the least number present, and for audio delivers the run there at once. One lost packet stalls nothing. */
  lemma GapIsGivenUp(delay: nat, video: bool, es: seq<Event>, w: World, i: nat, now: int)
    requires Runs(NewWorld(delay, video), es, w) && GapAtHead(w.core) && Steady(w.looks, now)
    requires i < |w.looks| && SeesGap(w.looks[i], w.core.next) && now - w.looks[i].at >= delay * MS
    ensures Ordered(w.core)
    ensures var (d, out) := Pop(w.core, now);
            && d.next >= Least(w.core.buf) > w.core.next
            && (!video ==> out != [] && out[0].ext == Least(w.core.buf) && TakesRun(w.core.buf, d, out[0].ext, out))
  {
    hide Pop, Least, OneRun, FirstGap;
    PopIsExact(delay, video, es, w, now);
    var looks, pos := w.looks + [LookAt(w.core, now)], w.core.next;
    var first := FirstGap(looks, |looks|, pos);
    assert IsLeast(w.core.buf, Least(w.core.buf));
    assert looks[i] == w.looks[i] && SeesGap(looks[i], pos);
    var j :| 0 <= j < |looks| && SeesGap(looks[j], pos) && looks[j].at == first.value && forall k :: 0 <= k < j ==> !SeesGap(looks[k], pos);
    assert looks[j] == w.looks[j];
  }

  /** It is not given up any earlier: a pop within the delay of the first that saw the gap changes nothing. */
  lemma GapIsWaitedFor(delay: nat, video: bool, es: seq<Event>, w: World, now: int)
    requires Runs(NewWorld(delay, video), es, w) && GapAtHead(w.core)
    requires forall i :: 0 <= i < |w.looks| && SeesGap(w.looks[i], w.core.next) ==> now - w.looks[i].at < delay * MS
    requires delay > 0
    ensures Ordered(w.core)
    ensures var (d, out) := Pop(w.core, now); out == [] && d.buf == w.core.buf && d.next == w.core.next
  {
    hide Pop, Least, OneRun, FirstGap;
    PopIsExact(delay, video, es, w, now);
    var looks, pos := w.looks + [LookAt(w.core, now)], w.core.next;
    assert IsLeast(w.core.buf, Least(w.core.buf));
    assert SeesGap(looks[|w.looks|], pos);
    var j :| 0 <= j < |looks| && SeesGap(looks[j], pos) && looks[j].at == FirstGap(looks, |looks|, pos).value;
    assert j < |w.looks| ==> looks[j] == w.looks[j];
  }
}
