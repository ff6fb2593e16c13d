/** What a transport-wide report says and how much it takes, stated about the arrivals. */
module TransportCcReports {
  import opened Words
  import opened TransportCc
  import Wire = TransportCcWire
  import RtpExtension

  /** A span of nanoseconds in units of 250 microseconds, rounded towards zero. */
  function Units(d: int): (u: int)
    ensures if d >= 0 then 250_000 * u <= d < 250_000 * (u + 1) else 250_000 * (u - 1) < d <= 250_000 * u
  {
    if d >= 0 then d / 250_000 else -(-d / 250_000)
  }

  lemma TicksAreUnits(at: int, last: int)
    ensures Ticks(at, last) == Units(at - last)
  {
    TruncTwice(at - last);
  }

  lemma TruncTwice(d: int)
    ensures TruncDiv(TruncDiv(d, 1000), 250) == Units(d)
  {
  }

  /** What is to be reported of a packet `u` units after the one before: a one-byte delta when it fits, else a two-byte one,
      else that it came. */
  predicate Says(i: Info, u: int) {
    && (i.status == SmallDelta <==> -128 <= u <= 127)
    && (i.status == LargeDelta <==> -32768 <= u <= 32767 && !(-128 <= u <= 127))
    && (i.status == WithoutDelta <==> !(-32768 <= u <= 32767))
    && (i.status != WithoutDelta ==> i.delta == u)
  }

  lemma ReceivedSays(ticks: int)
    ensures Says(Received(ticks), ticks)
  {
  }

  /** The statuses of the received numbers. */
  function Got(infos: seq<Info>): seq<Info> {
    if infos == [] then []
    else Got(infos[..|infos| - 1]) + if infos[|infos| - 1].status == NotReceived then [] else [infos[|infos| - 1]]
  }

  lemma {:induction false} GotMissing(infos: seq<Info>, n: nat)
    ensures Got(infos + Missing(n)) == Got(infos)
  {
    if n == 0 {
      assert infos + Missing(0) == infos;
    } else {
      var more := infos + Missing(n);
      assert more[..|more| - 1] == infos + Missing(n - 1) && more[|more| - 1] == Info(NotReceived, 0);
      GotMissing(infos, n - 1);
    }
  }

  lemma GotReceived(infos: seq<Info>, n: nat, i: Info)
    requires i.status != NotReceived
    ensures Got(infos + Missing(n) + [i]) == Got(infos) + [i]
  {
    GotMissing(infos, n);
    var more := infos + Missing(n) + [i];
    assert more[..|more| - 1] == infos + Missing(n);
  }

  /** The time the `k`-th delta counts from when the first counts from `last`. */
  function Before(recv: seq<Arrival>, last: int, k: nat): int
    requires k < |recv|
  {
    if k == 0 then last else recv[k - 1].at
  }

  ghost predicate SaysAll(got: seq<Info>, recv: seq<Arrival>, last: int, n: nat)
    requires n <= |recv|
  {
    |got| == n && forall k :: 0 <= k < n ==> Says(got[k], Units(recv[k].at - Before(recv, last, k)))
  }

  lemma {:induction false} WalkSays(recv: seq<Arrival>, pos: U16, last: int, infos: seq<Info>)
    ensures var (out, rest) := Walk(recv, pos, last, infos);
            |rest| <= |recv| && Got(infos) <= Got(out) && SaysAll(Got(out)[|Got(infos)|..], recv, last, |recv| - |rest|)
    decreases |recv|
  {
    hide Offset, Ticks, Low16, Got, Received, Says, Units;
    if recv == [] || |infos| >= MAX_COUNT {
      WalkEnds(recv, pos, last, infos);
    } else if Offset(pos, recv[0].num) > MAX_COUNT - |infos| {
      WalkGivesUp(recv, pos, last, infos);
      GotMissing(infos, MAX_COUNT - |infos|);
    } else {
      var a, gap := recv[0], Offset(pos, recv[0].num);
      var r := Received(Ticks(a.at, last));
      var more := infos + Missing(gap) + [r];
      var (out, rest) := Walk(recv, pos, last, infos);
      WalkOn(recv, pos, last, infos);
      hide Walk;
      WalkSays(recv[1..], Low16(a.num + 1), a.at, more);
      ReceivedIsReceived(Ticks(a.at, last));
      GotReceived(infos, gap, r);
      ReceivedSays(Ticks(a.at, last));
      TicksAreUnits(a.at, last);
      var got, later := Got(out)[|Got(infos)|..], Got(out)[|Got(more)|..];
      assert got == [r] + later;
      forall k | 0 <= k < |got| ensures Says(got[k], Units(recv[k].at - Before(recv, last, k))) {
        if k > 0 {
          assert got[k] == later[k - 1] && recv[k] == recv[1..][k - 1];
        }
      }
    }
  }

  // ---------------------------------------------------------------------------------------------
  // One report

  /** How far the `k`-th arrival is from the one before it, and the first one from the last full 64 milliseconds, in units. */
  function Distance(recv: seq<Arrival>, k: nat): int
    requires k < |recv|
  {
    if k == 0 then Units(recv[0].at % 64_000_000) else Units(recv[k].at - recv[k - 1].at)
  }

  lemma FirstDistance(a: Arrival)
    requires a.at >= 0
    ensures Units(a.at - Start(a)) == Units(a.at % 64_000_000)
    ensures Reference(a) / 64000 == a.at / 64_000_000 && Reference(a) * 1000 == a.at / 64_000_000 * 64_000_000
  {
    var us, q := a.at / 1000, a.at / 64_000_000;
    SplitTime(a.at);
    assert a.at - Start(a) == 1000 * (us % 64000);
    assert 1000 * (us % 64000) <= a.at % 64_000_000 < 1000 * (us % 64000) + 1000;
    assert 1000 * (us % 64000) % 1000 == 0;
    SameUnits(us % 64000, a.at % 64_000_000);
  }

  lemma SplitTime(at: nat)
    ensures at / 1000 / 64000 == at / 64_000_000
    ensures at % 64_000_000 == 1000 * (at / 1000 % 64000) + at % 1000
  {
  }

  lemma SameUnits(us: nat, ns: nat)
    requires 1000 * us <= ns < 1000 * us + 1000
    ensures Units(1000 * us) == Units(ns)
  {
    assert us == 250 * (us / 250) + us % 250;
  }

  /** Every arrival a report takes is reported by its distance: as a small delta, a large one, or without one, as its size in
      units demands; and the reference time is the first arrival's in units of 64 milliseconds. */
  lemma DeltasAreExact(s: State)
    requires s.recv != [] && s.recv[0].at >= 0
    ensures var (t, f) := Report(s);
            && f.Some? && f.value.refTime == s.recv[0].at / 64_000_000 % 0x100_0000
            && |t.recv| <= |s.recv| && |Got(f.value.infos)| == |s.recv| - |t.recv|
            && forall k :: 0 <= k < |Got(f.value.infos)| ==> Says(Got(f.value.infos)[k], Distance(s.recv, k))
  {
    hide Walk, Start, Says, Units, Reference;
    FirstDistance(s.recv[0]);
    WalkSays(s.recv, Base(s), Start(s.recv[0]), []);
    assert Got([]) == [];
    var infos := Report(s).1.value.infos;
    assert Got(infos)[0..] == Got(infos);
  }

  lemma {:induction false} GotHasThem(infos: seq<Info>, i: Info)
    requires i.status != NotReceived
    ensures i in infos <==> i in Got(infos)
  {
    if infos != [] {
      GotHasThem(infos[..|infos| - 1], i);
      assert infos == infos[..|infos| - 1] + [infos[|infos| - 1]];
    }
  }

  /** Of the arrivals the report takes, none came more than about 8.2 seconds after, or before, the one before it. */
  predicate Reachable(recv: seq<Arrival>, n: nat)
    requires n <= |recv|
  {
    forall k :: 0 < k < n ==> -32768 <= Distance(recv, k) <= 32767
  }

  /** None of them came between one unit and 32 milliseconds before the one ahead of it in the list. */
  predicate InTurn(recv: seq<Arrival>, n: nat)
    requires n <= |recv|
  {
    forall k :: 0 < k < n ==> !(-128 <= Distance(recv, k) < 0)
  }

  lemma FirstIsNear(recv: seq<Arrival>)
    requires recv != []
    ensures 0 <= Distance(recv, 0) < 256
  {
  }

  /** Some status that is received occurs among all exactly when it occurs among the received. */
  lemma GotAreThose(infos: seq<Info>, bad: Info -> bool)
    requires forall i :: bad(i) ==> i.status != NotReceived
    ensures (exists i :: 0 <= i < |infos| && bad(infos[i])) <==> exists k :: 0 <= k < |Got(infos)| && bad(Got(infos)[k])
  {
    hide Got;
    if i :| 0 <= i < |infos| && bad(infos[i]) {
      GotHasThem(infos, infos[i]);
      var k :| 0 <= k < |Got(infos)| && Got(infos)[k] == infos[i];
    }
    if k :| 0 <= k < |Got(infos)| && bad(Got(infos)[k]) {
      GotHasThem(infos, Got(infos)[k]);
      var i :| 0 <= i < |infos| && infos[i] == Got(infos)[k];
    }
  }

  lemma DeltasAreThere(infos: seq<Info>, recv: seq<Arrival>)
    requires |Got(infos)| <= |recv| && forall k :: 0 <= k < |Got(infos)| ==> Says(Got(infos)[k], Distance(recv, k))
    ensures NoneWithoutDelta(infos) <==> Reachable(recv, |Got(infos)|)
    ensures Wire.NoneMisread(infos) <==> InTurn(recv, |Got(infos)|)
  {
    hide Got, Distance;
    var unsized, misread := (i: Info) => i.status == WithoutDelta, (i: Info) => Wire.Misread(i);
    GotAreThose(infos, unsized);
    GotAreThose(infos, misread);
    if |Got(infos)| > 0 {
      FirstIsNear(recv);
    }
    assert NoneWithoutDelta(infos) <==> !exists i :: 0 <= i < |infos| && unsized(infos[i]);
    assert Wire.NoneMisread(infos) <==> !exists i :: 0 <= i < |infos| && misread(infos[i]);
  }

  /** So every received number has a delta exactly when the arrivals are near each other, and none of the deltas is misread
      exactly when they come in turn. */
  lemma ReportHasAllDeltas(s: State)
    requires s.recv != [] && s.recv[0].at >= 0
    ensures var (t, f) := Report(s);
            && f.Some? && |t.recv| <= |s.recv|
            && (NoneWithoutDelta(f.value.infos) <==> Reachable(s.recv, |s.recv| - |t.recv|))
            && (Wire.NoneMisread(f.value.infos) <==> InTurn(s.recv, |s.recv| - |t.recv|))
  {
    hide Report, Got, Distance, Says, NoneWithoutDelta, Reachable, InTurn, Wire.NoneMisread;
    DeltasAreExact(s);
    DeltasAreThere(Report(s).1.value.infos, s.recv);
  }

  /** While the arrivals taken are near each other, summing the deltas from the reference time reproduces the time of the k-th
      within 250 k microseconds. */
  lemma TimesAreReproduced(s: State)
    requires s.recv != [] && s.recv[0].at >= 0
    requires |Report(s).0.recv| <= |s.recv| && Reachable(s.recv, |s.recv| - |Report(s).0.recv|)
    ensures var (t, f) := Report(s);
            var times := Rebuilt(s.recv[0].at / 64_000_000 * 64_000_000, f.value.infos);
            |times| == |s.recv| - |t.recv| && Close(times, s.recv)
  {
    ReportHasAllDeltas(s);
    FirstDistance(s.recv[0]);
    hide Report, Rebuilt, Close, Reachable, Reference, NoneWithoutDelta;
    TimesFollow(s);
  }

  /** When they moreover come in turn, so does a reader of the datagram. */
  lemma TimesSurvive(s: State, sender: U32, media: U32)
    requires s.recv != [] && s.recv[0].at >= 0
    requires |Report(s).0.recv| <= |s.recv|
    requires Reachable(s.recv, |s.recv| - |Report(s).0.recv|) && InTurn(s.recv, |s.recv| - |Report(s).0.recv|)
    ensures var (t, f) := Report(s);
            && Wire.Encodable(f.value) && Wire.Read(Wire.Build(sender, media, f.value)).Some?
            && var items := Wire.Read(Wire.Build(sender, media, f.value)).value.items;
            var times := Wire.ItemTimes(s.recv[0].at / 64_000_000 * 64_000_000, items);
            |times| == |s.recv| - |t.recv| && Close(times, s.recv)
  {
    ReportHasAllDeltas(s);
    FirstDistance(s.recv[0]);
    hide Report, Wire.Encodable, Wire.Read, Wire.Build, Wire.ItemTimes, Close, Reachable, InTurn, NoneWithoutDelta, Wire.NoneMisread, Reference, Start;
    Wire.TimesAreRead(s, sender, media);
  }

  // ---------------------------------------------------------------------------------------------
  // How much a report takes

  lemma {:induction false} GotIsShorter(infos: seq<Info>)
    ensures |Got(infos)| <= |infos|
  {
    if infos != [] {
      GotIsShorter(infos[..|infos| - 1]);
    }
  }

  lemma {:induction false} WalkIsFull(recv: seq<Arrival>, pos: U16, last: int, infos: seq<Info>)
    ensures var (out, rest) := Walk(recv, pos, last, infos); |out| < MAX_COUNT ==> rest == []
    decreases |recv|
  {
    hide Offset, Ticks, Low16, Received;
    if recv != [] && |infos| < MAX_COUNT && Offset(pos, recv[0].num) <= MAX_COUNT - |infos| {
      WalkIsFull(recv[1..], Low16(recv[0].num + 1), recv[0].at,
                 infos + Missing(Offset(pos, recv[0].num)) + [Received(Ticks(recv[0].at, last))]);
    }
  }

  /** A report begins at the first arrival when the counter is 0 and else where the one before ended, counts one up, goes on to
      the last arrival unless it has 100 statuses by then, and takes at most 101 arrivals. */
  lemma ReportTakes(s: State)
    requires s.recv != []
    ensures var (t, f) := Report(s);
            && f.Some? && f.value.base == (if s.fbCount == 0 then s.recv[0].num else s.next)
            && f.value.fbCount as int == (s.fbCount as int + 1) % 256 && t.fbCount == f.value.fbCount
            && t.next as int == (f.value.base as int + |f.value.infos|) % 65536
            && (|f.value.infos| < 100 ==> t.recv == []) && |s.recv| - 101 <= |t.recv| <= |s.recv|
  {
    hide Walk, Start;
    WalkIsFull(s.recv, Base(s), Start(s.recv[0]), []);
    WalkIsBounded(s.recv, Base(s), Start(s.recv[0]), []);
    WalkSays(s.recv, Base(s), Start(s.recv[0]), []);
    GotIsShorter(Report(s).1.value.infos);
    assert Got([]) == [];
  }

  /** Up to 200 buffered arrivals are left alone; of more, so many are reported that 100 to 200 stay. */
  lemma {:induction false} DrainLeaves(s: State)
    ensures var (t, fs) := Drain(s);
            if |s.recv| <= 200 then t == s && fs == [] else fs != [] && 100 <= |t.recv| <= 200
    decreases |s.recv|, if s.recv == [] then 0 else Offset(s.next, s.recv[0].num)
  {
    hide Report, Offset;
    if |s.recv| > 200 {
      ReportProgresses(s);
      ReportTakes(s);
      DrainLeaves(Report(s).0);
    }
  }

  // ---------------------------------------------------------------------------------------------
  // Which numbers are taken

  /** A packet announces a number exactly by an element of id 4 with its two bytes, high byte first. */
  lemma {:induction false} AnnouncedIff(es: seq<RtpExtension.Element>, x: U16)
    ensures x in Announced(es) <==> RtpExtension.Element(4, [x / 256, x % 256]) in es
  {
    if es != [] {
      AnnouncedIff(es[1..], x);
      assert es == [es[0]] + es[1..];
      var data := es[0].data;
      if |data| == 2 {
        assert Get16(data, 0) == x <==> data == [x / 256, x % 256] by {
          TwoBytes(data, x);
        }
      }
    }
  }

  lemma TwoBytes(data: Bytes, x: U16)
    requires |data| == 2
    ensures Get16(data, 0) == x <==> data == [x / 256, x % 256]
  {
    if Get16(data, 0) == x {
      assert x / 256 == data[0] as int && x % 256 == data[1] as int;
    }
  }
}
