/** Whether a replay keeps to the schedule that the first delivery and the file's pauses set. */
module ReplaySchedule {
  import opened OfflineReplay
  import opened Wrappers

  /** What is due when: a call that has a packet at hand returns it if and only if the clock has reached
      the first delivery plus the pauses up to that packet. */
  predicate OnSchedule(r: Replay, now: nat) {
    var packets := Taken(r) + Read(r.driver);
    r.out != [] && Held(r.driver) + Read(r.driver) != [] ==>
      (Returned(r.driver, now) != [] <==> now >= r.out[0].at + Pauses(packets))
  }

  lemma ReturnedWhenDue(d: Driver, now: nat)
    requires Held(d) + Read(d) != []
    ensures Returned(d, now) != [] <==> now >= Call(d, now).pacing.sent
  {
  }

  /** An anchored schedule is kept, whatever the clock did; so is an unanchored one for two packets. */
  lemma AnchoredIsOnSchedule(r: Replay, now: nat)
    requires Scheduled(r) && r.out != [] && Held(r.driver) + Read(r.driver) != []
    requires var packets := Taken(r) + Read(r.driver); Anchored(r.out, packets) || |packets| <= 2
    ensures OnSchedule(r, now)
  {
    hide Packets, Taken, Call, Pauses, Gap, Returned, Read, Held, Anchored;
    TakenLength(r);
    NextKeepsSchedule(r, now);
    TakenAfter(r, now);
    NextDriver(r, now);
    ReturnedWhenDue(r.driver, now);
    var packets := Taken(r) + Read(r.driver);
    if Anchored(r.out, packets) {
      SameAnchor(r.out, Next(r, now).out, packets);
    } else {
      UnanchoredPair(r, now);
    }
  }

  lemma SameAnchor(out: seq<Delivery>, out': seq<Delivery>, packets: seq<Record>)
    requires out != [] && out' != [] && out'[0] == out[0] && Anchored(out, packets)
    ensures Anchored(out', packets)
  {
  }

  /** The second packet of an unanchored schedule goes out when it is read, and nothing was asked for. */
  lemma UnanchoredPair(r: Replay, now: nat)
    requires Scheduled(r) && r.out != [] && Held(r.driver) + Read(r.driver) != []
    requires var packets := Taken(r) + Read(r.driver); |packets| <= 2 && !Anchored(r.out, packets)
    ensures Returned(r.driver, now) != [] && r.out[0].at + Pauses(Taken(r) + Read(r.driver)) == 0
  {
    TakenLength(r);
    PacingAfter(r.driver, now);
    CallTakes(r.driver, now);
    hide Packets, Taken, Call, Pauses, Gap, Returned, Next;
    var packets := Taken(r) + Read(r.driver);
    assert |packets| == 2;
    if Read(r.driver) != [] {
      assert Taken(r) == [] + [packets[0]] && Read(r.driver) == [packets[1]];
      PausesSnoc([], packets[0]);
      PausesSnoc(Taken(r), packets[1]);
    }
  }

  lemma PacketsArePrefix(file: seq<Record>, clocks: seq<nat>)
    ensures var r := Run(file, clocks); Taken(r) + Read(r.driver) <= Accepted(file)
  {
    DeliveredInOrder(file, clocks);
    var r := Run(file, clocks);
    assert Read(r.driver) <= Accepted(r.driver.rest);
    hide Run, Packets, Held, Accepted, Read;
  }

  lemma {:induction false} FirstDeliveryAt(file: seq<Record>, clocks: seq<nat>)
    ensures var r := Run(file, clocks); r.out != [] ==> exists i :: 0 <= i < |clocks| && clocks[i] == r.out[0].at
  {
    if clocks != [] {
      var before, now := clocks[..|clocks| - 1], clocks[|clocks| - 1];
      FirstDeliveryAt(file, before);
      NextDriver(Run(file, before), now);
      hide Next, Call, Returned;
    }
  }

  /** With a clock that has left 0 every run is on schedule: the call that reads a packet returns it if
      it is due by then, and a later call returns it as soon as it is. */
  lemma OnScheduleOffZero(file: seq<Record>, clocks: seq<nat>, now: nat)
    requires forall i | 0 <= i < |clocks| :: clocks[i] > 0
    ensures OnSchedule(Run(file, clocks), now)
  {
    var r := Run(file, clocks);
    RunIsScheduled(file, clocks);
    FirstDeliveryAt(file, clocks);
    hide Run, Scheduled, Taken, Read, Returned, Held, Pauses;
    if r.out != [] && Held(r.driver) + Read(r.driver) != [] {
      AnchoredIsOnSchedule(r, now);
    }
  }

  /** The file has no third packet, or a pause before the second one. */
  predicate PausesEarly(file: seq<Record>) {
    |Accepted(file)| <= 2 || Gap(Accepted(file)[0].ts, Accepted(file)[1].ts) > 0
  }

  lemma PausesEarlyIsOnSchedule(file: seq<Record>, clocks: seq<nat>, now: nat)
    requires PausesEarly(file)
    ensures OnSchedule(Run(file, clocks), now)
  {
    var r := Run(file, clocks);
    RunIsScheduled(file, clocks);
    PacketsArePrefix(file, clocks);
    hide Run, Scheduled, Taken, Read, Returned, Held, Pauses, Accepted;
    if r.out != [] && Held(r.driver) + Read(r.driver) != [] {
      var packets := Taken(r) + Read(r.driver);
      assert |packets| >= 2 ==> packets[0] == Accepted(file)[0] && packets[1] == Accepted(file)[1];
      AnchoredIsOnSchedule(r, now);
    }
  }

  /** The clock has not run backwards and has come up to t at most. */
  predicate UpTo(clocks: seq<nat>, t: nat) {
    && (forall i, j | 0 <= i < j < |clocks| :: clocks[i] <= clocks[j])
    && (forall i | 0 <= i < |clocks| :: clocks[i] <= t)
  }

  lemma UpToSnoc(clocks: seq<nat>, t: nat, now: nat)
    requires UpTo(clocks, t) && t <= now
    ensures UpTo(clocks + [now], now)
  {
  }

  /** Oversized records are passed over, at any time, without any effect on the schedule. */
  lemma {:induction false} PassOversized(file: seq<Record>, clocks: seq<nat>, t: nat) returns (more: seq<nat>)
    requires Held(Run(file, clocks).driver) == [] && Accepted(Run(file, clocks).driver.rest) != []
    ensures var r, r' := Run(file, clocks), Run(file, more);
            && r'.out == r.out && r'.driver.pacing == r.driver.pacing
            && r'.driver.rest != [] && Fits(r'.driver.rest[0]) && Accepted(r'.driver.rest) == Accepted(r.driver.rest)
    ensures UpTo(clocks, t) ==> UpTo(more, t)
    decreases |Run(file, clocks).driver.rest|
  {
    var r := Run(file, clocks);
    hide Run;
    if Fits(r.driver.rest[0]) {
      more := clocks;
    } else {
      RunSnoc(file, clocks, t);
      more := PassOversized(file, clocks + [t], t);
      if UpTo(clocks, t) {
        UpToSnoc(clocks, t, t);
      }
    }
  }

  /** A packet that is due when it is read. */
  lemma ReadWhenDue(file: seq<Record>, clocks: seq<nat>, now: nat, sent: nat)
    requires var d := Run(file, clocks).driver;
             && Held(d) == [] && d.rest != [] && Fits(d.rest[0])
             && sent == (var sum := d.pacing.sent + Gap(d.pacing.time, d.rest[0].ts); if sum == 0 then now else sum)
             && sent <= now
    ensures var r, t := Run(file, clocks), Run(file, clocks + [now]);
            && t.out == r.out + [Delivery(r.driver.rest[0], now)]
                && Accepted(t.driver.rest) == Accepted(r.driver.rest)[1..]
            && t.driver.pacing == Pacing(None, r.driver.rest[0].ts, sent)
  {
    hide Run, Gap;
    RunSnoc(file, clocks, now);
  }

  /** Two packets without a pause between them, the first one at clock 0 and the second one later, shift
      the schedule of the third. */
  lemma Slips(file: seq<Record>) returns (clocks: seq<nat>, now: nat)
    requires !PausesEarly(file)
    ensures !OnSchedule(Run(file, clocks), now)
  {
    var a := Accepted(file);
    var gap := Gap(a[1].ts, a[2].ts);
    assert Run(file, []) == Replay(Fresh(file), []) && Gap(0, a[0].ts) == 0 && Gap(a[0].ts, a[1].ts) == 0;
    hide Run, Gap;
    clocks := PassOversized(file, [], 0);
    FirstAccepted(Run(file, clocks).driver.rest);
    ReadWhenDue(file, clocks, 0, 0);
    clocks := PassOversized(file, clocks + [0], 0);
    FirstAccepted(Run(file, clocks).driver.rest);
    ReadWhenDue(file, clocks, 1, 1);
    clocks := PassOversized(file, clocks + [1], 0);
    FirstAccepted(Run(file, clocks).driver.rest);
    now := gap;
    var r := Run(file, clocks);
    assert r.out == [Delivery(a[0], 0), Delivery(a[1], 1)] && r.driver.pacing == Pacing(None, a[1].ts, 1);
    SlipsBy(r, a[0], a[1], a[2], now);
  }

  lemma FirstAccepted(records: seq<Record>)
    requires records != [] && Fits(records[0])
    ensures Accepted(records) != [] && Accepted(records)[0] == records[0]
  {
  }

  lemma PacketsOfPair(out: seq<Delivery>, x: Delivery, y: Delivery)
    requires out == [x, y]
    ensures Packets(out) == [x.packet, y.packet]
  {
    hide Packets;
    PacketsSnoc([], x);
    PacketsSnoc([x], y);
    assert [] + [x] == [x] && [x] + [y] == [x, y];
    assert Packets([]) == [] && [] + [x.packet] == [x.packet] && [x.packet] + [y.packet] == [x.packet, y.packet];
  }

  lemma PausesOfThree(a: Record, b: Record, c: Record)
    ensures Pauses([a, b, c]) == Gap(a.ts, b.ts) + Gap(b.ts, c.ts)
  {
    hide Gap, Pauses;
    PausesSnoc([], a);
    PausesSnoc([a], b);
    PausesSnoc([a, b], c);
    assert [] + [a] == [a] && [a] + [b] == [a, b] && [a, b] + [c] == [a, b, c];
  }

  lemma SlipsBy(r: Replay, a: Record, b: Record, c: Record, now: nat)
    requires r.out == [Delivery(a, 0), Delivery(b, 1)] && r.driver.pacing == Pacing(None, b.ts, 1)
    requires r.driver.rest != [] && r.driver.rest[0] == c && Fits(c)
    requires Gap(a.ts, b.ts) == 0 && now == Gap(b.ts, c.ts)
    ensures !OnSchedule(r, now)
  {
    PacketsOfPair(r.out, r.out[0], r.out[1]);
    PausesOfThree(a, b, c);
    assert Returned(r.driver, now) == [] && Held(r.driver) == [] && Read(r.driver) == [c] by {
      hide Gap, Packets, Pauses;
    }
    hide Gap, Pauses, Packets, Returned, Held, Read;
    assert Taken(r) + Read(r.driver) == [a, b] + [] + [c] == [a, b, c];
  }

  /** That every run of a file is on schedule whatever the clock does, running backwards included, is
      true exactly if the file has no third packet or a pause before the second. */
  lemma OnScheduleExactly(file: seq<Record>)
    ensures (forall clocks, now: nat :: OnSchedule(Run(file, clocks), now)) <==> PausesEarly(file)
  {
    hide OnSchedule, Run, PausesEarly;
    if PausesEarly(file) {
      forall clocks, now: nat
        ensures OnSchedule(Run(file, clocks), now)
      {
        PausesEarlyIsOnSchedule(file, clocks, now);
      }
    } else {
      var clocks, now := Slips(file);
    }
  }

  // ---------- a clock that does not run backwards ----------

  /** The file asks for no pause at all, or for one right behind the first packet. */
  predicate PausesFirst(packets: seq<Record>) {
    Pauses(packets) == 0 || Gap(packets[0].ts, packets[1].ts) > 0
  }

  lemma {:induction false} PausesOfPrefix(packets: seq<Record>, n: nat)
    requires n <= |packets|
    ensures Pauses(packets[..n]) <= Pauses(packets)
    decreases |packets|
  {
    if n == |packets| {
      assert packets[..n] == packets;
    } else {
      var rest := packets[..|packets| - 1];
      PausesOfPrefix(rest, n);
      assert rest[..n] == packets[..n];
      hide Gap;
    }
  }

  lemma NoPauseBetween(packets: seq<Record>, n: nat)
    requires 1 <= n < |packets| && Pauses(packets) == 0
    ensures Gap(packets[n - 1].ts, packets[n].ts) == 0
  {
    PausesOfPrefix(packets, n + 1);
    var p := packets[..n + 1];
    assert p[..n + 1 - 1] == packets[..n] && p[n] == packets[n] && p[n - 1] == packets[n - 1];
    hide Gap;
  }

  /** Without pauses every packet is delivered as it is read. */
  lemma {:induction false} WithoutPauses(file: seq<Record>, clocks: seq<nat>, t: nat)
    requires UpTo(clocks, t) && Pauses(Accepted(file)) == 0
    ensures Held(Run(file, clocks).driver) == [] && Run(file, clocks).driver.pacing.sent <= t
    decreases |clocks|
  {
    if clocks != [] {
      var before, now := clocks[..|clocks| - 1], clocks[|clocks| - 1];
      WithoutPauses(file, before, now);
      assert Run(file, clocks) == Next(Run(file, before), now);
      NothingToWaitFor(file, before, now);
      hide Run, Held, Accepted, Pauses;
      NextDriver(Run(file, before), now);
    }
  }

  lemma NothingToWaitFor(file: seq<Record>, clocks: seq<nat>, now: nat)
    requires Pauses(Accepted(file)) == 0
    requires Held(Run(file, clocks).driver) == [] && Run(file, clocks).driver.pacing.sent <= now
    ensures var d := Run(file, clocks).driver;
            && Held(Call(d, now)) == [] && Call(d, now).pacing.sent <= now
            && (Read(d) != [] ==> Returned(d, now) != [])
  {
    var r := Run(file, clocks);
    RunIsScheduled(file, clocks);
    PacketsArePrefix(file, clocks);
    if Read(r.driver) != [] && Taken(r) != [] {
      var a, n := Accepted(file), |Taken(r)|;
      assert (Taken(r) + Read(r.driver))[n] == a[n] && (Taken(r) + Read(r.driver))[n - 1] == a[n - 1];
      NoPauseBetween(a, n);
    }
    assert Read(r.driver) != [] ==> Gap(r.driver.pacing.time, Read(r.driver)[0].ts) == 0;
    hide Run, Accepted, Pauses, Gap, Taken, Scheduled;
    DueAtOnce(r.driver, now);
  }

  lemma DueAtOnce(d: Driver, now: nat)
    requires Held(d) == [] && d.pacing.sent <= now
    requires Read(d) != [] ==> Gap(d.pacing.time, Read(d)[0].ts) == 0
    ensures Held(Call(d, now)) == [] && Call(d, now).pacing.sent <= now
    ensures Read(d) != [] ==> Returned(d, now) != []
  {
    hide Gap;
  }

  lemma WithoutPausesIsOnSchedule(file: seq<Record>, clocks: seq<nat>, now: nat)
    requires UpTo(clocks, now) && Pauses(Accepted(file)) == 0
    ensures OnSchedule(Run(file, clocks), now)
  {
    var r := Run(file, clocks);
    WithoutPauses(file, clocks, now);
    NothingToWaitFor(file, clocks, now);
    FirstDeliveryAt(file, clocks);
    PacketsArePrefix(file, clocks);
    PausesOfPrefix(Accepted(file), |Taken(r) + Read(r.driver)|);
    assert Accepted(file)[..|Taken(r) + Read(r.driver)|] == Taken(r) + Read(r.driver);
    hide *;
    DueNow(r, now);
  }

  lemma DueNow(r: Replay, now: nat)
    requires Held(r.driver) == [] && (Read(r.driver) != [] ==> Returned(r.driver, now) != [])
    requires Pauses(Taken(r) + Read(r.driver)) == 0 && (r.out != [] ==> r.out[0].at <= now)
    ensures OnSchedule(r, now)
  {
    hide Held, Read, Returned, Pauses, Taken;
  }

  /** k packets have been delivered, the first one at 0, and the schedule stands at t. */
  ghost predicate Delivered(file: seq<Record>, clocks: seq<nat>, t: nat, k: nat) {
    var r, a := Run(file, clocks), Accepted(file);
    && 1 <= k <= |a| && UpTo(clocks, t)
    && r.driver.pacing == Pacing(None, a[k - 1].ts, t)
    && Accepted(r.driver.rest) == a[k..] && Packets(r.out) == a[..k]
    && r.out != [] && r.out[0].at == 0
  }

  /** A packet without a pause before it is delivered at t, as long as the schedule stands at 0 or t. */
  lemma DeliverAt(file: seq<Record>, clocks: seq<nat>, s: nat, t: nat, k: nat) returns (more: seq<nat>)
    requires Delivered(file, clocks, s, k) && k < |Accepted(file)| && (s == 0 || s == t)
    requires Gap(Accepted(file)[k - 1].ts, Accepted(file)[k].ts) == 0
    ensures Delivered(file, more, t, k + 1)
  {
    var a := Accepted(file);
    assert a[k..] != [] && a[k..][0] == a[k] && a[k..][1..] == a[k + 1..] && a[..k] + [a[k]] == a[..k + 1];
    hide Run, Gap, Packets;
    more := PassOversized(file, clocks, s);
    var r := Run(file, more);
    FirstAccepted(r.driver.rest);
    ReadWhenDue(file, more, t, t);
    PacketsSnoc(r.out, Delivery(a[k], t));
    UpToSnoc(more, s, t);
    more := more + [t];
    hide Accepted, UpTo;
  }

  lemma DeliverFirst(file: seq<Record>) returns (clocks: seq<nat>)
    requires Accepted(file) != []
    ensures Delivered(file, clocks, 0, 1)
  {
    var a := Accepted(file);
    assert Run(file, []) == Replay(Fresh(file), []) && Gap(0, a[0].ts) == 0 && [] + [a[0]] == a[..1];
    hide Run, Gap, Packets;
    clocks := PassOversized(file, [], 0);
    FirstAccepted(Run(file, clocks).driver.rest);
    ReadWhenDue(file, clocks, 0, 0);
    PacketsSnoc([], Delivery(a[0], 0));
    UpToSnoc(clocks, 0, 0);
    clocks := clocks + [0];
    assert Packets([]) == [];
    hide Accepted, UpTo;
  }

  lemma {:induction false} DeliverMany(file: seq<Record>, t: nat, k: nat) returns (clocks: seq<nat>)
    requires 2 <= k <= |Accepted(file)| && Pauses(Accepted(file)[..k]) == 0
    ensures Delivered(file, clocks, t, k)
  {
    var a := Accepted(file);
    NoPauseBetween(a[..k], k - 1);
    PausesOfPrefix(a[..k], k - 1);
    assert a[..k][..k - 1] == a[..k - 1];
    hide Delivered, Accepted, Gap, Pauses;
    if k == 2 {
      clocks := DeliverFirst(file);
      clocks := DeliverAt(file, clocks, 0, t, 1);
    } else {
      clocks := DeliverMany(file, t, k - 1);
      clocks := DeliverAt(file, clocks, t, t, k - 1);
    }
  }

  /** Where the first pause is. */
  lemma {:induction false} FirstPause(packets: seq<Record>) returns (k: nat)
    requires Pauses(packets) > 0
    ensures 1 <= k < |packets| && Gap(packets[k - 1].ts, packets[k].ts) > 0 && Pauses(packets[..k]) == 0
    decreases |packets|
  {
    var rest := packets[..|packets| - 1];
    if Pauses(rest) > 0 {
      k := FirstPause(rest);
      assert rest[..k] == packets[..k];
    } else {
      k := |packets| - 1;
    }
  }

  /** Packets without pauses and then one: if the first is delivered at 0 and the others at the time of
      the pause, the packet behind it waits as long again. */
  lemma SlipsForward(file: seq<Record>) returns (clocks: seq<nat>, now: nat)
    requires !PausesFirst(Accepted(file))
    ensures UpTo(clocks, now) && !OnSchedule(Run(file, clocks), now)
  {
    var a := Accepted(file);
    var k := FirstPause(a);
    now := Gap(a[k - 1].ts, a[k].ts);
    clocks := DeliverMany(file, now, k);
    assert a[k..] != [] && a[k..][0] == a[k] && a[..k] + [a[k]] == a[..k + 1];
    hide Run, Packets, Pauses, Gap;
    clocks := PassOversized(file, clocks, now);
    var r := Run(file, clocks);
    FirstAccepted(r.driver.rest);
    PausesSnoc(a[..k], a[k]);
    hide Accepted;
    WaitsAgain(r, a[..k], a[k], now);
  }

  lemma WaitsAgain(r: Replay, packets: seq<Record>, c: Record, now: nat)
    requires packets != [] && Packets(r.out) == packets && r.out != [] && r.out[0].at == 0
    requires r.driver.pacing == Pacing(None, packets[|packets| - 1].ts, now)
    requires r.driver.rest != [] && r.driver.rest[0] == c && Fits(c)
    requires now == Gap(packets[|packets| - 1].ts, c.ts) > 0 && Pauses(packets + [c]) == now
    ensures !OnSchedule(r, now)
  {
    assert Returned(r.driver, now) == [] && Held(r.driver) == [] && Read(r.driver) == [c] by {
      hide Gap, Packets, Pauses;
    }
    hide Gap, Pauses, Packets, Returned, Held, Read;
    assert Taken(r) + Read(r.driver) == packets + [] + [c] == packets + [c];
  }

  /** Main result: that every run of a file is on schedule under every clock that does not run
      backwards is true exactly if it asks for no pause, or for one right behind the first packet. */
  lemma OnScheduleForward(file: seq<Record>)
    ensures (forall clocks, now: nat | UpTo(clocks, now) :: OnSchedule(Run(file, clocks), now))
        <==> PausesFirst(Accepted(file))
  {
    if PausesFirst(Accepted(file)) {
      forall clocks, now: nat | UpTo(clocks, now)
        ensures OnSchedule(Run(file, clocks), now)
      {
        if Pauses(Accepted(file)) == 0 {
          hide *;
          WithoutPausesIsOnSchedule(file, clocks, now);
        } else {
          assert PausesEarly(file);
          hide *;
          PausesEarlyIsOnSchedule(file, clocks, now);
        }
      }
    } else {
      hide OnSchedule, Run, UpTo;
      var clocks, now := SlipsForward(file);
    }
  }
}
