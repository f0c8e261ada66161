/** The pace of a replay in the timestamps of the file. */
module ReplayTimes {
  import opened OfflineReplay
  import opened ReplaySchedule

  /** How far the timestamps climb over these packets. A timestamp of 0 counts as none. */
  function Climb(packets: seq<Record>): nat {
    if |packets| < 2 then 0
    else
      var before, after := packets[|packets| - 2].ts, packets[|packets| - 1].ts;
      Climb(packets[..|packets| - 1]) + if 0 < before < after then after - before else 0
  }

  /** The pauses that the driver makes are the climbs. */
  lemma {:induction false} PausesAreClimbs(packets: seq<Record>)
    ensures Pauses(packets) == Climb(packets)
    decreases |packets|
  {
    if |packets| >= 2 {
      PausesAreClimbs(packets[..|packets| - 1]);
    }
  }

  predicate Stamped(packets: seq<Record>) {
    forall i | 0 <= i < |packets| :: packets[i].ts > 0
  }

  predicate InOrder(packets: seq<Record>) {
    Stamped(packets) && forall i, j | 0 <= i < j < |packets| :: packets[i].ts <= packets[j].ts
  }

  /** They span the timestamps, exactly if those never fall. */
  lemma {:induction false} ClimbSpans(packets: seq<Record>)
    requires packets != [] && Stamped(packets)
    ensures Climb(packets) >= packets[|packets| - 1].ts - packets[0].ts
    ensures Climb(packets) == packets[|packets| - 1].ts - packets[0].ts <==> InOrder(packets)
    decreases |packets|
  {
    if |packets| >= 2 {
      var rest := packets[..|packets| - 1];
      ClimbSpans(rest);
      hide Climb;
      OrderSnoc(packets);
    }
  }

  lemma OrderSnoc(packets: seq<Record>)
    requires |packets| >= 2 && Stamped(packets)
    ensures InOrder(packets) <==>
              InOrder(packets[..|packets| - 1]) && packets[|packets| - 2].ts <= packets[|packets| - 1].ts
  {
    var rest := packets[..|packets| - 1];
    assert forall i | 0 <= i < |rest| :: rest[i] == packets[i];
  }

  /** Main result: over every run and under every clock no packet is delivered before the first delivery
      plus the climbs of the timestamps up to it; so never before the time between the two in the file. */
  lemma NeverBeforeItsTime(file: seq<Record>, clocks: seq<nat>, i: nat)
    requires i < |Run(file, clocks).out|
    ensures i < |Accepted(file)|
    ensures var out := Run(file, clocks).out;
            && out[i].packet == Accepted(file)[i]
            && out[i].at >= out[0].at + Climb(Accepted(file)[..i + 1])
            && (Stamped(Accepted(file)[..i + 1]) ==>
                  out[i].at >= out[0].at + Accepted(file)[i].ts - Accepted(file)[0].ts)
  {
    NeverEarly(file, clocks, i);
    DeliveredInOrder(file, clocks);
    PacketAt(Run(file, clocks).out, i);
    hide Run, Pauses, Climb, Packets, Accepted;
    var packets := Accepted(file)[..i + 1];
    PausesAreClimbs(packets);
    if Stamped(packets) {
      ClimbSpans(packets);
    }
  }

  lemma {:induction false} PacketAt(out: seq<Delivery>, i: nat)
    requires i < |out|
    ensures Packets(out)[i] == out[i].packet
    decreases |out|
  {
    if i < |out| - 1 {
      PacketAt(out[..|out| - 1], i);
    }
  }

  /** The call has the next packet of the file at hand: held back by an earlier call, or just read. */
  predicate AtHand(r: Replay) {
    Held(r.driver) + Read(r.driver) != []
  }

  lemma NextIsAtHand(file: seq<Record>, clocks: seq<nat>)
    requires AtHand(Run(file, clocks))
    ensures var r := Run(file, clocks);
            && |r.out| < |Accepted(file)|
            && Taken(r) + Read(r.driver) == Accepted(file)[..|r.out| + 1]
            && Held(r.driver) + Read(r.driver) == [Accepted(file)[|r.out|]]
  {
    var r := Run(file, clocks);
    PacketsArePrefix(file, clocks);
    OneAtHand(r.driver);
    TakenIs(r);
    hide Run, Accepted, Held, Read, Taken;
    var n := |r.out|;
    var packets, hand := Taken(r) + Read(r.driver), Held(r.driver) + Read(r.driver);
    assert packets == Packets(r.out) + hand by {
      assert Packets(r.out) + Held(r.driver) + Read(r.driver) == Packets(r.out) + hand;
    }
    assert |packets| == n + 1 && packets[n] == hand[0];
  }

  lemma OneAtHand(d: Driver)
    ensures |Held(d) + Read(d)| <= 1
  {
  }

  lemma TakenIs(r: Replay)
    ensures Taken(r) == Packets(r.out) + Held(r.driver) && |Packets(r.out)| == |r.out|
  {
  }

  lemma ReturnsWhatIsAtHand(d: Driver, now: nat)
    ensures Returned(d, now) == [] || Returned(d, now) == Held(d) + Read(d)
  {
    hide Gap;
  }

  /** Main result: with a clock that has left 0, over every run, a call that has a packet at hand returns it
      exactly if the clock has reached the first delivery plus the climbs of the timestamps up to it,
      which for timestamps in order is the time between the two packets in the file. */
  lemma DeliveredAtItsTime(file: seq<Record>, clocks: seq<nat>, now: nat)
    requires forall i | 0 <= i < |clocks| :: clocks[i] > 0
    requires Run(file, clocks).out != [] && AtHand(Run(file, clocks))
    ensures var r := Run(file, clocks);
            var n := |r.out|;
            && n < |Accepted(file)|
            && var packets := Accepted(file)[..n + 1];
               && Returned(r.driver, now) == (if now >= r.out[0].at + Climb(packets) then [packets[n]] else [])
               && (InOrder(packets) ==> Climb(packets) == packets[n].ts - packets[0].ts)
  {
    var r := Run(file, clocks);
    OnScheduleOffZero(file, clocks, now);
    NextIsAtHand(file, clocks);
    ReturnsWhatIsAtHand(r.driver, now);
    hide Run, Accepted, Held, Read, Taken, Returned, Pauses, Climb;
    var packets := Accepted(file)[..|r.out| + 1];
    PausesAreClimbs(packets);
    if InOrder(packets) {
      ClimbSpans(packets);
    }
  }
}
