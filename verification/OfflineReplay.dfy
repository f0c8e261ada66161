/**
 Replay of a capture file at the pace of its timestamps: the one packet that DriverOffline holds
 back, and the driver that reads records one call at a time.

 The clock is a parameter of every call and may do anything, even run backwards. Times are in
 microseconds.
 */
module OfflineReplay {
  import opened Wrappers

  /** A record of the file: the bytes captured, which stand for the packet, and its timestamp. */
  datatype Record = Record(caplen: nat, ts: nat)

  const TOO_BIG := 65536

  predicate Fits(r: Record) {
    r.caplen < TOO_BIG
  }

  /** `_pkt`, `_pkt_time`, `_pkt_sent` */
  datatype Pacing = Pacing(held: Option<Record>, time: nat, sent: nat)

  /** What the driver is left with: the unread records, the pacing, and whether it says it is done. */
  datatype Driver = Driver(rest: seq<Record>, pacing: Pacing, finished: bool)

  /** The pause the file asks for between two packets. */
  function Gap(before: nat, after: nat): nat {
    if before != 0 && after > before then after - before else 0
  }

  /** offlineProcess; a packet that is due is not held. */
  function Process(p: Pacing, r: Record, now: nat): Pacing
    requires p.held.None?
  {
    var sum := p.sent + Gap(p.time, r.ts);
    var sent := if sum == 0 then now else sum;
    Pacing(if sent > now then Some(r) else None, r.ts, sent)
  }

  /** offlineHandle */
  function Handle(p: Pacing, now: nat): Pacing
    requires p.held.Some?
  {
    if p.sent <= now then p.(held := None) else p
  }

  /** getPackets of an offline driver */
  function Call(d: Driver, now: nat): Driver {
    if d.pacing.held.Some? then d.(pacing := Handle(d.pacing, now))
    else if d.rest == [] then d.(finished := true)
    else if !Fits(d.rest[0]) then Driver(d.rest[1..], d.pacing, true)
    else d.(rest := d.rest[1..], pacing := Process(d.pacing, d.rest[0], now))
  }

  /** The packets that the call returns. */
  function Returned(d: Driver, now: nat): seq<Record> {
    if Call(d, now).pacing.held.Some? then []
    else if d.pacing.held.Some? then [d.pacing.held.value]
    else if d.rest == [] || !Fits(d.rest[0]) then []
    else [d.rest[0]]
  }

  // ---------- whole runs ----------

  datatype Delivery = Delivery(packet: Record, at: nat)

  /** A driver and what it has delivered. */
  datatype Replay = Replay(driver: Driver, out: seq<Delivery>)

  function Fresh(file: seq<Record>): Driver {
    Driver(file, Pacing(None, 0, 0), false)
  }

  /** One call per reading of the clock. */
  function Run(file: seq<Record>, clocks: seq<nat>): Replay {
    if clocks == [] then Replay(Fresh(file), [])
    else Next(Run(file, clocks[..|clocks| - 1]), clocks[|clocks| - 1])
  }

  function Next(r: Replay, now: nat): Replay {
    var packets := Returned(r.driver, now);
    Replay(Call(r.driver, now), if packets == [] then r.out else r.out + [Delivery(packets[0], now)])
  }

  function Packets(out: seq<Delivery>): (ps: seq<Record>)
    ensures |ps| == |out|
  {
    if out == [] then [] else Packets(out[..|out| - 1]) + [out[|out| - 1].packet]
  }

  /** The records that become packets. */
  function Accepted(file: seq<Record>): seq<Record> {
    if file == [] then []
    else if Fits(file[0]) then [file[0]] + Accepted(file[1..]) else Accepted(file[1..])
  }

  /** They are those of fewer than 65536 bytes, in the order of the file. */
  lemma {:induction false} AcceptedBySize(a: seq<Record>, r: Record, b: seq<Record>)
    ensures Accepted(a + [r] + b) == Accepted(a) + (if r.caplen < 65536 then [r] else []) + Accepted(b)
    decreases |a|
  {
    if a == [] {
      assert a + [r] + b == [r] + b && ([r] + b)[1..] == b;
    } else {
      assert (a + [r] + b)[1..] == a[1..] + [r] + b;
      AcceptedBySize(a[1..], r, b);
    }
  }

  function Held(d: Driver): seq<Record> {
    if d.pacing.held.Some? then [d.pacing.held.value] else []
  }

  /** The pauses that the file asks for before the last of these packets. */
  function Pauses(packets: seq<Record>): nat {
    if |packets| < 2 then 0
    else Pauses(packets[..|packets| - 1]) + Gap(packets[|packets| - 2].ts, packets[|packets| - 1].ts)
  }

  // ---------- nothing lost, doubled or reordered ----------

  /** Delivered, then held, then still to be read. */
  predicate Conserved(file: seq<Record>, r: Replay) {
    Packets(r.out) + Held(r.driver) + Accepted(r.driver.rest) == Accepted(file)
  }

  lemma PacketsSnoc(out: seq<Delivery>, x: Delivery)
    ensures Packets(out + [x]) == Packets(out) + [x.packet]
  {
    assert (out + [x])[..|out|] == out;
  }

  lemma NextPackets(r: Replay, now: nat)
    ensures Packets(Next(r, now).out) == Packets(r.out) + Returned(r.driver, now)
  {
    hide Process, Handle, Call;
    var packets := Returned(r.driver, now);
    if packets != [] {
      PacketsSnoc(r.out, Delivery(packets[0], now));
    }
  }

  lemma Regroup(a: seq<Record>, b: seq<Record>, c: seq<Record>, d: seq<Record>, e: seq<Record>, f: seq<Record>)
    requires b + c + d == e + f
    ensures (a + b) + c + d == a + e + f
  {
    assert (a + b) + c + d == a + (b + c + d);
    assert a + e + f == a + (e + f);
  }

  lemma NextConserves(file: seq<Record>, r: Replay, now: nat)
    requires Conserved(file, r)
    ensures Conserved(file, Next(r, now))
  {
    hide Packets, Returned, Held, Accepted, Call;
    var d := r.driver;
    NextPackets(r, now);
    CallMovesOne(d, now);
    Regroup(Packets(r.out), Returned(d, now), Held(Call(d, now)), Accepted(Call(d, now).rest), Held(d),
        Accepted(d.rest));
  }

  /** A call moves a packet one stage on, or none. */
  lemma CallMovesOne(d: Driver, now: nat)
    ensures Returned(d, now) + Held(Call(d, now)) + Accepted(Call(d, now).rest) == Held(d) + Accepted(d.rest)
  {
  }

  /** Main result: in every run, under every clock, the accepted records are delivered once each and in
      file order, and the next one at most is held. */
  lemma {:induction false} DeliveredInOrder(file: seq<Record>, clocks: seq<nat>)
    ensures Conserved(file, Run(file, clocks))
    ensures Packets(Run(file, clocks).out) <= Accepted(file)
  {
    if clocks == [] {
    } else {
      DeliveredInOrder(file, clocks[..|clocks| - 1]);
      NextConserves(file, Run(file, clocks[..|clocks| - 1]), clocks[|clocks| - 1]);
    }
  }

  // ---------- never early ----------

  /** The packets taken from the file so far. */
  function Taken(r: Replay): seq<Record> {
    Packets(r.out) + Held(r.driver)
  }

  /** The schedule has left 0, or has had no occasion to restart: the first delivery was at a nonzero
      time, or no second packet follows it, or the second one does so after a pause. */
  predicate Anchored(out: seq<Delivery>, packets: seq<Record>)
    requires out != []
  {
    out[0].at > 0 || |packets| < 2 || Gap(packets[0].ts, packets[1].ts) > 0
  }

  /** After the first packet, which goes out at once, the schedule of the last packet taken is the time
      of that delivery and all pauses since, or later if it was not anchored. */
  predicate Scheduled(r: Replay) {
    var p := r.driver.pacing;
    if Taken(r) == [] then p.time == 0 && p.sent == 0
    else
      && p.time == Taken(r)[|Taken(r)| - 1].ts
      && r.out != []
      && p.sent >= r.out[0].at + Pauses(Taken(r))
      && (Anchored(r.out, Taken(r)) ==> p.sent == r.out[0].at + Pauses(Taken(r)))
      && (|Taken(r)| == 2 && !Anchored(r.out, Taken(r)) ==> Held(r.driver) == [])
  }

  /** Delivery i does not come before its schedule. */
  predicate OnTime(packets: seq<Record>, out: seq<Delivery>, i: nat)
    requires i < |out| && |out| <= |packets|
  {
    out[i].at >= out[0].at + Pauses(packets[..i + 1])
  }

  /** The record that a call takes from the file, if it keeps one. */
  function Read(d: Driver): seq<Record> {
    if d.pacing.held.Some? || d.rest == [] || !Fits(d.rest[0]) then [] else [d.rest[0]]
  }

  lemma CallTakes(d: Driver, now: nat)
    ensures Returned(d, now) + Held(Call(d, now)) == Held(d) + Read(d)
  {
    hide Gap;
  }

  lemma TakenAfter(r: Replay, now: nat)
    ensures Taken(Next(r, now)) == Taken(r) + Read(r.driver)
  {
    hide Packets, Next;
    NextPackets(r, now);
    CallTakes(r.driver, now);
    NextDriver(r, now);
    hide Call, Returned, Held, Read;
    Regroup(Packets(r.out), Returned(r.driver, now), Held(Call(r.driver, now)), [], Held(r.driver), Read(r.driver));
  }

  lemma NextDriver(r: Replay, now: nat)
    ensures Next(r, now).driver == Call(r.driver, now)
    ensures r.out != [] ==> Next(r, now).out != [] && Next(r, now).out[0] == r.out[0]
    ensures Next(r, now).out == r.out || (Next(r, now).out[..|r.out|] == r.out && |Next(r, now).out| == |r.out| + 1
                                           && Next(r, now).out[|r.out|].at == now && Returned(r.driver, now) != [])
  {
    hide Call, Returned;
  }

  lemma PausesSnoc(packets: seq<Record>, r: Record)
    ensures Pauses(packets + [r]) == if packets == [] then 0 else Pauses(packets) + Gap(packets[|packets| - 1].ts, r.ts)
  {
    assert (packets + [r])[..|packets|] == packets;
  }

  /** What a call does to the pacing. */
  lemma PacingAfter(d: Driver, now: nat)
    ensures var p, p' := d.pacing, Call(d, now).pacing;
            if Read(d) == [] then p'.time == p.time && p'.sent == p.sent
            else
              var sum := p.sent + Gap(p.time, Read(d)[0].ts);
              p'.time == Read(d)[0].ts && p'.sent == if sum == 0 then now else sum
    ensures Returned(d, now) != [] ==> Call(d, now).pacing.sent <= now && Held(Call(d, now)) == []
    ensures Read(d) != [] && d.pacing.time == 0 && d.pacing.sent == 0 ==> Returned(d, now) == Read(d)
    ensures Read(d) != [] ==> Held(d) == []
    ensures Read(d) == [] && Held(d) == [] ==> Held(Call(d, now)) == []
    ensures Read(d) != [] && d.pacing.sent == 0 && Gap(d.pacing.time, Read(d)[0].ts) == 0 ==> Held(Call(d, now)) == []
  {
  }

  lemma FirstIsScheduled(r: Replay, now: nat)
    requires Scheduled(r) && Taken(r) == [] && Read(r.driver) != []
    ensures Scheduled(Next(r, now))
  {
    hide Packets, Returned, Call;
    assert r.out == [];
    TakenAfter(r, now);
    PausesSnoc([], Read(r.driver)[0]);
    assert Taken(Next(r, now)) == [] + [Read(r.driver)[0]];
    PacingAfter(r.driver, now);
    hide Taken, Pauses, Read;
  }

  lemma {:induction false} PausesFromFirst(packets: seq<Record>)
    requires |packets| >= 2
    ensures Pauses(packets) >= Gap(packets[0].ts, packets[1].ts)
    decreases |packets|
  {
    if |packets| > 2 {
      PausesFromFirst(packets[..|packets| - 1]);
    }
  }

  lemma NothingReadIsScheduled(r: Replay, now: nat)
    requires Scheduled(r) && Taken(r) != [] && Read(r.driver) == []
    ensures Scheduled(Next(r, now))
  {
    hide Taken, Returned, Call, Next, Gap, Pauses;
    TakenAfter(r, now);
    NextDriver(r, now);
    PacingAfter(r.driver, now);
    assert Taken(r) + Read(r.driver) == Taken(r);
  }

  lemma SecondIsScheduled(r: Replay, now: nat)
    requires Scheduled(r) && |Taken(r)| == 1 && Read(r.driver) != []
    ensures Scheduled(Next(r, now))
  {
    hide Taken, Returned, Call, Next, Gap, Pauses;
    var taken, x := Taken(r), Read(r.driver)[0];
    TakenAfter(r, now);
    NextDriver(r, now);
    PacingAfter(r.driver, now);
    PausesSnoc([], taken[0]);
    PausesSnoc(taken, x);
    assert [] + [taken[0]] == taken && Read(r.driver) == [x];
    hide Read;
  }

  lemma LaterIsScheduled(r: Replay, now: nat)
    requires Scheduled(r) && |Taken(r)| >= 2 && Read(r.driver) != []
    ensures Scheduled(Next(r, now))
  {
    hide Taken, Returned, Call, Next, Gap, Pauses;
    var taken, x := Taken(r), Read(r.driver)[0];
    TakenAfter(r, now);
    NextDriver(r, now);
    PacingAfter(r.driver, now);
    PausesFromFirst(taken);
    PausesSnoc(taken, x);
    assert Read(r.driver) == [x];
    hide Read;
  }

  lemma NextKeepsSchedule(r: Replay, now: nat)
    requires Scheduled(r)
    ensures Scheduled(Next(r, now))
  {
    hide Packets, Returned, Call, Next, Pauses, Gap;
    if Read(r.driver) != [] {
      if Taken(r) == [] {
        FirstIsScheduled(r, now);
      } else if |Taken(r)| == 1 {
        SecondIsScheduled(r, now);
      } else {
        LaterIsScheduled(r, now);
      }
    } else if Taken(r) != [] {
      NothingReadIsScheduled(r, now);
    } else {
      TakenAfter(r, now);
      NextDriver(r, now);
      PacingAfter(r.driver, now);
    }
  }

  predicate AllOnTime(r: Replay) {
    |r.out| <= |Taken(r)| && forall i: nat | i < |r.out| :: OnTime(Taken(r), r.out, i)
  }

  lemma OldStaysOnTime(r: Replay, now: nat, i: nat)
    requires i < |r.out| <= |Taken(r)| && OnTime(Taken(r), r.out, i)
    ensures |r.out| <= |Next(r, now).out| <= |Taken(Next(r, now))|
    ensures OnTime(Taken(Next(r, now)), Next(r, now).out, i)
  {
    TakenAfter(r, now);
    NextDriver(r, now);
    TakenLength(Next(r, now));
    hide Taken, Next, Read, Returned, Pauses;
    assert (Taken(r) + Read(r.driver))[..i + 1] == Taken(r)[..i + 1];
  }

  lemma TakenLength(r: Replay)
    ensures |Taken(r)| == |r.out| + |Held(r.driver)|
  {
  }

  lemma NewIsOnTime(r: Replay, now: nat)
    requires Scheduled(Next(r, now)) && Next(r, now).out != r.out
    ensures |Next(r, now).out| <= |Taken(Next(r, now))|
    ensures |Next(r, now).out| == |r.out| + 1 && OnTime(Taken(Next(r, now)), Next(r, now).out, |r.out|)
  {
    var r' := Next(r, now);
    NextDriver(r, now);
    TakenLength(r');
    PacingAfter(r.driver, now);
    hide Taken, Next, Read, Returned, Pauses, Call, Held;
    assert Taken(r')[..|r.out| + 1] == Taken(r');
  }

  lemma NextKeepsOnTime(r: Replay, now: nat)
    requires Scheduled(Next(r, now)) && AllOnTime(r)
    ensures AllOnTime(Next(r, now))
  {
    hide Taken, Next, Scheduled, OnTime;
    var r' := Next(r, now);
    NextDriver(r, now);
    TakenLength(r');
    forall i: nat | i < |r'.out| ensures OnTime(Taken(r'), r'.out, i) {
      if i < |r.out| {
        OldStaysOnTime(r, now, i);
      } else {
        NewIsOnTime(r, now);
      }
    }
  }

  lemma FreshIsScheduled(file: seq<Record>)
    ensures Scheduled(Run(file, [])) && AllOnTime(Run(file, []))
  {
  }

  lemma {:induction false} RunIsScheduled(file: seq<Record>, clocks: seq<nat>)
    ensures Scheduled(Run(file, clocks)) && AllOnTime(Run(file, clocks))
  {
    hide Scheduled, OnTime, Next;
    if clocks == [] {
      FreshIsScheduled(file);
    } else {
      var before, now := clocks[..|clocks| - 1], clocks[|clocks| - 1];
      RunIsScheduled(file, before);
      NextKeepsSchedule(Run(file, before), now);
      NextKeepsOnTime(Run(file, before), now);
      hide AllOnTime;
    }
  }

  /** Main result: however late the packets before it were, no packet is delivered before the first
      delivery plus the pauses that the file asks for up to it. */
  lemma NeverEarly(file: seq<Record>, clocks: seq<nat>, i: nat)
    requires i < |Run(file, clocks).out|
    ensures i < |Accepted(file)|
    ensures Run(file, clocks).out[i].at >= Run(file, clocks).out[0].at + Pauses(Accepted(file)[..i + 1])
  {
    var r := Run(file, clocks);
    DeliveredInOrder(file, clocks);
    RunIsScheduled(file, clocks);
    TakenLength(r);
    hide Run, Packets, Held, Pauses, Accepted, Scheduled;
    assert Taken(r) + Accepted(r.driver.rest) == Accepted(file);
    assert Accepted(file)[..i + 1] == Taken(r)[..i + 1];
    assert OnTime(Taken(r), r.out, i);
  }

  lemma RunSnoc(file: seq<Record>, clocks: seq<nat>, now: nat)
    ensures Run(file, clocks + [now]) == Next(Run(file, clocks), now)
  {
    assert (clocks + [now])[..|clocks|] == clocks;
  }

  // ---------- what finished() means ----------

  // An oversized record makes the driver call itself finished, because the call returns nothing and
  // holds nothing, just as at the end of the file.

  predicate AllFit(records: seq<Record>) {
    forall i | 0 <= i < |records| :: Fits(records[i])
  }

  predicate Suffix(file: seq<Record>, rest: seq<Record>) {
    |rest| <= |file| && rest == file[|file| - |rest|..]
  }

  function ReadSoFar(file: seq<Record>, d: Driver): seq<Record>
    requires Suffix(file, d.rest)
  {
    file[..|file| - |d.rest|]
  }

  predicate FinishedInv(file: seq<Record>, d: Driver) {
    && Suffix(file, d.rest)
    && (!AllFit(ReadSoFar(file, d)) ==> d.finished)
    && (d.finished && AllFit(ReadSoFar(file, d)) ==> d.rest == [] && d.pacing.held.None?)
    && (d.pacing.held.Some? ==>
          ReadSoFar(file, d) != [] && ReadSoFar(file, d)[|ReadSoFar(file, d)| - 1] == d.pacing.held.value
              && Fits(d.pacing.held.value))
  }

  lemma ReadOneMore(file: seq<Record>, d: Driver)
    requires Suffix(file, d.rest) && d.rest != []
    ensures Suffix(file, d.rest[1..])
    ensures file[..|file| - |d.rest[1..]|] == ReadSoFar(file, d) + [d.rest[0]]
  {
  }

  lemma AllFitSnoc(records: seq<Record>, r: Record)
    ensures AllFit(records + [r]) <==> AllFit(records) && Fits(r)
  {
    assert AllFit(records + [r]) ==> AllFit(records) by {
      assert forall i | 0 <= i < |records| :: records[i] == (records + [r])[i];
    }
    assert AllFit(records + [r]) ==> Fits((records + [r])[|records|]);
  }

  lemma CallKeepsFinishedInv(file: seq<Record>, d: Driver, now: nat)
    requires FinishedInv(file, d)
    ensures FinishedInv(file, Call(d, now))
  {
    hide AllFit, Gap, Suffix;
    if d.pacing.held.None? && d.rest != [] {
      ReadOneMore(file, d);
      AllFitSnoc(ReadSoFar(file, d), d.rest[0]);
    }
  }

  lemma {:induction false} RunKeepsFinishedInv(file: seq<Record>, clocks: seq<nat>)
    ensures FinishedInv(file, Run(file, clocks).driver)
  {
    if clocks == [] {
      assert file[..0] == [];
    } else {
      RunKeepsFinishedInv(file, clocks[..|clocks| - 1]);
      CallKeepsFinishedInv(file, Run(file, clocks[..|clocks| - 1]).driver, clocks[|clocks| - 1]);
    }
  }

  /** No packet lies behind an oversized record. */
  predicate OversizedLast(file: seq<Record>) {
    forall i, j | 0 <= i < j < |file| && !Fits(file[i]) :: !Fits(file[j])
  }

  lemma {:induction false} NoneAccepted(records: seq<Record>)
    requires forall i | 0 <= i < |records| :: !Fits(records[i])
    ensures Accepted(records) == []
  {
    if records != [] {
      NoneAccepted(records[1..]);
    }
  }

  lemma {:induction false} SomeAccepted(records: seq<Record>, i: nat)
    requires i < |records| && Fits(records[i])
    ensures Accepted(records) != []
  {
    if i > 0 {
      SomeAccepted(records[1..], i - 1);
    }
  }

  /** Without packets behind an oversized record, a driver that says it is finished has delivered all. */
  lemma FinishedIsDone(file: seq<Record>, d: Driver)
    requires FinishedInv(file, d) && d.finished && OversizedLast(file)
    ensures Held(d) == [] && Accepted(d.rest) == []
  {
    if !AllFit(ReadSoFar(file, d)) {
      var i :| 0 <= i < |ReadSoFar(file, d)| && !Fits(ReadSoFar(file, d)[i]);
      var n := |file| - |d.rest|;
      assert ReadSoFar(file, d)[i] == file[i];
      forall j | 0 <= j < |d.rest| ensures !Fits(d.rest[j]) {
        assert d.rest[j] == file[n + j];
      }
      NoneAccepted(d.rest);
    }
  }

  lemma ReadsOne(d: Driver, now: nat)
    requires Held(d) == [] && d.rest != []
    ensures Call(d, now).rest == d.rest[1..]
  {
    hide Process;
  }

  lemma DeliversHeld(d: Driver)
    requires d.pacing.held.Some?
    ensures Call(d, d.pacing.sent).rest == d.rest && Held(Call(d, d.pacing.sent)) == []
  {
  }

  /** Some clock lets the driver read n records and deliver every packet among them. */
  lemma {:induction false} ReadingUpTo(file: seq<Record>, n: nat) returns (clocks: seq<nat>)
    requires n <= |file|
    ensures Run(file, clocks).driver.rest == file[n..] && Held(Run(file, clocks).driver) == []
  {
    if n == 0 {
      clocks := [];
    } else {
      clocks := ReadingUpTo(file, n - 1);
      hide Run, Call, Returned, Accepted;
      ReadsOne(Run(file, clocks).driver, 0);
      RunSnoc(file, clocks, 0);
      clocks := clocks + [0];
      var d := Run(file, clocks).driver;
      if d.pacing.held.Some? {
        DeliversHeld(d);
        RunSnoc(file, clocks, d.pacing.sent);
        clocks := clocks + [d.pacing.sent];
      }
    }
  }

  lemma FinishedTooEarly(file: seq<Record>, i: nat, j: nat) returns (clocks: seq<nat>)
    requires i < j < |file| && !Fits(file[i]) && Fits(file[j])
    ensures Run(file, clocks).driver.finished && Packets(Run(file, clocks).out) != Accepted(file)
  {
    hide *;
    clocks := ReadingUpTo(file, i + 1);
    var r := Run(file, clocks);
    RunKeepsFinishedInv(file, clocks);
    OversizedFinishes(file, r.driver, i);
    DeliveredInOrder(file, clocks);
    assert file[i + 1..][j - i - 1] == file[j];
    SomeAccepted(file[i + 1..], j - i - 1);
    SomeLeft(file, r);
  }

  lemma SomeLeft(file: seq<Record>, r: Replay)
    requires Conserved(file, r) && Accepted(r.driver.rest) != []
    ensures Packets(r.out) != Accepted(file)
  {
    hide Packets, Held, Accepted;
    assert |Packets(r.out)| < |Accepted(file)|;
  }

  lemma OversizedFinishes(file: seq<Record>, d: Driver, i: nat)
    requires i < |file| && FinishedInv(file, d) && d.rest == file[i + 1..] && !Fits(file[i])
    ensures d.finished
  {
    assert ReadSoFar(file, d)[i] == file[i];
    hide Fits;
  }

  predicate DoneWhenFinished(file: seq<Record>, clocks: seq<nat>) {
    Run(file, clocks).driver.finished ==> Packets(Run(file, clocks).out) == Accepted(file)
  }

  /** Main result: that a driver which says it is finished has delivered every packet of the file is
      true of every run exactly for the files in which no packet lies behind an oversized record. */
  lemma FinishedExactly(file: seq<Record>)
    ensures (forall clocks :: DoneWhenFinished(file, clocks)) <==> OversizedLast(file)
  {
    hide Run, Packets, Accepted, Fits, FinishedInv, Held;
    if OversizedLast(file) {
      forall clocks ensures DoneWhenFinished(file, clocks) {
        var r := Run(file, clocks);
        DeliveredInOrder(file, clocks);
        RunKeepsFinishedInv(file, clocks);
        if r.driver.finished {
          FinishedIsDone(file, r.driver);
          assert Packets(r.out) + [] + [] == Packets(r.out);
        }
      }
    } else {
      var i, j :| 0 <= i < j < |file| && !Fits(file[i]) && Fits(file[j]);
      var clocks := FinishedTooEarly(file, i, j);
      assert !DoneWhenFinished(file, clocks);
    }
  }

  // ---------- the driver ----------

  /** DriverPcap in its offline mode, with the DriverOffline it inherits. */
  class DriverPcap {
    const file: seq<Record>
    var position: nat
    var pkt: Option<Record>
    var pktTime: nat
    var pktSent: nat
    var isFinished: bool

    predicate Valid()
      reads this
    {
      position <= |file|
    }

    function Now(): Driver
      requires Valid()
      reads this
    {
      Driver(file[position..], Pacing(pkt, pktTime, pktSent), isFinished)
    }

    constructor (file: seq<Record>)
      ensures Valid() && this.file == file && Now() == Fresh(file)
    {
      this.file := file;
      position, pkt, pktTime, pktSent, isFinished := 0, None, 0, 0, false;
    }

    /** Says whether the packet is held. */
    method OfflineProcess(packet: Record, now: nat) returns (held: bool)
      requires pkt.None?
      modifies this`pkt, this`pktTime, this`pktSent
      ensures Pacing(pkt, pktTime, pktSent) == Process(old(Pacing(pkt, pktTime, pktSent)), packet, now)
      ensures held <==> pkt.Some?
    {
      var pktDiff: nat := if pktTime != 0 && packet.ts > pktTime then packet.ts - pktTime else 0;
      pktTime := packet.ts;
      pktSent := pktSent + pktDiff;
      if pktSent == 0 {
        pktSent := now;
      }
      if pktSent > now {
        pkt := Some(packet);
      }
      held := pkt.Some?;
    }

    /** Returns the held packet if it is due. */
    method OfflineHandle(now: nat) returns (bulk: seq<Record>)
      requires pkt.Some?
      modifies this`pkt
      ensures Pacing(pkt, pktTime, pktSent) == Handle(old(Pacing(pkt, pktTime, pktSent)), now)
      ensures bulk == if pkt.None? then [old(pkt.value)] else []
    {
      bulk := [];
      if pktSent <= now {
        bulk := [pkt.value];
        pkt := None;
      }
    }

    method GetPackets(now: nat) returns (bulk: seq<Record>)
      requires Valid()
      modifies this
      ensures Valid() && Now() == Call(old(Now()), now) && bulk == Returned(old(Now()), now)
    {
      hide Process, Handle;
      bulk := [];
      if pkt.Some? {
        bulk := OfflineHandle(now);
      } else {
        if position < |file| {
          var packet := file[position];
          position := position + 1;
          if packet.caplen < TOO_BIG {
            var held := OfflineProcess(packet, now);
            if !held {
              bulk := [packet];
            }
          }
        }
        if bulk == [] && pkt.None? {
          isFinished := true;
        }
      }
    }
  }
}
