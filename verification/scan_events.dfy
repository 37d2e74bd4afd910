/**
 * The BLE interrupt handler of main.py (`bt_irq`) and runs of it over a stream
 * of deliveries.
 *
 * Only event code 5 (a scan result) is acted on: its address becomes the
 * lowercase-hex key, its payload is walked for a name, and the throttle
 * decides whether to post. Every other event code is ignored. The clock
 * reading and the outcome of the POST come with each delivery, since both are
 * outside the program.
 */
module ScanEvents {
  import opened Wrappers
  import opened Bytes
  import opened AdvParser
  import opened Hex
  import opened Throttle

  /** The event code of a scan result. */
  const ScanResultEvent: int := 5

  /** The tuple a scan result carries: `addr_type, addr, adv_type, rssi, adv_data`. */
  datatype ScanResult = ScanResult(addrType: int, addr: seq<byte>, advType: int, rssi: int, advData: seq<byte>)

  datatype IrqEvent = IrqEvent(event: int, data: ScanResult)

  /** `bt_irq(event, data)` against the current send times. */
  function BtIrq(times: SendTimes, ev: IrqEvent, now: int, postOk: bool, decode: Decoder): (r: SendResult)
    ensures ev.event != ScanResultEvent ==> r.request.None? && r.times == times
    ensures ev.event == ScanResultEvent ==>
      (r.request.Some? <==> Due(times, Hexlify(ev.data.addr), now))
    ensures r.request.Some? ==>
      r.request.value.value1 == Hexlify(ev.data.addr) &&
      r.request.value.value2 == ev.data.rssi &&
      r.request.value.value3 == ParseAdvData(ev.data.advData, decode) &&
      r.request.value.value3 != ""
    ensures r.request.Some? && postOk ==> r.times == times[Hexlify(ev.data.addr) := now]
    ensures r.request.None? || !postOk ==> r.times == times
  {
    if ev.event == ScanResultEvent then
      var mac := Hexlify(ev.data.addr);
      var name := ParseAdvData(ev.data.advData, decode);
      SendToIfttt(times, ev.data.rssi, mac, name, now, postOk)
    else
      SendResult(None, times)
  }

  /** One interrupt as it reaches the handler, with the clock and the POST outcome. */
  datatype Delivery = Delivery(ev: IrqEvent, now: int, postOk: bool)

  /** A webhook request the handler attempted, when, and whether it completed. */
  datatype Attempt = Attempt(payload: Payload, at: int, ok: bool)

  datatype RunResult = RunResult(log: seq<Attempt>, times: SendTimes)

  /** The handler applied to each delivery in turn. */
  function Run(times: SendTimes, ds: seq<Delivery>, decode: Decoder): (r: RunResult)
    ensures |r.log| <= |ds|
    ensures forall m :: m in times ==> m in r.times && r.times[m] >= times[m]
    decreases |ds|
  {
    if ds == [] then RunResult([], times)
    else
      var d := ds[0];
      var step := BtIrq(times, d.ev, d.now, d.postOk, decode);
      var rest := Run(step.times, ds[1..], decode);
      var attempted := if step.request.Some? then [Attempt(step.request.value, d.now, d.postOk)] else [];
      RunResult(attempted + rest.log, rest.times)
  }

  predicate CompletedFor(a: Attempt, mac: string) {
    a.ok && a.payload.value1 == mac
  }

  /** Every completed send for `mac` in `log` comes at least `MinInterval` after `t`. */
  predicate SentAfter(log: seq<Attempt>, mac: string, t: int) {
    forall k :: 0 <= k < |log| && CompletedFor(log[k], mac) ==> log[k].at >= t + MinInterval
  }

  /** Every completed send for `mac` in a run comes at least a second after the time the run started with. */
  lemma {:induction false} SendsAfterRecorded(times: SendTimes, ds: seq<Delivery>, decode: Decoder, mac: string)
    requires mac in times
    ensures SentAfter(Run(times, ds, decode).log, mac, times[mac])
    decreases |ds|
  {
    if ds != [] {
      var d := ds[0];
      var step := BtIrq(times, d.ev, d.now, d.postOk, decode);
      SendsAfterRecorded(step.times, ds[1..], decode, mac);
      var rest := Run(step.times, ds[1..], decode).log;
      if step.request.Some? {
        var x := Attempt(step.request.value, d.now, d.postOk);
        assert Run(times, ds, decode).log == [x] + rest;
        SentAfterCons(x, rest, mac, times[mac]);
      }
    }
  }

  lemma SentAfterCons(x: Attempt, rest: seq<Attempt>, mac: string, t: int)
    requires CompletedFor(x, mac) ==> x.at >= t + MinInterval
    requires SentAfter(rest, mac, t)
    ensures SentAfter([x] + rest, mac, t)
  {
    var log := [x] + rest;
    forall k | 0 <= k < |log| && CompletedFor(log[k], mac)
      ensures log[k].at >= t + MinInterval
    {
      if k > 0 {
        assert log[k] == rest[k - 1];
      }
    }
  }

  /** Completed sends for the same address in `log` are at least `MinInterval` apart. */
  predicate Spaced(log: seq<Attempt>) {
    forall j, k :: 0 <= j < k < |log| && log[j].ok && log[k].ok && log[j].payload.value1 == log[k].payload.value1 ==>
      log[k].at >= log[j].at + MinInterval
  }

  lemma SpacedCons(x: Attempt, rest: seq<Attempt>)
    requires x.ok ==> SentAfter(rest, x.payload.value1, x.at)
    requires Spaced(rest)
    ensures Spaced([x] + rest)
  {
    var log := [x] + rest;
    forall j, k | 0 <= j < k < |log| && log[j].ok && log[k].ok && log[j].payload.value1 == log[k].payload.value1
      ensures log[k].at >= log[j].at + MinInterval
    {
      assert log[k] == rest[k - 1];
      if j > 0 {
        assert log[j] == rest[j - 1];
      } else {
        assert CompletedFor(rest[k - 1], x.payload.value1);
      }
    }
  }

  /**
   * The throttle's promise over any run: two completed sends for the same
   * address are at least a second apart, whatever the clock does in between.
   */
  lemma {:induction false} CompletedSendsAreSpaced(times: SendTimes, ds: seq<Delivery>, decode: Decoder)
    ensures Spaced(Run(times, ds, decode).log)
    decreases |ds|
  {
    if ds != [] {
      var d := ds[0];
      var step := BtIrq(times, d.ev, d.now, d.postOk, decode);
      CompletedSendsAreSpaced(step.times, ds[1..], decode);
      var rest := Run(step.times, ds[1..], decode).log;
      if step.request.Some? {
        var x := Attempt(step.request.value, d.now, d.postOk);
        assert Run(times, ds, decode).log == [x] + rest;
        if d.postOk {
          var mac := step.request.value.value1;
          assert step.times[mac] == d.now;
          SendsAfterRecorded(step.times, ds[1..], decode, mac);
        }
        SpacedCons(x, rest);
      }
    }
  }

  /** The scan-result deliveries of `ds`, in order; every other event code is dropped. */
  function ScanResultsOnly(ds: seq<Delivery>): (r: seq<Delivery>)
    ensures |r| <= |ds|
    ensures forall k :: 0 <= k < |r| ==> r[k].ev.event == ScanResultEvent
  {
    if ds == [] then []
    else if ds[0].ev.event == ScanResultEvent then [ds[0]] + ScanResultsOnly(ds[1..])
    else ScanResultsOnly(ds[1..])
  }

  /** Events other than scan results can be dropped from any run without changing it. */
  lemma {:induction false} OtherEventsIgnored(times: SendTimes, ds: seq<Delivery>, decode: Decoder)
    ensures Run(times, ds, decode) == Run(times, ScanResultsOnly(ds), decode)
    decreases |ds|
  {
    if ds != [] {
      var step := BtIrq(times, ds[0].ev, ds[0].now, ds[0].postOk, decode);
      OtherEventsIgnored(step.times, ds[1..], decode);
      if ds[0].ev.event == ScanResultEvent {
        assert ([ds[0]] + ScanResultsOnly(ds[1..]))[1..] == ScanResultsOnly(ds[1..]);
      } else {
        assert step == SendResult(None, times);
      }
    }
  }

  /**
   * Only an address with a completed send in the run changes its entry:
   * every other address keeps its presence and its time.
   */
  lemma {:induction false} UnsentAddressesUnchanged(times: SendTimes, ds: seq<Delivery>, decode: Decoder, mac: string)
    requires forall k :: 0 <= k < |Run(times, ds, decode).log| ==> !CompletedFor(Run(times, ds, decode).log[k], mac)
    ensures mac in Run(times, ds, decode).times <==> mac in times
    ensures mac in times ==> Run(times, ds, decode).times[mac] == times[mac]
    decreases |ds|
  {
    if ds != [] {
      var d := ds[0];
      var step := BtIrq(times, d.ev, d.now, d.postOk, decode);
      var log := Run(times, ds, decode).log;
      var rest := Run(step.times, ds[1..], decode).log;
      var attempted := if step.request.Some? then [Attempt(step.request.value, d.now, d.postOk)] else [];
      assert log == attempted + rest;
      forall k | 0 <= k < |rest|
        ensures !CompletedFor(rest[k], mac)
      {
        assert rest[k] == log[k + |attempted|];
      }
      UnsentAddressesUnchanged(step.times, ds[1..], decode, mac);
      if step.request.Some? && d.postOk {
        assert !CompletedFor(log[0], mac);
      }
    }
  }

  /**
   * Three scan results for one address at seconds 0, 0 and 1: the first is
   * posted, the second falls in the same second and is skipped, the third is
   * posted again.
   */
  lemma ThrottleScenario(addr: seq<byte>, rssi: int, adv: seq<byte>, decode: Decoder)
    ensures var ev := IrqEvent(ScanResultEvent, ScanResult(0, addr, 0, rssi, adv));
      var sent := Payload(Hexlify(addr), rssi, ParseAdvData(adv, decode));
      Run(map[], [Delivery(ev, 0, true), Delivery(ev, 0, true), Delivery(ev, 1, true)], decode).log ==
        [Attempt(sent, 0, true), Attempt(sent, 1, true)]
  {
    var ev := IrqEvent(ScanResultEvent, ScanResult(0, addr, 0, rssi, adv));
    var ds := [Delivery(ev, 0, true), Delivery(ev, 0, true), Delivery(ev, 1, true)];
    var mac := Hexlify(addr);
    assert ds[1..] == [Delivery(ev, 0, true), Delivery(ev, 1, true)];
    assert ds[1..][1..] == [Delivery(ev, 1, true)];
    assert ds[1..][1..][1..] == [];
    var sent := Payload(mac, rssi, ParseAdvData(adv, decode));
    var s1 := BtIrq(map[], ev, 0, true, decode);
    assert s1 == SendResult(Some(sent), map[mac := 0]);
    var s2 := BtIrq(s1.times, ev, 0, true, decode);
    assert s2 == SendResult(None, s1.times);
    var s3 := BtIrq(s2.times, ev, 1, true, decode);
    assert s3 == SendResult(Some(sent), map[mac := 1]);
    var r3 := Run(s2.times, ds[1..][1..], decode);
    assert r3.log == [Attempt(sent, 1, true)];
    var r2 := Run(s1.times, ds[1..], decode);
    assert r2.log == r3.log;
  }
}
