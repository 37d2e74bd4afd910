/**
 * The per-address send throttle of main.py (`send_to_ifttt`).
 *
 * `last_send_time` maps an address key to the `utime.time()` reading (whole
 * seconds) of its last completed send. A call posts the reading to the IFTTT
 * webhook unless the same address was sent less than one second ago. The POST
 * itself is an abstract dispatch: `postOk` says whether it, and the prints that
 * follow it, completed; if any of them raises, the map is never updated.
 */
module Throttle {
  import opened Wrappers

  /** `last_send_time`: address key to the second of its last completed send. */
  type SendTimes = map<string, int>

  /** The shortest spacing, in seconds, between two sends for one address. */
  const MinInterval: int := 1

  /** The JSON body of the webhook request. */
  datatype Payload = Payload(value1: string, value2: int, value3: string)

  /** What one call did: the request it attempted, if any, and the map afterwards. */
  datatype SendResult = SendResult(request: Option<Payload>, times: SendTimes)

  predicate Due(times: SendTimes, mac: string, now: int) {
    mac !in times || now - times[mac] >= MinInterval
  }

  /** `send_to_ifttt(rssi, mac, name)` with the clock reading `now`. */
  function SendToIfttt(times: SendTimes, rssi: int, mac: string, name: string, now: int, postOk: bool): (r: SendResult)
    ensures r.request.Some? <==> mac !in times || now - times[mac] >= 1
    ensures r.request.Some? ==> r.request.value == Payload(mac, rssi, name)
    ensures r.request.Some? && postOk ==> r.times == times[mac := now]
    ensures r.request.None? || !postOk ==> r.times == times
    ensures forall m :: m != mac ==> (m in r.times <==> m in times)
    ensures forall m :: m != mac && m in times ==> r.times[m] == times[m]
    ensures forall m :: m in times ==> m in r.times && r.times[m] >= times[m]
  {
    if Due(times, mac, now) then
      SendResult(Some(Payload(mac, rssi, name)), if postOk then times[mac := now] else times)
    else
      SendResult(None, times)
  }

  /** A completed send makes every later call in the same second a skip. */
  lemma SameSecondIsSkipped(times: SendTimes, rssi: int, mac: string, name: string, now: int,
                            rssi': int, name': string, postOk': bool)
    requires Due(times, mac, now)
    ensures SendToIfttt(SendToIfttt(times, rssi, mac, name, now, true).times, rssi', mac, name', now, postOk').request.None?
  {
  }

  /** A failed dispatch leaves the address due, so the next observation retries. */
  lemma FailedSendStaysDue(times: SendTimes, rssi: int, mac: string, name: string, now: int, later: int)
    requires Due(times, mac, now) && later >= now
    ensures Due(SendToIfttt(times, rssi, mac, name, now, false).times, mac, later)
  {
  }
}
