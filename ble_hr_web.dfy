/** The web build of the heart-rate module (lib/ble-hr.web.ts): no Bluetooth,
    every transport call fails with one message, and the same average. */
module BleHeartRateWeb {
  import opened Wrappers
  import opened RunTypes
  import opened JsText
  import BleHeartRate

  /** The message both transport stubs throw. */
  const WebUnavailable: string := "Heart rate monitors are not available on web. Use the app on a phone."

  /** `isBleAvailable`: Bluetooth never exists in a browser. */
  function IsBleAvailable(): (available: bool)
    ensures !available
  {
    false
  }

  /** `scanForDevices`: always rejects; no device is ever reported. */
  function ScanForDevices(): (r: Result<seq<string>>)
    ensures r.Failure? && r.error == WebUnavailable
  {
    Failure(WebUnavailable)
  }

  /** `connectAndSubscribe`: always rejects for any device id. */
  function ConnectAndSubscribe(deviceId: string): (r: Result<()>)
    ensures r.Failure? && r.error == WebUnavailable
  {
    Failure(WebUnavailable)
  }

  /** `averageBpm`: no value for no readings, else the mean rounded halves up. */
  function AverageBpm(samples: seq<HeartRateSample>): (avg: Option<int>)
    ensures avg.None? <==> samples == []
    ensures samples != [] ==>
      avg.value as real - 0.5 <= MeanBpm(samples).value < avg.value as real + 0.5
  {
    match MeanBpm(samples)
    case None => None
    case Some(mean) => Some(Round(mean))
  }

  /** Both builds compute the same average, so a run saved from either platform
      carries the same value. */
  lemma AverageBpmAgrees(samples: seq<HeartRateSample>)
    ensures AverageBpm(samples) == BleHeartRate.AverageBpm(samples)
  {
  }
}
