/**
 * The second FastAPI service (fast/server.py): its `/audio` rule switches the
 * LED on above a threshold and answers with the scaled value. Its
 * `/ws_frames` loop is the one in module FrameSocket.
 *
 * The request value is a Python float, modelled as a real number, so
 * `value * 10` is exact here.
 */
module FastApi {

  const LedOn: string := "on"
  const LedOff: string := "off"

  /** Values strictly above this threshold switch the LED on. */
  const Threshold: real := 10.0

  /** A JSON value of the response: a number or a text. */
  datatype Json = Number(n: real) | Text(s: string)

  /** "on" exactly when the value is strictly above 10. */
  function LedState(value: real): (r: string)
    ensures r in {LedOn, LedOff}
    ensures r == LedOff <==> value <= Threshold
  {
    if value > Threshold then LedOn else LedOff
  }

  /** Whether the LED command reached the device; the handler only logs a failure. */
  datatype Delivery = Delivered | DeliveryRaised(message: string)

  /** The `/audio` answer: `{"result": value * 10, "led": state}`. */
  function AudioResponse(value: real, delivery: Delivery): (r: map<string, Json>)
    ensures r.Keys == {"result", "led"}
    ensures r["result"] == Number(value * 10.0)
    ensures r["led"] == Text(LedOn) || r["led"] == Text(LedOff)
  {
    map["result" := Number(value * 10.0), "led" := Text(LedState(value))]
  }

  /** The LED is on exactly above 10; 10 itself gives "off". */
  lemma LedThreshold(value: real)
    ensures AudioResponse(value, Delivered)["led"] == Text(LedOn) <==> value > 10.0
    ensures AudioResponse(value, Delivered)["led"] == Text(LedOff) <==> value <= 10.0
    ensures AudioResponse(10.0, Delivered)["led"] == Text(LedOff)
  {
  }

  /** A failure to deliver the LED command does not change the answer. */
  lemma DeliveryDoesNotMatter(value: real, d1: Delivery, d2: Delivery)
    ensures AudioResponse(value, d1) == AudioResponse(value, d2)
  {
  }

  /** Raising the value never switches the LED off. */
  lemma LedMonotone(v: real, w: real)
    requires v <= w && LedState(v) == LedOn
    ensures LedState(w) == LedOn
  {
  }
}
