/** Timed requests, as the rate limiters see them. */
module Traces {

  /** A request of the identity `key`. */
  datatype Request = Request(time: real, key: string)

  /** The clock never runs backwards, and starts no earlier than `from`. */
  ghost predicate Monotone(trace: seq<Request>, from: real) {
    && (forall i :: 0 <= i < |trace| ==> from <= trace[i].time)
    && (forall i, j :: 0 <= i < j < |trace| ==> trace[i].time <= trace[j].time)
  }
}
