/** The shape of a waiting-list entry as the client receives it from the
    queue-position query. The engine that produces these entries is not part of
    this model. */
module WaitingList {
  import opened Wrappers

  /** Entry status. The client compares it only with "offered" and "expired";
      every other status (waiting, purchased, ...) behaves alike. */
  datatype Status = Offered | Expired | Other

  /** Time is integer milliseconds since the epoch. An absent deadline and a
      deadline of 0 are both falsy in the client. */
  datatype QueueEntry = QueueEntry(status: Status, offerExpiresAt: Option<int>)

  /** JavaScript truthiness of an optional timestamp. */
  predicate TruthyTime(t: Option<int>) {
    t.Some? && t.value != 0
  }
}
