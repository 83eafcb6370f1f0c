/** The id → notification buffer both implementations keep for the toasts
    they have shown (`_buffer`, a `std::map<INT64, ToastNotification>`), and
    the pieces of `showToast`, `hideToast` and `clear` that act on it
    (src/wintoast.cpp:873-952, src/wintoast_impl.cpp:592-684). */
module Toasts {
  import opened Common
  import opened Payload

  /** `GUID::Data1`, an `unsigned long`. */
  type Uint32 = x: int | 0 <= x < 0x1_0000_0000

  /** A shown toast: its document and, when the template has a positive
      expiration, the absolute expiration time. */
  datatype Notification = Notification(doc: Document, expiration: Option<int>)

  type Buffer = map<int, Notification>

  /** `_buffer.insert(std::pair(id, notification))`: `insert` never
      overwrites, so an id already in use keeps its old notification. */
  function Record(b: Buffer, id: int, n: Notification): (r: Buffer)
    ensures r.Keys == b.Keys + {id}
    ensures forall k :: k in b ==> r[k] == b[k]
    ensures id !in b ==> r[id] == n
  {
    if id in b then b else b[id := n]
  }

  /** `_buffer.erase(id)`. */
  function Forget(b: Buffer, id: int): (r: Buffer)
    ensures r.Keys == b.Keys - {id}
    ensures forall k :: k in r ==> r[k] == b[k]
  {
    b - {id}
  }

  /** Recording a fresh id and forgetting it again restores the buffer. */
  lemma RecordForget(b: Buffer, id: int, n: Notification)
    requires id !in b
    ensures Forget(Record(b, id, n), id) == b
  {
  }

  /** The expiration `showToast` sets: `fileTimeNow()` plus the template's
      milliseconds in 100-nanosecond ticks, and none for a non-positive
      value. `now` is supplied by the caller. */
  function ExpirationOf(relative: int, now: int): (r: Option<int>)
    ensures r.Some? <==> relative > 0
    ensures r.Some? ==> r.value > now
  {
    if relative > 0 then Some(now + relative * 10000) else None
  }

  /** A longer relative expiration ends later. */
  lemma ExpirationMonotone(a: int, b: int, now: int)
    requires 0 < a < b
    ensures ExpirationOf(a, now).value < ExpirationOf(b, now).value
  {
  }

  /** `hideToast`: not initialised, unknown id and a failed `Hide` all give
      `false` with the buffer as it was; otherwise exactly that id is
      erased. `hideOk` says whether creating the notifier and `Hide`
      succeed. */
  function HideInBuffer(initialized: bool, b: Buffer, id: int, hideOk: bool): (r: (bool, Buffer))
    ensures r.0 <==> initialized && id in b && hideOk
    ensures r.0 ==> r.1 == Forget(b, id)
    ensures !r.0 ==> r.1 == b
  {
    if !initialized then (false, b)
    else if id in b then
      if hideOk then (true, Forget(b, id)) else (false, b)
    else (false, b)
  }

  /** `clear`: hiding errors are swallowed and the buffer is emptied in
      every case. */
  function ClearBuffer(b: Buffer, hideOk: bool): (r: Buffer)
    ensures r == map[]
  {
    map[]
  }

  /** A second hide of the same id fails: the first one erased it. */
  lemma HideTwice(initialized: bool, b: Buffer, id: int, ok1: bool, ok2: bool)
    requires HideInBuffer(initialized, b, id, ok1).0
    ensures !HideInBuffer(initialized, HideInBuffer(initialized, b, id, ok1).1, id, ok2).0
  {
  }
}
