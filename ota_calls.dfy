/**
 * The calls one update attempt makes into ESP-IDF's HTTP client and OTA API,
 * recorded in order, and the protocol those calls must follow: a write
 * session is begun, appended to, and then either aborted or ended; only an
 * ended (committed) image is made the boot partition; only an activated image
 * is restarted into; and a retry is scheduled only with no session open.
 */
module OtaCalls {
  import opened OtaTypes

  /**
   * What esp_ota_end reports: ESP_OK, ESP_ERR_OTA_VALIDATE_FAILED, or any
   * other error, among them ESP_ERR_NOT_FOUND for a handle that no
   * esp_ota_begin returned.
   */
  datatype EndResult = EndOk | ValidateFailed | EndFailed

  datatype Call =
    | ClientCleanup                              // esp_http_client_cleanup alone
    | HttpCleanup                                // http_cleanup: close, then cleanup
    | Begin(partition: PartitionId, ok: bool)    // esp_ota_begin
    | Write(data: seq<byte>, ok: bool)           // esp_ota_write
    | Abort                                      // esp_ota_abort
    | End(handleOpen: bool, result: EndResult)   // esp_ota_end; handleOpen: the handle came from a successful begin
    | SetBoot(partition: PartitionId, ok: bool)  // esp_ota_set_boot_partition
    | Restart                                    // esp_restart
    | Delay(ms: nat)                             // vTaskDelay before the next attempt

  datatype CallKind =
    ClientCleanupK | HttpCleanupK | BeginOkK | BeginFailedK | WriteK | AbortK | EndK | SetBootK | RestartK | DelayK

  function Kind(c: Call): CallKind
  {
    match c
    case ClientCleanup => ClientCleanupK
    case HttpCleanup => HttpCleanupK
    case Begin(_, ok) => if ok then BeginOkK else BeginFailedK
    case Write(_, _) => WriteK
    case Abort => AbortK
    case End(_, _) => EndK
    case SetBoot(_, _) => SetBootK
    case Restart => RestartK
    case Delay(_) => DelayK
  }

  /** How often calls of kind `k` occur in `t`. */
  function Count(t: seq<Call>, k: CallKind): nat
  {
    if t == [] then 0
    else Count(t[..|t| - 1], k) + (if Kind(t[|t| - 1]) == k then 1 else 0)
  }

  /** The bytes that reached flash: the data of every write that succeeded, in order. */
  function Written(t: seq<Call>): seq<byte>
  {
    if t == [] then []
    else Written(t[..|t| - 1]) + (match t[|t| - 1] case Write(d, true) => d case _ => [])
  }

  /** State of the update partition's write session, as the OTA API sees it. */
  datatype Session = Closed | Opened | Committed | Activated | Rebooted

  /** One call of the protocol; None when the call is not allowed in state `s`. */
  function Next(s: Session, c: Call): Option<Session>
  {
    match c
    case ClientCleanup => if s == Rebooted then None else Some(s)
    case HttpCleanup => if s == Rebooted then None else Some(s)
    case Begin(_, ok) => if s == Closed then Some(if ok then Opened else Closed) else None
    case Write(_, _) => if s == Opened then Some(Opened) else None
    case Abort => if s == Opened then Some(Closed) else None
    case End(h, res) =>
      if h && s == Opened then Some(if res == EndOk then Committed else Closed)
      else if !h && s == Closed && res != EndOk then Some(Closed)
      else None
    case SetBoot(_, ok) => if s == Committed then Some(if ok then Activated else Closed) else None
    case Restart => if s == Activated then Some(Rebooted) else None
    case Delay(_) => if s == Closed then Some(Closed) else None
  }

  /** The state the calls `t` lead to from `s`, or None if one of them breaks the protocol. */
  function ReplayFrom(s: Session, t: seq<Call>): Option<Session>
  {
    if t == [] then Some(s)
    else match ReplayFrom(s, t[..|t| - 1])
      case None => None
      case Some(s') => Next(s', t[|t| - 1])
  }

  /** Each attempt starts with no write session open. */
  function Replay(t: seq<Call>): Option<Session>
  {
    ReplayFrom(Closed, t)
  }

  /** Appending one call adds one to exactly its own kind's count, and its data if it is a successful write. */
  lemma AppendCall(t: seq<Call>, c: Call)
    ensures forall k :: Count(t + [c], k) == Count(t, k) + (if Kind(c) == k then 1 else 0)
    ensures Written(t + [c]) == Written(t) + (match c case Write(d, true) => d case _ => [])
    ensures forall s :: ReplayFrom(s, t + [c]) == (match ReplayFrom(s, t) case None => None case Some(s') => Next(s', c))
  {
    assert (t + [c])[..|t + [c]| - 1] == t;
  }

  /** The folds over a concatenation of call sequences. */
  lemma AppendCalls(t: seq<Call>, u: seq<Call>)
    ensures forall k :: Count(t + u, k) == Count(t, k) + Count(u, k)
    ensures Written(t + u) == Written(t) + Written(u)
    ensures forall s :: ReplayFrom(s, t + u) == (match ReplayFrom(s, t) case None => None case Some(s') => ReplayFrom(s', u))
  {
    forall k ensures Count(t + u, k) == Count(t, k) + Count(u, k) {
      CountAppend(t, u, k);
    }
    WrittenAppend(t, u);
    forall s ensures ReplayFrom(s, t + u) == (match ReplayFrom(s, t) case None => None case Some(s') => ReplayFrom(s', u)) {
      ReplayAppend(s, t, u);
    }
  }

  lemma {:induction false} CountAppend(t: seq<Call>, u: seq<Call>, k: CallKind)
    ensures Count(t + u, k) == Count(t, k) + Count(u, k)
    decreases |u|
  {
    if u == [] {
      assert t + u == t;
    } else {
      var u' := u[..|u| - 1];
      assert (t + u)[..|t + u| - 1] == t + u' && (t + u)[|t + u| - 1] == u[|u| - 1];
      CountAppend(t, u', k);
    }
  }

  lemma {:induction false} WrittenAppend(t: seq<Call>, u: seq<Call>)
    ensures Written(t + u) == Written(t) + Written(u)
    decreases |u|
  {
    if u == [] {
      assert t + u == t;
    } else {
      var u' := u[..|u| - 1];
      var w := match u[|u| - 1] case Write(d, true) => d case _ => [];
      assert (t + u)[..|t + u| - 1] == t + u' && (t + u)[|t + u| - 1] == u[|u| - 1];
      assert Written(t + u) == Written(t + u') + w;
      WrittenAppend(t, u');
      assert Written(u) == Written(u') + w;
      assert (Written(t) + Written(u')) + w == Written(t) + (Written(u') + w);
    }
  }

  lemma {:induction false} ReplayAppend(s: Session, t: seq<Call>, u: seq<Call>)
    ensures ReplayFrom(s, t + u) == (match ReplayFrom(s, t) case None => None case Some(s') => ReplayFrom(s', u))
    decreases |u|
  {
    if u == [] {
      assert t + u == t;
    } else {
      var u' := u[..|u| - 1];
      assert (t + u)[..|t + u| - 1] == t + u' && (t + u)[|t + u| - 1] == u[|u| - 1];
      ReplayAppend(s, t, u');
    }
  }

  /** The folds of a sequence that starts with `c`. */
  lemma ConsCall(c: Call, u: seq<Call>)
    ensures forall k :: Count([c] + u, k) == (if Kind(c) == k then 1 else 0) + Count(u, k)
    ensures Written([c] + u) == (match c case Write(d, true) => d case _ => []) + Written(u)
    ensures forall s :: ReplayFrom(s, [c] + u) == (match Next(s, c) case None => None case Some(s') => ReplayFrom(s', u))
  {
    AppendCalls([c], u);
    AppendCall([], c);
    assert [] + [c] == [c];
  }

  /** Putting one call in front, for one kind. */
  lemma CountCons(c: Call, u: seq<Call>, k: CallKind)
    ensures Count([c] + u, k) == (if Kind(c) == k then 1 else 0) + Count(u, k)
  {
    ConsCall(c, u);
  }

  /** Putting one call in front, from one state. */
  lemma ReplayCons(c: Call, u: seq<Call>, s: Session)
    ensures Written([c] + u) == (match c case Write(d, true) => d case _ => []) + Written(u)
    ensures ReplayFrom(s, [c] + u) == (match Next(s, c) case None => None case Some(s') => ReplayFrom(s', u))
  {
    ConsCall(c, u);
  }

  /** Bytes reach flash only through writes. */
  lemma {:induction false} WrittenNeedsWrite(t: seq<Call>)
    ensures Written(t) != [] ==> Count(t, WriteK) > 0
    decreases |t|
  {
    if t != [] {
      WrittenNeedsWrite(t[..|t| - 1]);
    }
  }

  /** The folds of a single call. */
  lemma OneCall(c: Call)
    ensures forall k :: Count([c], k) == (if Kind(c) == k then 1 else 0)
    ensures Written([c]) == (match c case Write(d, true) => d case _ => [])
    ensures forall s :: ReplayFrom(s, [c]) == Next(s, c)
  {
    AppendCall([], c);
    assert [] + [c] == [c];
  }
}
