/** The counters of the reconnect loop `checkAutoConnecting` and the
    consecutive-timeout rule of the acquisition loop `cacheScanData`
    (src/ydlidar_driver.cpp). Delays are returned as milliseconds instead of
    being slept; whether `connect` succeeds is an input. */
module Backoff {
  import opened Protocol

  /** Cap of `retryCount` and of `retryConnect`. */
  const RetryCap: nat := 100
  const ConnectCap: nat := 25
  /** Milliseconds per unit of `retryCount` and of `retryConnect`. */
  const RetryUnitMs: nat := 100
  const ConnectUnitMs: nat := 200
  /** `DEFAULT_TIMEOUT_COUNT`; the definition is not part of this model and
      the value is representative. */
  const DefaultTimeoutCount: nat := 1

  /** `retryCount++` followed by the cap at 100. */
  function NextRetryCount(r: int): (r': int)
    ensures r' <= RetryCap
    ensures r < RetryCap ==> r' == r + 1
    ensures r >= RetryCap ==> r' == RetryCap
  {
    if r + 1 > 100 then 100 else r + 1
  }

  /** `retryConnect++` followed by the cap at 25. */
  function NextConnectCount(c: nat): (c': nat)
    ensures 1 <= c' <= ConnectCap
    ensures c < ConnectCap ==> c' == c + 1
    ensures c >= ConnectCap ==> c' == ConnectCap
  {
    if c + 1 > 25 then 25 else c + 1
  }

  /** The wait before the `k`-th failed connect (from 0) of one round is
      `200 * min(k + 1, 25)` ms. */
  function ConnectDelay(k: nat): nat
  {
    ConnectUnitMs * (if k + 1 < ConnectCap then k + 1 else ConnectCap)
  }

  /** The waits after the first `n` failed connects of a round. */
  function ConnectDelays(n: nat): (d: seq<nat>)
    ensures |d| == n
    ensures forall k :: 0 <= k < n ==> d[k] == ConnectDelay(k)
  {
    if n == 0 then [] else ConnectDelays(n - 1) + [ConnectDelay(n - 1)]
  }

  /** Connect waits grow by 200 ms per failure up to a 5 s plateau reached
      at the 25th failure. */
  lemma ConnectDelayShape(j: nat, k: nat)
    requires j <= k
    ensures ConnectDelay(j) <= ConnectDelay(k) <= ConnectCap * ConnectUnitMs
    ensures k + 1 >= ConnectCap ==> ConnectDelay(k) == ConnectCap * ConnectUnitMs
    ensures k + 1 < ConnectCap ==> ConnectDelay(k) == ConnectUnitMs * (k + 1)
  {
  }

  /** The inner loop of `checkAutoConnecting` over the outcomes `connects`
      of successive `connect` calls: each failure bumps the capped attempt
      counter and waits `200 * retryConnect` ms. It stops at the first
      success, or when the outcomes run out (the driver would keep trying). */
  method ReconnectAttempts(isAutoReconnect: bool, connects: seq<bool>)
    returns (failures: nat, connected: bool, delays: seq<nat>)
    ensures failures <= |connects|
    ensures connected <==> isAutoReconnect && failures < |connects|
    ensures connected ==> connects[failures]
    ensures isAutoReconnect ==> forall k :: 0 <= k < failures ==> !connects[k]
    ensures !isAutoReconnect ==> failures == 0
    ensures delays == ConnectDelays(failures)
  {
    failures := 0;
    connected := false;
    delays := [];
    var retryConnect: nat := 0;
    while isAutoReconnect && failures < |connects| && !connects[failures]
      invariant failures <= |connects|
      invariant isAutoReconnect ==> forall k :: 0 <= k < failures ==> !connects[k]
      invariant !isAutoReconnect ==> failures == 0
      invariant retryConnect == if failures < ConnectCap then failures else ConnectCap
      invariant delays == ConnectDelays(failures)
      decreases |connects| - failures
    {
      retryConnect := NextConnectCount(retryConnect);
      delays := delays + [ConnectUnitMs * retryConnect];
      failures := failures + 1;
    }
    connected := isAutoReconnect && failures < |connects|;
  }

  /** `retryCount` after `n` more rounds of reconnection, starting from `r`. */
  function RetryCountAfter(r: int, n: nat): int
  {
    if n == 0 then r else NextRetryCount(RetryCountAfter(r, n - 1))
  }

  /** From the reset value 0 (set by `cacheScanData`), the `n`-th round waits
      `100 * min(n, 100)` ms before reconnecting, so never more than 10 s. */
  lemma {:induction false} RetryCountFromZero(n: nat)
    ensures RetryCountAfter(0, n) == if n < RetryCap then n else RetryCap
    ensures 0 <= RetryUnitMs * RetryCountAfter(0, n) <= RetryUnitMs * RetryCap
  {
    if n > 0 {
      RetryCountFromZero(n - 1);
    }
  }

  /** What one pass of the `cacheScanData` loop does after `waitScanData`
      answered `ans`. */
  datatype TimeoutAction =
    | Proceed                    // data arrived: both counters reset to 0
    | Retry(timeoutCount: nat)   // a soft timeout: counted, scanning goes on
    | Reconnect                  // a hard failure with auto-reconnect on
    | Exit                       // a hard failure without it: scanning stops

  /** A failure, or a timeout once more than `DEFAULT_TIMEOUT_COUNT`
      timeouts have been counted, is hard; other timeouts are counted. */
  function TimeoutStep(ans: ResultCode, timeoutCount: nat, isAutoReconnect: bool): (a: TimeoutAction)
    ensures ans == Ok <==> a == Proceed
    ensures a.Retry? <==> ans == Timeout && timeoutCount <= DefaultTimeoutCount
    ensures a.Retry? ==> a.timeoutCount == timeoutCount + 1
    ensures a.Reconnect? <==> ans != Ok && !a.Retry? && isAutoReconnect
    ensures a.Exit? <==> ans != Ok && !a.Retry? && !isAutoReconnect
  {
    match ans
    case Ok => Proceed
    case Fail => if isAutoReconnect then Reconnect else Exit
    case Timeout =>
      if timeoutCount > DefaultTimeoutCount then (if isAutoReconnect then Reconnect else Exit)
      else Retry(timeoutCount + 1)
  }

  /** The counter after a run of `n` consecutive timeouts, while they are
      soft. */
  function AfterTimeouts(n: nat, isAutoReconnect: bool): TimeoutAction
  {
    if n == 0 then Proceed
    else
      match AfterTimeouts(n - 1, isAutoReconnect)
      case Proceed => TimeoutStep(Timeout, 0, isAutoReconnect)
      case Retry(c) => TimeoutStep(Timeout, c, isAutoReconnect)
      case other => other
  }

  /** After data, `DEFAULT_TIMEOUT_COUNT + 1` consecutive timeouts are
      tolerated and counted; the next one escalates to a reconnect (or ends
      scanning). */
  lemma {:induction false} TimeoutEscalation(n: nat, isAutoReconnect: bool)
    ensures 1 <= n <= DefaultTimeoutCount + 1 ==> AfterTimeouts(n, isAutoReconnect) == Retry(n)
    ensures n == DefaultTimeoutCount + 2 ==>
              AfterTimeouts(n, isAutoReconnect) == (if isAutoReconnect then Reconnect else Exit)
  {
    if n > 1 {
      TimeoutEscalation(n - 1, isAutoReconnect);
    }
  }
}
