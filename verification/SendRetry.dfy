/** Relative-time arithmetic (`os.h`) and the send loop of `wpa_ctrl_request`. */
module SendRetry {

  datatype RelTime = RelTime(sec: int, usec: int)

  predicate Normal(t: RelTime) {
    0 <= t.usec < 1_000_000
  }

  function Micros(t: RelTime): int {
    t.sec * 1_000_000 + t.usec
  }

  /** Exact subtraction with a normalised result, for either order of arguments. */
  method OsReltimeSub(a: RelTime, b: RelTime) returns (res: RelTime)
    requires Normal(a) && Normal(b)
    ensures Normal(res)
    ensures Micros(res) == Micros(a) - Micros(b)
  {
    res := RelTime(a.sec - b.sec, a.usec - b.usec);
    if res.usec < 0 {
      res := res.(sec := res.sec - 1);
      res := res.(usec := res.usec + 1_000_000);
    }
  }

  /** The order of normalised times is the order of the instants. */
  lemma BeforeIsEarlier(a: RelTime, b: RelTime)
    requires Normal(a) && Normal(b)
    ensures OsReltimeBefore(a, b) <==> Micros(a) < Micros(b)
  {
    if a.sec < b.sec {
      assert Micros(a) < (a.sec + 1) * 1_000_000 <= b.sec * 1_000_000;
    } else if b.sec < a.sec {
      assert Micros(b) < (b.sec + 1) * 1_000_000 <= a.sec * 1_000_000;
    }
  }

  predicate OsReltimeBefore(a: RelTime, b: RelTime) {
    a.sec < b.sec || (a.sec == b.sec && a.usec < b.usec)
  }

  /** Strictly more than `timeout` seconds have passed. */
  method OsReltimeExpired(now: RelTime, ts: RelTime, timeout: int) returns (expired: bool)
    requires Normal(now) && Normal(ts)
    ensures expired <==> Micros(now) - Micros(ts) > timeout * 1_000_000
  {
    var age := OsReltimeSub(now, ts);
    expired := age.sec > timeout || (age.sec == timeout && age.usec > 0);
  }

  // ------------------------------------------------------------------- send loop

  /** What one call of send reports: EAGAIN, EBUSY and EWOULDBLOCK are `Busy`. */
  datatype SendOutcome = Sent | Busy | Failed

  /** The world of one request: the outcome of the k-th send, and the clock as
      read after the k-th busy one. */
  datatype World = World(send: nat -> SendOutcome, clock: nat -> RelTime)

  const TIMEOUT := 5

  /** Clock reads succeed, and os_sleep(1, 0) lets at least a second go by between them. */
  ghost predicate TimePasses(w: World) {
    && (forall k: nat :: Normal(w.clock(k)) && w.clock(k).sec >= 0)
    && (forall k: nat :: Micros(w.clock(k)) + 1_000_000 <= Micros(w.clock(k + 1)))
  }

  /** The reading kept in `started_at`: one with zero seconds counts as not taken. */
  function FirstKept(w: World): nat {
    if w.clock(0).sec == 0 then 1 else 0
  }

  /** A busy k-th send is the last one: the time limit has been passed. */
  predicate GivesUp(w: World, k: nat) {
    k > FirstKept(w) && Micros(w.clock(k)) - Micros(w.clock(FirstKept(w))) > 5_000_000
  }

  /** The loop goes on after the k-th send. */
  predicate Retries(w: World, k: nat) {
    w.send(k) == Busy && !GivesUp(w, k)
  }

  /** Some send gets through after busy ones that were all retried. */
  ghost predicate SendSucceeds(w: World) {
    exists k: nat :: w.send(k) == Sent && forall j: nat :: j < k ==> Retries(w, j)
  }

  lemma {:induction false} ClockAdvances(w: World, i: nat, k: nat)
    requires TimePasses(w) && i <= k
    ensures Micros(w.clock(k)) - Micros(w.clock(i)) >= (k - i) * 1_000_000
    decreases k - i
  {
    if i < k {
      ClockAdvances(w, i, k - 1);
      assert Micros(w.clock(k - 1)) + 1_000_000 <= Micros(w.clock(k - 1 + 1));
    }
  }

  lemma ClockSeconds(w: World)
    requires TimePasses(w)
    ensures w.clock(FirstKept(w)).sec > 0
  {
    assert Micros(w.clock(0)) + 1_000_000 <= Micros(w.clock(0 + 1));
    assert Normal(w.clock(1));
  }

  /** No socket stays busy for long enough to allow a send after this one. */
  lemma GivesUpBy(w: World, k: nat)
    requires TimePasses(w) && k >= FirstKept(w) + 6
    ensures GivesUp(w, k)
  {
    ClockAdvances(w, FirstKept(w), k);
  }

  lemma StopsUnsent(w: World, k: nat)
    requires (forall j: nat :: j < k ==> Retries(w, j)) && !Retries(w, k) && w.send(k) != Sent
    ensures !SendSucceeds(w)
  {
    forall i: nat | w.send(i) == Sent ensures exists j: nat :: j < i && !Retries(w, j) {
      assert !Retries(w, k) && !Retries(w, i);
    }
  }

  /** The send loop. It stops at the first send that is not busy or gives up,
      after at most 8 sends, 7 when the first clock reading has nonzero seconds. */
  method SendWithRetry(w: World) returns (ok: bool, sends: nat)
    requires TimePasses(w)
    ensures 1 <= sends <= FirstKept(w) + 7 <= 8
    ensures forall k: nat :: k < sends - 1 ==> Retries(w, k)
    ensures !Retries(w, sends - 1)
    ensures ok <==> w.send(sends - 1) == Sent
    ensures ok <==> SendSucceeds(w)
  {
    ClockSeconds(w);
    var startedAt := RelTime(0, 0);
    sends := 0;
    while true
      invariant 0 <= sends <= FirstKept(w) + 6
      invariant forall k: nat :: k < sends ==> Retries(w, k)
      invariant startedAt == if sends > FirstKept(w) then w.clock(FirstKept(w))
                             else if sends == 0 then RelTime(0, 0) else w.clock(0)
      decreases 8 - sends
    {
      var r := w.send(sends);
      sends := sends + 1;
      if r == Sent { return true, sends; }
      if r == Failed {
        StopsUnsent(w, sends - 1);
        return false, sends;
      }
      if startedAt.sec == 0 {
        startedAt := w.clock(sends - 1);
      } else {
        var n := w.clock(sends - 1);
        var expired := OsReltimeExpired(n, startedAt, TIMEOUT);
        if expired {
          StopsUnsent(w, sends - 1);
          return false, sends;
        }
      }
      if sends - 1 == FirstKept(w) + 6 { GivesUpBy(w, sends - 1); }
    }
  }

  /** Both bounds are reached by a socket that is always busy. */
  lemma BoundsAreTight(first: int)
    requires 0 <= first
    ensures var w := World(_ => Busy, (k: nat) => RelTime(first + k, 0));
            && TimePasses(w)
            && (forall k: nat :: k < FirstKept(w) + 6 ==> Retries(w, k))
            && !Retries(w, FirstKept(w) + 6)
            && (FirstKept(w) == 1 <==> first == 0)
  {
    var w := World(_ => Busy, (k: nat) => RelTime(first + k, 0));
    assert TimePasses(w);
    GivesUpBy(w, FirstKept(w) + 6);
  }
}
