/** The retries of `connect` and how long they wait (base/co/posix.h). */
module Connect {

  /** What the kernel says of one attempt: whether the wait could be registered and
      `SO_ERROR` be read, that error, and whether there is a peer. */
  datatype Report = Report(registered: bool, readable: bool, soerr: int, peer: bool)

  /** What it comes to: connected, try again, or give up. */
  datatype Try = Connected | Again | GiveUp(errno: int)

  const EPERM := 1
  const ETIMEDOUT := 110

  /** EINTR, EINPROGRESS, EALREADY, EISCONN, or no error. */
  const SETTLING := {0, 4, 115, 114, 106}

  /** EAGAIN, EADDRINUSE, EADDRNOTAVAIL, ENETUNREACH, ECONNREFUSED. */
  const TRANSIENT := {11, 98, 99, 101, 111}

  function Judge(r: Report): Try
  {
    if !r.registered || !r.readable then GiveUp(EPERM)
    else if r.soerr in SETTLING then (if r.peer then Connected else Again)
    else if r.soerr in TRANSIENT then Again
    else GiveUp(r.soerr)
  }

  /** What one attempt comes to, by what the kernel says: connected means that the
      error was read, that it is none or one that goes away by itself, and that there is
      a peer; without the peer, or with an error of the moment, it is tried again. */
  lemma JudgeExactly(r: Report)
    ensures Judge(r).Connected? <==> r.registered && r.readable && r.peer && r.soerr in SETTLING
    ensures Judge(r).Again? <==> r.registered && r.readable && (r.soerr in TRANSIENT || (r.soerr in SETTLING && !r.peer))
    ensures Judge(r).GiveUp? && r.registered && r.readable ==> Judge(r).errno == r.soerr
  {
  }

  /** 0, or -1 and an errno. */
  datatype Result = Result(ret: int, errno: int)

  function Power(n: nat): (p: nat)
    ensures p > 0
  {
    if n == 0 then 1 else 2 * Power(n - 1)
  }

  /** Milliseconds asked for before attempt `r`, counted from 0: by then the
      counter has moved on, so the shift is by one more than it seems. */
  function Delay(r: nat): nat
  {
    if r > 2 then 1024 * Power(r + 1 - 3) else 0
  }

  /** Milliseconds asked for before the first `n` attempts. */
  function Waited(n: nat): nat
  {
    if n == 0 then 0 else Waited(n - 1) + Delay(n - 1)
  }

  /** The first attempt that decides. */
  function Deciding(reports: seq<Report>): (k: nat)
    ensures k <= |reports| && (forall i | 0 <= i < k :: Judge(reports[i]).Again?)
    ensures k < |reports| ==> !Judge(reports[k]).Again?
  {
    if reports == [] || !Judge(reports[0]).Again? then 0 else 1 + Deciding(reports[1..])
  }

  /** `connect` with `|reports|` retries configured: the first attempt that decides
      gives the result, and what was waited is what its predecessors and it asked
      for; when none decides, it times out. */
  method Connect(reports: seq<Report>) returns (result: Result, waited: nat)
    ensures var k := Deciding(reports);
      if k < |reports| then
        waited == Waited(k + 1)
        && result == if Judge(reports[k]).Connected? then Result(0, 0) else Result(-1, Judge(reports[k]).errno)
      else waited == Waited(|reports|) && result == Result(-1, ETIMEDOUT)
  {
    var retries := 0;
    waited := 0;
    while retries < |reports|
      invariant 0 <= retries <= |reports| && waited == Waited(retries)
      invariant forall i | 0 <= i < retries :: Judge(reports[i]).Again?
    {
      var r := reports[retries];
      retries := retries + 1;
      if retries - 1 > 2 { waited := waited + 1024 * Power(retries - 3); }
      if !r.registered { return Result(-1, EPERM), waited; }
      if !r.readable { return Result(-1, EPERM), waited; }
      if r.soerr in SETTLING {
        if !r.peer { continue; }
        return Result(0, 0), waited;
      }
      if r.soerr in TRANSIENT { continue; }
      return Result(-1, r.soerr), waited;
    }
    return Result(-1, ETIMEDOUT), waited;
  }

  /** Nothing was decided by this attempt: no error that stays, and no peer yet. */
  predicate Undecided(r: Report)
  {
    r.registered && r.readable && (r.soerr in {11, 98, 99, 101, 111} || (r.soerr in {0, 4, 106, 114, 115} && !r.peer))
  }

  /** No error that stays, and a peer. */
  predicate Peered(r: Report) { r.registered && r.readable && r.peer && r.soerr in {0, 4, 106, 114, 115} }

  /** When `connect` succeeds: some attempt within the limit finds a peer and no error
      that stays, and every attempt before it was undecided. */
  lemma ConnectsExactly(reports: seq<Report>)
    ensures var k := Deciding(reports);
      (k < |reports| && Judge(reports[k]).Connected?) <==>
      exists i :: 0 <= i < |reports| && Peered(reports[i]) && forall j | 0 <= j < i :: Undecided(reports[j])
  {
    var k := Deciding(reports);
    forall r: Report ensures (Judge(r).Again? <==> Undecided(r)) && (Judge(r).Connected? <==> Peered(r)) { JudgeExactly(r); }
  }

  /** Closing the loop: when every one of `n` attempts is to be retried, `connect`
      times out after exactly 1024 * (2^(n-2) - 2) milliseconds of waiting. */
  lemma ExhaustedWaits(reports: seq<Report>)
    requires |reports| >= 3 && forall i | 0 <= i < |reports| :: Judge(reports[i]).Again?
    ensures Deciding(reports) == |reports| && Waited(Deciding(reports)) == 1024 * (Power(|reports| - 2) - 2)
  {
    WaitedClosedForm(|reports|);
  }

  /** Closed form: `n` attempts ask for exactly 1024 * (2^(n-2) - 2) milliseconds. */
  lemma {:induction false} WaitedClosedForm(n: nat)
    requires n >= 3
    ensures Waited(n) == 1024 * (Power(n - 2) - 2)
  {
    if n == 3 {
      assert Power(1) == 2 && Waited(1) == 0 && Waited(2) == 0;
    } else {
      WaitedClosedForm(n - 1);
    }
  }

  /** The first delay is twice the second the comment in the source announces. */
  lemma FirstDelay()
    ensures Delay(2) == 0 && Delay(3) == 2048
  {
    assert Power(1) == 2;
  }

  lemma {:induction false} PowerGrows(m: nat, n: nat)
    requires m <= n
    ensures Power(m) <= Power(n)
  {
    if m < n { PowerGrows(m, n - 1); }
  }

  /** The shift stays within an `int` exactly up to attempt 22, so for at most 23
      configured retries. */
  lemma DelayFitsExactly(r: nat)
    ensures Delay(r) <= 0x7fff_ffff <==> r <= 22
  {
    assert Power(10) == 1024 by { assert Power(5) == 32; }
    assert Power(20) == 0x10_0000 by { assert Power(15) == 0x8000; }
    if 2 < r <= 22 { PowerGrows(r - 2, 20); }
    if r > 22 { PowerGrows(21, r - 2); }
  }
}
