/**
  What the socket-activation handshake promises its caller, one property per lemma: the no-activation
  case, each fatal validation path, the shape of the array on success, the meaning of the return
  value, all-or-nothing adoption, and the absence of idempotence.
 */
module PlatformListenProperties {
  import opened Wrappers
  import opened StrToNum
  import opened PlatformListen

  /** `inp` carries a `$LISTEN_PID` that names this process. */
  predicate PidMatches(inp: Input) {
    && inp.listenPid.Some?
    && ParseInRange(inp.listenPid.value, 1, INT_MAX) == Success(inp.myPid as int)
  }

  /** Once both variables validate, the outcome is decided by the adoption phase alone. */
  lemma AdoptionDecides(inp: Input, n: int)
    requires PidMatches(inp) && inp.listenFds.Some?
    requires ParseInRange(inp.listenFds.value, 1, inp.maxsocks) == Success(n)
    ensures AdoptionSpec(inp, n, SocketActivation(inp))
  {
  }

  /** Once both variables validate and every claimed descriptor is adoptable, the call returns. */
  lemma AllAdoptedOutcome(inp: Input, n: int)
    requires PidMatches(inp) && inp.listenFds.Some?
    requires ParseInRange(inp.listenFds.value, 1, inp.maxsocks) == Success(n)
    requires forall fd :: LISTEN_FDS_START <= fd < LISTEN_FDS_START + n ==> Adoptable(inp, fd)
    ensures SocketActivation(inp) == Returned(inp.socks + Range(LISTEN_FDS_START, LISTEN_FDS_START + n), LISTEN_FDS_START + n - 1)
  {
    AdoptionDecides(inp, n);
  }

  /** Without `$LISTEN_PID` the call returns -1 and the caller's array and count are untouched. */
  lemma NoListenPidIsNoActivation(inp: Input)
    requires inp.listenPid.None?
    ensures SocketActivation(inp) == Returned(inp.socks, -1)
  {
  }

  /** A `$LISTEN_PID` that is not a decimal int in `[1, INT_MAX]` is fatal, whatever else holds. */
  lemma BadListenPidIsFatal(inp: Input)
    requires inp.listenPid.Some? && ParseInRange(inp.listenPid.value, 1, INT_MAX).Failure?
    ensures SocketActivation(inp) == Fatal(BadListenPid(ParseInRange(inp.listenPid.value, 1, INT_MAX).error))
  {
  }

  /** A non-positive pid is rejected as too small; `$LISTEN_PID` is never read as 0 or negative. */
  lemma NonPositiveListenPidIsFatal(inp: Input, pid: int)
    requires inp.listenPid == Some(Decimal(pid)) && pid < 1
    ensures SocketActivation(inp) == Fatal(BadListenPid(TooSmall))
  {
    ParseInRangeDecimal(pid, 1, INT_MAX);
  }

  /**
    A well-formed pid other than our own is fatal before any descriptor is looked at: the outcome
    does not depend on `$LISTEN_FDS`, `maxsocks`, the descriptor setters or the caller's array.
   */
  lemma PidMismatchIsFatalBeforeDescriptors(inp: Input, other: Input)
    requires inp.listenPid.Some? && ParseInRange(inp.listenPid.value, 1, INT_MAX).Success?
    requires ParseInRange(inp.listenPid.value, 1, INT_MAX).value != inp.myPid
    requires other.listenPid == inp.listenPid && other.myPid == inp.myPid
    ensures SocketActivation(inp) == Fatal(PidMismatch(ParseInRange(inp.listenPid.value, 1, INT_MAX).value, inp.myPid))
    ensures SocketActivation(other) == SocketActivation(inp)
  {
  }

  /** `$LISTEN_PID` naming us without `$LISTEN_FDS` is a broken handoff and fatal. */
  lemma MissingListenFdsIsFatal(inp: Input)
    requires PidMatches(inp) && inp.listenFds.None?
    ensures SocketActivation(inp) == Fatal(MissingListenFds)
  {
  }

  /** An unparsable `$LISTEN_FDS`, or one outside `[1, maxsocks]`, is fatal and appends nothing. */
  lemma BadListenFdsIsFatal(inp: Input)
    requires PidMatches(inp) && inp.listenFds.Some?
    requires ParseInRange(inp.listenFds.value, 1, inp.maxsocks).Failure?
    ensures SocketActivation(inp) == Fatal(BadListenFds(ParseInRange(inp.listenFds.value, 1, inp.maxsocks).error))
  {
  }

  /**
    A count below 1 (in particular `"0"`) is too small, and a count above `maxsocks` is too large:
    both are fatal, and when `maxsocks < 1` every count is rejected.
   */
  lemma {:induction false} ListenFdsOutOfRangeIsFatal(inp: Input, n: int)
    requires PidMatches(inp) && inp.listenFds == Some(Decimal(n))
    requires n < 1 || n > inp.maxsocks
    ensures inp.maxsocks < 1 ==> SocketActivation(inp) == Fatal(BadListenFds(Invalid))
    ensures 1 <= inp.maxsocks && n < 1 ==> SocketActivation(inp) == Fatal(BadListenFds(TooSmall))
    ensures 1 <= inp.maxsocks && n > inp.maxsocks ==> SocketActivation(inp) == Fatal(BadListenFds(TooLarge))
  {
    ParseInRangeDecimal(n, 1, inp.maxsocks);
  }

  /** The literal `LISTEN_FDS=0` is fatal: a supervisor may not activate with zero sockets. */
  lemma {:induction false} ZeroListenFdsIsFatal(inp: Input)
    requires PidMatches(inp) && inp.listenFds == Some("0") && inp.maxsocks >= 1
    ensures SocketActivation(inp) == Fatal(BadListenFds(TooSmall))
  {
    assert Decimal(0) == "0";
    ListenFdsOutOfRangeIsFatal(inp, 0);
  }

  /**
    With matching pid, any `$LISTEN_FDS` string read as a count `n` in `[1, maxsocks]` (so `"3"`,
    `" 3"`, `"+03"` alike) and every descriptor `3 .. 3+n-1` adoptable,
    the array becomes the old entries, unchanged and in place, followed by `3, 4, ..., 3+n-1`; it
    grows by exactly `n`; and `3+n-1` is returned.
   */
  lemma {:induction false} ActivationAppendsInheritedRange(inp: Input, n: int)
    requires PidMatches(inp) && inp.listenFds.Some?
    requires ParseInRange(inp.listenFds.value, 1, inp.maxsocks) == Success(n)
    requires forall fd :: LISTEN_FDS_START <= fd < LISTEN_FDS_START + n ==> Adoptable(inp, fd)
    ensures SocketActivation(inp).Returned?
    ensures SocketActivation(inp).ret == LISTEN_FDS_START + n - 1
    ensures |SocketActivation(inp).socks| == |inp.socks| + n
    ensures SocketActivation(inp).socks[..|inp.socks|] == inp.socks
    ensures forall k :: |inp.socks| <= k < |inp.socks| + n ==>
      SocketActivation(inp).socks[k] == LISTEN_FDS_START + (k - |inp.socks|)
  {
    AllAdoptedOutcome(inp, n);
  }

  /**
    Every normal return is one of two things. Either no activation was present, the array is
    untouched and -1 is returned; or the pid matched, between 1 and `maxsocks` descriptors were
    appended, and the return value is the last one appended, at least 3 and so never the -1 sentinel.
   */
  lemma ReturnValueSeparatesActivation(inp: Input)
    requires SocketActivation(inp).Returned?
    ensures var r := SocketActivation(inp);
      || (inp.listenPid.None? && r.socks == inp.socks && r.ret == -1)
      || (&& PidMatches(inp)
          && LISTEN_FDS_START <= r.ret <= LISTEN_FDS_START + inp.maxsocks - 1
          && r.socks == inp.socks + Range(LISTEN_FDS_START, r.ret + 1)
          && r.ret == r.socks[|r.socks| - 1])
  {
  }

  /**
    Adoption is all or nothing: if any descriptor of the claimed range cannot be made non-blocking
    or close-on-exec, the call is fatal, naming that descriptor or a lower one; it never returns a
    partially extended array.
   */
  lemma {:induction false} RejectedDescriptorIsFatal(inp: Input, n: int, bad: int)
    requires PidMatches(inp) && inp.listenFds.Some?
    requires ParseInRange(inp.listenFds.value, 1, inp.maxsocks) == Success(n)
    requires LISTEN_FDS_START <= bad < LISTEN_FDS_START + n && !Adoptable(inp, bad)
    ensures SocketActivation(inp).Fatal?
    ensures SocketActivation(inp).reason.NonblockFailed? || SocketActivation(inp).reason.CloexecFailed?
    ensures LISTEN_FDS_START <= SocketActivation(inp).reason.fd <= bad
  {
    var r := SocketActivation(inp);
    assert AdoptionSpec(inp, n, r);
    var fd :| FirstRejected(inp, LISTEN_FDS_START, LISTEN_FDS_START + n, fd) && r == Fatal(RejectionOf(inp, fd));
  }

  /**
    The handshake is not idempotent: calling it again on the array a successful call returned
    appends the same descriptors a second time, so descriptors 3 .. 3+n-1 then occur twice.
   */
  lemma {:induction false} SecondCallDuplicates(inp: Input, n: int)
    requires PidMatches(inp) && inp.listenFds.Some?
    requires ParseInRange(inp.listenFds.value, 1, inp.maxsocks) == Success(n)
    requires forall fd :: LISTEN_FDS_START <= fd < LISTEN_FDS_START + n ==> Adoptable(inp, fd)
    ensures var fds := Range(LISTEN_FDS_START, LISTEN_FDS_START + n);
      && SocketActivation(inp) == Returned(inp.socks + fds, LISTEN_FDS_START + n - 1)
      && SocketActivation(inp.(socks := inp.socks + fds)) == Returned(inp.socks + fds + fds, LISTEN_FDS_START + n - 1)
  {
    var fds := Range(LISTEN_FDS_START, LISTEN_FDS_START + n);
    AllAdoptedOutcome(inp, n);
    var again := inp.(socks := inp.socks + fds);
    assert PidMatches(again);
    assert forall fd :: LISTEN_FDS_START <= fd < LISTEN_FDS_START + n ==> Adoptable(again, fd) by {
      forall fd | LISTEN_FDS_START <= fd < LISTEN_FDS_START + n ensures Adoptable(again, fd) {
        assert Adoptable(inp, fd);
      }
    }
    AllAdoptedOutcome(again, n);
  }

  /** With our pid, `LISTEN_FDS=3` and descriptors 3, 4 and 5 open, the array gains 3, 4, 5 and 5 is returned. */
  lemma {:induction false} ThreeInheritedSockets(inp: Input)
    requires PidMatches(inp) && inp.listenFds == Some("3") && inp.maxsocks >= 3
    requires Adoptable(inp, 3) && Adoptable(inp, 4) && Adoptable(inp, 5)
    ensures SocketActivation(inp) == Returned(inp.socks + [3, 4, 5], 5)
  {
    ListenFdsThree(inp);
    ThreeAdoptable(inp);
    AllAdoptedOutcome(inp, 3);
    RangeThree();
  }

  /** Descriptors 3, 4 and 5 usable one by one means the whole range `[3, 6)` is usable. */
  lemma ThreeAdoptable(inp: Input)
    requires Adoptable(inp, 3) && Adoptable(inp, 4) && Adoptable(inp, 5)
    ensures forall fd :: 3 <= fd < 6 ==> Adoptable(inp, fd)
  {
    forall fd | 3 <= fd < 6 ensures Adoptable(inp, fd) {
      assert fd == 3 || fd == 4 || fd == 5;
    }
  }

  /** The three descriptors a count of 3 adopts. */
  lemma RangeThree()
    ensures Range(3, 6) == [3, 4, 5]
  {
  }

  /** `LISTEN_FDS=3` is read as the count 3 whenever `maxsocks` allows three descriptors. */
  lemma ListenFdsThree(inp: Input)
    requires inp.listenFds == Some("3") && inp.maxsocks >= 3
    ensures ParseInRange(inp.listenFds.value, 1, inp.maxsocks) == Success(3)
  {
    assert Decimal(3) == "3";
    ParseInRangeDecimal(3, 1, inp.maxsocks);
  }
}
