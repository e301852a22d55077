/**
  The handshake written the way the C function is: early exits for the validation steps and a
  `while` loop that grows the caller's array one descriptor at a time.
 */
module PlatformListenLoop {
  import opened StrToNum
  import opened PlatformListen

  /** `platform_socket_activation` as a loop; it agrees with the reference definition on every input. */
  method SocketActivationLoop(inp: Input) returns (r: Outcome)
    ensures ActivationSpec(inp, r)
    ensures r == SocketActivation(inp)
  {
    if inp.listenPid.None? {
      return Returned(inp.socks, -1);
    }
    var pidParse := ParseInRange(inp.listenPid.value, 1, INT_MAX);
    if pidParse.Failure? {
      return Fatal(BadListenPid(pidParse.error));
    }
    var pid := pidParse.value;
    if pid != inp.myPid {
      return Fatal(PidMismatch(pid, inp.myPid));
    }
    if inp.listenFds.None? {
      return Fatal(MissingListenFds);
    }
    var fdsParse := ParseInRange(inp.listenFds.value, 1, inp.maxsocks);
    if fdsParse.Failure? {
      return Fatal(BadListenFds(fdsParse.error));
    }
    var nfds := fdsParse.value;

    var socks := inp.socks;
    var maxfd := -1;
    var i := 0;
    while i < nfds
      invariant 0 <= i <= nfds
      invariant socks == inp.socks + Range(LISTEN_FDS_START, LISTEN_FDS_START + i)
      invariant maxfd == if i == 0 then -1 else LISTEN_FDS_START + i - 1
      invariant forall fd :: LISTEN_FDS_START <= fd < LISTEN_FDS_START + i ==> Adoptable(inp, fd)
    {
      var fd := LISTEN_FDS_START + i;
      if !inp.nonblockOk(fd) {
        r := Fatal(NonblockFailed(fd));
        assert FirstRejected(inp, LISTEN_FDS_START, LISTEN_FDS_START + nfds, fd) && r == Fatal(RejectionOf(inp, fd));
        SocketActivationIsSpec(inp, r);
        return;
      }
      if !inp.cloexecOk(fd) {
        r := Fatal(CloexecFailed(fd));
        assert FirstRejected(inp, LISTEN_FDS_START, LISTEN_FDS_START + nfds, fd) && r == Fatal(RejectionOf(inp, fd));
        SocketActivationIsSpec(inp, r);
        return;
      }
      RangeExtend(LISTEN_FDS_START, fd);
      socks := socks + [fd];
      maxfd := fd;
      i := i + 1;
    }
    r := Returned(socks, maxfd);
    SocketActivationIsSpec(inp, r);
  }
}
