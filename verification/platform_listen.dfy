/**
  The socket-activation handshake of `platform_socket_activation` (platform-listen.c), in the build
  with systemd socket activation enabled.

  The supervisor passes `$LISTEN_PID` (the pid it activated) and `$LISTEN_FDS` (how many consecutive
  descriptors it placed from descriptor 3 on). The handshake validates both, checks the pid against
  the process's own, and adopts descriptors 3 .. 3+n-1 into the caller's socket array. The call either
  returns (with the caller's array and an int) or terminates the process through `fatal_f`.

  What the C code reads from the operating system is an explicit input: the two environment values,
  the process's pid, and whether the non-blocking and close-on-exec setters succeed on a given
  descriptor. Memory allocation is assumed to succeed: the fatal exit of `xrecallocarray` when it
  fails is not modelled.
 */
module PlatformListen {
  import opened Wrappers
  import opened StrToNum

  const INT_MIN: int := -0x8000_0000
  const INT_MAX: int := 0x7fff_ffff

  /** A value of C type `int` (32 bits on every platform the daemon runs on). */
  type CInt = x: int | INT_MIN <= x <= INT_MAX

  /** The first inherited descriptor: 0, 1 and 2 are standard input, output and error. */
  const LISTEN_FDS_START: int := 3

  /** What the handshake observes when it runs. */
  datatype Input = Input(
    listenPid: Option<string>,   // getenv("LISTEN_PID")
    listenFds: Option<string>,   // getenv("LISTEN_FDS")
    myPid: CInt,                 // getpid()
    maxsocks: CInt,              // the caller's bound on how many descriptors to adopt
    nonblockOk: int -> bool,     // set_nonblock(fd) == 0
    cloexecOk: int -> bool,      // fcntl(fd, F_SETFD, FD_CLOEXEC) != -1
    socks: seq<int>)             // *socksp[0 .. *num_socksp - 1] on entry

  /** Why the process was terminated; the diagnostic's wording is not modelled. */
  datatype FatalReason =
    | BadListenPid(err: NumError)
    | PidMismatch(pid: int, myPid: int)
    | MissingListenFds
    | BadListenFds(err: NumError)
    | NonblockFailed(fd: int)
    | CloexecFailed(fd: int)

  /**
    The two exits of the C function that the model keeps; an allocation failure is not one. `Returned`
    is a normal return: the caller's array afterwards (its length is `*num_socksp`) and the return
    value, -1 when no activation was found. `Fatal` is a call to `fatal_f`, which does not return.
   */
  datatype Outcome =
    | Returned(socks: seq<int>, ret: int)
    | Fatal(reason: FatalReason)

  /** The consecutive descriptors `lo, lo+1, ..., hi-1` (empty when `hi <= lo`). */
  function Range(lo: int, hi: int): (r: seq<int>)
    ensures |r| == if lo <= hi then hi - lo else 0
    ensures forall k :: 0 <= k < |r| ==> r[k] == lo + k
    decreases hi - lo
  {
    if lo >= hi then [] else [lo] + Range(lo + 1, hi)
  }

  /** Growing a range by its next descriptor appends that descriptor. */
  lemma RangeExtend(lo: int, hi: int)
    requires lo <= hi
    ensures Range(lo, hi + 1) == Range(lo, hi) + [hi]
  {
  }

  /** Descriptor `fd` can be adopted: both setters succeed on it. */
  predicate Adoptable(inp: Input, fd: int) {
    inp.nonblockOk(fd) && inp.cloexecOk(fd)
  }

  /** The fatal reason for a descriptor that cannot be adopted; the non-blocking setter runs first. */
  function RejectionOf(inp: Input, fd: int): FatalReason {
    if !inp.nonblockOk(fd) then NonblockFailed(fd) else CloexecFailed(fd)
  }

  /** `fd` is the lowest descriptor in `[lo, hi)` that cannot be adopted. */
  ghost predicate FirstRejected(inp: Input, lo: int, hi: int, fd: int) {
    && lo <= fd < hi
    && !Adoptable(inp, fd)
    && forall g :: lo <= g < fd ==> Adoptable(inp, g)
  }

  /**
    The adoption loop (iterations `i .. nfds-1`), entered with the array `socks` and the running
    maximum `maxfd`. It either adopts every remaining descriptor, appending them in ascending order
    and leaving `maxfd` at the last one, or stops fatally at the first descriptor it cannot adopt.
   */
  function AdoptFrom(inp: Input, socks: seq<int>, i: nat, nfds: nat, maxfd: int): (r: Outcome)
    requires i <= nfds
    ensures (forall fd :: LISTEN_FDS_START + i <= fd < LISTEN_FDS_START + nfds ==> Adoptable(inp, fd)) ==>
      r == Returned(socks + Range(LISTEN_FDS_START + i, LISTEN_FDS_START + nfds),
                    if i == nfds then maxfd else LISTEN_FDS_START + nfds - 1)
    ensures !(forall fd :: LISTEN_FDS_START + i <= fd < LISTEN_FDS_START + nfds ==> Adoptable(inp, fd)) ==>
      exists fd :: FirstRejected(inp, LISTEN_FDS_START + i, LISTEN_FDS_START + nfds, fd) && r == Fatal(RejectionOf(inp, fd))
    decreases nfds - i
  {
    var lo, hi := LISTEN_FDS_START + i, LISTEN_FDS_START + nfds;
    if i == nfds then
      assert socks + Range(lo, hi) == socks;
      Returned(socks, maxfd)
    else
      var fd := lo;
      if !inp.nonblockOk(fd) then
        assert FirstRejected(inp, lo, hi, fd) && RejectionOf(inp, fd) == NonblockFailed(fd);
        Fatal(NonblockFailed(fd))
      else if !inp.cloexecOk(fd) then
        assert FirstRejected(inp, lo, hi, fd) && RejectionOf(inp, fd) == CloexecFailed(fd);
        Fatal(CloexecFailed(fd))
      else
        var r := AdoptFrom(inp, socks + [fd], i + 1, nfds, fd);
        assert socks + [fd] + Range(fd + 1, hi) == socks + Range(fd, hi);
        assert forall g :: FirstRejected(inp, lo + 1, hi, g) ==> FirstRejected(inp, lo, hi, g);
        r
  }

  /**
    The reference definition of the handshake, stated outcome by outcome without the loop: which
    input yields which exit, what the caller's array becomes, and which descriptor a fatal adoption
    failure names.
   */
  ghost predicate ActivationSpec(inp: Input, r: Outcome) {
    match inp.listenPid
    case None => r == Returned(inp.socks, -1)
    case Some(pidStr) =>
      match ParseInRange(pidStr, 1, INT_MAX)
      case Failure(e) => r == Fatal(BadListenPid(e))
      case Success(pid) =>
        if pid != inp.myPid then r == Fatal(PidMismatch(pid, inp.myPid))
        else match inp.listenFds
          case None => r == Fatal(MissingListenFds)
          case Some(fdsStr) =>
            match ParseInRange(fdsStr, 1, inp.maxsocks)
            case Failure(e) => r == Fatal(BadListenFds(e))
            case Success(n) => AdoptionSpec(inp, n, r)
  }

  /**
    The adoption phase for a validated count `n`: all of descriptors `3 .. 3+n-1` are appended in
    ascending order after the caller's entries and the last one is returned, or the process dies
    naming the lowest descriptor that could not be adopted, and nothing is returned.
   */
  ghost predicate AdoptionSpec(inp: Input, n: int, r: Outcome) {
    var hi := LISTEN_FDS_START + n;
    if forall fd :: LISTEN_FDS_START <= fd < hi ==> Adoptable(inp, fd) then
      r == Returned(inp.socks + Range(LISTEN_FDS_START, hi), hi - 1)
    else
      exists fd :: FirstRejected(inp, LISTEN_FDS_START, hi, fd) && r == Fatal(RejectionOf(inp, fd))
  }

  /**
    `platform_socket_activation`: validate `$LISTEN_PID` (an int in `[1, INT_MAX]` equal to our pid)
    and `$LISTEN_FDS` (an int in `[1, maxsocks]`), then adopt descriptors `3 .. 3+nfds-1`.
   */
  function SocketActivation(inp: Input): (r: Outcome)
    ensures ActivationSpec(inp, r)
  {
    match inp.listenPid
    case None => Returned(inp.socks, -1)
    case Some(pidStr) =>
      match ParseInRange(pidStr, 1, INT_MAX)
      case Failure(e) => Fatal(BadListenPid(e))
      case Success(pid) =>
        if pid != inp.myPid then Fatal(PidMismatch(pid, inp.myPid))
        else match inp.listenFds
          case None => Fatal(MissingListenFds)
          case Some(fdsStr) =>
            match ParseInRange(fdsStr, 1, inp.maxsocks)
            case Failure(e) => Fatal(BadListenFds(e))
            case Success(nfds) => AdoptFrom(inp, inp.socks, 0, nfds, -1)
  }

  /** At most one descriptor of a range is the first one that cannot be adopted. */
  lemma FirstRejectedIsUnique(inp: Input, lo: int, hi: int, f1: int, f2: int)
    requires FirstRejected(inp, lo, hi, f1) && FirstRejected(inp, lo, hi, f2)
    ensures f1 == f2
  {
  }

  /** The reference definition admits exactly one outcome for every input. */
  lemma SpecIsDeterministic(inp: Input, r1: Outcome, r2: Outcome)
    requires ActivationSpec(inp, r1) && ActivationSpec(inp, r2)
    ensures r1 == r2
  {
    if inp.listenPid.Some? && ParseInRange(inp.listenPid.value, 1, INT_MAX).Success?
      && ParseInRange(inp.listenPid.value, 1, INT_MAX).value == inp.myPid
      && inp.listenFds.Some? && ParseInRange(inp.listenFds.value, 1, inp.maxsocks).Success?
    {
      var n := ParseInRange(inp.listenFds.value, 1, inp.maxsocks).value;
      var hi := LISTEN_FDS_START + n;
      assert AdoptionSpec(inp, n, r1) && AdoptionSpec(inp, n, r2);
      if !(forall fd :: LISTEN_FDS_START <= fd < hi ==> Adoptable(inp, fd)) {
        var f1 :| FirstRejected(inp, LISTEN_FDS_START, hi, f1) && r1 == Fatal(RejectionOf(inp, f1));
        var f2 :| FirstRejected(inp, LISTEN_FDS_START, hi, f2) && r2 == Fatal(RejectionOf(inp, f2));
        FirstRejectedIsUnique(inp, LISTEN_FDS_START, hi, f1, f2);
      }
    }
  }

  /** The functional model is the unique outcome the reference definition allows. */
  lemma SocketActivationIsSpec(inp: Input, r: Outcome)
    ensures ActivationSpec(inp, r) <==> r == SocketActivation(inp)
  {
    if ActivationSpec(inp, r) {
      SpecIsDeterministic(inp, r, SocketActivation(inp));
    }
  }
}
