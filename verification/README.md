# Socket activation handshake of `platform_socket_activation`

This project models the socket-activation handshake in OpenSSH portable's `platform-listen.c`. The
model covers the build with `USE_SYSTEMD_SOCKET_ACTIVATION`. A supervisor such as systemd binds the
listening sockets itself and starts the daemon. It puts the sockets at descriptors 3, 4, ..., and
it sets two environment variables:

- `LISTEN_PID` is the pid it activated.
- `LISTEN_FDS` is how many descriptors it passed.

`platform_socket_activation(&socks, &num_socks, maxsocks)` does the following:

1. If `LISTEN_PID` is unset, it returns -1 and does nothing else.
2. It requires `LISTEN_PID` to be an int in `[1, INT_MAX]` that equals the process's own pid.
3. It requires `LISTEN_FDS` to be present and to be an int in `[1, maxsocks]`.
4. For each descriptor `3 .. 3+nfds-1` in turn, it sets non-blocking mode and close-on-exec, then
   appends the descriptor to the caller's array.
5. It returns the highest descriptor appended.

Any violation calls `fatal_f`, which ends the process. Growing the array uses `xrecallocarray`, which
also ends the process if the allocation fails; the model assumes every allocation succeeds.

Layout:

- `wrappers.dfy` (`Wrappers`) holds `Option` and `Result`.
- `strtonum.dfy` (`StrToNum`) holds `ParseInRange`, a range-checked decimal conversion. It
  approximates `strtonum` and gives the same three verdicts: invalid, too small, too large. It also
  has `Decimal` (writing an int) and the round-trip lemma between the two.
- `platform_listen.dfy` (`PlatformListen`) holds the following:
  - `Input`, an immutable record of the inputs the model makes explicit: the two environment
    values, `getpid()`, `maxsocks`, one predicate per descriptor setter, and the caller's array.
    Memory allocation is not an input; it is assumed to succeed.
  - `Outcome`, the two ways the call can end: `Returned(socks, ret)` for a normal return, or
    `Fatal(reason)` for `fatal_f`.
  - `AdoptFrom`, the recursive adoption loop, and `SocketActivation`, the handshake itself.
  - `ActivationSpec`, a declarative reference definition. Its validation half follows the same
    decision tree as `SocketActivation`, check for check. Only its adoption half, `AdoptionSpec`, is
    stated independently of the code: it gives the outcome directly, using "the first descriptor that
    cannot be adopted" instead of the loop.
  - Proofs that the reference definition fixes one outcome per input and that `SocketActivation`
    is that outcome.
- `platform_listen_loop.dfy` (`PlatformListenLoop`) is the handshake written as the C code is, with
  early exits and a `while` loop over the appended suffix. It is proved equal to the reference
  definition and to the functional model.
- `platform_listen_properties.dfy` (`PlatformListenProperties`) has one lemma per promise the
  handshake makes to its caller.

"No activation" is `Returned(socks, -1)` with the caller's array unchanged. The count `*num_socksp`
is the length of the array.

## Model

| member | source | states |
|---|---|---|
| StrToNum.ParseInRange | platform-listen.c:117-118 | A value is returned only if it lies in `[lo, hi]` and is what the string denotes. An empty range and a malformed string give "invalid". A value below the range gives "too small" and one above gives "too large". |
| StrToNum.ParseInRangeDecimal | platform-listen.c:126-127 | Round trip: the decimal form of `n` is read back as exactly `n` when `lo <= n <= hi`. Otherwise it is rejected with the verdict for the side it falls out on. |
| PlatformListen.AdoptFrom | platform-listen.c:130-143 | Starting at iteration `i`, the loop does one of two things. If every remaining descriptor can be adopted, it appends them all in ascending order and leaves the maximum at `3+nfds-1`. Otherwise it dies naming the lowest descriptor that fails, with the non-blocking failure reported before the close-on-exec one. |
| PlatformListen.SocketActivation | platform-listen.c:106-145 | The handshake's outcome satisfies the reference definition for every input. |
| PlatformListen.SpecIsDeterministic | platform-listen.c:106-145 | The reference definition allows at most one outcome per input, so the first failing descriptor is unique. |
| PlatformListen.SocketActivationIsSpec | platform-listen.c:106-145 | An outcome satisfies the reference definition if and only if it is the functional model's result. |
| PlatformListenLoop.SocketActivationLoop | platform-listen.c:106-145 | The version with early exits and a `while` loop satisfies the reference definition and equals the functional model on every input. |
| PlatformListenProperties.NoListenPidIsNoActivation | platform-listen.c:113-114 | With `LISTEN_PID` unset, the call returns -1 and the caller's array and count are unchanged, whatever else the input holds. |
| PlatformListenProperties.BadListenPidIsFatal | platform-listen.c:117-119 | A `LISTEN_PID` that is not an int in `[1, INT_MAX]` is fatal and carries strtonum's verdict. Nothing is appended. |
| PlatformListenProperties.NonPositiveListenPidIsFatal | platform-listen.c:117-119 | When `LISTEN_PID` is the decimal form of a pid of 0 or below, it is rejected as too small and the call is fatal. Other spellings are covered by `BadListenPidIsFatal`. |
| PlatformListenProperties.PidMismatchIsFatalBeforeDescriptors | platform-listen.c:120-121 | A well-formed pid other than our own is fatal. The outcome does not depend on `LISTEN_FDS`, `maxsocks`, the descriptor setters or the array, so no descriptor is examined. |
| PlatformListenProperties.MissingListenFdsIsFatal | platform-listen.c:124-125 | A matching `LISTEN_PID` without `LISTEN_FDS` is fatal. |
| PlatformListenProperties.BadListenFdsIsFatal | platform-listen.c:126-128 | A `LISTEN_FDS` that does not parse into `[1, maxsocks]` is fatal and carries strtonum's verdict. Nothing is appended. |
| PlatformListenProperties.ListenFdsOutOfRangeIsFatal | platform-listen.c:126-128 | When `LISTEN_FDS` is the decimal form of a count, a count below 1 is too small and a count above `maxsocks` is too large. Every count is invalid when `maxsocks < 1`. All of these are fatal. Other spellings are covered by `BadListenFdsIsFatal`. |
| PlatformListenProperties.ZeroListenFdsIsFatal | platform-listen.c:126-128 | `LISTEN_FDS=0` is fatal. |
| PlatformListenProperties.ActivationAppendsInheritedRange | platform-listen.c:130-143 | Suppose the pid matches, `LISTEN_FDS` is any string read as a count `n` in `[1, maxsocks]` (`"3"`, `" 3"` and `"+03"` alike) and every descriptor can be adopted. Then the old entries stay in place as a prefix, `3 .. 3+n-1` follow in order, the count grows by exactly `n`, and `3+n-1` is returned. |
| PlatformListenProperties.ReturnValueSeparatesActivation | platform-listen.c:111-145 | A normal return is one of two cases. Either `LISTEN_PID` was unset, the array is unchanged and -1 is returned. Or the pid matched, the array is the old one followed by `3 .. ret`, and `ret` is the last element, with `3 <= ret <= 3+maxsocks-1`, so it is never -1. |
| PlatformListenProperties.RejectedDescriptorIsFatal | platform-listen.c:133-138 | If any descriptor in the claimed range fails either setter, the call is fatal at that descriptor or a lower one. A partially grown array is never returned. |
| PlatformListenProperties.SecondCallDuplicates | platform-listen.c:139-141 | Not idempotent: when a call adopts `3 .. 3+n-1` for any `LISTEN_FDS` string read as `n`, a second call on the returned array appends the same range again, giving the old entries followed by `3 .. 3+n-1` twice. |
| PlatformListenProperties.ThreeInheritedSockets | platform-listen.c:130-145 | With our own pid, `LISTEN_FDS=3` and descriptors 3, 4 and 5 usable, the array gains `[3, 4, 5]` and 5 is returned. |

## Left out

- The lifecycle hooks at platform-listen.c:33-104 are not modelled: `platform_pre_listen`, `platform_post_listen`, `platform_pre_fork`, `platform_pre_restart`, `platform_post_fork_parent`, `platform_post_fork_child` and `platform_pre_session_start`. Each one only forwards to an OS or supervisor facility (OOM adjustment, memlock, systemd notification, Solaris contracts) and has no logic of its own.
- The build without socket activation (platform-listen.c:146-147) always returns -1. That is the same as the no-activation outcome, `Returned(socks, -1)`, and it is not modelled separately.
- `getenv`, `getpid`, `set_nonblock` (OpenSSH's own helper in misc.c, built on `fcntl(F_GETFL)` and `fcntl(F_SETFL)`) and `fcntl(F_SETFD, FD_CLOEXEC)` are foreign calls. They become fields of `Input`: the two optional strings, `myPid`, and the predicates `nonblockOk` and `cloexecOk`. Their effect on the descriptor flags is not modelled.
- PlatformListen.AdoptFrom: `xrecallocarray` (platform-listen.c:139) is OpenSSH's allocator that calls `fatal` when the allocation fails. The model has no such outcome: it assumes every allocation succeeds, so `AdoptFrom`, `SocketActivation`, the loop version and the success lemmas (`ActivationAppendsInheritedRange`, `SecondCallDuplicates`, `ThreeInheritedSockets`) promise a normal return where the C code could still die of memory exhaustion. The reallocation and zeroing are not modelled either: the caller's array is a `seq<int>`, and growing it is sequence append.
- The `debug_f` logging and the exact text of each `fatal_f` message are not modelled. A fatal exit is the single `Fatal` outcome, tagged with a reason.
- StrToNum.ParseInRange: the implementation of `strtonum` is not part of this model. This function is an approximation. It uses the base-10 `strtoll` grammar in the "C" locale: leading white space, an optional sign, one or more digits, and nothing after them. It uses strtonum's order of verdicts. Integers are unbounded, so a `long long` overflow gives the same "too small" or "too large" verdict as the range check. `SocketActivation`, `ActivationSpec` and the loop version call this concrete function, so the model's outcomes follow its grammar. The general property lemmas use only the guarantees in its contract. Four lemmas about particular strings also rely on `StrToNum.LexDecimal`, through `StrToNum.ParseInRangeDecimal`: that strtoll reads the canonical decimal form of `n` back as `n`. They are `NonPositiveListenPidIsFatal`, `ListenFdsOutOfRangeIsFatal`, `ZeroListenFdsIsFatal` and `ThreeInheritedSockets`.
- PlatformListen.AdoptFrom: `3 + i` is computed with unbounded integers. In C it could overflow only when more than `INT_MAX - 2` descriptors are claimed, and descriptors that high cannot be open, so `set_nonblock` would fail first.
- PlatformListen.AdoptFrom: the count `*num_socksp + 1` is computed with unbounded integers. In C the count overflows once the caller's existing entries plus the adopted ones reach `INT_MAX`, whatever `nfds` is. The model's array simply keeps growing, and it promises nothing about that case.
- Concurrency is not modelled. The handshake runs once, single-threaded, at startup.
