/**
 * The relay daemon's health-check endpoint: choosing the health socket
 * path, creating the run directories it lives in, recognising the quit
 * pipe, and building the reply that tells a client which subsystems are
 * in error.
 *
 * System calls (`mkdir`, `chown`, `chmod`, `getuid`, `getpid`), the
 * environment lookup and the socket transfer are inputs: each operation
 * takes what the system answered and returns what the daemon does with it.
 */
module HealthRelayd {
  import opened FixedWidth
  import Decimal

  datatype Option<T> = None | Some(value: T)

  /** `LPOLLIN`, the readable-event flag (`POLLIN`/`EPOLLIN`, bit 0). */
  const LPOLLIN: bv32 := 1

  const EPERM: int := 1
  const EEXIST: int := 17

  /** `PATH_MAX`: size of the static socket-path buffer, terminator included. */
  const PATH_MAX: nat := 4096

  /** `S_IRUSR|S_IWUSR|S_IXUSR|S_IRGRP|S_IXGRP|S_IROTH|S_IXOTH`, i.e. 0755. */
  const RUNDIR_MODE: nat := 0x1ED

  /* -------------------------------------------------------- quit pipe */

  /** `check_health_quit_pipe`: 1 when the event is a readable quit pipe. */
  function CheckHealthQuitPipe(fd: int, events: bv32, quitFd: int): (r: int)
    ensures r == 0 || r == 1
    ensures r == 1 <==> fd == quitFd && events % 2 == 1
  {
    if fd == quitFd && events & LPOLLIN != 0 then 1 else 0
  }

  /** Only the readable flag matters: other event bits never change the answer. */
  lemma QuitPipeIgnoresOtherEvents(fd: int, events: bv32, other: bv32, quitFd: int)
    requires other & LPOLLIN == 0
    ensures CheckHealthQuitPipe(fd, events | other, quitFd) == CheckHealthQuitPipe(fd, events, quitFd)
  {
  }

  /* -------------------------------------------------------- reply send */

  datatype SendOutcome = SendOutcome(ret: int, transmitted: bool)

  /** `send_unix_sock`: an empty buffer is refused without touching the
      socket; otherwise the transfer's result (`sendRet`) is returned. */
  function SendUnixSock(len: nat, sendRet: int): (o: SendOutcome)
    ensures o.transmitted <==> len > 0
    ensures len == 0 ==> o.ret == -1
    ensures len > 0 ==> o.ret == sendRet
  {
    if len == 0 then SendOutcome(-1, false) else SendOutcome(sendRet, true)
  }

  /** `sizeof(struct health_comm_reply)`: a single `uint64_t ret_code`. */
  const HEALTH_REPLY_SIZE: nat := 8

  /** The health reply always passes the length guard: what the client gets
      is whatever the socket transfer returns. */
  lemma HealthReplyPassesGuard(sendRet: int)
    ensures SendUnixSock(HEALTH_REPLY_SIZE, sendRet) == SendOutcome(sendRet, true)
  {
  }

  /* ---------------------------------------------------- run directories */

  /** What `mkdir` answered: the directory was made, or it failed with `errno`. */
  datatype MkdirAnswer = Made | MkdirFailed(errno: int)

  /** The system's answers for one directory. */
  datatype DirAnswers = DirAnswers(mkdir: MkdirAnswer, chown: int, chmod: int)

  /** A permission change the daemon performs on a run directory. */
  datatype PermAction = Chown(path: string, uid: nat, gid: nat) | Chmod(path: string, mode: nat)

  datatype DirOutcome = DirOutcome(ret: int, actions: seq<PermAction>)

  /** The tracing group's id, or root's group when the lookup fails. */
  function GroupOrRoot(group: Option<nat>): nat {
    if group.Some? then group.value else 0
  }

  /**
   * `create_lttng_rundir_with_perm`. An existing directory counts as
   * success and is left alone; only a directory this call created is
   * handed to root and the tracing group and opened to 0755, and only
   * when running as root.
   */
  function CreateRundirWithPerm(path: string, isRoot: bool, group: Option<nat>, a: DirAnswers): (o: DirOutcome)
    ensures o.ret == 0 || o.ret == -1
    ensures a.mkdir == MkdirFailed(EEXIST) ==> o == DirOutcome(0, [])
    ensures a.mkdir.MkdirFailed? && a.mkdir.errno != EEXIST ==> o == DirOutcome(-1, [])
    ensures a.mkdir.Made? && !isRoot ==> o == DirOutcome(0, [])
    ensures |o.actions| > 0 <==> a.mkdir.Made? && isRoot
    ensures o.ret == 0 <==> a.mkdir == MkdirFailed(EEXIST)
                            || (a.mkdir.Made? && (!isRoot || (a.chown >= 0 && a.chmod >= 0)))
  {
    match a.mkdir
    case MkdirFailed(errno) =>
      if errno != EEXIST then DirOutcome(-1, []) else DirOutcome(0, [])
    case Made =>
      if !isRoot then DirOutcome(0, [])
      else
        var chown := Chown(path, 0, GroupOrRoot(group));
        if a.chown < 0 then DirOutcome(-1, [chown])
        else if a.chmod < 0 then DirOutcome(-1, [chown, Chmod(path, RUNDIR_MODE)])
        else DirOutcome(0, [chown, Chmod(path, RUNDIR_MODE)])
  }

  /** Owner, group and mode of a directory. */
  datatype Perms = Perms(uid: nat, gid: nat, mode: nat)

  /** The effect of a sequence of successful permission changes on `path`. */
  function ApplyPerms(path: string, p: Perms, actions: seq<PermAction>): Perms
    decreases |actions|
  {
    if |actions| == 0 then p
    else
      var q := match actions[0]
        case Chown(path', uid, gid) => if path' == path then Perms(uid, gid, p.mode) else p
        case Chmod(path', mode) => if path' == path then Perms(p.uid, p.gid, mode) else p;
      ApplyPerms(path, q, actions[1..])
  }

  /** A run directory root created successfully ends up owned by root and
      the tracing group (root's group when there is none), with mode 0755. */
  lemma RootRundirPerms(path: string, group: Option<nat>, a: DirAnswers, created: Perms)
    requires a.mkdir.Made?
    requires CreateRundirWithPerm(path, true, group, a).ret == 0
    ensures ApplyPerms(path, created, CreateRundirWithPerm(path, true, group, a).actions)
            == Perms(0, if group.Some? then group.value else 0, RUNDIR_MODE)
  {
    var acts := CreateRundirWithPerm(path, true, group, a).actions;
    var chown, chmod := Chown(path, 0, GroupOrRoot(group)), Chmod(path, RUNDIR_MODE);
    assert acts == [chown, chmod];
    var owned := Perms(0, GroupOrRoot(group), created.mode);
    assert acts[1..] == [chmod] && acts[1..][1..] == [];
    assert ApplyPerms(path, owned, [chmod]) == Perms(0, GroupOrRoot(group), RUNDIR_MODE);
  }

  /** Whatever the answers, the directory's permissions are touched only if
      this call created it as root: an existing directory keeps its own. */
  lemma ExistingRundirUntouched(path: string, isRoot: bool, group: Option<nat>, a: DirAnswers, p: Perms)
    requires a.mkdir.MkdirFailed?
    ensures ApplyPerms(path, p, CreateRundirWithPerm(path, isRoot, group, a).actions) == p
  {
  }

  /* ------------------------------------------------- health socket path */

  /**
   * The compile-time defaults the path formats are built from:
   * `DEFAULT_LTTNG_RUNDIR`, the `$HOME` run-dir suffix of
   * `DEFAULT_LTTNG_HOME_RUNDIR`, the relay sub-directory of
   * `DEFAULT_RELAYD_PATH`, and the socket stem before the pid in the two
   * `*_RELAY_HEALTH_UNIX_SOCK` formats.
   */
  datatype PathDefaults = PathDefaults(globalRundir: string, homeRundirSuffix: string,
                                       relaydSuffix: string, healthSockStem: string)

  /** What `strncpy` into a `PATH_MAX` buffer followed by terminating its last
      byte, or `snprintf` into it, keeps of a string without NUL bytes. */
  function Truncate(s: string): (t: string)
    ensures |t| <= PATH_MAX - 1
    ensures t <= s
    ensures |s| <= PATH_MAX - 1 ==> t == s
  {
    if |s| <= PATH_MAX - 1 then s else s[..PATH_MAX - 1]
  }

  /** `parse_health_env`: the environment override, if set, truncated into
      the (initially empty) path buffer. */
  function ParseHealthEnv(env: Option<string>): (path: string)
    ensures env.None? ==> path == ""
    ensures env.Some? ==> path <= env.value && |path| == Min(|env.value|, PATH_MAX - 1)
  {
    if env.Some? then Truncate(env.value) else ""
  }

  function Min(a: int, b: int): int {
    if a <= b then a else b
  }

  function RunDir(d: PathDefaults, isRoot: bool, home: string): string {
    if isRoot then d.globalRundir else home + d.homeRundirSuffix
  }

  function RelaydDir(d: PathDefaults, isRoot: bool, home: string): string {
    RunDir(d, isRoot, home) + d.relaydSuffix
  }

  /** The default socket path: `DEFAULT_GLOBAL_RELAY_HEALTH_UNIX_SOCK` for
      root, `DEFAULT_HOME_RELAY_HEALTH_UNIX_SOCK` with the home directory
      otherwise, each with the pid. */
  function DefaultHealthSock(d: PathDefaults, isRoot: bool, home: string, pid: nat): string {
    RelaydDir(d, isRoot, home) + d.healthSockStem + Decimal.Format(pid)
  }

  /** The home directory the paths are built from: none is needed for root. */
  function HomeOf(a: SetupAnswers): string {
    if !a.isRoot && a.home.Some? then a.home.value else ""
  }

  /** Everything the system answers during `setup_health_path`. */
  datatype SetupAnswers = SetupAnswers(env: Option<string>, isRoot: bool, home: Option<string>,
                                       pid: nat, group: Option<nat>,
                                       rundir: DirAnswers, relaydDir: DirAnswers)

  datatype SetupOutcome = SetupOutcome(ret: int, path: string, attempted: seq<string>,
                                       actions: seq<PermAction>)

  /**
   * `setup_health_path`: the environment override wins; otherwise, once
   * the run directory and its relay sub-directory exist, the default path
   * for root or for the user's home is chosen. A non-root user without a
   * home directory is refused with `-EPERM` before anything is created.
   * (`EPERM` is 1, so that code is the same -1 a failed directory
   * creation returns.)
   */
  function SetupHealthPath(d: PathDefaults, a: SetupAnswers): (o: SetupOutcome)
    ensures o.ret == 0 || o.ret == -1
    ensures !a.isRoot && a.home.None? ==> o.ret == -EPERM
    ensures o.attempted == [] <==> !a.isRoot && a.home.None?
    ensures o.attempted == [] ==> o.actions == []
    ensures o.ret != 0 ==> o.path == ParseHealthEnv(a.env)
    ensures o.ret == 0 && ParseHealthEnv(a.env) != "" ==> o.path == ParseHealthEnv(a.env)
    ensures o.ret == 0 && ParseHealthEnv(a.env) == "" ==>
              o.path == Truncate(DefaultHealthSock(d, a.isRoot, HomeOf(a), a.pid))
    ensures o.ret == 0 ==> o.attempted == [RunDir(d, a.isRoot, HomeOf(a)), RelaydDir(d, a.isRoot, HomeOf(a))]
    ensures a.isRoot || a.home.Some? ==>
              var first := CreateRundirWithPerm(RunDir(d, a.isRoot, HomeOf(a)), a.isRoot, a.group, a.rundir);
              var second := CreateRundirWithPerm(RelaydDir(d, a.isRoot, HomeOf(a)), a.isRoot, a.group, a.relaydDir);
              && (o.ret == 0 <==> first.ret == 0 && second.ret == 0)
              && o.attempted == (if first.ret == 0 then [RunDir(d, a.isRoot, HomeOf(a)), RelaydDir(d, a.isRoot, HomeOf(a))]
                                 else [RunDir(d, a.isRoot, HomeOf(a))])
              && o.actions == first.actions + (if first.ret == 0 then second.actions else [])
    ensures |o.attempted| <= 2
  {
    var envPath := ParseHealthEnv(a.env);
    if !a.isRoot && a.home.None? then SetupOutcome(-EPERM, envPath, [], [])
    else
      var home := HomeOf(a);
      var rundir := RunDir(d, a.isRoot, home);
      var relaydDir := RelaydDir(d, a.isRoot, home);
      var first := CreateRundirWithPerm(rundir, a.isRoot, a.group, a.rundir);
      if first.ret < 0 then SetupOutcome(first.ret, envPath, [rundir], first.actions)
      else
        var second := CreateRundirWithPerm(relaydDir, a.isRoot, a.group, a.relaydDir);
        var actions := first.actions + second.actions;
        if second.ret < 0 then SetupOutcome(second.ret, envPath, [rundir, relaydDir], actions)
        else if envPath != "" then SetupOutcome(0, envPath, [rundir, relaydDir], actions)
        else SetupOutcome(0, Truncate(DefaultHealthSock(d, a.isRoot, home, a.pid)), [rundir, relaydDir], actions)
  }

  /** Without an override, the default socket lies in the relay directory
      the setup created, and two daemons with different pids get different
      sockets as long as the paths fit the buffer. */
  lemma DefaultSockPerProcess(d: PathDefaults, a: SetupAnswers, b: SetupAnswers)
    requires a == b.(pid := a.pid)
    requires a.env.None?
    requires SetupHealthPath(d, a).ret == 0 && SetupHealthPath(d, b).ret == 0
    requires |SetupHealthPath(d, a).path| < PATH_MAX - 1 && |SetupHealthPath(d, b).path| < PATH_MAX - 1
    requires a.pid != b.pid
    ensures SetupHealthPath(d, a).path != SetupHealthPath(d, b).path
    ensures SetupHealthPath(d, a).attempted[1] <= SetupHealthPath(d, a).path
  {
    var home := HomeOf(a);
    var prefix := RelaydDir(d, a.isRoot, home) + d.healthSockStem;
    var pa, pb := DefaultHealthSock(d, a.isRoot, home, a.pid), DefaultHealthSock(d, a.isRoot, home, b.pid);
    assert SetupHealthPath(d, a).path == pa;
    assert SetupHealthPath(d, b).path == pb;
    if pa == pb {
      assert Decimal.Format(a.pid) == pa[|prefix|..];
      assert Decimal.Format(b.pid) == pb[|prefix|..];
      Decimal.FormatInjective(a.pid, b.pid);
    }
    assert pa == RelaydDir(d, a.isRoot, home) + (d.healthSockStem + Decimal.Format(a.pid));
  }

  /** An override is kept verbatim (up to the buffer size) whatever the
      daemon's identity, and the pid plays no part in it. */
  lemma EnvOverrideWins(d: PathDefaults, a: SetupAnswers, b: SetupAnswers)
    requires a.env.Some? && a.env.value != ""
    requires b == a.(pid := b.pid, isRoot := b.isRoot)
    requires SetupHealthPath(d, a).ret == 0 && SetupHealthPath(d, b).ret == 0
    ensures SetupHealthPath(d, a).path == SetupHealthPath(d, b).path == Truncate(a.env.value)
  {
  }

  /* ----------------------------------------------------- health reply */

  /** Bit `i` of a 64-bit reply code. */
  predicate Bit(mask: bv64, i: nat)
    requires i < 64
  {
    (mask >> (i as bv7)) & 1 == 1
  }

  /** `1ULL << i`. */
  function Flag(i: nat): bv64
    requires i < 64
  {
    1 << (i as bv7)
  }

  lemma BitOfZero(i: nat)
    requires i < 64
    ensures !Bit(0, i)
  {
  }

  lemma ShiftIndexRoundTrip(i: nat)
    requires i < 64
    ensures (i as bv7) as int == i
  {
  }

  lemma BitOfFlagBv(mask: bv64, i: bv7, j: bv7)
    requires i < 64 && j < 64
    ensures ((mask | (1 << i)) >> j) & 1 == 1 <==> ((mask >> j) & 1 == 1) || i == j
  {
  }

  /** Setting bit `i` sets exactly that bit. */
  lemma BitOfSetBit(mask: bv64, i: nat, j: nat)
    requires i < 64 && j < 64
    ensures Bit(mask | Flag(i), j) <==> Bit(mask, j) || i == j
  {
    BitOfFlagBv(mask, i as bv7, j as bv7);
    ShiftIndexRoundTrip(i);
    ShiftIndexRoundTrip(j);
  }

  /** The reply code defined by induction on the subsystems: subsystem `i`
      contributes `1ULL << i` exactly when `health_check_state` reports it
      in error (returns false). */
  function MaskOf(states: seq<bool>): bv64
    requires |states| <= 64
    decreases |states|
  {
    if |states| == 0 then 0
    else
      var rest := MaskOf(states[..|states| - 1]);
      if states[|states| - 1] then rest else rest | Flag(|states| - 1)
  }

  /** The reply code built by `thread_manage_health`: one bit per subsystem
      in error, every other bit clear. */
  method ReplyMask(states: seq<bool>) returns (mask: bv64)
    requires |states| <= 64
    ensures mask == MaskOf(states)
    ensures forall j :: 0 <= j < 64 ==> (Bit(mask, j) <==> j < |states| && !states[j])
  {
    mask := 0;
    var i := 0;
    while i < |states|
      invariant 0 <= i <= |states|
      invariant mask == MaskOf(states[..i])
    {
      assert states[..i + 1][..i] == states[..i];
      if !states[i] {
        mask := mask | Flag(i);
      }
      i := i + 1;
    }
    assert states[..i] == states;
    forall j | 0 <= j < 64
      ensures Bit(mask, j) <==> j < |states| && !states[j]
    {
      MaskOfBits(states, j);
    }
  }

  /** The inductive definition agrees bit for bit with the reply's meaning. */
  lemma {:induction false} MaskOfBits(states: seq<bool>, j: nat)
    requires |states| <= 64 && j < 64
    ensures Bit(MaskOf(states), j) <==> j < |states| && !states[j]
    decreases |states|
  {
    if |states| == 0 {
      BitOfZero(j);
    } else {
      var n := |states| - 1;
      var init := states[..n];
      MaskOfBits(init, j);
      assert j < n ==> init[j] == states[j];
      if !states[n] {
        BitOfSetBit(MaskOf(init), n, j);
      } else {
        assert MaskOf(states) == MaskOf(init);
      }
    }
  }

  /** What one accepted client connection leads to: the reply code, the
      result of sending it, and whether the socket was closed. */
  datatype ClientOutcome = ClientOutcome(reply: Option<bv64>, sent: Option<int>, closed: bool)

  /**
   * One client of the health thread: nothing received means the socket is
   * closed without a reply and the loop goes on; otherwise the reply code
   * is sent and the socket closed. A failed send is only logged.
   */
  method HandleClient(recvRet: int, states: seq<bool>, sendRet: int) returns (o: ClientOutcome)
    requires |states| <= 64
    ensures o.closed
    ensures recvRet <= 0 <==> o.reply.None?
    ensures o.reply.Some? ==> forall j :: 0 <= j < 64 ==>
              (Bit(o.reply.value, j) <==> j < |states| && !states[j])
    ensures o.sent.Some? <==> o.reply.Some?
    ensures o.sent.Some? ==> o.sent.value == sendRet
  {
    if recvRet <= 0 {
      return ClientOutcome(None, None, true);
    }
    var mask := ReplyMask(states);
    var sent := SendUnixSock(HEALTH_REPLY_SIZE, sendRet);
    o := ClientOutcome(Some(mask), Some(sent.ret), true);
  }
}
