/// The node coordination state machine of src/main.cpp, on values: the
/// globals of one node as a record, and `setup`, `OnDataRecv` and `loop` as
/// functions from the old record to the new one. The class in node.dfy is
/// proved to follow these functions; the properties of the protocol are
/// lemmas about them.
module Coordination {
  import opened BlinkRoutines
  import opened LedDriver
  import opened Peers

  /** `blinkRoutinesNumber`. */
  const RoutineCount: int := 4

  /** The fixed parameters of one node: its own address, the member list,
      `startup_delay` (grace period and failover timeout, `10000 + random(500)`
      in the firmware, a fixed value here) and the period of the "semi"
      double blink, whose class is not part of this model. */
  datatype Config = Config(mac: Mac, members: seq<Mac>, startupDelay: int, semiDuration: int)

  predicate ValidConfig(c: Config)
  {
    c.semiDuration > 0
  }

  /** `blinkRoutines` as `setup` fills it. */
  function Routines(c: Config): (rs: seq<Routine>)
    ensures |rs| == RoutineCount
    ensures ValidConfig(c) ==> forall i :: 0 <= i < |rs| ==> rs[i].duration > 0
  {
    [SingleBlinkOf(10, 300), DefaultDoubleBlink(), FadeOf(2000), DoubleBlinkSemi(c.semiDuration)]
  }

  /** The conversion of an `int` to `uint8_t`: reduction modulo 256. */
  function ToByte(x: int): (b: int)
    ensures 0 <= b < 256
    ensures 0 <= x < 256 ==> b == x
    ensures (x - b) % 256 == 0
  {
    x % 256
  }

  /** The globals of one node, with the effects of the radio and the EEPROM
      recorded as data: `eeprom` is the single stored byte, `selfRole` the
      last role passed to `esp_now_set_self_role`, `peers` the registrations
      made by the last `setupPeers`, `outbox` every packet sent, and `radioUp`
      whether `esp_now_init` succeeded. */
  datatype NodeState = NodeState(
    role: Role,
    lastMsgFromMaster: int,
    index: int,
    newModeToSave: int,
    lastTime: int,
    timerDelay: int,
    eeprom: int,
    led: LedView,
    selfRole: Role,
    peers: seq<PeerEntry>,
    outbox: seq<Packet>,
    radioUp: bool)

  /** Either the node keeps running, or it reached the read of
      `blinkRoutines[index]` with an index past the table's end, which is
      undefined behaviour in C++; `s` is then the state written before it. */
  datatype Outcome = Running(s: NodeState) | OutOfBounds(s: NodeState, index: int)

  /** The globals' initial values at power-on; `stored` is the EEPROM byte
      that survived from the previous run. */
  function PowerOn(stored: int): (s: NodeState)
    ensures s.eeprom == stored && s.newModeToSave == s.index == 1
    ensures s.role == s.selfRole == Slave && !s.radioUp
    ensures s.led.routine == None && s.peers == [] && s.outbox == []
    ensures s.lastMsgFromMaster == 0 && s.lastTime == 0 && s.timerDelay == 2000 && s.led.offset == 0
  {
    NodeState(Slave, 0, 1, 1, 0, 2000, stored, LedView(0, None), Slave, [], [], false)
  }

  /** `setupPeers(role)`. */
  function SetupPeers(c: Config, s: NodeState, role: Role): (r: NodeState)
    ensures r.(peers := s.peers) == s
    ensures |r.peers| == |Others(c.members, c.mac)|
  {
    s.(peers := Registrations(Others(c.members, c.mac), role))
  }

  /** `setup()`: read the stored mode, store its successor as the tentative
      mode for the next boot, select the stored mode's routine, and, when the
      radio comes up, register every other member as a controller. */
  function Setup(c: Config, s: NodeState, radioOk: bool): (o: Outcome)
    requires 0 <= s.eeprom < 256
    ensures o.s.index == s.eeprom && o.s.eeprom == (s.eeprom + 1) % RoutineCount
    ensures o.OutOfBounds? <==> s.eeprom >= RoutineCount
    ensures o.Running? ==> o.s.led == LedView(0, Some(Routines(c)[s.eeprom]))
    ensures o.s.role == s.role && o.s.lastMsgFromMaster == s.lastMsgFromMaster
    ensures o.s.lastTime == s.lastTime && o.s.timerDelay == s.timerDelay && o.s.outbox == s.outbox
  {
    var idx := s.eeprom;
    var next := (idx + 1) % RoutineCount;
    var s1 := s.(index := idx, newModeToSave := next, eeprom := next);
    if idx >= RoutineCount then OutOfBounds(s1, idx)
    else
      var s2 := s1.(led := WithRoutine(s1.led, Routines(c)[idx], 0).0);
      if !radioOk then Running(s2)
      else Running(SetupPeers(c, s2.(selfRole := Slave, radioUp := true), Controller))
  }

  /** The end of `OnDataRecv`: a controller that hears anyone yields. */
  function Demote(c: Config, s: NodeState): (r: NodeState)
    ensures r.role == Slave
    ensures r.index == s.index && r.led == s.led && r.eeprom == s.eeprom
    ensures s.role == Slave ==> r == s
  {
    match s.role
    case Controller => SetupPeers(c, s.(role := Slave, selfRole := Slave), Controller)
    case Slave => s
  }

  /** `OnDataRecv` for a record carrying `mode`, arriving at `arrival`. The
      comparison is between the `uint8_t` index and the `int` mode; the
      assignment narrows the mode to a byte, and the byte then indexes the
      routine table unchecked. */
  function Receive(c: Config, s: NodeState, mode: int, arrival: int): (o: Outcome)
    ensures o.s.lastMsgFromMaster == arrival
    ensures o.OutOfBounds? <==> s.index != mode && ToByte(mode) >= RoutineCount
    ensures o.Running? ==> o.s.role == Slave && o.s.led.offset == arrival
  {
    var s1 := s.(lastMsgFromMaster := arrival);
    if s1.index != mode then
      var idx := ToByte(mode);
      var s2 := s1.(index := idx, eeprom := idx);
      if idx >= RoutineCount then OutOfBounds(s2, idx)
      else Running(Demote(c, s2.(led := WithRoutine(s2.led, Routines(c)[idx], arrival).0)))
    else Running(Demote(c, s1.(led := Synchronized(s1.led, arrival))))
  }

  /** What a running node always satisfies between events. */
  predicate Inv(c: Config, s: NodeState)
  {
    && ValidConfig(c)
    && 0 <= s.index < RoutineCount
    && s.led.routine == Some(Routines(c)[s.index])
    && 0 <= s.newModeToSave < RoutineCount
    && (s.eeprom == s.index || s.eeprom == s.newModeToSave)
    && s.selfRole == s.role
  }

  /** The controller's heartbeat inside `loop`: send the mode to every other
      member, restart the timer and resynchronise to `t`; the new delay is the
      current routine's period. */
  function Broadcast(c: Config, s: NodeState, t: int): (r: NodeState)
    requires 0 <= s.index < RoutineCount
    ensures |r.outbox| == |s.outbox| + |Others(c.members, c.mac)|
    ensures r.lastTime == t && r.led == LedView(t, Some(Routines(c)[s.index]))
    ensures r.timerDelay == Routines(c)[s.index].duration
    ensures r.index == s.index && r.role == s.role && r.eeprom == s.eeprom
  {
    var (led, delay) := WithRoutine(s.led, Routines(c)[s.index], t);
    s.(outbox := s.outbox + Sends(Others(c.members, c.mac), s.index),
       lastTime := t, led := led, timerDelay := delay)
  }

  /** The first step of `loop`: a controller whose timer ran out broadcasts. */
  function Heartbeat(c: Config, s: NodeState, t: int): (r: NodeState)
    requires 0 <= s.index < RoutineCount
    ensures r.index == s.index && r.role == s.role && r.eeprom == s.eeprom
    ensures r.newModeToSave == s.newModeToSave && r.peers == s.peers
    ensures r.outbox != s.outbox ==> s.role == Controller && t - s.lastTime >= s.timerDelay
  {
    if s.role == Controller && t - s.lastTime >= s.timerDelay then Broadcast(c, s, t) else s
  }

  /** The grace-period step of `loop`: once `startup_delay` has passed, the
      running mode replaces the tentative one in the EEPROM. */
  function ConfirmMode(c: Config, s: NodeState, t: int): (r: NodeState)
    ensures r.index == s.index && r.role == s.role && r.led == s.led && r.outbox == s.outbox
    ensures c.startupDelay < t ==> r.newModeToSave == s.index
    ensures t <= c.startupDelay ==> r == s
  {
    if c.startupDelay < t && s.newModeToSave != s.index
    then s.(newModeToSave := s.index, eeprom := s.index) else s
  }

  /** The failover step of `loop`: a slave that heard nothing for longer than
      `startup_delay` takes over and registers the others as slaves. */
  function Failover(c: Config, s: NodeState, t: int): (r: NodeState)
    ensures r.role == (if s.lastMsgFromMaster + c.startupDelay < t then Controller else s.role)
    ensures r.index == s.index && r.led == s.led && r.eeprom == s.eeprom && r.outbox == s.outbox
  {
    if s.lastMsgFromMaster + c.startupDelay < t && s.role == Slave
    then SetupPeers(c, s.(role := Controller, selfRole := Controller), Slave)
    else assert s.role == Controller || t <= s.lastMsgFromMaster + c.startupDelay; s
  }

  /** `loop()` at clock reading `t`: heartbeat, LED output, grace-period
      confirmation of the mode, and failover. Answers the new state and the
      level written to the LED. */
  function Tick(c: Config, s: NodeState, t: int): (res: (NodeState, Option<int>))
    requires Inv(c, s)
    ensures res.0.index == s.index && res.0.lastMsgFromMaster == s.lastMsgFromMaster
    ensures res.1.Some? ==> res.1.value == LedMax || res.1.value == LedMin
  {
    var s1 := Heartbeat(c, s, t);
    (Failover(c, ConfirmMode(c, s1, t), t), LevelAt(s1.led, t))
  }

  // ---------------------------------------------------------------------
  // Boot-time rotation of the stored mode
  // ---------------------------------------------------------------------

  /** A boot from a valid stored mode runs that mode and leaves its successor
      in the EEPROM as the tentative mode of the next boot. */
  lemma SetupRotatesMode(c: Config, stored: int, radioOk: bool)
    requires ValidConfig(c) && 0 <= stored < RoutineCount
    ensures var o := Setup(c, PowerOn(stored), radioOk);
      && o.Running?
      && o.s.index == stored
      && o.s.newModeToSave == (stored + 1) % RoutineCount
      && o.s.eeprom == o.s.newModeToSave
      && o.s.led == LedView(0, Some(Routines(c)[stored]))
      && o.s.role == Slave && o.s.radioUp == radioOk
      && o.s.peers == (if radioOk then Registrations(Others(c.members, c.mac), Controller) else [])
      && Inv(c, o.s)
  {
  }

  /** A stored byte outside the table (an erased cell reads 255) reaches the
      unchecked table read, but the successor it stored first is a valid mode,
      so the following boot runs. */
  lemma SetupFaultsOnUnknownMode(c: Config, stored: int, radioOk: bool)
    requires ValidConfig(c) && RoutineCount <= stored < 256
    ensures var o := Setup(c, PowerOn(stored), radioOk);
      && o == OutOfBounds(o.s, stored)
      && o.s.eeprom == (stored + 1) % RoutineCount
      && Setup(c, PowerOn(o.s.eeprom), radioOk).Running?
  {
  }

  /** The rotation of modes across boots: the mode `n` steps after `m`. */
  function Rotated(m: int, n: nat): int
  {
    if n == 0 then m else (Rotated(m, n - 1) + 1) % RoutineCount
  }

  /** Whatever byte a boot reads, it stores the next one in the rotation
      before anything else can happen, so a boot cut short before its grace
      period ends advances the rotation by one step. */
  lemma SetupStoresSuccessor(c: Config, stored: int, radioOk: bool)
    requires 0 <= stored < 256
    ensures Setup(c, PowerOn(stored), radioOk).s.eeprom == Rotated(stored, 1)
  {
  }

  /** Unclean restarts step forward through the patterns: `n` steps of the
      rotation from any byte land on `(m + n) % 4`, a valid mode. */
  lemma {:induction false} BootsRotate(m: int, n: nat)
    requires n >= 1
    ensures Rotated(m, n) == (m + n) % RoutineCount
    ensures 0 <= Rotated(m, n) < RoutineCount
  {
    if n > 1 {
      BootsRotate(m, n - 1);
      SuccessorMod(Rotated(m, n - 1), m + n - 1);
    }
  }

  /** Taking the successor commutes with reduction modulo the routine count. */
  lemma SuccessorMod(p: int, a: int)
    requires p == a % RoutineCount
    ensures (p + 1) % RoutineCount == (a + 1) % RoutineCount
  {
    ModUnique(a + 1, RoutineCount, a / RoutineCount + (p + 1) / RoutineCount, (p + 1) % RoutineCount);
  }

  // ---------------------------------------------------------------------
  // Receiving a mode record
  // ---------------------------------------------------------------------

  /** The unchecked index: the handler reaches the out-of-bounds read exactly
      when the mode differs from the current index and its low byte is not a
      routine number. */
  lemma ReceiveFaultsExactly(c: Config, s: NodeState, mode: int, arrival: int)
    ensures Receive(c, s, mode, arrival).OutOfBounds?
        <==> mode != s.index && ToByte(mode) >= RoutineCount
    ensures Receive(c, s, mode, arrival).s.lastMsgFromMaster == arrival
  {
  }

  /** A new valid mode is adopted, stored, and started at the arrival
      instant; the tentative mode and the heartbeat timer are untouched. */
  lemma ReceiveAdoptsMode(c: Config, s: NodeState, mode: int, arrival: int)
    requires Inv(c, s) && 0 <= mode < RoutineCount && mode != s.index
    ensures var o := Receive(c, s, mode, arrival);
      && o.Running?
      && o.s.index == mode && o.s.eeprom == mode
      && o.s.led == LedView(arrival, Some(Routines(c)[mode]))
      && o.s.newModeToSave == s.newModeToSave
      && o.s.lastTime == s.lastTime && o.s.timerDelay == s.timerDelay
      && o.s.outbox == s.outbox
  {
  }

  /** The current mode again: nothing is stored and the routine stays; only
      the phase origin moves to the arrival instant. */
  lemma ReceiveResyncsSameMode(c: Config, s: NodeState, arrival: int)
    requires Inv(c, s)
    ensures var o := Receive(c, s, s.index, arrival);
      && o.Running?
      && o.s.index == s.index && o.s.eeprom == s.eeprom
      && o.s.newModeToSave == s.newModeToSave
      && o.s.led == LedView(arrival, s.led.routine)
      && o.s.lastTime == s.lastTime && o.s.timerDelay == s.timerDelay && o.s.outbox == s.outbox
  {
  }

  /** After any handled record the node is a slave; a controller yields and
      registers the other members as controllers, a slave keeps its peers. */
  lemma ReceiveDemotes(c: Config, s: NodeState, mode: int, arrival: int)
    requires Inv(c, s) && Receive(c, s, mode, arrival).Running?
    ensures var o := Receive(c, s, mode, arrival);
      && o.s.role == Slave && o.s.selfRole == Slave
      && o.s.peers == (if s.role == Controller
                       then Registrations(Others(c.members, c.mac), Controller)
                       else s.peers)
  {
  }

  lemma ReceivePreservesInv(c: Config, s: NodeState, mode: int, arrival: int)
    requires Inv(c, s) && Receive(c, s, mode, arrival).Running?
    ensures Inv(c, Receive(c, s, mode, arrival).s)
  {
  }

  /** Receiving the same valid record twice at the same instant is receiving
      it once. */
  lemma ReceiveIdempotent(c: Config, s: NodeState, mode: int, arrival: int)
    requires Inv(c, s) && 0 <= mode < RoutineCount
    ensures Receive(c, s, mode, arrival).Running?
    ensures var s1 := Receive(c, s, mode, arrival).s;
      Receive(c, s1, mode, arrival) == Running(s1)
  {
  }

  /** The narrowing of the received `int`: a mode that differs from a valid
      mode by a non-zero multiple of 256 passes the comparison, is truncated
      back to that mode, and acts like it except that the EEPROM is rewritten
      even when the mode is the current one. */
  lemma NarrowedModeAliases(c: Config, s: NodeState, mode: int, k: int, arrival: int)
    requires Inv(c, s) && 0 <= mode < RoutineCount && k != 0
    ensures Receive(c, s, mode + 256 * k, arrival).Running?
    ensures Receive(c, s, mode + 256 * k, arrival).s
         == Receive(c, s, mode, arrival).s.(eeprom := mode)
  {
    assert ToByte(mode + 256 * k) == mode by {
      ModUnique(mode + 256 * k, 256, k, mode);
    }
    assert mode + 256 * k != s.index by {
      if k > 0 { MulAtLeast(256, k); } else { MulAtLeast(256, -k); }
    }
  }

  // ---------------------------------------------------------------------
  // The loop: heartbeat, grace confirmation, failover
  // ---------------------------------------------------------------------

  /** A controller whose timer ran out sends its mode to every other member,
      restarts its timer at `t` with the current routine's period, and
      restarts its own waveform at phase 0. */
  lemma TickBroadcasts(c: Config, s: NodeState, t: int)
    requires Inv(c, s) && s.role == Controller && t - s.lastTime >= s.timerDelay
    ensures var (s', level) := Tick(c, s, t);
      && s'.outbox == s.outbox + Sends(Others(c.members, c.mac), s.index)
      && s'.lastTime == t
      && s'.timerDelay == Routines(c)[s.index].duration
      && s'.led == LedView(t, Some(Routines(c)[s.index]))
      && level == Render(Routines(c)[s.index], 0)
  {
  }

  /** Otherwise nothing is sent, the timer and the LED are untouched, and the
      level is the current routine's at the phase since the last sync. */
  lemma TickQuiet(c: Config, s: NodeState, t: int)
    requires Inv(c, s) && !(s.role == Controller && t - s.lastTime >= s.timerDelay)
    ensures var (s', level) := Tick(c, s, t);
      && s'.outbox == s.outbox
      && s'.lastTime == s.lastTime && s'.timerDelay == s.timerDelay
      && s'.led == s.led
      && level == Render(Routines(c)[s.index], t - s.led.offset)
  {
  }

  lemma TickPreservesInv(c: Config, s: NodeState, t: int)
    requires Inv(c, s)
    ensures Inv(c, Tick(c, s, t).0)
    ensures Tick(c, s, t).0.index == s.index
  {
  }

  /** Once the grace period is over, a tick leaves the current mode both
      confirmed and stored. */
  lemma GraceConfirms(c: Config, s: NodeState, t: int)
    requires Inv(c, s) && c.startupDelay < t
    ensures var s' := Tick(c, s, t).0;
      s'.newModeToSave == s.index && s'.eeprom == s.index
  {
  }

  /** Before the grace period ends the tentative mode stays in the EEPROM. */
  lemma NoConfirmDuringGrace(c: Config, s: NodeState, t: int)
    requires Inv(c, s) && t <= c.startupDelay
    ensures var s' := Tick(c, s, t).0;
      s'.newModeToSave == s.newModeToSave && s'.eeprom == s.eeprom
  {
  }

  /** The confirmation is written once: a later tick, with no record received
      in between, stores nothing. */
  lemma ConfirmationIsIdempotent(c: Config, s: NodeState, t1: int, t2: int)
    requires Inv(c, s) && c.startupDelay < t1
    ensures var s1 := Tick(c, s, t1).0;
      var s2 := Tick(c, s1, t2).0;
      s2.eeprom == s1.eeprom && s2.newModeToSave == s1.newModeToSave
  {
    TickPreservesInv(c, s, t1);
    GraceConfirms(c, s, t1);
  }

  /** A slave that heard nothing for longer than the delay becomes the
      controller and registers the others as slaves; a slave that heard from
      someone recently stays a slave. */
  lemma SlaveFailover(c: Config, s: NodeState, t: int)
    requires Inv(c, s) && s.role == Slave
    ensures var s' := Tick(c, s, t).0;
      if s.lastMsgFromMaster + c.startupDelay < t then
        s'.role == Controller && s'.selfRole == Controller
        && s'.peers == Registrations(Others(c.members, c.mac), Slave)
      else
        s'.role == Slave && s'.peers == s.peers
  {
  }

  /** A controller is never demoted, nor re-registered, by the loop; only a
      received record demotes it. */
  lemma ControllerStaysController(c: Config, s: NodeState, t: int)
    requires Inv(c, s) && s.role == Controller
    ensures Tick(c, s, t).0.role == Controller
    ensures Tick(c, s, t).0.peers == s.peers
  {
  }

  /** A follower that promotes itself broadcasts at its very next loop: its
      timer was last restarted no later than the last record it heard, and
      the silence that promoted it outlasts a broadcast interval. */
  lemma PromotedFollowerBroadcasts(c: Config, s: NodeState, t: int, t2: int)
    requires Inv(c, s) && s.role == Slave
    requires s.lastTime <= s.lastMsgFromMaster && s.timerDelay <= c.startupDelay
    requires s.lastMsgFromMaster + c.startupDelay < t <= t2
    ensures Tick(c, s, t).0.role == Controller
    ensures Tick(c, Tick(c, s, t).0, t2).0.outbox
         == s.outbox + Sends(Others(c.members, c.mac), s.index)
  {
    TickPreservesInv(c, s, t);
  }

  /** A node that boots and then hears nothing takes over once
      `startup_delay` has passed, and broadcasts its stored mode at its next
      loop. */
  lemma BootedNodeTakesOver(c: Config, stored: int, radioOk: bool, t: int, t2: int)
    requires ValidConfig(c) && 0 <= stored < RoutineCount
    requires 2000 <= c.startupDelay < t <= t2
    ensures var s := Setup(c, PowerOn(stored), radioOk).s;
      && Tick(c, s, t).0.role == Controller
      && Tick(c, Tick(c, s, t).0, t2).0.outbox == Sends(Others(c.members, c.mac), stored)
  {
    var s := Setup(c, PowerOn(stored), radioOk).s;
    SetupRotatesMode(c, stored, radioOk);
    PromotedFollowerBroadcasts(c, s, t, t2);
  }

  // ---------------------------------------------------------------------
  // The protocol end to end
  // ---------------------------------------------------------------------

  /** A follower that received valid mode `m` and then ticks after its grace
      period runs `m` and has `m` confirmed in its EEPROM. */
  lemma FollowerConfirmsReceivedMode(c: Config, s: NodeState, m: int, arrival: int, t: int)
    requires Inv(c, s) && 0 <= m < RoutineCount && c.startupDelay < t
    ensures Receive(c, s, m, arrival).Running?
    ensures var s2 := Tick(c, Receive(c, s, m, arrival).s, t).0;
      && s2.index == m && s2.eeprom == m && s2.newModeToSave == m
      && s2.led.routine == Some(Routines(c)[m])
  {
    if m == s.index {
      ReceiveResyncsSameMode(c, s, arrival);
    } else {
      ReceiveAdoptsMode(c, s, m, arrival);
    }
    ReceivePreservesInv(c, s, m, arrival);
    var s1 := Receive(c, s, m, arrival).s;
    GraceConfirms(c, s1, t);
    TickPreservesInv(c, s1, t);
  }

  /** Two nodes that both promoted themselves and then hear each other's
      heartbeat both yield, each adopting the other's mode (so two different
      modes swap): the protocol leaves no controller until a failover timeout
      fires again. */
  lemma RaceLeavesNoController(c1: Config, a: NodeState, c2: Config, b: NodeState, ta: int, tb: int)
    requires Inv(c1, a) && Inv(c2, b) && a.role == Controller && b.role == Controller
    ensures Receive(c1, a, b.index, ta).Running? && Receive(c2, b, a.index, tb).Running?
    ensures Receive(c1, a, b.index, ta).s.role == Slave
    ensures Receive(c2, b, a.index, tb).s.role == Slave
    ensures Receive(c1, a, b.index, ta).s.index == b.index
    ensures Receive(c2, b, a.index, tb).s.index == a.index
  {
  }

  /** Phase lock: a controller's heartbeat at `t0`, received by a follower at
      the same instant, leaves both LEDs showing the same level at every
      later reading. */
  lemma HeartbeatLocksPhase(c1: Config, cs: NodeState, c2: Config, fs: NodeState, t0: int, t: int)
    requires Inv(c1, cs) && Inv(c2, fs) && c1.semiDuration == c2.semiDuration
    requires cs.role == Controller && t0 - cs.lastTime >= cs.timerDelay
    ensures Receive(c2, fs, cs.index, t0).Running?
    ensures var ctrl := Tick(c1, cs, t0).0;
      var foll := Receive(c2, fs, cs.index, t0).s;
      && foll.index == ctrl.index
      && Renderable(ctrl.led) && Renderable(foll.led)
      && ctrl.led == foll.led
      && LevelAt(ctrl.led, t) == LevelAt(foll.led, t)
  {
    TickBroadcasts(c1, cs, t0);
    if cs.index == fs.index {
      ReceiveResyncsSameMode(c2, fs, t0);
    } else {
      ReceiveAdoptsMode(c2, fs, cs.index, t0);
    }
  }
}
