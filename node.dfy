/// The firmware's globals and entry points (src/main.cpp) as one object:
/// `setup`, `OnDataRecv` and `loop` are atomic methods that update the fields
/// in place, and each is proved to follow its function in Coordination.
module NodeRuntime {
  import opened BlinkRoutines
  import opened LedDriver
  import opened Peers
  import opened Coordination

  class Node {
    const config: Config
    const leds: Led

    var role: Role
    var lastMsgFromMaster: int
    var blinkRoutineIndex: int
    var newModeToSave: int
    var lastTime: int
    var timerDelay: int
    /** The EEPROM cell at address 0. */
    var eeprom: int
    /** Recorded effects of the radio library. */
    var selfRole: Role
    var peers: seq<PeerEntry>
    var outbox: seq<Packet>
    var radioUp: bool

    function State(): NodeState
      reads this, leds
    {
      NodeState(role, lastMsgFromMaster, blinkRoutineIndex, newModeToSave,
                lastTime, timerDelay, eeprom, leds.View(), selfRole, peers, outbox, radioUp)
    }

    /** Power-on: the globals take their initial values; the EEPROM holds
        whatever byte the previous run left in it. */
    constructor (c: Config, stored: int)
      requires 0 <= stored < 256
      ensures config == c && State() == PowerOn(stored)
      ensures fresh(leds)
    {
      config := c;
      leds := new Led();
      role := Slave;
      lastMsgFromMaster := 0;
      blinkRoutineIndex := 1;
      newModeToSave := 1;
      lastTime := 0;
      timerDelay := 2000;
      eeprom := stored;
      selfRole := Slave;
      peers := [];
      outbox := [];
      radioUp := false;
    }

    /** `save_mode_to_eeprom(mode)`: the `uint8_t` parameter narrows the
        value, which then replaces the cell's byte. */
    method SaveModeToEeprom(mode: int)
      modifies this`eeprom
      ensures State() == old(State()).(eeprom := ToByte(mode))
    {
      eeprom := ToByte(mode);
    }

    /** `get_mode_from_eeprom()`: the stored byte. */
    method GetModeFromEeprom() returns (mode: int)
      requires 0 <= eeprom < 256
      ensures 0 <= mode < 256 && mode == eeprom
    {
      mode := eeprom;
    }

    /** `setupPeers(r)`: every member is deleted and every member other than
        this node is added again with role `r`, in list order. */
    method SetupPeers(r: Role)
      modifies this`peers
      ensures State() == Coordination.SetupPeers(config, old(State()), r)
    {
      var members := config.members;
      var entries: seq<PeerEntry> := [];
      for i := 0 to |members|
        invariant entries == Registrations(Others(members[..i], config.mac), r)
      {
        OthersStep(members, config.mac, i);
        if members[i] != config.mac {
          RegistrationsSnoc(Others(members[..i], config.mac), members[i], r);
          entries := entries + [PeerEntry(members[i], r)];
        } else {
          assert Others(members[..i], config.mac) + [] == Others(members[..i], config.mac);
        }
      }
      assert members[..|members|] == members;
      peers := entries;
    }

    /** `sendUpdateToPeers()`: the current index goes to every member other
        than this node, in list order. */
    method SendUpdateToPeers()
      modifies this`outbox
      ensures State() == old(State()).(outbox := old(outbox) + Sends(Others(config.members, config.mac), blinkRoutineIndex))
    {
      var members, mode := config.members, blinkRoutineIndex;
      var packets: seq<Packet> := [];
      for i := 0 to |members|
        invariant packets == Sends(Others(members[..i], config.mac), mode)
        invariant outbox == old(outbox) + packets
      {
        OthersStep(members, config.mac, i);
        if members[i] != config.mac {
          SendsSnoc(Others(members[..i], config.mac), members[i], mode);
          packets := packets + [Packet(members[i], mode)];
          outbox := outbox + [Packet(members[i], mode)];
        } else {
          assert Others(members[..i], config.mac) + [] == Others(members[..i], config.mac);
        }
      }
      assert members[..|members|] == members;
    }

    /** `setup()`. Answers false when the stored mode indexes past the
        routine table; the state is then the one written before that read. */
    method Setup(radioOk: bool) returns (ok: bool)
      requires 0 <= eeprom < 256
      modifies this, leds
      ensures var o := Coordination.Setup(config, old(State()), radioOk);
        ok == o.Running? && State() == o.s
    {
      var stored := GetModeFromEeprom();
      blinkRoutineIndex := stored;
      newModeToSave := (blinkRoutineIndex + 1) % RoutineCount;
      SaveModeToEeprom(newModeToSave);
      var routines := Routines(config);
      if blinkRoutineIndex >= |routines| {
        return false;
      }
      var _ := leds.SetRoutine(routines[blinkRoutineIndex], 0);
      if !radioOk {
        return true;
      }
      selfRole := Slave;
      radioUp := true;
      SetupPeers(Controller);
      return true;
    }

    /** `OnDataRecv` for a record carrying `mode`, arriving at `arrival`.
        Answers false when the narrowed mode indexes past the routine table;
        the state is then the one written before that read. */
    method OnDataRecv(mode: int, arrival: int) returns (ok: bool)
      modifies this, leds
      ensures var o := Receive(config, old(State()), mode, arrival);
        ok == o.Running? && State() == o.s
    {
      lastMsgFromMaster := arrival;
      if blinkRoutineIndex != mode {
        blinkRoutineIndex := ToByte(mode);
        SaveModeToEeprom(blinkRoutineIndex);
        var routines := Routines(config);
        if blinkRoutineIndex >= |routines| {
          return false;
        }
        var _ := leds.SetRoutine(routines[blinkRoutineIndex], lastMsgFromMaster);
      } else {
        leds.Synchronize(lastMsgFromMaster);
      }
      if role == Controller {
        role := Slave;
        selfRole := Slave;
        SetupPeers(Controller);
      }
      return true;
    }

    /** The heartbeat step of `loop()`: a controller whose timer ran out
        broadcasts its index, restarts the timer and resynchronises. */
    method Heartbeat(t: int)
      requires 0 <= blinkRoutineIndex < RoutineCount
      modifies this, leds
      ensures State() == Coordination.Heartbeat(config, old(State()), t)
    {
      if role == Controller && t - lastTime >= timerDelay {
        var routines := Routines(config);
        SendUpdateToPeers();
        lastTime := t;
        timerDelay := leds.SetRoutine(routines[blinkRoutineIndex], t);
      }
    }

    /** The grace-period step of `loop()`: confirm the running mode. */
    method ConfirmMode(t: int)
      requires 0 <= blinkRoutineIndex < 256
      modifies this
      ensures State() == Coordination.ConfirmMode(config, old(State()), t)
    {
      if config.startupDelay < t && newModeToSave != blinkRoutineIndex {
        newModeToSave := blinkRoutineIndex;
        SaveModeToEeprom(blinkRoutineIndex);
      }
    }

    /** The failover step of `loop()`: a slave that heard nothing for too
        long takes over. */
    method Failover(t: int)
      modifies this
      ensures State() == Coordination.Failover(config, old(State()), t)
    {
      if lastMsgFromMaster + config.startupDelay < t && role == Slave {
        role := Controller;
        selfRole := Controller;
        SetupPeers(Slave);
      }
    }

    /** `loop()` at clock reading `t`; answers the level written to the LED. */
    method Loop(t: int) returns (level: Option<int>)
      requires Inv(config, State())
      modifies this, leds
      ensures (State(), level) == Tick(config, old(State()), t)
      ensures Inv(config, State())
    {
      ghost var s0 := State();
      Heartbeat(t);
      ghost var s1 := State();
      level := leds.Loop(t);
      ConfirmMode(t);
      Failover(t);
      TickPreservesInv(config, s0, t);
    }
  }
}
