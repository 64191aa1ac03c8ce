/** test-pmd/testpmd.c: the port commands and the packet-forwarding switch. Device calls are inputs: what the
    driver answers to each call is part of the command. The device behind a port is modelled beside what testpmd notes
    about it, and only driver calls change it. Bonding slave flags do not change. */
module Ports {
  import opened Types

  datatype Status = Stopped | Started | Closed | Handling

  /** The device: configured, with all its queues set up, and running. */
  datatype Device = Device(configured: bool, queues: bool, running: bool)

  const UNUSED := Device(false, false, false)

  datatype Port = Port(enabled: bool, slave: bool, dcb: bool, status: Status, reconfig: bool, reconfigQueues: bool,
                       dev: Device)

  /** RTE_PORT_ALL or one port id. */
  datatype Target = All | One(id: nat)

  /** The outcome of setting up one queue; a receive queue may also find no memory pool on its socket. */
  datatype QueueSetup = QueueOk | QueueFailed | NoPool

  datatype Driver = Driver(configured: bool, tx: seq<QueueSetup>, rx: seq<QueueSetup>, started: bool)

  datatype State = State(ports: seq<Port>, testDone: bool, dcbTest: bool, dcbConfig: bool,
                         fwdIds: seq<nat>, nbFwdPorts: int, nbFwdLcores: nat)

  datatype Command =
    | StartPort(target: Target, streamsOk: bool, drivers: seq<Driver>)
    | StopPort(target: Target)
    | ClosePort(target: Target)
    | AttachPort(attached: Option<nat>)
    | DetachPort(id: nat, detached: bool)
    | StartForwarding
    | StopForwarding

  // ----- one port

  predicate Matches(target: Target, i: nat) {
    target == All || target == One(i)
  }

  predicate InvalidTarget(ports: seq<Port>, target: Target) {
    target.One? && !(target.id < |ports| && ports[target.id].enabled)
  }

  /** The first setup that did not succeed, if any. */
  function FirstBad(qs: seq<QueueSetup>): QueueSetup {
    if qs == [] then QueueOk else if qs[0] != QueueOk then qs[0] else FirstBad(qs[1..])
  }

  predicate AllOk(qs: seq<QueueSetup>) {
    forall q :: 0 <= q < |qs| ==> qs[q] == QueueOk
  }

  lemma {:induction false} FirstBadIff(qs: seq<QueueSetup>)
    ensures FirstBad(qs) == QueueOk <==> AllOk(qs)
  {
    if qs != [] && qs[0] == QueueOk {
      FirstBadIff(qs[1..]);
      assert qs == [qs[0]] + qs[1..];
    }
  }

  // ----- what driver calls do to the device

  function DevConfigured(dev: Device, ok: bool): Device {
    dev.(configured := ok)
  }

  function DevQueuesSet(dev: Device, d: Driver): Device {
    dev.(queues := AllOk(d.tx) && AllOk(d.rx))
  }

  function DevLaunched(dev: Device, ok: bool): Device {
    dev.(running := ok)
  }

  function DevHalted(dev: Device): Device {
    dev.(running := false)
  }

  // ----- what the commands do to one port

  /** The last step of start_port. */
  function Launch(p: Port, d: Driver): Port {
    p.(status := if d.started then Started else Stopped, dev := DevLaunched(p.dev, d.started))
  }

  /** What start_port does to one enabled port that it is asked to start: the port, and whether it goes on. */
  function StartOne(p: Port, d: Driver): (Port, bool) {
    if p.status != Stopped then (p, true)
    else if p.reconfig && !d.configured then (p.(dev := DevConfigured(p.dev, false)), false)
    else
      var q := if p.reconfig then p.(reconfig := false, dev := DevConfigured(p.dev, true)) else p;
      if !q.reconfigQueues then (Launch(q, d), true)
      else
        var r := q.(dev := DevQueuesSet(q.dev, d));
        if FirstBad(d.tx) != QueueOk then (r, false)
        else if FirstBad(d.rx) == NoPool then (r.(status := Handling, reconfigQueues := false), false)
        else if FirstBad(d.rx) != QueueOk then (r, false)
        else (Launch(r.(reconfigQueues := false), d), true)
  }

  function StopOne(p: Port): Port {
    if p.status == Started then p.(status := Stopped, dev := DevHalted(p.dev)) else p
  }

  function CloseOne(p: Port): Port {
    if p.status == Stopped then p.(status := Closed, dev := UNUSED) else p
  }

  // ----- the loops over the ports

  function StartFrom(ports: seq<Port>, i: nat, target: Target, drivers: seq<Driver>): (r: (seq<Port>, bool))
    requires i <= |ports| == |drivers|
    ensures |r.0| == |ports|
    decreases |ports| - i
  {
    if i == |ports| then (ports, true)
    else if !ports[i].enabled || !Matches(target, i) then StartFrom(ports, i + 1, target, drivers)
    else
      var (p, goOn) := StartOne(ports[i], drivers[i]);
      if goOn then StartFrom(ports[i := p], i + 1, target, drivers) else (ports[i := p], false)
  }

  function StopAll(ports: seq<Port>, target: Target): (r: seq<Port>)
    ensures |r| == |ports|
    ensures forall i :: 0 <= i < |ports| ==>
              r[i] == if ports[i].enabled && Matches(target, i) then StopOne(ports[i]) else ports[i]
  {
    seq(|ports|, i requires 0 <= i < |ports| =>
      if ports[i].enabled && Matches(target, i) then StopOne(ports[i]) else ports[i])
  }

  function CloseAll(ports: seq<Port>, target: Target): (r: seq<Port>)
    ensures |r| == |ports|
    ensures forall i :: 0 <= i < |ports| ==>
              r[i] == if ports[i].enabled && Matches(target, i) then CloseOne(ports[i]) else ports[i]
  {
    seq(|ports|, i requires 0 <= i < |ports| =>
      if ports[i].enabled && Matches(target, i) then CloseOne(ports[i]) else ports[i])
  }

  predicate AllStarted(ports: seq<Port>) {
    forall i :: 0 <= i < |ports| && ports[i].enabled && !ports[i].slave ==> ports[i].status == Started
  }

  /** The ids of the enabled ports from i on, in order. */
  function EnabledFrom(ports: seq<Port>, i: nat): seq<nat>
    requires i <= |ports|
    decreases |ports| - i
  {
    if i == |ports| then []
    else if ports[i].enabled then [i] + EnabledFrom(ports, i + 1)
    else EnabledFrom(ports, i + 1)
  }

  /** fwd_ports_ids after it is rebuilt: the enabled ports, the rest of the table zero. */
  function ForwardIds(ports: seq<Port>): seq<nat> {
    var ids := EnabledFrom(ports, 0);
    ids + seq(if |ids| <= |ports| then |ports| - |ids| else 0, _ => 0)
  }

  /** In DCB mode every forwarding port must be in it and one core is not enough. */
  predicate DcbRefuses(s: State) {
    s.dcbTest && (s.nbFwdLcores == 1 ||
      exists k :: 0 <= k < s.nbFwdPorts && k < |s.fwdIds| && s.fwdIds[k] < |s.ports| && !s.ports[s.fwdIds[k]].dcb)
  }

  // ----- the commands

  /** What a command needs of its environment: an answer per port, and a fresh port id from the device layer. */
  predicate Applicable(s: State, c: Command) {
    match c
    case StartPort(_, _, drivers) => |drivers| == |s.ports|
    case AttachPort(Some(i)) => i < |s.ports| && !s.ports[i].enabled
    case _ => true
  }

  function Exec(s: State, c: Command): State
    requires Applicable(s, c)
  {
    match c
    case StartPort(target, streamsOk, drivers) =>
      if !s.testDone || InvalidTarget(s.ports, target) || !streamsOk then s
      else s.(dcbTest := s.dcbTest || s.dcbConfig, ports := StartFrom(s.ports, 0, target, drivers).0)
    case StopPort(target) =>
      if !s.testDone then s
      else
        var t := if s.dcbTest then s.(dcbTest := false, dcbConfig := false) else s;
        if InvalidTarget(s.ports, target) then t else t.(ports := StopAll(s.ports, target))
    case ClosePort(target) =>
      if !s.testDone || InvalidTarget(s.ports, target) then s else s.(ports := CloseAll(s.ports, target))
    case AttachPort(attached) =>
      if !s.testDone || attached.None? then s
      else
        var i := attached.value;
        var flagged := s.ports[i].(reconfig := true, reconfigQueues := true);
        var ports := s.ports[i := flagged.(enabled := true, status := Stopped, dev := UNUSED)];
        s.(ports := ports, fwdIds := ForwardIds(ports), nbFwdPorts := s.nbFwdPorts + 1)
    case DetachPort(i, detached) =>
      if InvalidTarget(s.ports, One(i)) || s.ports[i].status != Closed || !detached then s
      else
        var ports := s.ports[i := s.ports[i].(enabled := false)];
        s.(ports := ports, fwdIds := ForwardIds(ports), nbFwdPorts := s.nbFwdPorts - 1)
    case StartForwarding =>
      if !AllStarted(s.ports) || !s.testDone || DcbRefuses(s) then s else s.(testDone := false)
    case StopForwarding =>
      if !AllStarted(s.ports) || s.testDone then s else s.(testDone := true)
  }

  // ----- safety

  predicate NoneHandling(ports: seq<Port>) {
    forall i :: 0 <= i < |ports| ==> ports[i].status != Handling
  }

  /** While packets are forwarded every port that takes part is started. */
  predicate ForwardingOk(s: State) {
    !s.testDone ==> AllStarted(s.ports)
  }

  /** Starting this port runs into a receive queue without a memory pool. */
  predicate HitsMissingPool(p: Port, d: Driver) {
    && p.status == Stopped && (p.reconfig ==> d.configured)
    && p.reconfigQueues && FirstBad(d.tx) == QueueOk && FirstBad(d.rx) == NoPool
  }

  /** start_port reaches port k: no earlier port it was asked to start made it return. */
  predicate Reaches(ports: seq<Port>, i: nat, target: Target, drivers: seq<Driver>, k: nat)
    requires |ports| == |drivers|
  {
    && i <= k < |ports| && ports[k].enabled && Matches(target, k)
    && forall j :: i <= j < k && ports[j].enabled && Matches(target, j) ==> StartOne(ports[j], drivers[j]).1
  }

  /** The one branch that leaves a port HANDLING between commands. */
  predicate MissingPool(s: State, c: Command)
    requires Applicable(s, c)
  {
    && c.StartPort? && s.testDone && !InvalidTarget(s.ports, c.target) && c.streamsOk
    && exists k :: 0 <= k < |s.ports| && Reaches(s.ports, 0, c.target, c.drivers, k)
               && HitsMissingPool(s.ports[k], c.drivers[k])
  }

  lemma {:induction false} StartFromHandling(ports: seq<Port>, i: nat, target: Target, drivers: seq<Driver>)
    requires i <= |ports| == |drivers| && NoneHandling(ports)
    ensures NoneHandling(StartFrom(ports, i, target, drivers).0) <==>
            !(exists k :: 0 <= k < |ports| && Reaches(ports, i, target, drivers, k)
                && HitsMissingPool(ports[k], drivers[k]))
    decreases |ports| - i
  {
    if i < |ports| {
      if !ports[i].enabled || !Matches(target, i) {
        StartFromHandling(ports, i + 1, target, drivers);
        assert forall k :: 0 <= k < |ports| ==>
          (Reaches(ports, i, target, drivers, k) <==> Reaches(ports, i + 1, target, drivers, k));
      } else {
        var (p, goOn) := StartOne(ports[i], drivers[i]);
        var ports' := ports[i := p];
        assert p.status == Handling <==> HitsMissingPool(ports[i], drivers[i]);
        assert Reaches(ports, i, target, drivers, i);
        if goOn {
          StartFromHandling(ports', i + 1, target, drivers);
          assert forall k :: i < k < |ports| ==>
            (Reaches(ports, i, target, drivers, k) <==> Reaches(ports', i + 1, target, drivers, k));
        } else {
          assert forall k :: i < k < |ports| ==> !Reaches(ports, i, target, drivers, k);
          assert ports'[i].status == p.status;
        }
      }
    }
  }

  /** A command leaves a port HANDLING exactly when it takes the missing-pool branch. */
  lemma HandlingIffMissingPool(s: State, c: Command)
    requires Applicable(s, c) && NoneHandling(s.ports)
    ensures NoneHandling(Exec(s, c).ports) <==> !MissingPool(s, c)
  {
    if c.StartPort? && s.testDone && !InvalidTarget(s.ports, c.target) && c.streamsOk {
      StartFromHandling(s.ports, 0, c.target, c.drivers);
    }
  }

  /** What testpmd notes about a port agrees with the device: started means running; a port that is up or stopped and
      not marked for set-up has its device configured and its queues set up. */
  predicate Agrees(p: Port) {
    && (p.dev.running <==> p.status == Started)
    && (p.status == Stopped || p.status == Started ==>
          (p.reconfig || p.dev.configured) && (p.reconfigQueues || p.dev.queues))
  }

  predicate AllAgree(ports: seq<Port>) {
    forall i :: 0 <= i < |ports| && ports[i].enabled ==> Agrees(ports[i])
  }

  lemma StartOneAgrees(p: Port, d: Driver)
    requires Agrees(p)
    ensures Agrees(StartOne(p, d).0)
  {
    FirstBadIff(d.tx);
    FirstBadIff(d.rx);
  }

  lemma {:induction false} StartFromAgrees(ports: seq<Port>, i: nat, target: Target, drivers: seq<Driver>)
    requires i <= |ports| == |drivers| && AllAgree(ports)
    ensures AllAgree(StartFrom(ports, i, target, drivers).0)
    decreases |ports| - i
  {
    if i < |ports| {
      if !ports[i].enabled || !Matches(target, i) {
        StartFromAgrees(ports, i + 1, target, drivers);
      } else {
        var (p, goOn) := StartOne(ports[i], drivers[i]);
        StartOneAgrees(ports[i], drivers[i]);
        if goOn {
          StartFromAgrees(ports[i := p], i + 1, target, drivers);
        }
      }
    }
  }

  lemma ExecAgrees(s: State, c: Command)
    requires Applicable(s, c) && AllAgree(s.ports)
    ensures AllAgree(Exec(s, c).ports)
  {
    if c.StartPort? && s.testDone && !InvalidTarget(s.ports, c.target) && c.streamsOk {
      StartFromAgrees(s.ports, 0, c.target, c.drivers);
    }
  }

  lemma ExecKeepsForwarding(s: State, c: Command)
    requires Applicable(s, c) && ForwardingOk(s)
    ensures ForwardingOk(Exec(s, c)) && |Exec(s, c).ports| == |s.ports|
  {
  }

  /** A run of commands, each applicable when it is given. */
  ghost predicate IsRun(run: seq<State>, cmds: seq<Command>) {
    && |run| == |cmds| + 1
    && forall k :: 0 <= k < |cmds| ==> Applicable(run[k], cmds[k]) && run[k + 1] == Exec(run[k], cmds[k])
  }

  /** Over every run from a state with forwarding off: while forwarding is on, every enabled port that is not a
      slave is started; and no port is HANDLING between commands as long as no command met a missing pool. */
  lemma {:induction false} RunSafe(run: seq<State>, cmds: seq<Command>, k: nat)
    requires IsRun(run, cmds) && k < |run| && run[0].testDone && NoneHandling(run[0].ports)
    ensures ForwardingOk(run[k])
    ensures (forall j :: 0 <= j < k ==> !MissingPool(run[j], cmds[j])) ==> NoneHandling(run[k].ports)
  {
    if k > 0 {
      RunSafe(run, cmds, k - 1);
      ExecKeepsForwarding(run[k - 1], cmds[k - 1]);
      if forall j :: 0 <= j < k ==> !MissingPool(run[j], cmds[j]) {
        HandlingIffMissingPool(run[k - 1], cmds[k - 1]);
      }
    }
  }

  /** Over every run the notes agree with the devices; so while packets are forwarded, the device of every enabled port
      that is not a slave is running. */
  lemma {:induction false} DevicesAgree(run: seq<State>, cmds: seq<Command>, k: nat)
    requires IsRun(run, cmds) && k < |run| && run[0].testDone && NoneHandling(run[0].ports) && AllAgree(run[0].ports)
    ensures AllAgree(run[k].ports)
    ensures !run[k].testDone ==>
              forall i :: 0 <= i < |run[k].ports| && run[k].ports[i].enabled && !run[k].ports[i].slave ==>
                run[k].ports[i].dev.running
  {
    RunSafe(run, cmds, k);
    if k > 0 {
      DevicesAgree(run, cmds, k - 1);
      ExecAgrees(run[k - 1], cmds[k - 1]);
    }
  }

  /** Stopping is never refused while forwarding is on, and nothing but stopping turns it off. */
  lemma StopNeverRefused(run: seq<State>, cmds: seq<Command>, k: nat)
    requires IsRun(run, cmds) && k < |cmds| && run[0].testDone && NoneHandling(run[0].ports) && !run[k].testDone
    ensures run[k + 1].testDone <==> cmds[k] == StopForwarding
  {
    RunSafe(run, cmds, k);
  }

  /** While forwarding is on no port changes its status, and the only port that can go is a closed slave. */
  lemma PortsFrozenWhileForwarding(s: State, c: Command, i: nat)
    requires Applicable(s, c) && ForwardingOk(s) && !s.testDone && i < |s.ports|
    ensures var t := Exec(s, c);
            && t.ports[i].status == s.ports[i].status
            && (t.ports[i].enabled != s.ports[i].enabled ==>
                  c.DetachPort? && c.id == i && s.ports[i].status == Closed && s.ports[i].slave)
  {
  }

  /** A port goes exactly when it is closed and the device layer detaches it on request; one appears exactly when the
      device layer attaches it while forwarding is off, and is stopped and marked for set-up. */
  lemma EnabledChanges(s: State, c: Command, i: nat)
    requires Applicable(s, c) && i < |s.ports|
    ensures var p, q := s.ports[i], Exec(s, c).ports[i];
            && (p.enabled && !q.enabled <==> p.enabled && c == DetachPort(i, true) && p.status == Closed)
            && (!p.enabled && q.enabled <==> c == AttachPort(Some(i)) && s.testDone)
            && (!p.enabled && q.enabled ==> q.status == Stopped && q.reconfig && q.reconfigQueues)
  {
    if c.StartPort? && s.testDone && !InvalidTarget(s.ports, c.target) && c.streamsOk {
      StartFromKeeps(s.ports, 0, c.target, c.drivers, i);
    }
  }

  lemma {:induction false} StartFromKeeps(ports: seq<Port>, i: nat, target: Target, drivers: seq<Driver>, k: nat)
    requires i <= |ports| == |drivers| && k < |ports|
    ensures var q := StartFrom(ports, i, target, drivers).0[k];
            && q.enabled == ports[k].enabled && q.slave == ports[k].slave && q.dcb == ports[k].dcb
            && (k < i || !ports[k].enabled || !Matches(target, k) || ports[k].status != Stopped ==> q == ports[k])
    decreases |ports| - i
  {
    if i < |ports| {
      if !ports[i].enabled || !Matches(target, i) {
        StartFromKeeps(ports, i + 1, target, drivers, k);
      } else {
        var (p, goOn) := StartOne(ports[i], drivers[i]);
        if goOn {
          StartFromKeeps(ports[i := p], i + 1, target, drivers, k);
        }
      }
    }
  }

  /** The driver sets the port up as far as it is marked for it. */
  predicate SetUp(p: Port, d: Driver) {
    (p.reconfig ==> d.configured) && (p.reconfigQueues ==> AllOk(d.tx) && AllOk(d.rx))
  }

  /** start_port was asked to start port k, and gets to it: it returns early at an earlier port that it was asked to
      start, that is stopped and that cannot be set up. */
  predicate Addressed(s: State, c: Command, k: nat)
    requires Applicable(s, c) && k < |s.ports|
  {
    && c.StartPort? && s.testDone && c.streamsOk && s.ports[k].enabled && (c.target == All || c.target == One(k))
    && forall j :: 0 <= j < k && s.ports[j].enabled && c.target == All && s.ports[j].status == Stopped ==>
         SetUp(s.ports[j], c.drivers[j])
  }

  lemma GoesOnIff(p: Port, d: Driver)
    ensures StartOne(p, d).1 <==> p.status != Stopped || SetUp(p, d)
    ensures StartOne(p, d).0.status == Started <==>
              p.status == Started || (p.status == Stopped && SetUp(p, d) && d.started)
  {
    FirstBadIff(d.tx);
    FirstBadIff(d.rx);
  }

  lemma {:induction false} StartFromReaches(ports: seq<Port>, i: nat, target: Target, drivers: seq<Driver>, k: nat)
    requires i <= |ports| == |drivers| && k < |ports|
    ensures StartFrom(ports, i, target, drivers).0[k]
         == if Reaches(ports, i, target, drivers, k) then StartOne(ports[k], drivers[k]).0 else ports[k]
    decreases |ports| - i
  {
    if i < |ports| {
      if !ports[i].enabled || !Matches(target, i) {
        StartFromReaches(ports, i + 1, target, drivers, k);
      } else {
        var (p, goOn) := StartOne(ports[i], drivers[i]);
        if goOn {
          StartFromReaches(ports[i := p], i + 1, target, drivers, k);
        }
      }
    }
  }

  lemma AddressedIsReached(s: State, c: Command, k: nat)
    requires Applicable(s, c) && k < |s.ports| && c.StartPort?
    ensures Addressed(s, c, k) <==> s.testDone && c.streamsOk && !InvalidTarget(s.ports, c.target)
                                    && Reaches(s.ports, 0, c.target, c.drivers, k)
  {
    forall j | 0 <= j < k
      ensures StartOne(s.ports[j], c.drivers[j]).1 <==> s.ports[j].status != Stopped || SetUp(s.ports[j], c.drivers[j])
    {
      GoesOnIff(s.ports[j], c.drivers[j]);
    }
  }

  lemma StartsIff(s: State, c: Command, k: nat)
    requires Applicable(s, c) && k < |s.ports| && c.StartPort?
    ensures Exec(s, c).ports[k].status == Started <==>
              || s.ports[k].status == Started
              || (&& Addressed(s, c, k) && s.ports[k].status == Stopped && SetUp(s.ports[k], c.drivers[k])
                  && c.drivers[k].started)
  {
    AddressedIsReached(s, c, k);
    GoesOnIff(s.ports[k], c.drivers[k]);
    if s.testDone && !InvalidTarget(s.ports, c.target) && c.streamsOk {
      StartFromReaches(s.ports, 0, c.target, c.drivers, k);
    }
  }

  /** The life cycle of an enabled port: it is started exactly when start_port gets to it while it is stopped, the
      driver sets it up as far as it is marked for it, and the device starts; stopped exactly when it was started and is
      asked to stop; closed exactly when it was stopped and is asked to close. */
  lemma StatusTransitions(s: State, c: Command, i: nat)
    requires Applicable(s, c) && i < |s.ports| && s.ports[i].enabled
    ensures var p, q := s.ports[i], Exec(s, c).ports[i];
            && (p.status != Started && q.status == Started <==>
                  Addressed(s, c, i) && p.status == Stopped && SetUp(p, c.drivers[i]) && c.drivers[i].started)
            && (p.status != Stopped && q.status == Stopped <==>
                  (c == StopPort(All) || c == StopPort(One(i))) && s.testDone && p.status == Started)
            && (p.status != Closed && q.status == Closed <==>
                  (c == ClosePort(All) || c == ClosePort(One(i))) && s.testDone && p.status == Stopped)
  {
    if c.StartPort? {
      StartsIff(s, c, i);
      if s.testDone && !InvalidTarget(s.ports, c.target) && c.streamsOk {
        StartFromKeeps(s.ports, 0, c.target, c.drivers, i);
        StartFromEdge(s.ports, 0, c.target, c.drivers, i);
      }
    }
  }

  /** Forwarding is switched on exactly when it is off, every enabled port that is not a slave is started, and, in DCB
      mode, there is not just one core and every port on the forwarding list is in that mode. */
  lemma SwitchedOnIff(s: State, c: Command)
    requires Applicable(s, c) && ListOk(s)
    ensures s.testDone && !Exec(s, c).testDone <==>
              && c == StartForwarding && s.testDone
              && (forall i :: 0 <= i < |s.ports| && s.ports[i].enabled ==>
                    s.ports[i].slave || s.ports[i].status == Started)
              && (s.dcbTest ==> s.nbFwdLcores != 1
                                && forall i :: 0 <= i < |s.ports| && s.ports[i].enabled ==> s.ports[i].dcb)
  {
    EnabledSorted(s.ports, 0);
    forall i | 0 <= i < |s.ports| && s.ports[i].enabled
      ensures exists k :: 0 <= k < s.nbFwdPorts && s.fwdIds[k] == i
    {
      EnabledListed(s.ports, 0, i);
      var k :| 0 <= k < |EnabledFrom(s.ports, 0)| && EnabledFrom(s.ports, 0)[k] == i;
      assert s.fwdIds[k] == i;
    }
  }

  /** It is switched off exactly by the stop command, and that is obeyed when every such port is started. */
  lemma SwitchedOffIff(s: State, c: Command)
    requires Applicable(s, c)
    ensures !s.testDone && Exec(s, c).testDone <==>
              && c == StopForwarding && !s.testDone
              && forall i :: 0 <= i < |s.ports| && s.ports[i].enabled ==>
                   s.ports[i].slave || s.ports[i].status == Started
  {
  }

  /** DCB mode is entered by starting ports once it is configured, and left, with its configuration, by stopping
      ports. */
  lemma DcbModeIff(s: State, c: Command)
    requires Applicable(s, c)
    ensures Exec(s, c).dcbConfig <==> s.dcbConfig && !(c.StopPort? && s.testDone && s.dcbTest)
    ensures !s.dcbTest && Exec(s, c).dcbTest <==>
              && !s.dcbTest && s.dcbConfig && c.StartPort? && s.testDone && c.streamsOk
              && (c.target.One? ==> c.target.id < |s.ports| && s.ports[c.target.id].enabled)
    ensures s.dcbTest && !Exec(s, c).dcbTest <==> s.dcbTest && c.StopPort? && s.testDone
  {
  }

  /** The list is rebuilt whenever a port appears or goes: the enabled ports, and zeros behind them. */
  lemma ListRebuilt(s: State, c: Command, k: nat)
    requires Applicable(s, c) && Exec(s, c).ports != s.ports && (c.AttachPort? || c.DetachPort?)
    requires |EnabledFrom(Exec(s, c).ports, 0)| <= k < |s.ports|
    ensures k < |Exec(s, c).fwdIds| == |s.ports| && Exec(s, c).fwdIds[k] == 0
  {
  }

  /** The forwarding list starts with the enabled ports, as many as there are forwarding ports. */
  ghost predicate ListOk(s: State) {
    var ids := EnabledFrom(s.ports, 0);
    |ids| == s.nbFwdPorts <= |s.fwdIds| && forall k :: 0 <= k < |ids| ==> s.fwdIds[k] == ids[k]
  }

  lemma {:induction false} EnabledCount(ports: seq<Port>, i: nat, k: nat, p: Port)
    requires i <= |ports| && k < |ports| && p.enabled != ports[k].enabled
    ensures |EnabledFrom(ports[k := p], i)|
         == |EnabledFrom(ports, i)| + if k < i then 0 else if p.enabled then 1 else -1
    decreases |ports| - i
  {
    if i < |ports| {
      EnabledCount(ports, i + 1, k, p);
    }
  }

  lemma {:induction false} EnabledSame(ports: seq<Port>, ports': seq<Port>, i: nat)
    requires i <= |ports| == |ports'| && forall k :: 0 <= k < |ports| ==> ports'[k].enabled == ports[k].enabled
    ensures EnabledFrom(ports', i) == EnabledFrom(ports, i)
    decreases |ports| - i
  {
    if i < |ports| {
      EnabledSame(ports, ports', i + 1);
    }
  }

  /** Attaching and detaching keep the forwarding list and its length right. */
  lemma ListStaysOk(s: State, c: Command)
    requires Applicable(s, c) && ListOk(s)
    ensures ListOk(Exec(s, c))
  {
    var t := Exec(s, c);
    if c.AttachPort? && t != s {
      EnabledCount(s.ports, 0, c.attached.value, t.ports[c.attached.value]);
    } else if c.DetachPort? && t != s {
      EnabledCount(s.ports, 0, c.id, t.ports[c.id]);
    } else {
      forall k | 0 <= k < |s.ports|
        ensures t.ports[k].enabled == s.ports[k].enabled
      {
        EnabledChanges(s, c, k);
      }
      EnabledSame(s.ports, t.ports, 0);
    }
  }

  lemma {:induction false} StartFromEdge(ports: seq<Port>, i: nat, target: Target, drivers: seq<Driver>, k: nat)
    requires i <= |ports| == |drivers| && k < |ports|
    ensures var q := StartFrom(ports, i, target, drivers).0[k];
            q.status != ports[k].status ==> q.status == Started || q.status == Handling
    decreases |ports| - i
  {
    if i < |ports| {
      if !ports[i].enabled || !Matches(target, i) {
        StartFromEdge(ports, i + 1, target, drivers, k);
      } else {
        var (p, goOn) := StartOne(ports[i], drivers[i]);
        if goOn {
          StartFromEdge(ports[i := p], i + 1, target, drivers, k);
          StartFromKeeps(ports[i := p], i + 1, target, drivers, i);
        }
      }
    }
  }

  /** With forwarding off and no port stuck, stopping and closing all ports closes every enabled port. */
  lemma ShutDown(s: State, i: nat)
    requires s.testDone && NoneHandling(s.ports) && i < |s.ports| && s.ports[i].enabled
    ensures Exec(Exec(s, StopPort(All)), ClosePort(All)).ports[i].status == Closed
  {
  }

  predicate Succeeds(d: Driver) {
    d.configured && FirstBad(d.tx) == QueueOk && FirstBad(d.rx) == QueueOk && d.started
  }

  /** With drivers that succeed, starting all ports brings up every enabled port that is stopped. */
  lemma {:induction false} StartFromSucceeds(ports: seq<Port>, i: nat, drivers: seq<Driver>, k: nat)
    requires i <= k < |ports| == |drivers| && ports[k].enabled && ports[k].status == Stopped
    requires forall j :: 0 <= j < |drivers| ==> Succeeds(drivers[j])
    ensures StartFrom(ports, i, All, drivers).0[k].status == Started
    decreases |ports| - i
  {
    if !ports[i].enabled {
      StartFromSucceeds(ports, i + 1, drivers, k);
    } else {
      var p := StartOne(ports[i], drivers[i]).0;
      if i == k {
        StartFromKeeps(ports[i := p], i + 1, All, drivers, k);
      } else {
        StartFromSucceeds(ports[i := p], i + 1, drivers, k);
      }
    }
  }

  /** So from a state with forwarding off, no port stuck and no enabled port closed, starting all ports and then
      forwarding turns forwarding on, unless DCB mode is in the way. */
  lemma BringUp(s: State, drivers: seq<Driver>)
    requires s.testDone && !s.dcbTest && !s.dcbConfig && |drivers| == |s.ports|
    requires forall j :: 0 <= j < |drivers| ==> Succeeds(drivers[j])
    requires forall i :: 0 <= i < |s.ports| && s.ports[i].enabled ==>
               s.ports[i].status == Stopped || s.ports[i].status == Started
    ensures !Exec(Exec(s, StartPort(All, true, drivers)), StartForwarding).testDone
  {
    var t := Exec(s, StartPort(All, true, drivers));
    forall i | 0 <= i < |t.ports| && t.ports[i].enabled
      ensures t.ports[i].status == Started
    {
      StartFromKeeps(s.ports, 0, All, drivers, i);
      if s.ports[i].status == Stopped {
        StartFromSucceeds(s.ports, 0, drivers, i);
      }
    }
  }

  /** ids are enabled ports from i on, in increasing order. */
  ghost predicate Listing(ids: seq<nat>, ports: seq<Port>, i: nat) {
    && (forall k :: 0 <= k < |ids| ==> i <= ids[k] < |ports| && ports[ids[k]].enabled)
    && (forall k, l :: 0 <= k < l < |ids| ==> ids[k] < ids[l])
  }

  /** The rebuilt forwarding list names enabled ports only, in increasing order. */
  lemma {:induction false} EnabledSorted(ports: seq<Port>, i: nat)
    requires i <= |ports|
    ensures Listing(EnabledFrom(ports, i), ports, i)
    decreases |ports| - i
  {
    if i < |ports| {
      EnabledSorted(ports, i + 1);
      if ports[i].enabled {
        ListingCons(EnabledFrom(ports, i + 1), ports, i);
      }
    }
  }

  lemma ListingCons(ids: seq<nat>, ports: seq<Port>, i: nat)
    requires i < |ports| && ports[i].enabled && Listing(ids, ports, i + 1)
    ensures Listing([i] + ids, ports, i)
  {
  }

  /** And it names all of them. */
  lemma {:induction false} EnabledListed(ports: seq<Port>, i: nat, p: nat)
    requires i <= p < |ports| && ports[p].enabled
    ensures p in EnabledFrom(ports, i)
    decreases |ports| - i
  {
    if p == i {
      assert ([i] + EnabledFrom(ports, i + 1))[0] == i;
    } else {
      EnabledListed(ports, i + 1, p);
    }
  }

  /** A failed configure or queue step leaves the port stopped with its retry flag set; on the next start, with a
      driver that succeeds, the port comes up. */
  lemma FailureIsRetried(p: Port, d: Driver, d': Driver)
    requires p.status == Stopped && !HitsMissingPool(p, d)
    requires d'.configured && FirstBad(d'.tx) == QueueOk && FirstBad(d'.rx) == QueueOk && d'.started
    ensures var (q, goOn) := StartOne(p, d);
            && (!goOn ==> q.status == Stopped && (q.reconfig || q.reconfigQueues))
            && (p.reconfig && !d.configured ==> q.reconfig && !goOn)
            && (q.status == Stopped ==>
                  var (r, ok) := StartOne(q, d'); ok && r.status == Started && !r.reconfig && !r.reconfigQueues)
  {
  }

  /** The missing-pool branch is not recovered from: an enabled HANDLING port stays so under every command, and
      unless it is a slave forwarding cannot be started any more. */
  lemma HandlingIsForever(s: State, c: Command, i: nat)
    requires Applicable(s, c) && i < |s.ports| && s.ports[i].enabled && s.ports[i].status == Handling
    ensures Exec(s, c).ports[i].enabled && Exec(s, c).ports[i].status == Handling
    ensures !s.ports[i].slave && s.testDone ==> Exec(s, c).testDone
  {
    if c.StartPort? && s.testDone && !InvalidTarget(s.ports, c.target) && c.streamsOk {
      StartFromKeeps(s.ports, 0, c.target, c.drivers, i);
    }
  }

  // ----- the program

  class Testpmd {
    const ports: array<Port>
    var testDone: bool
    var dcbTest: bool
    var dcbConfig: bool
    var fwdIds: seq<nat>
    var nbFwdPorts: int
    const nbFwdLcores: nat

    /** The globals as a value. */
    ghost function Globals(): State
      reads this, ports
    {
      State(ports[..], testDone, dcbTest, dcbConfig, fwdIds, nbFwdPorts, nbFwdLcores)
    }

    constructor (ports: array<Port>, fwdIds: seq<nat>, nbFwdPorts: int, nbFwdLcores: nat)
      ensures this.ports == ports && Globals() == State(ports[..], true, false, false, fwdIds, nbFwdPorts, nbFwdLcores)
    {
      this.ports, this.testDone, this.dcbTest, this.dcbConfig := ports, true, false, false;
      this.fwdIds, this.nbFwdPorts, this.nbFwdLcores := fwdIds, nbFwdPorts, nbFwdLcores;
    }

    method PortIdIsInvalid(target: Target) returns (invalid: bool)
      ensures invalid <==> InvalidTarget(ports[..], target)
    {
      invalid := target.One? && !(target.id < ports.Length && ports[target.id].enabled);
    }

    /** rte_atomic16_cmpset on a port's status. */
    method CmpSet(i: nat, expected: Status, desired: Status) returns (ok: bool)
      requires i < ports.Length
      modifies ports
      ensures ok <==> old(ports[i].status) == expected
      ensures ports[..] == if ok then old(ports[..])[i := old(ports[i]).(status := desired)] else old(ports[..])
    {
      ok := ports[i].status == expected;
      if ok {
        ports[i] := ports[i].(status := desired);
      }
    }

    method AllPortsStarted() returns (r: bool)
      ensures r <==> AllStarted(ports[..])
    {
      for pi := 0 to ports.Length
        invariant forall i :: 0 <= i < pi && ports[i].enabled && !ports[i].slave ==> ports[i].status == Started
      {
        if ports[pi].enabled && ports[pi].status != Started && !ports[pi].slave {
          assert ports[..][pi] == ports[pi];
          return false;
        }
      }
      r := true;
    }

    // What the driver calls do.

    method DevConfigure(pi: nat, ok: bool)
      requires pi < ports.Length
      modifies ports
      ensures ports[..] == old(ports[..])[pi := old(ports[pi]).(dev := DevConfigured(old(ports[pi]).dev, ok))]
    {
      ports[pi] := ports[pi].(dev := DevConfigured(ports[pi].dev, ok));
    }

    method DevSetUpQueues(pi: nat, d: Driver)
      requires pi < ports.Length
      modifies ports
      ensures ports[..] == old(ports[..])[pi := old(ports[pi]).(dev := DevQueuesSet(old(ports[pi]).dev, d))]
    {
      ports[pi] := ports[pi].(dev := DevQueuesSet(ports[pi].dev, d));
    }

    /** A device is started only when it is configured and its queues are set up. */
    method DevStart(pi: nat, ok: bool)
      requires pi < ports.Length && ports[pi].dev.configured && ports[pi].dev.queues
      modifies ports
      ensures ports[..] == old(ports[..])[pi := old(ports[pi]).(dev := DevLaunched(old(ports[pi]).dev, ok))]
    {
      ports[pi] := ports[pi].(dev := DevLaunched(ports[pi].dev, ok));
    }

    /** The loop over the queues of a port. */
    static method SetupQueues(answers: seq<QueueSetup>) returns (r: QueueSetup)
      ensures r == FirstBad(answers)
    {
      var qi := 0;
      while qi < |answers|
        invariant 0 <= qi <= |answers| && FirstBad(answers) == FirstBad(answers[qi..])
      {
        if answers[qi] != QueueOk {
          return answers[qi];
        }
        assert answers[qi..][1..] == answers[qi + 1..];
        qi := qi + 1;
      }
      r := QueueOk;
    }

    /** The device configuration of a port that is being handled. */
    method ConfigureDevice(pi: nat, d: Driver) returns (goOn: bool)
      requires pi < ports.Length && ports[pi].status == Handling && ports[pi].reconfig
      modifies ports
      ensures goOn <==> d.configured
      ensures ports[..] == old(ports[..])[pi := old(ports[pi]).(
                reconfig := !goOn, status := if goOn then Handling else Stopped,
                dev := DevConfigured(old(ports[pi]).dev, goOn))]
    {
      ports[pi] := ports[pi].(reconfig := false);
      DevConfigure(pi, d.configured);
      goOn := d.configured;
      if !goOn {
        var ok := CmpSet(pi, Handling, Stopped);
        ports[pi] := ports[pi].(reconfig := true);
      }
    }

    /** The queue set-up of a port that is being handled. */
    method ConfigureQueues(pi: nat, d: Driver) returns (goOn: bool)
      requires pi < ports.Length && ports[pi].status == Handling && ports[pi].reconfigQueues
      modifies ports
      ensures goOn <==> FirstBad(d.tx) == QueueOk && FirstBad(d.rx) == QueueOk
      ensures ports[..] == old(ports[..])[pi := old(ports[pi]).(
                reconfigQueues := !goOn && !(FirstBad(d.tx) == QueueOk && FirstBad(d.rx) == NoPool),
                status := if goOn || (FirstBad(d.tx) == QueueOk && FirstBad(d.rx) == NoPool) then Handling
                          else Stopped,
                dev := DevQueuesSet(old(ports[pi]).dev, d))]
    {
      ports[pi] := ports[pi].(reconfigQueues := false);
      DevSetUpQueues(pi, d);
      var r := SetupQueues(d.tx);
      if r == QueueOk {
        r := SetupQueues(d.rx);
        if r == QueueOk {
          return true;
        } else if r == NoPool {
          return false;
        }
      }
      var ok := CmpSet(pi, Handling, Stopped);
      ports[pi] := ports[pi].(reconfigQueues := true);
      goOn := false;
    }

    /** The body of the loop in start_port: false when it makes start_port return. */
    method StartOnePort(pi: nat, d: Driver) returns (goOn: bool)
      requires pi < ports.Length && Agrees(ports[pi])
      modifies ports
      ensures (ports[pi], goOn) == StartOne(old(ports[pi]), d)
      ensures ports[..] == old(ports[..])[pi := ports[pi]]
    {
      var ok := CmpSet(pi, Stopped, Handling);
      if !ok {
        return true;
      }
      if ports[pi].reconfig {
        goOn := ConfigureDevice(pi, d);
        if !goOn {
          return;
        }
      }
      if ports[pi].reconfigQueues {
        goOn := ConfigureQueues(pi, d);
        if !goOn {
          return;
        }
      }
      FirstBadIff(d.tx);
      FirstBadIff(d.rx);
      DevStart(pi, d.started);
      if !d.started {
        ok := CmpSet(pi, Handling, Stopped);
        return true;
      }
      ok := CmpSet(pi, Handling, Started);
      goOn := true;
    }

    method StartPorts(target: Target, streamsOk: bool, drivers: seq<Driver>) returns (rc: int)
      requires |drivers| == ports.Length && AllAgree(ports[..])
      modifies this, ports
      ensures Globals() == Exec(old(Globals()), StartPort(target, streamsOk, drivers))
      ensures rc == if !old(testDone) then -1 else if InvalidTarget(old(ports[..]), target) then 0
                    else if streamsOk && StartFrom(old(ports[..]), 0, target, drivers).1 then 0 else -1
    {
      if !testDone {
        return -1;
      }
      var invalid := PortIdIsInvalid(target);
      if invalid {
        return 0;
      }
      if !streamsOk {
        return -1;
      }
      if dcbConfig {
        dcbTest := true;
      }
      ghost var before := ports[..];
      var pi := 0;
      while pi < ports.Length
        invariant 0 <= pi <= ports.Length
        invariant StartFrom(before, 0, target, drivers) == StartFrom(ports[..], pi, target, drivers)
        invariant AllAgree(ports[..])
        modifies ports
      {
        if ports[pi].enabled && Matches(target, pi) {
          assert Agrees(ports[..][pi]);
          StartOneAgrees(ports[pi], drivers[pi]);
          var goOn := StartOnePort(pi, drivers[pi]);
          if !goOn {
            return -1;
          }
        }
        pi := pi + 1;
      }
      rc := 0;
    }

    method StopPorts(target: Target)
      modifies this, ports
      ensures Globals() == Exec(old(Globals()), StopPort(target))
    {
      if !testDone {
        return;
      }
      if dcbTest {
        dcbTest, dcbConfig := false, false;
      }
      var invalid := PortIdIsInvalid(target);
      if invalid {
        return;
      }
      ghost var before := ports[..];
      for pi := 0 to ports.Length
        invariant forall i :: 0 <= i < ports.Length ==>
                    ports[i] == if i < pi then StopAll(before, target)[i] else before[i]
        modifies ports
      {
        if ports[pi].enabled && Matches(target, pi) {
          var ok := CmpSet(pi, Started, Handling);
          if ok {
            ports[pi] := ports[pi].(dev := DevHalted(ports[pi].dev));
            ok := CmpSet(pi, Handling, Stopped);
          }
        }
      }
      assert ports[..] == StopAll(before, target);
    }

    method ClosePorts(target: Target)
      modifies this, ports
      ensures Globals() == Exec(old(Globals()), ClosePort(target))
    {
      if !testDone {
        return;
      }
      var invalid := PortIdIsInvalid(target);
      if invalid {
        return;
      }
      ghost var before := ports[..];
      for pi := 0 to ports.Length
        invariant forall i :: 0 <= i < ports.Length ==>
                    ports[i] == if i < pi then CloseAll(before, target)[i] else before[i]
        modifies ports
      {
        if ports[pi].enabled && Matches(target, pi) && ports[pi].status != Closed {
          var ok := CmpSet(pi, Stopped, Handling);
          if ok {
            ports[pi] := ports[pi].(dev := UNUSED);
            ok := CmpSet(pi, Handling, Closed);
          }
        }
      }
      assert ports[..] == CloseAll(before, target);
    }

    method RebuildForwardIds() returns (ids: seq<nat>)
      ensures ids == ForwardIds(ports[..])
    {
      ids := [];
      var j := 0;
      while j < ports.Length
        invariant 0 <= j <= ports.Length && ids + EnabledFrom(ports[..], j) == EnabledFrom(ports[..], 0)
        invariant |ids| <= j
      {
        ghost var rest := EnabledFrom(ports[..], j + 1);
        if ports[j].enabled {
          assert ids + ([j] + rest) == (ids + [j]) + rest;
          ids := ids + [j];
        }
        j := j + 1;
      }
      assert ids + [] == ids;
      ids := ids + seq(if |ids| <= ports.Length then ports.Length - |ids| else 0, _ => 0);
    }

    method Attach(attached: Option<nat>)
      requires attached.Some? ==> attached.value < ports.Length && !ports[attached.value].enabled
      modifies this, ports
      ensures Globals() == Exec(old(Globals()), AttachPort(attached))
    {
      if !testDone || attached.None? {
        return;
      }
      var pi := attached.value;
      ports[pi] := ports[pi].(dev := UNUSED);
      ports[pi] := ports[pi].(enabled := true);
      ports[pi] := ports[pi].(reconfig := true, reconfigQueues := true);
      ports[pi] := ports[pi].(status := Stopped);
      ghost var flagged := old(ports[pi]).(reconfig := true, reconfigQueues := true);
      assert ports[..] == old(ports[..])[pi := flagged.(enabled := true, status := Stopped, dev := UNUSED)];
      fwdIds := RebuildForwardIds();
      nbFwdPorts := nbFwdPorts + 1;
    }

    method Detach(portId: nat, detached: bool)
      modifies this, ports
      ensures Globals() == Exec(old(Globals()), DetachPort(portId, detached))
    {
      var invalid := PortIdIsInvalid(One(portId));
      if invalid || ports[portId].status != Closed {
        return;
      }
      if !detached {
        return;
      }
      ports[portId] := ports[portId].(enabled := false);
      assert ports[..] == old(ports[..])[portId := old(ports[portId]).(enabled := false)];
      fwdIds := RebuildForwardIds();
      nbFwdPorts := nbFwdPorts - 1;
    }

    method DcbCheck() returns (refused: bool)
      ensures refused <==> DcbRefuses(Globals())
    {
      if !dcbTest {
        return false;
      }
      ghost var g := Globals();
      var i := 0;
      while i < nbFwdPorts && i < |fwdIds|
        invariant 0 <= i && g == Globals()
        invariant forall k :: 0 <= k < i && k < |g.fwdIds| && g.fwdIds[k] < |g.ports| ==> g.ports[g.fwdIds[k]].dcb
        decreases |fwdIds| - i
      {
        if fwdIds[i] < ports.Length && !ports[fwdIds[i]].dcb {
          assert g.fwdIds[i] < |g.ports| && !g.ports[g.fwdIds[i]].dcb;
          return true;
        }
        i := i + 1;
      }
      refused := nbFwdLcores == 1;
    }

    method StartForwardingNow()
      modifies this
      ensures Globals() == Exec(old(Globals()), StartForwarding)
    {
      var all := AllPortsStarted();
      if !all || !testDone {
        return;
      }
      var refused := DcbCheck();
      if refused {
        return;
      }
      testDone := false;
    }

    method StopForwardingNow()
      modifies this
      ensures Globals() == Exec(old(Globals()), StopForwarding)
    {
      var all := AllPortsStarted();
      if !all || testDone {
        return;
      }
      testDone := true;
    }
  }
}
