/** Monitoring by ping: persisted status, outage tickets, and reports of transitions. */
module DeviceMonitor {
  datatype Status = Unknown | Online | Offline

  datatype Device = Device(id: string, ip: string, enabled: bool, status: Status)

  datatype Outage = Outage(deviceId: string, open: bool)

  datatype Kind = Down | Up

  datatype Report = Report(kind: Kind, deviceId: string)

  /** `reports` are all transitions returned so far. */
  datatype State = State(devices: seq<Device>, outages: seq<Outage>, reports: seq<Report>)

  function OpenCount(outages: seq<Outage>, id: string): nat {
    if outages == [] then 0
    else OpenCount(outages[..|outages| - 1], id)
         + (if outages[|outages| - 1] == Outage(id, true) then 1 else 0)
  }

  /** `open_device_outage`: no second ticket while one is open. */
  function Opened(outages: seq<Outage>, id: string): seq<Outage> {
    if Outage(id, true) in outages then outages else outages + [Outage(id, true)]
  }

  /** `resolve_device_outage`. */
  function Resolved(outages: seq<Outage>, id: string): seq<Outage> {
    seq(|outages|, i requires 0 <= i < |outages| => if outages[i].deviceId == id then Outage(id, false) else outages[i])
  }

  /** What one ping result does to device number `i`. */
  function Observed(s: State, i: nat, answers: bool): (t: State)
    requires i < |s.devices|
    ensures |t.devices| == |s.devices|
  {
    var d := s.devices[i];
    var status := if answers then Online else Offline;
    if !d.enabled || status == d.status then s
    else
      var devices := s.devices[i := d.(status := status)];
      if status == Offline then State(devices, Opened(s.outages, d.id), s.reports + [Report(Down, d.id)])
      else if d.status == Offline then State(devices, Resolved(s.outages, d.id), s.reports + [Report(Up, d.id)])
      else State(devices, s.outages, s.reports)
  }

  /** The state after the first `n` devices of a pass. */
  function Checked(s: State, n: nat, reachable: set<string>): (t: State)
    requires n <= |s.devices|
    ensures |t.devices| == |s.devices|
    ensures forall k | n <= k < |s.devices| :: t.devices[k] == s.devices[k]
  {
    if n == 0 then s
    else
      var before := Checked(s, n - 1, reachable);
      Observed(before, n - 1, s.devices[n - 1].ip in reachable)
  }

  predicate HasDevice(s: State, id: string) {
    exists i :: 0 <= i < |s.devices| && s.devices[i].id == id
  }

  /** `add_monitored_device`: a known device keeps its status. */
  function Added(s: State, id: string, ip: string, enabled: bool): State {
    if HasDevice(s, id) then
      s.(devices := seq(|s.devices|, i requires 0 <= i < |s.devices| =>
           if s.devices[i].id == id then s.devices[i].(ip := ip, enabled := enabled) else s.devices[i]))
    else s.(devices := s.devices + [Device(id, ip, enabled, Unknown)])
  }

  /** `remove_monitored_device`: tickets stay. */
  function Removed(devices: seq<Device>, id: string): seq<Device> {
    if devices == [] then []
    else
      var front := Removed(devices[..|devices| - 1], id);
      if devices[|devices| - 1].id == id then front else front + [devices[|devices| - 1]]
  }

  class Monitor {
    var devices: seq<Device>
    var outages: seq<Outage>
    ghost var reports: seq<Report>

    ghost function Snapshot(): State
      reads this
    {
      State(devices, outages, reports)
    }

    constructor ()
      ensures Snapshot() == State([], [], [])
    {
      devices, outages, reports := [], [], [];
    }

    /** `check_all_devices`; `reachable` are the addresses that answer in this pass. */
    method CheckAllDevices(reachable: set<string>) returns (transitions: seq<Report>)
      modifies this
      ensures Snapshot() == Checked(old(Snapshot()), |old(devices)|, reachable)
      ensures reports == old(reports) + transitions
    {
      transitions := [];
      for i := 0 to |devices|
        invariant |devices| == |old(devices)| && reports == old(reports) + transitions
        invariant Snapshot() == Checked(old(Snapshot()), i, reachable)
      {
        var d := devices[i];
        if d.enabled {
          var status := if d.ip in reachable then Online else Offline;
          if status != d.status {
            devices := devices[i := d.(status := status)];
            if status == Offline {
              outages := Opened(outages, d.id);
              transitions := transitions + [Report(Down, d.id)];
              reports := reports + [Report(Down, d.id)];
            } else if d.status == Offline {
              outages := Resolved(outages, d.id);
              transitions := transitions + [Report(Up, d.id)];
              reports := reports + [Report(Up, d.id)];
            }
          }
        }
      }
    }
  }

  // ---------- one pass in plain terms ----------

  predicate GoesDown(d: Device, reachable: set<string>) {
    d.enabled && d.ip !in reachable && (d.status == Online || d.status == Unknown)
  }

  predicate ComesUp(d: Device, reachable: set<string>) {
    d.enabled && d.ip in reachable && d.status == Offline
  }

  /** The transitions of a pass over these devices, in their order. */
  function Transitions(devices: seq<Device>, reachable: set<string>): seq<Report> {
    if devices == [] then []
    else
      var d := devices[|devices| - 1];
      Transitions(devices[..|devices| - 1], reachable)
      + (if GoesDown(d, reachable) then [Report(Down, d.id)] else if ComesUp(d, reachable) then [Report(Up, d.id)] else [])
  }

  /** What a pass leaves: every enabled device is online if it answered and offline if not,
      the disabled ones are as before, and the reports are one DOWN for each device that was
      not offline and stopped answering, one UP for each offline one that answers again. */
  lemma {:induction false} PassInPlainTerms(s: State, n: nat, reachable: set<string>)
    requires n <= |s.devices|
    ensures var t := Checked(s, n, reachable);
            && (forall i | 0 <= i < n ::
                  t.devices[i] == s.devices[i].(
                    status := if !s.devices[i].enabled then s.devices[i].status
                              else if s.devices[i].ip in reachable then Online else Offline))
            && t.reports == s.reports + Transitions(s.devices[..n], reachable)
  {
    if n > 0 {
      PassInPlainTerms(s, n - 1, reachable);
      assert s.devices[..n][..n - 1] == s.devices[..n - 1];
    }
  }

  /** Registering a known device changes its address and its switch; a new one is added, enabled
      or not, with an unknown status. */
  lemma AddedInPlainTerms(s: State, id: string, ip: string, enabled: bool)
    ensures var t := Added(s, id, ip, enabled);
            && t.outages == s.outages && t.reports == s.reports && |t.devices| >= |s.devices|
            && (forall i | 0 <= i < |s.devices| ::
                  t.devices[i] == if s.devices[i].id == id then Device(id, ip, enabled, s.devices[i].status) else s.devices[i])
            && (if exists i :: 0 <= i < |s.devices| && s.devices[i].id == id then |t.devices| == |s.devices|
                else t.devices[|s.devices|..] == [Device(id, ip, enabled, Unknown)])
  {}

  // ---------- outages mirror the history ----------

  /** The latest report about a device, if any, is DOWN. */
  predicate LastIsDown(reports: seq<Report>, id: string) {
    reports != [] &&
    (if reports[|reports| - 1].deviceId == id then reports[|reports| - 1].kind == Down
     else LastIsDown(reports[..|reports| - 1], id))
  }

  /** Every DOWN follows an UP of the same device or nothing, every UP follows a DOWN. */
  predicate Alternates(reports: seq<Report>) {
    forall k | 0 <= k < |reports| :: reports[k].kind == Down <==> !LastIsDown(reports[..k], reports[k].deviceId)
  }

  predicate DistinctDevices(devices: seq<Device>) {
    forall i, j | 0 <= i < j < |devices| :: devices[i].id != devices[j].id
  }

  predicate IsOffline(devices: seq<Device>, id: string) {
    exists i :: 0 <= i < |devices| && devices[i].id == id && devices[i].status == Offline
  }

  /** One open ticket while the device is offline and none otherwise, also for ids that are
      not monitored; and the latest report says whether it is offline. */
  predicate IdInv(s: State, id: string) {
    && OpenCount(s.outages, id) == (if IsOffline(s.devices, id) then 1 else 0)
    && (LastIsDown(s.reports, id) <==> IsOffline(s.devices, id))
  }

  function Downs(reports: seq<Report>): nat {
    if reports == [] then 0
    else Downs(reports[..|reports| - 1]) + (if reports[|reports| - 1].kind == Down then 1 else 0)
  }

  /** The tickets mirror the history for every id, and there is one ticket per DOWN, open or
      resolved. */
  ghost predicate Inv(s: State) {
    && DistinctDevices(s.devices) && (forall id: string :: IdInv(s, id)) && Alternates(s.reports)
    && |s.outages| == Downs(s.reports)
  }

  lemma {:induction false} DownsAppended(reports: seq<Report>, r: Report)
    ensures Downs(reports + [r]) == Downs(reports) + if r.kind == Down then 1 else 0
  {
    assert (reports + [r])[..|reports|] == reports;
  }

  lemma {:induction false} OpenedCounts(outages: seq<Outage>, id: string, other: string)
    requires OpenCount(outages, id) == 0
    ensures OpenCount(Opened(outages, id), other) == OpenCount(outages, other) + (if other == id then 1 else 0)
    ensures |Opened(outages, id)| == |outages| + 1
  {
    OpenCountMembers(outages, id);
    assert (outages + [Outage(id, true)])[..|outages|] == outages;
  }

  lemma {:induction false} OpenCountMembers(outages: seq<Outage>, id: string)
    ensures OpenCount(outages, id) == 0 <==> Outage(id, true) !in outages
  {
    if outages != [] {
      var front, last := outages[..|outages| - 1], outages[|outages| - 1];
      OpenCountMembers(front, id);
      assert forall o :: o in outages <==> o in front || o == last;
    }
  }

  lemma {:induction false} ResolvedCounts(outages: seq<Outage>, id: string, other: string)
    ensures OpenCount(Resolved(outages, id), other) == if other == id then 0 else OpenCount(outages, other)
    ensures |Resolved(outages, id)| == |outages|
  {
    if outages != [] {
      var front := outages[..|outages| - 1];
      ResolvedCounts(front, id, other);
      assert Resolved(outages, id)[..|outages| - 1] == Resolved(front, id);
    }
  }

  lemma {:induction false} ReportAppended(reports: seq<Report>, r: Report, other: string)
    ensures LastIsDown(reports + [r], other) <==> if other == r.deviceId then r.kind == Down else LastIsDown(reports, other)
  {
    assert (reports + [r])[..|reports|] == reports;
  }

  lemma {:induction false} AlternatesAppended(reports: seq<Report>, r: Report)
    requires Alternates(reports) && (r.kind == Down <==> !LastIsDown(reports, r.deviceId))
    ensures Alternates(reports + [r])
  {
    var longer := reports + [r];
    forall k | 0 <= k < |longer| ensures longer[k].kind == Down <==> !LastIsDown(longer[..k], longer[k].deviceId) {
      assert longer[..k] == reports[..k];
      if k == |reports| { assert reports[..k] == reports; }
    }
  }

  lemma OfflineUpdated(devices: seq<Device>, i: nat, status: Status, id: string)
    requires DistinctDevices(devices) && i < |devices|
    ensures var after := devices[i := devices[i].(status := status)];
            && DistinctDevices(after)
            && (IsOffline(after, id) <==> if id == devices[i].id then status == Offline else IsOffline(devices, id))
    ensures IsOffline(devices, devices[i].id) <==> devices[i].status == Offline
  {
    var after := devices[i := devices[i].(status := status)];
    assert after[i].id == devices[i].id;
    if IsOffline(devices, id) && id != devices[i].id {
      var j :| 0 <= j < |devices| && devices[j].id == id && devices[j].status == Offline;
      assert after[j] == devices[j];
    }
  }

  lemma ObservedKeepsInv(s: State, i: nat, answers: bool)
    requires Inv(s) && i < |s.devices|
    ensures Inv(Observed(s, i, answers))
  {
    hide OpenCount, LastIsDown, IsOffline, Alternates, DistinctDevices, Opened, Resolved, Downs;
    var t, own := Observed(s, i, answers), s.devices[i];
    var status := if answers then Online else Offline;
    var kind := if status == Offline then Down else Up;
    assert IdInv(s, own.id);
    OfflineUpdated(s.devices, i, status, own.id);
    if t.reports != s.reports {
      AlternatesAppended(s.reports, Report(kind, own.id));
      DownsAppended(s.reports, Report(kind, own.id));
    }
    if own.status != Offline { OpenedCounts(s.outages, own.id, own.id); }
    ResolvedCounts(s.outages, own.id, own.id);
    forall id: string ensures IdInv(t, id) {
      assert IdInv(s, id);
      OfflineUpdated(s.devices, i, status, id);
      ReportAppended(s.reports, Report(kind, own.id), id);
      if own.status != Offline { OpenedCounts(s.outages, own.id, id); }
      ResolvedCounts(s.outages, own.id, id);
    }
  }

  lemma {:induction false} CheckedKeepsInv(s: State, n: nat, reachable: set<string>)
    requires Inv(s) && n <= |s.devices|
    ensures Inv(Checked(s, n, reachable))
  {
    hide Inv;
    if n > 0 {
      CheckedKeepsInv(s, n - 1, reachable);
      ObservedKeepsInv(Checked(s, n - 1, reachable), n - 1, s.devices[n - 1].ip in reachable);
    }
  }

  lemma AddedKeepsInv(s: State, id: string, ip: string, enabled: bool)
    requires Inv(s)
    ensures Inv(Added(s, id, ip, enabled))
  {
    hide OpenCount, LastIsDown, Alternates;
    var t := Added(s, id, ip, enabled);
    assert forall i | 0 <= i < |s.devices| :: t.devices[i].id == s.devices[i].id && t.devices[i].status == s.devices[i].status;
    forall other: string ensures IdInv(t, other) {
      assert IdInv(s, other);
      assert IsOffline(s.devices, other) ==> IsOffline(t.devices, other) by {
        if i :| 0 <= i < |s.devices| && s.devices[i].id == other && s.devices[i].status == Offline {
          assert t.devices[i].id == other;
        }
      }
    }
  }

  lemma {:induction false} RemovedDevices(devices: seq<Device>, id: string)
    requires DistinctDevices(devices)
    ensures DistinctDevices(Removed(devices, id))
    ensures forall d :: d in Removed(devices, id) <==> d in devices && d.id != id
  {
    if devices != [] {
      var front, last := devices[..|devices| - 1], devices[|devices| - 1];
      RemovedDevices(front, id);
      var rest := Removed(front, id);
      forall i | 0 <= i < |rest| ensures rest[i].id != last.id { assert rest[i] in front; }
      assert forall d :: d in devices <==> d in front || d == last;
    }
  }

  lemma OfflineMembers(devices: seq<Device>, id: string)
    ensures IsOffline(devices, id) <==> exists d :: d in devices && d.id == id && d.status == Offline
  {
    if IsOffline(devices, id) {
      var i :| 0 <= i < |devices| && devices[i].id == id && devices[i].status == Offline;
      assert devices[i] in devices;
    }
  }

  /** Exactly when a removal keeps tickets and reports in step: the device is not offline. An
      offline one leaves an open ticket that its next registration does not know of. */
  lemma RemovedKeepsInvIff(s: State, id: string)
    requires Inv(s)
    ensures Inv(s.(devices := Removed(s.devices, id))) <==> !IsOffline(s.devices, id)
  {
    hide OpenCount, LastIsDown, Alternates, IsOffline, Removed;
    var t := s.(devices := Removed(s.devices, id));
    RemovedDevices(s.devices, id);
    forall other: string ensures IsOffline(t.devices, other) <==> other != id && IsOffline(s.devices, other) {
      OfflineMembers(s.devices, other);
      OfflineMembers(t.devices, other);
    }
    assert IdInv(s, id);
    if !IsOffline(s.devices, id) {
      forall other: string ensures IdInv(t, other) { assert IdInv(s, other); }
    } else {
      assert !IdInv(t, id);
    }
  }

  datatype Op = Add(id: string, ip: string, enabled: bool) | Remove(id: string) | Check(reachable: set<string>)

  function Apply(s: State, op: Op): State {
    match op
    case Add(id, ip, enabled) => Added(s, id, ip, enabled)
    case Remove(id) => s.(devices := Removed(s.devices, id))
    case Check(reachable) => Checked(s, |s.devices|, reachable)
  }

  ghost predicate InStepThroughout(s: State, ops: seq<Op>)
    decreases ops
  {
    Inv(s) && (ops == [] || InStepThroughout(Apply(s, ops[0]), ops[1..]))
  }

  ghost predicate RemovalsFit(s: State, ops: seq<Op>)
    decreases ops
  {
    ops == []
    || ((ops[0].Remove? ==> !IsOffline(s.devices, ops[0].id)) && RemovalsFit(Apply(s, ops[0]), ops[1..]))
  }

  lemma ApplyKeepsInvIff(s: State, op: Op)
    requires Inv(s)
    ensures Inv(Apply(s, op)) <==> op.Remove? ==> !IsOffline(s.devices, op.id)
  {
    hide Inv, IsOffline;
    match op
    case Add(id, ip, enabled) => AddedKeepsInv(s, id, ip, enabled);
    case Remove(id) => RemovedKeepsInvIff(s, id);
    case Check(reachable) => CheckedKeepsInv(s, |s.devices|, reachable);
  }

  /** Throughout a run of registrations, removals and monitoring passes, a device has exactly
      one open ticket while it is offline and none otherwise, its DOWN and UP reports strictly
      alternate, starting with DOWN, the latest says whether it is offline, and there is one
      ticket per DOWN, if and only if no device is removed while it is offline. */
  lemma {:induction false} OutagesMirrorHistory(s: State, ops: seq<Op>)
    requires Inv(s)
    ensures InStepThroughout(s, ops) <==> RemovalsFit(s, ops)
    decreases ops
  {
    hide Inv, Apply, IsOffline;
    if ops != [] {
      ApplyKeepsInvIff(s, ops[0]);
      if Inv(Apply(s, ops[0])) { OutagesMirrorHistory(Apply(s, ops[0]), ops[1..]); }
    }
  }

  lemma StartsInStep()
    ensures Inv(State([], [], []))
  {}
}
