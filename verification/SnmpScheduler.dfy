/** The SNMP scheduler: four maps keyed by monitor, updated in place by every poll. */
module SnmpScheduler {
  import opened Shared
  import opened SnmpPolling
  import opened SnmpRuns

  class Scheduler {
    const policy: Policy
    var failures: map<string, nat>
    var lastHeavyAt: map<string, int>
    var cooldownUntil: map<string, int>
    var heavyCache: map<string, Readings>

    constructor (policy: Policy)
      ensures this.policy == policy && forall id :: DeviceOf(id) == UNKNOWN
    {
      this.policy := policy;
      failures, lastHeavyAt, cooldownUntil, heavyCache := map[], map[], map[], map[];
    }

    ghost function DeviceOf(id: string): Device
      reads this
    {
      Device(if id in failures then failures[id] else 0,
             if id in lastHeavyAt then Some(lastHeavyAt[id]) else None,
             if id in cooldownUntil then Some(cooldownUntil[id]) else None,
             if id in heavyCache then Some(heavyCache[id]) else None)
    }

    method CarryForward(id: string, snmp: Sample, heavy: bool) returns (display: Sample)
      ensures display == Shown(snmp, heavy, DeviceOf(id).cache)
    {
      display := snmp;
      if snmp.reachable && !heavy && id in heavyCache {
        var cached := heavyCache[id];
        if cached.tables.Some? {
          display := display.(tables := cached.tables);
        }
        if cached.disks.Some? {
          display := display.(disks := cached.disks);
        }
      }
    }

    method Probe(id: string, a: Attempt) returns (r: Outcome)
      modifies this
      ensures r == Result(policy, old(DeviceOf(id)), a)
      ensures DeviceOf(id) == Next(policy, old(DeviceOf(id)), a)
      ensures forall m :: m != id ==> DeviceOf(m) == old(DeviceOf(m))
    {
      hide Result, Next;
      ghost var before := DeviceOf(id);
      if !a.host {
        LeftOut(policy, before, a);
        return NoHost;
      }
      var heavy := a.due - (if id in lastHeavyAt then lastHeavyAt[id] else 0) >= policy.tablesInterval;
      if !heavy && a.check < (if id in cooldownUntil then cooldownUntil[id] else 0) {
        LeftOut(policy, before, a);
        return Cooling;
      }
      Polled(policy, before, a);
      var snmp := Collect(a, heavy);
      if snmp.reachable {
        failures := failures - {id};
      } else {
        var misses := (if id in failures then failures[id] else 0) + 1;
        failures := failures[id := misses];
        if misses < policy.threshold {
          return Tolerated(heavy);
        }
      }
      if snmp.reachable && heavy {
        lastHeavyAt := lastHeavyAt[id := a.end];
        heavyCache := heavyCache[id := Readings(snmp.tables, snmp.disks)];
        cooldownUntil := cooldownUntil[id := a.cool + policy.cooldown];
      }
      var display := CarryForward(id, snmp, heavy);
      r := if snmp.reachable then Up(heavy, display, snmp) else Down(heavy, display);
    }

    method Forget(live: set<string>)
      modifies this
      ensures forall m :: DeviceOf(m) == if m in live then old(DeviceOf(m)) else UNKNOWN
    {
      failures := Live(failures, live);
      lastHeavyAt := Live(lastHeavyAt, live);
      heavyCache := Live(heavyCache, live);
      cooldownUntil := Live(cooldownUntil, live);
    }

    /** The object remembers what `devices` does. */
    ghost predicate Remembers(devices: Devices)
      reads this
    {
      forall id :: DeviceOf(id) == DeviceIn(devices, id)
    }

    /** Forgets the monitors that are gone, then probes the others. */
    method Sweep(monitors: seq<Monitor>, ghost devices: Devices) returns (results: seq<Outcome>)
      requires DistinctIds(monitors) && Remembers(devices)
      modifies this
      ensures results == Outcomes(policy, devices, monitors)
      ensures Remembers(Swept(policy, devices, monitors))
    {
      hide Result, Next, Scheduler.DeviceOf;
      var live := set i | 0 <= i < |monitors| :: monitors[i].id;
      Forget(live);
      results := [];
      for i := 0 to |monitors|
        invariant |results| == i
        invariant forall j :: 0 <= j < i ==>
          && results[j] == Result(policy, DeviceIn(devices, monitors[j].id), monitors[j].attempt)
          && DeviceOf(monitors[j].id) == Next(policy, DeviceIn(devices, monitors[j].id), monitors[j].attempt)
        invariant forall j :: i <= j < |monitors| ==> DeviceOf(monitors[j].id) == DeviceIn(devices, monitors[j].id)
        invariant forall m :: m !in live ==> DeviceOf(m) == UNKNOWN
      {
        var r := Probe(monitors[i].id, monitors[i].attempt);
        results := results + [r];
      }
      forall id
        ensures DeviceOf(id) == DeviceIn(Swept(policy, devices, monitors), id)
      {
        SweptIs(policy, devices, monitors, id);
        if i :| 0 <= i < |monitors| && monitors[i].id == id {
          AttemptIs(monitors, i);
        }
      }
    }
  }

  lemma LeftOut(p: Policy, d: Device, a: Attempt)
    requires !Performed(p, d, a)
    ensures Result(p, d, a) == (if a.host then Cooling else NoHost) && Next(p, d, a) == d
  {
  }

  lemma Polled(p: Policy, d: Device, a: Attempt)
    requires Performed(p, d, a)
    ensures var heavy := Heavy(p, d, a);
      if a.reply.reachable then
        && Result(p, d, a) == Up(heavy, Shown(Collect(a, heavy), heavy, d.cache), Collect(a, heavy))
        && Next(p, d, a) ==
           if heavy then
             Device(0, Some(a.end), Some(a.cool + p.cooldown), Some(Readings(a.reply.tables, a.reply.disks)))
           else d.(misses := 0)
      else
        && Result(p, d, a) ==
           (if d.misses + 1 < p.threshold then Tolerated(heavy) else Down(heavy, Collect(a, heavy)))
        && Next(p, d, a) == d.(misses := d.misses + 1)
  {
  }

  method Live<T>(m: map<string, T>, live: set<string>) returns (r: map<string, T>)
    ensures r == map id | id in m && id in live :: m[id]
  {
    r := m;
    var keys := m.Keys;
    while keys != {}
      invariant keys <= m.Keys
      invariant r == map id | id in m && (id in live || id in keys) :: m[id]
      decreases |keys|
    {
      var id :| id in keys;
      if id !in live {
        r := r - {id};
      }
      keys := keys - {id};
    }
  }
}
