/*
 * The registry of channel jobs for a machine (Lcl.EventLog/Jobs/JobRegistry.cs).
 * Two dictionaries index the same configurations, one by job name and one
 * by channel (log) name, both ignoring case; a dictionary is modelled as a
 * map from the case-folded name. The conflict checks of Register compare
 * names exactly, so a registration that differs from an existing one only
 * in the case of its job or channel name is rejected.
 */
module JobRegistries {
  import opened Common
  import opened JobConfig

  /** TryGetValue on a dictionary with a case-insensitive comparer. */
  function Lookup(m: map<string, EventJobConfig>, name: string): (r: Option<EventJobConfig>)
    ensures r.Some? <==> Fold(name) in m
    ensures r.Some? ==> r.value == m[Fold(name)]
  {
    if Fold(name) in m then Some(m[Fold(name)]) else None
  }

  /**
   * The two indexes agree: every configuration is filed under its folded
   * job name in one and under its folded channel name in the other.
   */
  predicate Consistent(byJob: map<string, EventJobConfig>, byChannel: map<string, EventJobConfig>)
  {
    (forall k :: k in byJob ==>
       k == Fold(byJob[k].name) && Fold(byJob[k].log) in byChannel && byChannel[Fold(byJob[k].log)] == byJob[k])
    && (forall k :: k in byChannel ==>
          k == Fold(byChannel[k].log) && Fold(byChannel[k].name) in byJob && byJob[Fold(byChannel[k].name)] == byChannel[k])
  }

  /**
   * Register: a channel owned by a configuration with another job name, or
   * a job name bound to another channel, is an InvalidOperationException;
   * otherwise the configuration is filed in both indexes, replacing what was
   * there under the same names.
   */
  function Registered(byJob: map<string, EventJobConfig>, byChannel: map<string, EventJobConfig>, cfg: EventJobConfig)
    : (r: Result<(map<string, EventJobConfig>, map<string, EventJobConfig>)>)
    ensures r.Err? ==> r.error == InvalidOperation
    ensures r.Ok? ==> r.value.0 == byJob[Fold(cfg.name) := cfg] && r.value.1 == byChannel[Fold(cfg.log) := cfg]
  {
    var owner := Lookup(byChannel, cfg.log);
    if owner.Some? && cfg.name != owner.value.name then Err(InvalidOperation)
    else
      var bound := Lookup(byJob, cfg.name);
      if bound.Some? && cfg.log != bound.value.log then Err(InvalidOperation)
      else Ok((byJob[Fold(cfg.name) := cfg], byChannel[Fold(cfg.log) := cfg]))
  }

  /**
   * With consistent indexes, a registration is accepted exactly when every
   * registered configuration sharing its job name or its channel name,
   * ignoring case, has exactly the same job name and channel name.
   */
  lemma RegisterAcceptedIff(byJob: map<string, EventJobConfig>, byChannel: map<string, EventJobConfig>, cfg: EventJobConfig)
    requires Consistent(byJob, byChannel)
    ensures Registered(byJob, byChannel, cfg).Ok?
            <==> (forall k :: k in byJob && (Fold(byJob[k].name) == Fold(cfg.name) || Fold(byJob[k].log) == Fold(cfg.log)) ==>
                    byJob[k].name == cfg.name && byJob[k].log == cfg.log)
  {
    if Registered(byJob, byChannel, cfg).Ok? {
      forall k | k in byJob && (Fold(byJob[k].name) == Fold(cfg.name) || Fold(byJob[k].log) == Fold(cfg.log))
        ensures byJob[k].name == cfg.name && byJob[k].log == cfg.log
      {
        var e := byJob[k];
        if Fold(e.log) == Fold(cfg.log) {
          assert Lookup(byChannel, cfg.log) == Some(e);
        }
        if Fold(e.name) == Fold(cfg.name) {
          assert Lookup(byJob, cfg.name) == Some(e);
        }
      }
    } else {
      var owner := Lookup(byChannel, cfg.log);
      if owner.Some? && cfg.name != owner.value.name {
        var k := Fold(owner.value.name);
        assert k in byJob && byJob[k] == owner.value;
      } else {
        var k := Fold(cfg.name);
        assert k in byJob && byJob[k].log != cfg.log;
      }
    }
  }

  /** An accepted registration keeps the two indexes in agreement. */
  lemma RegisterKeepsConsistent(byJob: map<string, EventJobConfig>, byChannel: map<string, EventJobConfig>, cfg: EventJobConfig)
    requires Consistent(byJob, byChannel)
    requires Registered(byJob, byChannel, cfg).Ok?
    ensures Consistent(Registered(byJob, byChannel, cfg).value.0, Registered(byJob, byChannel, cfg).value.1)
  {
    var j, c := byJob[Fold(cfg.name) := cfg], byChannel[Fold(cfg.log) := cfg];
    // Another job cannot own cfg's channel, nor another channel cfg's job name, or Register would have refused.
    assert forall k :: k in j && k != Fold(cfg.name) ==> Fold(j[k].log) != Fold(cfg.log);
    assert forall k :: k in c && k != Fold(cfg.log) ==> Fold(c[k].name) != Fold(cfg.name);
  }

  /** A job name that differs only in case from a registered one is refused for that job's channel. */
  lemma CaseVariantRejected(byJob: map<string, EventJobConfig>, byChannel: map<string, EventJobConfig>,
                            existing: EventJobConfig, cfg: EventJobConfig)
    requires Consistent(byJob, byChannel)
    requires existing in byJob.Values
    requires Fold(cfg.name) == Fold(existing.name) && cfg.name != existing.name
    ensures Registered(byJob, byChannel, cfg).Err?
  {
    var k :| k in byJob && byJob[k] == existing;
    assert Lookup(byJob, cfg.name) == Some(existing);
    if Fold(cfg.log) == Fold(existing.log) {
      assert Lookup(byChannel, cfg.log) == Some(existing);
    } else {
      assert Fold(cfg.log) != Fold(existing.log);
    }
  }

  class JobRegistry {
    /** The machine name this registry is about. */
    const machine: string
    var byJob: map<string, EventJobConfig>
    var byChannel: map<string, EventJobConfig>

    ghost predicate Valid()
      reads this
    {
      Consistent(byJob, byChannel)
    }

    constructor (machine: string)
      ensures Valid() && this.machine == machine && byJob == map[] && byChannel == map[]
    {
      this.machine := machine;
      byJob, byChannel := map[], map[];
    }

    /** FindByJob: the registration under the job name, ignoring case, or null. */
    function FindByJob(job: string): (r: Option<EventJobConfig>)
      reads this
      requires Valid()
      ensures r.Some? ==> EqualsIgnoreCase(r.value.name, job) && r.value in byJob.Values
      ensures r.None? ==> forall c :: c in byJob.Values ==> !EqualsIgnoreCase(c.name, job)
    {
      Lookup(byJob, job)
    }

    /** FindByChannel: the registration under the channel name, ignoring case, or null. */
    function FindByChannel(channel: string): (r: Option<EventJobConfig>)
      reads this
      requires Valid()
      ensures r.Some? ==> EqualsIgnoreCase(r.value.log, channel) && r.value in byJob.Values
      ensures r.None? ==> forall c :: c in byJob.Values ==> !EqualsIgnoreCase(c.log, channel)
    {
      Lookup(byChannel, channel)
    }

    /** Jobs: the registered configurations. */
    function Jobs(): set<EventJobConfig>
      reads this
    {
      byJob.Values
    }

    method Register(cfg: EventJobConfig) returns (r: Result<()>)
      requires Valid()
      modifies this
      ensures Valid()
      ensures var outcome := Registered(old(byJob), old(byChannel), cfg);
        (r.Ok? <==> outcome.Ok?) && (r.Err? ==> r.error == outcome.error)
        && (outcome.Ok? ==> byJob == outcome.value.0 && byChannel == outcome.value.1)
        && (outcome.Err? ==> byJob == old(byJob) && byChannel == old(byChannel))
    {
      var owner := FindByChannel(cfg.log);
      if owner.Some? && cfg.name != owner.value.name {
        return Err(InvalidOperation);
      }
      var bound := FindByJob(cfg.name);
      if bound.Some? && cfg.log != bound.value.log {
        return Err(InvalidOperation);
      }
      RegisterKeepsConsistent(byJob, byChannel, cfg);
      byChannel := byChannel[Fold(cfg.log) := cfg];
      byJob := byJob[Fold(cfg.name) := cfg];
      return Ok(());
    }

    /** Clear empties both indexes. */
    method Clear()
      modifies this
      ensures Valid() && byJob == map[] && byChannel == map[]
    {
      byJob, byChannel := map[], map[];
    }
  }
}
