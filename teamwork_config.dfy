/**
 * The locally stored configuration: credentials, project aliases and
 * declared time off. Every update builds a new configuration value; the
 * one it was built from is left as it was.
 */
module TeamworkConfig {
  import opened Wrappers

  datatype ProjectAlias = ProjectAlias(projectId: string, alias: string)

  /** Hours of declared absence on the day whose `YYYY-MM-DD` text is `date`. */
  datatype TimeOff = TimeOff(date: string, hours: int)

  datatype Config = Config(
    companyId: string,
    token: string,
    projectAliases: seq<ProjectAlias>,
    timesOff: seq<TimeOff>)

  /** The first alias declared for `projectId`, if any. */
  function GetAlias(config: Config, projectId: string): (r: Option<ProjectAlias>)
    ensures r.None? <==> forall i :: 0 <= i < |config.projectAliases| ==> config.projectAliases[i].projectId != projectId
    ensures r.Some? ==> exists i :: 0 <= i < |config.projectAliases| && config.projectAliases[i] == r.value && FirstAliasOf(config.projectAliases, projectId, i)
  {
    FindAlias(config.projectAliases, projectId)
  }

  /** `aliases[i]` is for `projectId` and no earlier alias is. */
  predicate FirstAliasOf(aliases: seq<ProjectAlias>, projectId: string, i: int)
    requires 0 <= i < |aliases|
  {
    aliases[i].projectId == projectId && forall j :: 0 <= j < i ==> aliases[j].projectId != projectId
  }

  function FindAlias(aliases: seq<ProjectAlias>, projectId: string): (r: Option<ProjectAlias>)
    ensures r.None? <==> forall i :: 0 <= i < |aliases| ==> aliases[i].projectId != projectId
    ensures r.Some? ==> exists i :: 0 <= i < |aliases| && aliases[i] == r.value && FirstAliasOf(aliases, projectId, i)
  {
    if aliases == [] then None
    else if aliases[0].projectId == projectId then
      assert FirstAliasOf(aliases, projectId, 0);
      Some(aliases[0])
    else
      var r := FindAlias(aliases[1..], projectId);
      if r.Some? then
        var i :| 0 <= i < |aliases[1..]| && aliases[1..][i] == r.value && FirstAliasOf(aliases[1..], projectId, i);
        assert FirstAliasOf(aliases, projectId, i + 1);
        r
      else
        r
  }

  /** The alias list after `save_alias`: the new alias is appended, nothing is replaced. */
  function AddAlias(config: Config, projectId: string, alias: string): (r: Config)
    ensures |r.projectAliases| == |config.projectAliases| + 1
    ensures r.projectAliases[..|config.projectAliases|] == config.projectAliases
    ensures r.projectAliases[|config.projectAliases|..] == [ProjectAlias(projectId, alias)]
    ensures r.(projectAliases := config.projectAliases) == config
  {
    config.(projectAliases := config.projectAliases + [ProjectAlias(projectId, alias)])
  }

  /** Why a stored configuration could not be used. */
  datatype ConfigError = NoConfig | Unreadable(message: string)

  /**
   * `save_alias`, given what reading the stored configuration produced: a
   * read error is passed on, a missing file is `NoConfig`, and otherwise the
   * alias is appended to the stored configuration.
   */
  function SaveAlias(stored: Result<Option<Config>, ConfigError>, projectId: string, alias: string): (r: Result<Config, ConfigError>)
    ensures stored.Failure? ==> r == Failure(stored.error)
    ensures stored == Success(None) ==> r == Failure(NoConfig)
    ensures stored.Success? && stored.value.Some? ==> r == Success(AddAlias(stored.value.value, projectId, alias))
    ensures stored.Success? && stored.value.Some? ==>
      r.Success? && GetAlias(r.value, projectId) ==
        (if GetAlias(stored.value.value, projectId).Some? then GetAlias(stored.value.value, projectId)
         else Some(ProjectAlias(projectId, alias)))
  {
    match stored
    case Failure(e) => Failure(e)
    case Success(None) => Failure(NoConfig)
    case Success(Some(c)) =>
      AddAliasKeepsOlder(c, projectId, alias, projectId);
      Success(AddAlias(c, projectId, alias))
  }

  /** Appending an alias never changes which alias an already aliased project resolves to. */
  lemma {:induction false} AddAliasKeepsOlder(config: Config, projectId: string, alias: string, query: string)
    ensures GetAlias(AddAlias(config, projectId, alias), query) ==
      if GetAlias(config, query).Some? then GetAlias(config, query)
      else if query == projectId then Some(ProjectAlias(projectId, alias))
      else None
  {
    FindAliasAppend(config.projectAliases, ProjectAlias(projectId, alias), query);
  }

  lemma {:induction false} FindAliasAppend(aliases: seq<ProjectAlias>, a: ProjectAlias, query: string)
    ensures FindAlias(aliases + [a], query) ==
      if FindAlias(aliases, query).Some? then FindAlias(aliases, query)
      else if a.projectId == query then Some(a)
      else None
  {
    if aliases != [] {
      assert (aliases + [a])[1..] == aliases[1..] + [a];
      FindAliasAppend(aliases[1..], a, query);
    }
  }

  /** The configuration written when authenticating: credentials only. */
  function FreshConfig(companyId: string, token: string): (r: Config)
    ensures r.companyId == companyId && r.token == token
    ensures forall query :: GetAlias(r, query) == None
    ensures r.timesOff == []
  {
    Config(companyId, token, [], [])
  }

  /** The declarations not for `date`, in their original order. */
  function WithoutDate(timesOff: seq<TimeOff>, date: string): (r: seq<TimeOff>)
    ensures |r| <= |timesOff|
    ensures forall t :: t in r <==> t in timesOff && t.date != date
  {
    if timesOff == [] then []
    else
      var last := timesOff[|timesOff| - 1];
      WithoutDate(timesOff[..|timesOff| - 1], date) + if last.date != date then [last] else []
  }

  /** The time-off list `with_time_off(date, hours)` produces. */
  function ReplaceTimeOff(timesOff: seq<TimeOff>, date: string, hours: int): seq<TimeOff> {
    WithoutDate(timesOff, date) + if hours > 0 then [TimeOff(date, hours)] else []
  }

  /** Copy the configuration, drop every declaration for `date`, then declare `hours` for it when positive. */
  method WithTimeOff(config: Config, date: string, hours: int) returns (r: Config)
    ensures r == config.(timesOff := ReplaceTimeOff(config.timesOff, date, hours))
  {
    var off := TimeOff(date, hours);
    var copy := config;
    // Vec::retain keeps the elements the closure accepts, in order.
    var kept: seq<TimeOff> := [];
    var i := 0;
    while i < |copy.timesOff|
      invariant 0 <= i <= |copy.timesOff|
      invariant kept == WithoutDate(copy.timesOff[..i], date)
    {
      assert copy.timesOff[..i + 1][..i] == copy.timesOff[..i];
      if copy.timesOff[i].date != date {
        kept := kept + [copy.timesOff[i]];
      }
      i := i + 1;
    }
    assert copy.timesOff[..i] == copy.timesOff;
    copy := copy.(timesOff := kept);
    if hours > 0 {
      copy := copy.(timesOff := copy.timesOff + [off]);
    }
    r := copy;
  }

  function CountDate(timesOff: seq<TimeOff>, date: string): nat {
    if timesOff == [] then 0
    else CountDate(timesOff[..|timesOff| - 1], date) + if timesOff[|timesOff| - 1].date == date then 1 else 0
  }

  lemma {:induction false} WithoutDateAppend(a: seq<TimeOff>, b: seq<TimeOff>, date: string)
    ensures WithoutDate(a + b, date) == WithoutDate(a, date) + WithoutDate(b, date)
    decreases |b|
  {
    if b != [] {
      var b' := b[..|b| - 1];
      assert (a + b)[..|a + b| - 1] == a + b';
      WithoutDateAppend(a, b', date);
    } else {
      assert a + b == a;
    }
  }

  lemma {:induction false} CountDateAppend(a: seq<TimeOff>, b: seq<TimeOff>, date: string)
    ensures CountDate(a + b, date) == CountDate(a, date) + CountDate(b, date)
    decreases |b|
  {
    if b != [] {
      var b' := b[..|b| - 1];
      assert (a + b)[..|a + b| - 1] == a + b';
      CountDateAppend(a, b', date);
    } else {
      assert a + b == a;
    }
  }

  lemma {:induction false} WithoutDateCount(timesOff: seq<TimeOff>, date: string, other: string)
    ensures CountDate(WithoutDate(timesOff, date), date) == 0
    ensures other != date ==> CountDate(WithoutDate(timesOff, date), other) == CountDate(timesOff, other)
  {
    if timesOff != [] {
      var prefix := timesOff[..|timesOff| - 1];
      var last := timesOff[|timesOff| - 1];
      WithoutDateCount(prefix, date, other);
      CountDateAppend(WithoutDate(prefix, date), if last.date != date then [last] else [], date);
      CountDateAppend(WithoutDate(prefix, date), if last.date != date then [last] else [], other);
      assert CountDate([last], other) == if last.date == other then 1 else 0 by {
        assert [last][..0] == [];
      }
      assert CountDate([last], date) == if last.date == date then 1 else 0 by {
        assert [last][..0] == [];
      }
    }
  }

  lemma {:induction false} WithoutDateIdempotent(timesOff: seq<TimeOff>, date: string)
    ensures WithoutDate(WithoutDate(timesOff, date), date) == WithoutDate(timesOff, date)
  {
    if timesOff != [] {
      var prefix := timesOff[..|timesOff| - 1];
      var last := timesOff[|timesOff| - 1];
      var tail := if last.date != date then [last] else [];
      WithoutDateIdempotent(prefix, date);
      WithoutDateAppend(WithoutDate(prefix, date), tail, date);
      assert WithoutDate(tail, date) == tail by {
        if tail != [] { assert tail[..0] == []; }
      }
    }
  }

  /**
   * What declaring time off guarantees: no earlier declaration for `date`
   * survives; a positive declaration is the one entry for `date` and is last;
   * every declaration for another date is kept, in its original order.
   */
  lemma ReplaceTimeOffSpec(timesOff: seq<TimeOff>, date: string, hours: int, other: string)
    ensures var r := ReplaceTimeOff(timesOff, date, hours);
      && (hours > 0 ==> CountDate(r, date) == 1 && r[|r| - 1] == TimeOff(date, hours))
      && (hours <= 0 ==> CountDate(r, date) == 0)
      && WithoutDate(r, date) == WithoutDate(timesOff, date)
      && (other != date ==> CountDate(r, other) == CountDate(timesOff, other))
  {
    var kept := WithoutDate(timesOff, date);
    var added := if hours > 0 then [TimeOff(date, hours)] else [];
    WithoutDateCount(timesOff, date, other);
    CountDateAppend(kept, added, date);
    CountDateAppend(kept, added, other);
    WithoutDateAppend(kept, added, date);
    WithoutDateIdempotent(timesOff, date);
    if hours > 0 {
      assert added[..0] == [];
    }
  }

  /** Declaring the same time off twice is the same as declaring it once. */
  lemma WithTimeOffIdempotent(timesOff: seq<TimeOff>, date: string, hours: int)
    ensures ReplaceTimeOff(ReplaceTimeOff(timesOff, date, hours), date, hours) == ReplaceTimeOff(timesOff, date, hours)
  {
    var kept := WithoutDate(timesOff, date);
    var added := if hours > 0 then [TimeOff(date, hours)] else [];
    WithoutDateAppend(kept, added, date);
    WithoutDateIdempotent(timesOff, date);
    if hours > 0 {
      assert added[..0] == [];
    }
  }
}
