/**
 Moving the legacy application-level variables into the prod environment row
 (internal/service/application_environment_backfill.go), judged by what the deploy
 pipeline merges (mergeEnv in internal/pipeline/builder.go).
 */
module EnvBackfill {
  import opened Common

  datatype Json = JStr(s: string) | JNull | JObj(fields: map<string, Json>) | JOther(text: string)

  /** deploy_config once decoded: not JSON, the JSON null, or an object. */
  datatype Config = Unparseable | NullConfig | Fields(m: map<string, Json>)

  datatype Method = Docker | Api

  datatype App = App(id: int, deployMethod: Method, config: Config)

  datatype Env = Prod | Stage | Test

  datatype RowKey = RowKey(app: int, env: Env)

  type Vars = map<string, string>

  /** An environment row; `vars` is None when its JSON does not decode. */
  datatype EnvRow = EnvRow(vars: Option<Vars>, config: string)

  datatype State = State(apps: seq<App>, envs: map<RowKey, EnvRow>)

  const LEGACY := "env"

  // ------------------------------------------------------ what a deploy sees

  /** DockerDeployConfig.Env: a map of strings, in which null decodes as "". */
  function TypedEnv(c: Config): Option<Vars> {
    match c
    case Unparseable => None
    case NullConfig => Some(map[])
    case Fields(m) =>
      if LEGACY !in m then Some(map[])
      else
        match m[LEGACY]
        case JNull => Some(map[])
        case JObj(o) =>
          if forall k | k in o :: o[k].JStr? || o[k].JNull? then
            Some(map k | k in o :: if o[k].JStr? then o[k].s else "")
          else None
        case _ => None
  }

  function RowVars(envs: map<RowKey, EnvRow>, key: RowKey): Option<Vars> {
    if key in envs then envs[key].vars else Some(map[])
  }

  /** The environment an instance deploys with, or None when a layer does not decode. */
  ghost function Merged(a: App, envs: map<RowKey, EnvRow>, env: Env, override: Vars): Option<Vars> {
    match (TypedEnv(a.config), RowVars(envs, RowKey(a.id, env)))
    case (Some(base), Some(vars)) => Some(base + vars + override)
    case _ => None
  }

  /** mergeEnv: one map filled from three layers, later layers winning. */
  method MergeEnv(base: Vars, vars: Vars, override: Vars) returns (merged: Vars)
    ensures merged == base + vars + override
    ensures forall k :: k in merged <==> k in base || k in vars || k in override
    ensures forall k | k in merged ::
              merged[k] == if k in override then override[k] else if k in vars then vars[k] else base[k]
  {
    merged := Overlay(map[], base);
    merged := Overlay(merged, vars);
    merged := Overlay(merged, override);
  }

  method Overlay(m: Vars, layer: Vars) returns (r: Vars)
    ensures r == m + layer
  {
    r := m;
    var todo := layer.Keys;
    while todo != {}
      invariant todo <= layer.Keys
      invariant r.Keys == m.Keys + (layer.Keys - todo)
      invariant forall k | k in r :: r[k] == if k in layer && k !in todo then layer[k] else m[k]
      decreases todo
    {
      var k :| k in todo;
      r := r[k := layer[k]];
      todo := todo - {k};
    }
  }

  // ------------------------------------------------------------ the backfill

  /** stringMap: the string-valued entries of an object, nothing otherwise. */
  function StringMap(v: Json): Vars {
    if v.JObj? then map k | k in v.fields && v.fields[k].JStr? :: v.fields[k].s else map[]
  }

  predicate HasLegacy(a: App) {
    a.deployMethod.Docker? && a.config.Fields? && LEGACY in a.config.m
  }

  function Baseline(a: App): Vars {
    if HasLegacy(a) then StringMap(a.config.m[LEGACY]) else map[]
  }

  function WithoutLegacy(a: App): App {
    if HasLegacy(a) then a.(config := Fields(a.config.m - {LEGACY})) else a
  }

  /** The prod row after the move: what the row already had wins. */
  function Filled(a: App, envs: map<RowKey, EnvRow>): map<RowKey, EnvRow>
    requires RowVars(envs, RowKey(a.id, Prod)).Some?
  {
    var key := RowKey(a.id, Prod);
    if Baseline(a) == map[] then envs
    else envs[key := EnvRow(Some(Baseline(a) + RowVars(envs, key).value), if key in envs then envs[key].config else "")]
  }

  /** The backfill's effect on one application's rows. */
  ghost predicate IsMigrated(before: State, after: State, i: nat)
    requires i < |before.apps| && i < |after.apps|
  {
    var a, key := before.apps[i], RowKey(before.apps[i].id, Prod);
    && after.apps[i] == WithoutLegacy(a)
    && (if Baseline(a) == map[] then SameRow(before, after, key)
        else RowVars(before.envs, key).Some? && key in after.envs && after.envs[key] == Filled(a, before.envs)[key])
  }

  ghost predicate SameRow(before: State, after: State, key: RowKey) {
    (key in after.envs <==> key in before.envs) && (key in before.envs ==> after.envs[key] == before.envs[key])
  }

  /** Stopped between the two writes for application `i`. */
  ghost predicate IsHalfway(before: State, after: State, i: nat)
    requires i < |before.apps| && i < |after.apps|
  {
    var a, key := before.apps[i], RowKey(before.apps[i].id, Prod);
    && after.apps[i] == a && Baseline(a) != map[] && RowVars(before.envs, key).Some?
    && key in after.envs && after.envs[key] == Filled(a, before.envs)[key]
  }

  ghost predicate IsUntouched(before: State, after: State, i: nat)
    requires i < |before.apps| && i < |after.apps|
  {
    after.apps[i] == before.apps[i] && SameRow(before, after, RowKey(before.apps[i].id, Prod))
  }

  ghost predicate DistinctIds(s: State) {
    forall i, j | 0 <= i < j < |s.apps| :: s.apps[i].id != s.apps[j].id
  }

  ghost predicate OtherEnvsKept(before: State, after: State) {
    forall key: RowKey | key.env != Prod :: SameRow(before, after, key)
  }

  /** How many table writes moving an application's variables takes. */
  function WritesNeeded(a: App): nat {
    if !HasLegacy(a) then 0 else if Baseline(a) == map[] then 1 else 2
  }

  /** The prod row cannot be decoded although something is to be moved into it. */
  predicate RowBlocks(a: App, envs: map<RowKey, EnvRow>) {
    Baseline(a) != map[] && RowVars(envs, RowKey(a.id, Prod)).None?
  }

  function TotalWrites(apps: seq<App>, n: nat): nat
    requires n <= |apps|
  {
    if n == 0 then 0 else TotalWrites(apps, n - 1) + WritesNeeded(apps[n - 1])
  }

  /** How many of the first `n` applications have variables to move. */
  function MovedCount(apps: seq<App>, n: nat): nat
    requires n <= |apps|
  {
    if n == 0 then 0 else MovedCount(apps, n - 1) + if Baseline(apps[n - 1]) != map[] then 1 else 0
  }

  lemma {:induction false} TotalWritesGrows(apps: seq<App>, m: nat, n: nat)
    requires m <= n <= |apps|
    ensures TotalWrites(apps, m) <= TotalWrites(apps, n)
    decreases n
  {
    if m < n {
      TotalWritesGrows(apps, m, n - 1);
    }
  }

  /** The writes and migrations of the first `n` applications. */
  ghost predicate Accounted(s: State, n: nat, writes: nat, left: nat, migrated: nat)
    requires n <= |s.apps|
  {
    && left == writes - TotalWrites(s.apps, n) && migrated == MovedCount(s.apps, n)
    && forall i | 0 <= i < n :: !RowBlocks(s.apps[i], s.envs)
  }

  lemma AccountedStep(s: State, n: nat, writes: nat, left: nat, migrated: nat)
    requires n < |s.apps| && Accounted(s, n, writes, left, migrated)
    requires left >= WritesNeeded(s.apps[n]) && !RowBlocks(s.apps[n], s.envs)
    ensures Accounted(s, n + 1, writes, left - WritesNeeded(s.apps[n]), migrated + if Baseline(s.apps[n]) != map[] then 1 else 0)
  {
  }

  /** An application that needs more writes than are left, or whose row blocks. */
  lemma StoppedShort(s: State, n: nat, writes: nat, left: nat, migrated: nat)
    requires n < |s.apps| && Accounted(s, n, writes, left, migrated)
    requires left < WritesNeeded(s.apps[n]) || RowBlocks(s.apps[n], s.envs)
    ensures writes < TotalWrites(s.apps, |s.apps|) || exists i :: 0 <= i < |s.apps| && RowBlocks(s.apps[i], s.envs)
  {
    TotalWritesGrows(s.apps, n + 1, |s.apps|);
  }

  datatype Stop = Completed | WriteFailed | RowUnparseable

  /** The tables the backfill works on. */
  class Tables {
    var apps: seq<App>
    var envs: map<RowKey, EnvRow>

    ghost function View(): State
      reads this
    {
      State(apps, envs)
    }

    constructor (apps: seq<App>, envs: map<RowKey, EnvRow>)
      ensures View() == State(apps, envs)
    {
      this.apps, this.envs := apps, envs;
    }

    /**
     The loop over applications. `writes` counts the table writes that succeed
     before one fails. Whatever happens, the applications up to some point are
     migrated, at most one is between its two writes, and the rest are untouched.
     */
    method Backfill(writes: nat) returns (migrated: nat, stop: Stop, done: nat)
      requires DistinctIds(View())
      modifies this
      ensures |apps| == |old(apps)| && done <= |apps| && OtherEnvsKept(old(View()), View())
      ensures forall i | 0 <= i < done :: IsMigrated(old(View()), View(), i)
      ensures done < |apps| ==> IsUntouched(old(View()), View(), done) || IsHalfway(old(View()), View(), done)
      ensures forall i | done < i < |apps| :: IsUntouched(old(View()), View(), i)
      ensures stop == Completed <==> done == |apps|
      ensures stop == RowUnparseable <==> done < |apps| && RowBlocks(old(apps)[done], old(envs))
      ensures stop == Completed <==> writes >= TotalWrites(old(apps), |old(apps)|)
                                     && forall i | 0 <= i < |old(apps)| :: !RowBlocks(old(apps)[i], old(envs))
      ensures migrated == MovedCount(old(apps), done)
      ensures (forall i | 0 <= i < |old(apps)| :: !HasLegacy(old(apps)[i])) ==>
                View() == old(View()) && migrated == 0 && stop == Completed
    {
      ghost var s := View();
      var left := writes;
      migrated, done := 0, 0;
      assert GotTo(s, s, 0);
      while done < |apps|
        invariant 0 <= done <= |apps| == |s.apps| && GotTo(s, View(), done)
        invariant Accounted(s, done, writes, left, migrated)
        invariant (forall i | 0 <= i < |s.apps| :: !HasLegacy(s.apps[i])) ==> View() == s && migrated == 0
        decreases |apps| - done
      {
        var step;
        ghost var before := View();
        assert IsUntouched(s, before, done);
        SameBlocks(s, before, done);
        ghost var had, count := left, migrated;
        left, step := MigrateOne(done, left);
        OneStep(s, before, View(), done);
        if step.Stopped? {
          StoppedShort(s, done, writes, had, count);
          return migrated, step.why, done;
        }
        AccountedStep(s, done, writes, had, count);
        migrated := if step.Moved? then migrated + 1 else migrated;
        done := done + 1;
      }
      stop := Completed;
    }

    method MigrateOne(i: nat, writes: nat) returns (left: nat, step: Step)
      requires i < |apps|
      modifies this
      ensures |apps| == |old(apps)| && apps == old(apps)[i := apps[i]]
      ensures forall key | key != RowKey(old(apps)[i].id, Prod) :: SameRow(old(View()), View(), key)
      ensures !step.Stopped? ==> IsMigrated(old(View()), View(), i)
      ensures step.Stopped? ==> step.why == if RowBlocks(old(apps)[i], old(envs)) then RowUnparseable else WriteFailed
      ensures step.Stopped? ==> if step.why == WriteFailed && writes > 0 then IsHalfway(old(View()), View(), i) else IsUntouched(old(View()), View(), i)
      ensures !HasLegacy(old(apps)[i]) ==> View() == old(View()) && step == NothingToMove
      ensures step.Stopped? <==> writes < WritesNeeded(old(apps)[i]) || RowBlocks(old(apps)[i], old(envs))
      ensures step == Moved <==> !step.Stopped? && Baseline(old(apps)[i]) != map[]
      ensures !step.Stopped? ==> left == writes - WritesNeeded(old(apps)[i])
    {
      left := writes;
      var app := apps[i];
      if !app.deployMethod.Docker? || !app.config.Fields? {
        return left, NothingToMove;
      }
      var baseline := if LEGACY in app.config.m then StringMap(app.config.m[LEGACY]) else map[];
      var bare := app.(config := Fields(app.config.m - {LEGACY}));
      if baseline == map[] {
        if LEGACY in app.config.m {
          if left == 0 {
            return left, Stopped(WriteFailed);
          }
          apps := apps[i := bare];
          left := left - 1;
        }
        return left, NothingToMove;
      }
      var key := RowKey(app.id, Prod);
      var parsed := RowVars(envs, key);
      if parsed.None? {
        return left, Stopped(RowUnparseable);
      }
      var prodVars := FillIn(baseline, parsed.value);
      if left == 0 {
        return left, Stopped(WriteFailed);
      }
      envs := envs[key := EnvRow(Some(prodVars), if key in envs then envs[key].config else "")];
      left := left - 1;
      if left == 0 {
        return left, Stopped(WriteFailed);
      }
      apps := apps[i := bare];
      left := left - 1;
      step := Moved;
    }
  }

  /** Adds the baseline's variables that `vars` does not have. */
  method FillIn(baseline: Vars, vars: Vars) returns (filled: Vars)
    ensures filled == baseline + vars
  {
    filled := vars;
    var todo := baseline.Keys;
    while todo != {}
      invariant todo <= baseline.Keys
      invariant filled.Keys == vars.Keys + (baseline.Keys - todo)
      invariant forall k | k in filled :: filled[k] == if k in vars then vars[k] else baseline[k]
      decreases todo
    {
      var k :| k in todo;
      if k !in filled {
        filled := filled[k := baseline[k]];
      }
      todo := todo - {k};
    }
    assert filled == baseline + vars;
  }

  datatype Step = NothingToMove | Moved | Stopped(why: Stop)

  /** Every application but `i`: migrated before it, untouched behind it. */
  ghost predicate Around(s: State, now: State, i: nat)
    requires i <= |s.apps|
  {
    && |s.apps| == |now.apps| && OtherEnvsKept(s, now)
    && (forall j | 0 <= j < i :: IsMigrated(s, now, j))
    && forall j | i < j < |s.apps| :: IsUntouched(s, now, j)
  }

  /** The first `n` applications are migrated, the others untouched. */
  ghost predicate GotTo(s: State, now: State, n: nat)
    requires n <= |s.apps|
  {
    Around(s, now, n) && (n < |s.apps| ==> IsUntouched(s, now, n))
  }

  lemma SameBlocks(s: State, now: State, i: nat)
    requires i < |s.apps| && i < |now.apps| && IsUntouched(s, now, i)
    ensures now.apps[i] == s.apps[i] && (RowBlocks(now.apps[i], now.envs) <==> RowBlocks(s.apps[i], s.envs))
  {
  }

  /** Migrating application `i` leaves the others as they were. */
  lemma OneStep(s: State, before: State, after: State, i: nat)
    requires DistinctIds(s) && |s.apps| == |before.apps| == |after.apps| && i < |s.apps|
    requires GotTo(s, before, i)
    requires after.apps == before.apps[i := after.apps[i]]
    requires forall key | key != RowKey(before.apps[i].id, Prod) :: SameRow(before, after, key)
    ensures Around(s, after, i)
    ensures IsMigrated(before, after, i) ==> GotTo(s, after, i + 1)
    ensures IsMigrated(before, after, i) ==> IsMigrated(s, after, i)
    ensures IsUntouched(before, after, i) ==> IsUntouched(s, after, i)
    ensures IsHalfway(before, after, i) ==> IsHalfway(s, after, i)
  {
    assert IsUntouched(s, before, i);
    FromHere(s, before, after, i);
    forall j | 0 <= j < |s.apps| && j != i
      ensures SameRow(before, after, RowKey(s.apps[j].id, Prod)) && after.apps[j] == before.apps[j]
    {
      assert s.apps[j].id != s.apps[i].id == before.apps[i].id;
    }
    forall j | 0 <= j < i ensures IsMigrated(s, after, j) {
      assert IsMigrated(s, before, j);
    }
    forall j | i < j < |s.apps| ensures IsUntouched(s, after, j) {
      assert IsUntouched(s, before, j);
    }
    forall key: RowKey | key.env != Prod ensures SameRow(s, after, key) {
      assert SameRow(s, before, key) && SameRow(before, after, key);
    }
  }

  /** What happens to an untouched application is the same from either state. */
  lemma FromHere(s: State, before: State, after: State, i: nat)
    requires i < |s.apps| && i < |before.apps| && i < |after.apps| && IsUntouched(s, before, i)
    ensures IsMigrated(before, after, i) ==> IsMigrated(s, after, i)
    ensures IsUntouched(before, after, i) ==> IsUntouched(s, after, i)
    ensures IsHalfway(before, after, i) ==> IsHalfway(s, after, i)
  {
    var key := RowKey(s.apps[i].id, Prod);
    assert RowVars(s.envs, key) == RowVars(before.envs, key);
  }

  // ---------------------------------------------------------------- theorems

  /** A Docker application's decoded configuration holds a string among its legacy variables. */
  ghost predicate HoldsString(a: App) {
    && a.deployMethod.Docker? && a.config.Fields? && "env" in a.config.m && a.config.m["env"].JObj?
    && exists k | k in a.config.m["env"].fields :: a.config.m["env"].fields[k].JStr?
  }

  /** What a migration comes to: the application loses its "env" field and nothing else,
      and prod gains each string of it that the row did not have yet. */
  lemma MigratedMeans(before: State, after: State, i: nat)
    requires i < |before.apps| && i < |after.apps| && IsMigrated(before, after, i)
    ensures var a, key := before.apps[i], RowKey(before.apps[i].id, Prod);
            && after.apps[i] == (if a.deployMethod.Docker? && a.config.Fields? then a.(config := Fields(a.config.m - {"env"})) else a)
            && (!HoldsString(a) ==> SameRow(before, after, key))
            && (HoldsString(a) ==>
                  && key in after.envs && (key in before.envs ==> after.envs[key].config == before.envs[key].config)
                  && GainsStrings(if key in before.envs then before.envs[key].vars else Some(map[]), a.config.m["env"].fields, after.envs[key].vars))
  {
    var a := before.apps[i];
    if a.config.Fields? && "env" !in a.config.m {
      assert a.config.m - {"env"} == a.config.m;
    }
    if HasLegacy(a) {
      var v := a.config.m["env"];
      if v.JObj? {
        assert HoldsString(a) <==> StringMap(v) != map[] by {
          if HoldsString(a) {
            var k :| k in v.fields && v.fields[k].JStr?;
            assert k in StringMap(v);
          } else {
            assert StringMap(v) == map[];
          }
        }
      }
    }
  }

  ghost predicate GainsStrings(had: Option<Vars>, legacy: map<string, Json>, now: Option<Vars>) {
    && had.Some? && now.Some?
    && forall k ::
         if k in had.value then k in now.value && now.value[k] == had.value[k]
         else if k in legacy && legacy[k].JStr? then k in now.value && now.value[k] == legacy[k].s
         else k !in now.value
  }

  /** The legacy variables, if there are any, are all strings. */
  ghost predicate StringValued(a: App) {
    HasLegacy(a) ==>
      var v := a.config.m[LEGACY];
      v.JNull? || (v.JObj? && forall k | k in v.fields :: v.fields[k].JStr?)
  }

  lemma TypedIsBaseline(a: App)
    requires HasLegacy(a) && StringValued(a)
    ensures TypedEnv(a.config) == Some(Baseline(a)) && TypedEnv(WithoutLegacy(a).config) == Some(map[])
  {
    var v := a.config.m[LEGACY];
    if v.JObj? {
      assert (map k | k in v.fields :: if v.fields[k].JStr? then v.fields[k].s else "") == StringMap(v);
    }
  }

  lemma Layers(base: Vars, vars: Vars, override: Vars)
    ensures base + (base + vars) + override == base + vars + override
    ensures map[] + (base + vars) + override == base + vars + override
    ensures map[] + vars + override == vars + override
  {
    assert base + (base + vars) == base + vars && map[] + (base + vars) == base + vars && map[] + vars == vars;
  }

  /**
   The prod environment of every instance is the same before the backfill, between
   the two writes for its application, and after it.
   */
  lemma ProdIsPreserved(before: State, after: State, i: nat, override: Vars)
    requires i < |before.apps| && i < |after.apps| && StringValued(before.apps[i])
    requires IsMigrated(before, after, i) || IsHalfway(before, after, i) || IsUntouched(before, after, i)
    ensures Merged(after.apps[i], after.envs, Prod, override) == Merged(before.apps[i], before.envs, Prod, override)
  {
    var a, key := before.apps[i], RowKey(before.apps[i].id, Prod);
    if HasLegacy(a) && !IsUntouched(before, after, i) {
      TypedIsBaseline(a);
      if RowVars(before.envs, key).Some? {
        Layers(Baseline(a), RowVars(before.envs, key).value, override);
        assert Baseline(a) == map[] ==> Baseline(a) + RowVars(before.envs, key).value == RowVars(before.envs, key).value;
      }
    }
  }

  /** What legacy variables may hold without prod noticing: strings, or nulls that
      the prod row already overrides. */
  ghost predicate Harmless(a: App, vars: Vars)
    requires HasLegacy(a)
  {
    var v := a.config.m[LEGACY];
    v.JNull? || (v.JObj? && forall k | k in v.fields :: v.fields[k].JStr? || (v.fields[k].JNull? && k in vars))
  }

  /** The exact condition under which the move is invisible to prod. */
  lemma ProdIsPreservedIff(before: State, after: State, i: nat)
    requires i < |before.apps| && i < |after.apps| && HasLegacy(before.apps[i]) && IsMigrated(before, after, i)
    requires RowVars(before.envs, RowKey(before.apps[i].id, Prod)).Some?
    ensures (forall override: Vars :: Merged(after.apps[i], after.envs, Prod, override) == Merged(before.apps[i], before.envs, Prod, override))
            <==> Harmless(before.apps[i], RowVars(before.envs, RowKey(before.apps[i].id, Prod)).value)
  {
    var a := before.apps[i];
    var vars := RowVars(before.envs, RowKey(a.id, Prod)).value;
    TypedAgreesIff(a, vars);
    if Harmless(a, vars) {
      forall override: Vars {
        MovedMerge(before, after, i, override);
      }
    } else {
      MovedMerge(before, after, i, map[]);
      var none: Vars := map[];
      assert TypedEnv(a.config).Some? ==> TypedEnv(a.config).value + vars + none == TypedEnv(a.config).value + vars;
      assert Baseline(a) + vars + none == Baseline(a) + vars;
      assert Merged(after.apps[i], after.envs, Prod, none) != Merged(a, before.envs, Prod, none);
    }
  }

  lemma MovedMerge(before: State, after: State, i: nat, override: Vars)
    requires i < |before.apps| && i < |after.apps| && HasLegacy(before.apps[i]) && IsMigrated(before, after, i)
    requires RowVars(before.envs, RowKey(before.apps[i].id, Prod)).Some?
    ensures var a := before.apps[i];
            Merged(after.apps[i], after.envs, Prod, override)
            == Some(Baseline(a) + RowVars(before.envs, RowKey(a.id, Prod)).value + override)
  {
    var a := before.apps[i];
    var vars := RowVars(before.envs, RowKey(a.id, Prod)).value;
    assert Baseline(a) == map[] ==> Baseline(a) + vars == vars;
    Layers(Baseline(a), vars, override);
  }

  /** The layer a deploy decodes and the layer that was moved look the same over `vars`. */
  lemma TypedAgreesIff(a: App, vars: Vars)
    requires HasLegacy(a)
    ensures TypedEnv(a.config).Some? && TypedEnv(a.config).value + vars == Baseline(a) + vars <==> Harmless(a, vars)
  {
    var v, typed := a.config.m[LEGACY], TypedEnv(a.config);
    if Harmless(a, vars) {
      assert typed.Some?;
      assert typed.value + vars == Baseline(a) + vars;
    } else if typed.Some? {
      var k :| k in v.fields && !(v.fields[k].JStr? || (v.fields[k].JNull? && k in vars));
      assert k in typed.value + vars && k !in Baseline(a) + vars;
    }
  }

  /** Stage and test lose exactly the baseline layer. */
  lemma OtherEnvsLoseBaseline(before: State, after: State, i: nat, env: Env, override: Vars)
    requires i < |before.apps| && i < |after.apps| && HasLegacy(before.apps[i]) && StringValued(before.apps[i])
    requires IsMigrated(before, after, i) && OtherEnvsKept(before, after) && env != Prod
    requires RowVars(before.envs, RowKey(before.apps[i].id, env)).Some?
    ensures var a := before.apps[i];
            var vars := RowVars(before.envs, RowKey(a.id, env)).value;
            && Merged(a, before.envs, env, override) == Some(Baseline(a) + vars + override)
            && Merged(after.apps[i], after.envs, env, override) == Some(vars + override)
  {
    var a := before.apps[i];
    TypedIsBaseline(a);
    assert SameRow(before, after, RowKey(a.id, env));
    Layers(Baseline(a), RowVars(before.envs, RowKey(a.id, env)).value, override);
  }

  /** Running the backfill again after an interruption ends where an uninterrupted
      run would have ended; after a complete run it changes nothing. */
  lemma RerunCompletes(before: State, partial: State, after: State, i: nat)
    requires i < |before.apps| && i < |partial.apps| && i < |after.apps|
    requires IsMigrated(before, partial, i) || IsHalfway(before, partial, i) || IsUntouched(before, partial, i)
    requires IsMigrated(partial, after, i)
    ensures IsMigrated(before, after, i)
    ensures IsMigrated(before, partial, i) ==> after.apps[i] == partial.apps[i] && SameRow(partial, after, RowKey(before.apps[i].id, Prod))
  {
    var a, key := before.apps[i], RowKey(before.apps[i].id, Prod);
    if IsUntouched(before, partial, i) {
      FromHere(before, partial, after, i);
    } else if IsHalfway(before, partial, i) {
      Layers(Baseline(a), RowVars(before.envs, key).value, map[]);
      assert Baseline(a) + (Baseline(a) + RowVars(before.envs, key).value) == Baseline(a) + RowVars(before.envs, key).value;
    } else {
      assert !HasLegacy(partial.apps[i]);
    }
  }
}
