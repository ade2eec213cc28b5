/**
 * The `import` task (index.js:28-40): for each configured map in turn, load
 * it, extract its symbols and reconcile them with the store. The first
 * exception ends the import task; what earlier maps wrote stays written.
 */
module Orchestrator {
  import opened Common
  import opened Tree
  import opened Locator
  import opened Extract
  import opened Store
  import opened ReconcileProps

  /** Everything outside the import task: loader I/O, the XML parser and the framework. */
  datatype Io = Io(env: Env, parse: Option<string> -> Result<Node>, apos: Apos)

  /**
   * Which map `parseMap` receives. As written, index.js:35 destructures
   * `updatedMap` from a result that only has `data` and `map`, so `parseMap`
   * gets `undefined` and falls back to `{}`; the intended wiring hands it the
   * map that `loadMap` just updated.
   */
  datatype Wiring = AsWritten | Intended

  function ParseOrigin(m: MapValue, w: Wiring): Origin
  {
    match w
    case AsWritten => Origin(None, None)
    case Intended => Origin(m.finalFile, Some(m.name))
  }

  /**
   * The records one map yields: load, parse (the data may be `null` after a
   * local miss and is parsed all the same), extract.
   */
  function Extracted(m: MapValue, io: Io, w: Wiring): (r: Result<seq<Svg>>)
    ensures r.Ok? ==> Load(m, io.env).result.Ok?
  {
    var loaded := Load(m, io.env);
    match loaded.result
    case Err(e) => Err(e)
    case Ok(data) =>
      match io.parse(data)
      case Err(e) => Err(e)
      case Ok(tree) => ParseResult(tree, ParseOrigin(loaded.updated, w))
  }

  /** Every record a map yields carries the file and name `parseMap` was handed. */
  lemma ExtractedCarriesOrigin(m: MapValue, io: Io, w: Wiring)
    requires Extracted(m, io, w).Ok?
    ensures var origin := ParseOrigin(Load(m, io.env).updated, w);
      forall s :: s in Extracted(m, io, w).value ==> s.file == origin.finalFile && s.mapName == origin.name
  {
    var origin := ParseOrigin(Load(m, io.env).updated, w);
    var tree := io.parse(Load(m, io.env).result.value).value;
    var items := SymbolList(tree).value;
    assert Extracted(m, io, w) == Records(items, origin);
  }

  /** One iteration of the loop: the new store, or the exception, and the map afterwards. */
  datatype Step = Step(result: Result<seq<Doc>>, updated: MapValue)

  /**
   * One map handled against a store holding `docs`: the map is updated by
   * loading even when a later stage throws.
   */
  function RunMap(docs: seq<Doc>, m: MapValue, io: Io, w: Wiring): Step
  {
    var updated := Load(m, io.env).updated;
    match Extracted(m, io, w)
    case Err(e) => Step(Err(e), updated)
    case Ok(svgs) => Step(Ok(Reconcile(docs, svgs, io.apos)), updated)
  }

  /** How the import task ended: every map handled, or an exception while handling map `at`. */
  datatype Outcome = Completed | Aborted(at: nat, failure: Failure)

  /** The end state of the import task: its outcome, the store and the values of the maps. */
  datatype Run = Run(outcome: Outcome, docs: seq<Doc>, maps: seq<MapValue>)

  /**
   * The loop over maps with values `ms`, resumed at map `i` with the store
   * holding `docs` and the maps before `i` now valued `done`; `step` is one
   * iteration. It stops at the first map whose iteration throws and
   * otherwise carries the store on to the next map.
   */
  function Fold(docs: seq<Doc>, ms: seq<MapValue>, step: (seq<Doc>, MapValue) -> Step,
                i: nat, done: seq<MapValue>): (r: Run)
    requires i <= |ms| && |done| == i
    ensures |r.maps| == |ms|
    // maps after the failing one are never loaded
    ensures r.outcome.Aborted? ==> i <= r.outcome.at < |ms| && r.maps[r.outcome.at + 1..] == ms[r.outcome.at + 1..]
    decreases |ms| - i
  {
    if i == |ms| then Run(Completed, docs, done)
    else
      var s := step(docs, ms[i]);
      match s.result
      case Err(e) => Run(Aborted(i, e), docs, done + [s.updated] + ms[i + 1..])
      case Ok(next) => Fold(next, ms, step, i + 1, done + [s.updated])
  }

  /** One iteration of the import task's loop. */
  function StepOf(io: Io, w: Wiring): (seq<Doc>, MapValue) -> Step
  {
    (docs, m) => RunMap(docs, m, io, w)
  }

  /** `step` computes one iteration of the loop exactly as `RunMap` does. */
  ghost predicate IsStep(step: (seq<Doc>, MapValue) -> Step, io: Io, w: Wiring)
  {
    forall docs, m {:trigger RunMap(docs, m, io, w)} :: step(docs, m) == RunMap(docs, m, io, w)
  }

  /** The import task run on maps with values `ms` against a store holding `docs`. */
  function Import(docs: seq<Doc>, ms: seq<MapValue>, io: Io, w: Wiring): Run
  {
    Fold(docs, ms, StepOf(io, w), 0, [])
  }

  /** Any function that computes the loop's iterations yields the import task's run. */
  lemma {:induction false} StepDeterminesRun(docs: seq<Doc>, ms: seq<MapValue>, io: Io, w: Wiring,
                                             step: (seq<Doc>, MapValue) -> Step, i: nat, done: seq<MapValue>)
    requires IsStep(step, io, w)
    requires i <= |ms| && |done| == i
    ensures Fold(docs, ms, step, i, done) == Fold(docs, ms, StepOf(io, w), i, done)
    ensures i == 0 ==> Fold(docs, ms, step, i, done) == Import(docs, ms, io, w)
    decreases |ms| - i
  {
    if i < |ms| {
      var s := RunMap(docs, ms[i], io, w);
      assert step(docs, ms[i]) == s == StepOf(io, w)(docs, ms[i]);
      if s.result.Ok? {
        StepDeterminesRun(s.result.value, ms, io, w, step, i + 1, done + [s.updated]);
      }
    }
  }

  /**
   * An aborted run is a completed run over the maps before the failing one,
   * followed by the failing map's exception; the store is left as those
   * earlier maps left it.
   */
  lemma {:induction false} AbortStopsRemainingMaps(docs: seq<Doc>, ms: seq<MapValue>, step: (seq<Doc>, MapValue) -> Step,
                                                   i: nat, done: seq<MapValue>)
    requires i <= |ms| && |done| == i
    requires Fold(docs, ms, step, i, done).outcome.Aborted?
    ensures var r := Fold(docs, ms, step, i, done);
      var k := r.outcome.at;
      && Fold(docs, ms[..k], step, i, done) == Run(Completed, r.docs, r.maps[..k])
      && step(r.docs, ms[k]) == Step(Err(r.outcome.failure), r.maps[k])
    decreases |ms| - i
  {
    var r := Fold(docs, ms, step, i, done);
    var k := r.outcome.at;
    var s := step(docs, ms[i]);
    if s.result.Ok? {
      AbortStopsRemainingMaps(s.result.value, ms, step, i + 1, done + [s.updated]);
      assert ms[..k][i] == ms[i];
    } else {
      assert r.maps[..k] == done;
    }
  }

  /**
   * A run that completes loaded every map, each exactly once, and handed the
   * store from one map to the next.
   */
  lemma {:induction false} CompletedRunLoadsEveryMap(docs: seq<Doc>, ms: seq<MapValue>, io: Io, w: Wiring,
                                                     i: nat, done: seq<MapValue>)
    requires i <= |ms| && |done| == i
    requires Fold(docs, ms, StepOf(io, w), i, done).outcome.Completed?
    ensures var r := Fold(docs, ms, StepOf(io, w), i, done);
      forall j :: 0 <= j < |ms| ==> r.maps[j] == if j < i then done[j] else Load(ms[j], io.env).updated
    decreases |ms| - i
  {
    if i < |ms| {
      var s := RunMap(docs, ms[i], io, w);
      assert StepOf(io, w)(docs, ms[i]) == s;
      CompletedRunLoadsEveryMap(s.result.value, ms, io, w, i + 1, done + [s.updated]);
    }
  }

  /** The values of the configured maps. */
  function Values(maps: seq<MapDescriptor>): (r: seq<MapValue>)
    reads set m | m in maps
    ensures |r| == |maps|
    ensures forall j :: 0 <= j < |maps| ==> r[j] == maps[j].Value()
  {
    if maps == [] then [] else [maps[0].Value()] + Values(maps[1..])
  }

  /** Where the values of the maps come from when the loop stops at map `i`. */
  lemma StopValues(done: seq<MapValue>, u: MapValue, vals: seq<MapValue>, i: nat)
    requires |done| == i < |vals|
    ensures var e := done + [u] + vals[i + 1..];
      && |e| == |vals|
      && (forall j :: 0 <= j < i ==> e[j] == done[j])
      && e[i] == u
      && (forall j :: i < j < |vals| ==> e[j] == vals[j])
  {
    var e := done + [u] + vals[i + 1..];
    forall j | i < j < |vals| ensures e[j] == vals[j] {
      assert e[j] == vals[i + 1..][j - i - 1];
    }
  }

  /**
   * The body of the import task's loop for one map: `loadMap`, then `parseMap`,
   * then `evaluateForUpsert`; returns the exception if one is thrown.
   */
  method HandleMap(desc: MapDescriptor, store: DocStore, io: Io, w: Wiring, ghost step: (seq<Doc>, MapValue) -> Step)
    returns (failure: Option<Failure>)
    requires IsStep(step, io, w)
    modifies desc, store
    ensures failure.Some? ==> store.docs == old(store.docs)
    ensures Step(if failure.None? then Ok(store.docs) else Err(failure.value), desc.Value())
         == step(old(store.docs), old(desc.Value()))
  {
    assert step(store.docs, desc.Value()) == RunMap(store.docs, desc.Value(), io, w);
    var loaded := LoadMap(desc, io.env);
    if loaded.Err? {
      return Some(loaded.failure);
    }
    var tree := io.parse(loaded.value);
    if tree.Err? {
      return Some(tree.failure);
    }
    var svgs := ParseMap(tree.value, ParseOrigin(desc.Value(), w));
    if svgs.Err? {
      return Some(svgs.failure);
    }
    store.EvaluateForUpsert(svgs.value, io.apos);
    return None;
  }

  /**
   * The `import` task: handles the maps in order, mutating each map as it is
   * loaded and the store as its symbols are reconciled, and stops at the
   * first exception.
   */
  method RunImport(maps: seq<MapDescriptor>, store: DocStore, io: Io, w: Wiring, ghost step: (seq<Doc>, MapValue) -> Step)
    returns (outcome: Outcome)
    requires IsStep(step, io, w)
    requires forall a, b :: 0 <= a < b < |maps| ==> maps[a] != maps[b]
    modifies store, set m | m in maps
    ensures var r := Fold(old(store.docs), old(Values(maps)), step, 0, []);
      && outcome == r.outcome
      && store.docs == r.docs
      && forall j :: 0 <= j < |maps| ==> maps[j].Value() == r.maps[j]
  {
    ghost var vals := Values(maps);
    ghost var done: seq<MapValue> := [];
    var i := 0;
    while i < |maps|
      invariant 0 <= i <= |maps| && |done| == i
      invariant forall j :: 0 <= j < i ==> maps[j].Value() == done[j]
      invariant forall j :: i <= j < |maps| ==> maps[j].Value() == vals[j]
      invariant Fold(old(store.docs), vals, step, 0, []) == Fold(store.docs, vals, step, i, done)
    {
      ghost var before := store.docs;
      var failure := HandleMap(maps[i], store, io, w, step);
      ghost var s := step(before, vals[i]);
      if failure.Some? {
        outcome := Aborted(i, failure.value);
        StopValues(done, s.updated, vals, i);
        return;
      }
      done := done + [s.updated];
      i := i + 1;
    }
    outcome := Completed;
  }

  /**
   * As written, the pieces a map writes carry neither the map's name nor its
   * served file: the first piece of every extracted id ends up with `map` and
   * `file` unset, whatever the map is called.
   */
  lemma AsWrittenDropsMapName(docs: seq<Doc>, m: MapValue, io: Io, svgs: seq<Svg>, id: Option<Node>)
    requires Extracted(m, io, AsWritten) == Ok(svgs)
    requires id in RecordIds(svgs)
    ensures var e := RunMap(docs, m, io, AsWritten).result.value;
      && FirstIndex(e, id).Some?
      && e[FirstIndex(e, id).value].mapName == None
      && e[FirstIndex(e, id).value].file == None
  {
    assert RunMap(docs, m, io, AsWritten).result == Ok(Reconcile(docs, svgs, io.apos));
    ReconcileLastWins(docs, svgs, io.apos, id);
    LastWithIn(svgs, id);
    ExtractedCarriesOrigin(m, io, AsWritten);
  }

  /**
   * With the intended wiring, the first piece of every extracted id records
   * the map's name and the file it was served from.
   */
  lemma IntendedRecordsMapName(docs: seq<Doc>, m: MapValue, io: Io, svgs: seq<Svg>, id: Option<Node>)
    requires Extracted(m, io, Intended) == Ok(svgs)
    requires id in RecordIds(svgs)
    ensures var e := RunMap(docs, m, io, Intended).result.value;
      && FirstIndex(e, id).Some?
      && e[FirstIndex(e, id).value].mapName == Some(m.name)
      && e[FirstIndex(e, id).value].file == Load(m, io.env).updated.finalFile
  {
    assert RunMap(docs, m, io, Intended).result == Ok(Reconcile(docs, svgs, io.apos));
    ReconcileLastWins(docs, svgs, io.apos, id);
    LastWithIn(svgs, id);
    ExtractedCarriesOrigin(m, io, Intended);
  }
}
