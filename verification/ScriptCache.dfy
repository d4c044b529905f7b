/**
 The two caches in front of a script run: downloaded bytes keyed by their hash, and compiled
 artefacts. Hashing, compiling, serialising and loading are given functions.
 */
module ScriptCache {
  import opened Basics

  datatype Module = Module(code: string)

  /** The hash function and the WebAssembly engine. */
  datatype Engine = Engine(
    hash: string -> string,
    compile: string -> Option<Module>,
    serialize: Module -> string,
    load: string -> Option<Module>)
  {
    /** The engine loads what it serialised. */
    ghost predicate Loads() {
      forall m: Module :: load(serialize(m)) == Some(m)
    }

    ghost predicate CollisionFree() {
      forall a: string, b: string :: hash(a) == hash(b) ==> a == b
    }
  }

  /** Both caches, keyed by the recorded hash. */
  datatype Caches = Caches(scripts: map<string, string>, artefacts: map<string, string>)

  /** A query names the recorded hash; the rest is what the network and the disk do during it. */
  datatype Query = Query(hash: string, download: Option<string>, storeOk: bool, precompileOk: bool, healOk: bool)

  datatype Failure = FetchFailed | HashMismatch | CacheWriteFailed | CompileFailed

  // ---------------------------------------------------------- the operations

  /** A cached script counts only if it still has the recorded hash. */
  function CachedScript(c: Caches, e: Engine, hash: string): Option<string> {
    if hash in c.scripts && e.hash(c.scripts[hash]) == hash then Some(c.scripts[hash]) else None
  }

  function FetchAndVerify(c: Caches, e: Engine, q: Query): (Caches, Result<string, Failure>) {
    var cached := CachedScript(c, e, q.hash);
    if cached.Some? then (c, Ok(cached.value))
    else if q.download.None? then (c, Err(FetchFailed))
    else if e.hash(q.download.value) != q.hash then (c, Err(HashMismatch))
    else if !q.storeOk then (c, Err(CacheWriteFailed))
    else (c.(scripts := c.scripts[q.hash := q.download.value]), Ok(q.download.value))
  }

  function LoadArtefact(c: Caches, e: Engine, hash: string): Option<Module> {
    if hash in c.artefacts then e.load(c.artefacts[hash]) else None
  }

  /** Keep a loadable artefact; otherwise compile and publish. Failing here is not fatal. */
  function EnsurePrecompiled(c: Caches, e: Engine, hash: string, script: string, writeOk: bool): Caches {
    if LoadArtefact(c, e, hash).Some? || e.compile(script).None? || !writeOk then c
    else c.(artefacts := c.artefacts[hash := e.serialize(e.compile(script).value)])
  }

  /** Prefer the artefact; if it does not load, compile and repair it; without one just compile. */
  function SelectModule(c: Caches, e: Engine, hash: string, script: string, healOk: bool)
    : (Caches, Result<Module, Failure>)
  {
    var loaded := LoadArtefact(c, e, hash);
    if loaded.Some? then (c, Ok(loaded.value))
    else if e.compile(script).None? then (c, Err(CompileFailed))
    else
      var m := e.compile(script).value;
      (if hash in c.artefacts && healOk then c.(artefacts := c.artefacts[hash := e.serialize(m)]) else c, Ok(m))
  }

  /** One query: fetch, precompile, run. */
  function RunQuery(c: Caches, e: Engine, q: Query): (Caches, Result<Module, Failure>) {
    var (fetched, script) := FetchAndVerify(c, e, q);
    if script.Err? then (fetched, Err(script.error))
    else
      var compiled := EnsurePrecompiled(fetched, e, q.hash, script.value, q.precompileOk);
      SelectModule(compiled, e, q.hash, script.value, q.healOk)
  }

  // ----------------------------------------------------------- trusted artefacts

  /** `m` is the compilation of a script with the given hash. */
  ghost predicate Compiles(e: Engine, hash: string, m: Module) {
    exists script :: e.hash(script) == hash && e.compile(script) == Some(m)
  }

  /** Whatever loads was compiled from a script with the recorded hash; anything else may be there but does not load. */
  ghost predicate Trusted(c: Caches, e: Engine) {
    forall h | h in c.artefacts && e.load(c.artefacts[h]).Some? :: Compiles(e, h, e.load(c.artefacts[h]).value)
  }

  /** A fetched script has the recorded hash, whatever the cache held. */
  lemma FetchedHasHash(c: Caches, e: Engine, q: Query)
    ensures FetchAndVerify(c, e, q).1.Ok? ==> e.hash(FetchAndVerify(c, e, q).1.value) == q.hash
    ensures FetchAndVerify(c, e, q).0.artefacts == c.artefacts
  {
  }

  lemma PublishKeepsTrust(c: Caches, e: Engine, hash: string, script: string, n: Caches)
    requires e.Loads() && Trusted(c, e) && e.hash(script) == hash && e.compile(script).Some?
    requires n.artefacts == c.artefacts[hash := e.serialize(e.compile(script).value)]
    ensures Trusted(n, e)
  {
    var m := e.compile(script).value;
    assert e.load(e.serialize(m)) == Some(m);
    assert Compiles(e, hash, m);
  }

  lemma EnsureKeepsTrust(c: Caches, e: Engine, hash: string, script: string, writeOk: bool)
    requires e.Loads() && Trusted(c, e) && e.hash(script) == hash
    ensures Trusted(EnsurePrecompiled(c, e, hash, script, writeOk), e)
  {
    var n := EnsurePrecompiled(c, e, hash, script, writeOk);
    if n != c {
      PublishKeepsTrust(c, e, hash, script, n);
    }
  }

  /** The selected module is compiled from a script with the hash, cached or not, and trust is kept. */
  lemma SelectedIsCompiled(c: Caches, e: Engine, hash: string, script: string, healOk: bool)
    requires e.Loads() && Trusted(c, e) && e.hash(script) == hash
    ensures Trusted(SelectModule(c, e, hash, script, healOk).0, e)
    ensures
      var r := SelectModule(c, e, hash, script, healOk).1;
      r.Ok? ==> Compiles(e, hash, r.value)
    ensures e.CollisionFree() ==>
              SelectModule(c, e, hash, script, healOk).1 ==
              match e.compile(script) case None => Err(CompileFailed) case Some(m) => Ok(m)
  {
    var (n, r) := SelectModule(c, e, hash, script, healOk);
    if n != c {
      PublishKeepsTrust(c, e, hash, script, n);
    }
    if LoadArtefact(c, e, hash).Some? {
      var m := LoadArtefact(c, e, hash).value;
      assert Compiles(e, hash, m);
      var other :| e.hash(other) == hash && e.compile(other) == Some(m);
    } else if r.Ok? {
      assert Compiles(e, hash, r.value);
    }
  }

  /** A query without any cache: download, check the hash, compile. */
  function Uncached(e: Engine, q: Query): Result<Module, Failure> {
    if q.download.None? then Err(FetchFailed)
    else if e.hash(q.download.value) != q.hash then Err(HashMismatch)
    else match e.compile(q.download.value)
      case None => Err(CompileFailed)
      case Some(m) => Ok(m)
  }

  lemma QueryKeepsTrust(c: Caches, e: Engine, q: Query)
    requires e.Loads() && Trusted(c, e)
    ensures Trusted(RunQuery(c, e, q).0, e)
    ensures RunQuery(c, e, q).1.Ok? ==> Compiles(e, q.hash, RunQuery(c, e, q).1.value)
  {
    hide SelectModule, EnsurePrecompiled, FetchAndVerify;
    FetchedHasHash(c, e, q);
    var (fetched, script) := FetchAndVerify(c, e, q);
    if script.Ok? {
      EnsureKeepsTrust(fetched, e, q.hash, script.value, q.precompileOk);
      SelectedIsCompiled(EnsurePrecompiled(fetched, e, q.hash, script.value, q.precompileOk), e, q.hash,
                         script.value, q.healOk);
    }
  }

  /** The caches are invisible: a good download gives the module it gives without them. */
  lemma CachesAreInvisible(c: Caches, e: Engine, q: Query)
    requires e.Loads() && e.CollisionFree() && Trusted(c, e)
    requires q.download.Some? && e.hash(q.download.value) == q.hash && q.storeOk
    ensures RunQuery(c, e, q).1 == Uncached(e, q)
  {
    hide SelectModule, EnsurePrecompiled;
    FetchedHasHash(c, e, q);
    var (fetched, script) := FetchAndVerify(c, e, q);
    assert script.Ok? && script.value == q.download.value;
    EnsureKeepsTrust(fetched, e, q.hash, script.value, q.precompileOk);
    SelectedIsCompiled(EnsurePrecompiled(fetched, e, q.hash, script.value, q.precompileOk), e, q.hash,
                       script.value, q.healOk);
  }

  // --------------------------------------------------------------- all runs

  datatype Event =
    | Ask(query: Query)
    | TamperScript(hash: string, content: string)
    | DropScript(hash: string)
    | DropArtefact(hash: string)
    | SpoilArtefact(hash: string, content: string)

  /** The surroundings may do anything to cached scripts, but only remove artefacts or make them unloadable. */
  predicate Allowed(e: Engine, ev: Event) {
    ev.SpoilArtefact? ==> e.load(ev.content).None?
  }

  function Apply(c: Caches, e: Engine, ev: Event): Caches {
    match ev
    case Ask(q) => RunQuery(c, e, q).0
    case TamperScript(h, content) => c.(scripts := c.scripts[h := content])
    case DropScript(h) => c.(scripts := c.scripts - {h})
    case DropArtefact(h) => c.(artefacts := c.artefacts - {h})
    case SpoilArtefact(h, content) => c.(artefacts := c.artefacts[h := content])
  }

  function Run(c: Caches, e: Engine, events: seq<Event>): Caches {
    if events == [] then c else Apply(Run(c, e, events[..|events| - 1]), e, events[|events| - 1])
  }

  lemma {:induction false} TrustOverRuns(c: Caches, e: Engine, events: seq<Event>)
    requires e.Loads() && Trusted(c, e) && forall i | 0 <= i < |events| :: Allowed(e, events[i])
    ensures Trusted(Run(c, e, events), e)
  {
    hide RunQuery;
    if events != [] {
      var before, ev := Run(c, e, events[..|events| - 1]), events[|events| - 1];
      TrustOverRuns(c, e, events[..|events| - 1]);
      if ev.Ask? {
        QueryKeepsTrust(before, e, ev.query);
      }
    }
  }

  /**
   In every run, from any content of the script cache and any absent, torn or unloadable
   artefact, a query that executes runs the compilation of a script with the recorded hash.
   */
  lemma EveryExecutionIsVerified(c: Caches, e: Engine, events: seq<Event>, q: Query)
    requires e.Loads() && Trusted(c, e) && forall i | 0 <= i < |events| :: Allowed(e, events[i])
    ensures
      var r := RunQuery(Run(c, e, events), e, q).1;
      r.Ok? ==> Compiles(e, q.hash, r.value)
  {
    hide RunQuery, Run;
    TrustOverRuns(c, e, events);
    QueryKeepsTrust(Run(c, e, events), e, q);
  }

  /** Two executions for one hash, anywhere in any two runs, run the same module. */
  lemma ExecutionsAgree(e: Engine, c: Caches, xs: seq<Event>, q: Query, d: Caches, ys: seq<Event>, p: Query)
    requires e.Loads() && e.CollisionFree() && Trusted(c, e) && Trusted(d, e) && q.hash == p.hash
    requires forall i | 0 <= i < |xs| :: Allowed(e, xs[i])
    requires forall i | 0 <= i < |ys| :: Allowed(e, ys[i])
    requires RunQuery(Run(c, e, xs), e, q).1.Ok? && RunQuery(Run(d, e, ys), e, p).1.Ok?
    ensures RunQuery(Run(c, e, xs), e, q).1 == RunQuery(Run(d, e, ys), e, p).1
  {
    hide RunQuery, Run;
    EveryExecutionIsVerified(c, e, xs, q);
    EveryExecutionIsVerified(d, e, ys, p);
    var m, n := RunQuery(Run(c, e, xs), e, q).1.value, RunQuery(Run(d, e, ys), e, p).1.value;
    var a :| e.hash(a) == q.hash && e.compile(a) == Some(m);
    var b :| e.hash(b) == q.hash && e.compile(b) == Some(n);
    assert a == b;
  }

  // ----------------------------------------------------- the caches answer

  /** The cache holds a script with the recorded hash. */
  predicate HoldsScript(c: Caches, e: Engine, hash: string, script: string) {
    hash in c.scripts && c.scripts[hash] == script && e.hash(script) == hash
  }

  /** The cache holds an artefact that loads as the module. */
  predicate HoldsModule(c: Caches, e: Engine, hash: string, m: Module) {
    hash in c.artefacts && e.load(c.artefacts[hash]) == Some(m)
  }

  /** A cached script with the recorded hash is returned whatever the network and the disk do. */
  lemma CachedScriptAnswers(c: Caches, e: Engine, q: Query, script: string)
    requires HoldsScript(c, e, q.hash, script)
    ensures FetchAndVerify(c, e, q) == (c, Ok(script))
  {
  }

  /** Without one, the download decides: missing, wrong, not storable, or kept and returned. */
  lemma UncachedFetch(c: Caches, e: Engine, q: Query)
    requires q.hash in c.scripts ==> e.hash(c.scripts[q.hash]) != q.hash
    ensures
      var (n, r) := FetchAndVerify(c, e, q);
      if q.download.Some? && e.hash(q.download.value) == q.hash && q.storeOk
      then r == Ok(q.download.value) && HoldsScript(n, e, q.hash, q.download.value)
      else n == c && r == Err(if q.download.None? then FetchFailed
                              else if e.hash(q.download.value) != q.hash then HashMismatch else CacheWriteFailed)
  {
  }

  /** An artefact that loads is what runs, whatever the script is and whether or not it compiles. */
  lemma ArtefactAnswers(c: Caches, e: Engine, hash: string, script: string, healOk: bool, m: Module)
    requires HoldsModule(c, e, hash, m)
    ensures SelectModule(c, e, hash, script, healOk) == (c, Ok(m))
    ensures forall writeOk :: EnsurePrecompiled(c, e, hash, script, writeOk) == c
  {
  }

  /** A script that compiles leaves a loadable artefact when the disk takes it: at precompilation, or when healing. */
  lemma ArtefactIsPublished(c: Caches, e: Engine, hash: string, script: string)
    requires e.Loads() && e.compile(script).Some? && LoadArtefact(c, e, hash).None?
    ensures HoldsModule(EnsurePrecompiled(c, e, hash, script, true), e, hash, e.compile(script).value)
    ensures EnsurePrecompiled(c, e, hash, script, false) == c
    ensures hash in c.artefacts ==>
              HoldsModule(SelectModule(c, e, hash, script, true).0, e, hash, e.compile(script).value)
    ensures SelectModule(c, e, hash, script, false) == (c, Ok(e.compile(script).value))
  {
  }

  /** The event leaves the cached script of the hash alone, unless a query changes it. */
  predicate SparesScript(ev: Event, hash: string) {
    match ev
    case TamperScript(h, _) => h != hash
    case DropScript(h) => h != hash
    case _ => true
  }

  predicate SparesArtefact(ev: Event, hash: string) {
    match ev
    case DropArtefact(h) => h != hash
    case SpoilArtefact(h, _) => h != hash
    case _ => true
  }

  lemma QueryKeepsScript(c: Caches, e: Engine, q: Query, hash: string, script: string)
    requires HoldsScript(c, e, hash, script)
    ensures HoldsScript(RunQuery(c, e, q).0, e, hash, script)
  {
  }

  lemma QueryKeepsModule(c: Caches, e: Engine, q: Query, hash: string, m: Module)
    requires HoldsModule(c, e, hash, m)
    ensures HoldsModule(RunQuery(c, e, q).0, e, hash, m)
  {
  }

  /** A cached script stays through every run that does not tamper with it or drop it. */
  lemma {:induction false} ScriptStays(c: Caches, e: Engine, events: seq<Event>, hash: string, script: string)
    requires HoldsScript(c, e, hash, script) && forall i | 0 <= i < |events| :: SparesScript(events[i], hash)
    ensures HoldsScript(Run(c, e, events), e, hash, script)
  {
    hide RunQuery;
    if events != [] {
      var front, ev := events[..|events| - 1], events[|events| - 1];
      ScriptStays(c, e, front, hash, script);
      if ev.Ask? {
        QueryKeepsScript(Run(c, e, front), e, ev.query, hash, script);
      }
    }
  }

  lemma {:induction false} ModuleStays(c: Caches, e: Engine, events: seq<Event>, hash: string, m: Module)
    requires HoldsModule(c, e, hash, m) && forall i | 0 <= i < |events| :: SparesArtefact(events[i], hash)
    ensures HoldsModule(Run(c, e, events), e, hash, m)
  {
    hide RunQuery;
    if events != [] {
      var front, ev := events[..|events| - 1], events[|events| - 1];
      ModuleStays(c, e, front, hash, m);
      if ev.Ask? {
        QueryKeepsModule(Run(c, e, front), e, ev.query, hash, m);
      }
    }
  }

  /**
   After a fetch that succeeded, every later fetch of that hash returns the same script without a
   download, until an event tampers with it or drops it.
   */
  lemma FetchedOnceIsEnough(c: Caches, e: Engine, q: Query, events: seq<Event>, later: Query)
    requires FetchAndVerify(c, e, q).1.Ok? && later.hash == q.hash
    requires forall i | 0 <= i < |events| :: SparesScript(events[i], q.hash)
    ensures
      var (n, r) := FetchAndVerify(c, e, q);
      var m := Run(n, e, events);
      FetchAndVerify(m, e, later) == (m, r)
  {
    hide Run;
    var (n, r) := FetchAndVerify(c, e, q);
    assert HoldsScript(n, e, q.hash, r.value);
    ScriptStays(n, e, events, q.hash, r.value);
    CachedScriptAnswers(Run(n, e, events), e, later, r.value);
  }

  lemma ExecutionIsCached(c: Caches, e: Engine, q: Query)
    requires e.Loads() && RunQuery(c, e, q).1.Ok? && q.precompileOk
    ensures
      var (n, r) := RunQuery(c, e, q);
      HoldsModule(n, e, q.hash, r.value) && exists script :: HoldsScript(n, e, q.hash, script)
  {
    var (f, script) := FetchAndVerify(c, e, q);
    assert HoldsScript(f, e, q.hash, script.value);
    assert HoldsScript(RunQuery(c, e, q).0, e, q.hash, script.value);
  }

  /**
   After a query that executed and could publish its artefact, every later query for that hash runs
   the same module without download, compiler or disk, while nothing touches the two cached files.
   */
  lemma ExecutedOnceIsEnough(c: Caches, e: Engine, q: Query, events: seq<Event>, later: Query)
    requires e.Loads() && RunQuery(c, e, q).1.Ok? && q.precompileOk && later.hash == q.hash
    requires forall i | 0 <= i < |events| :: SparesScript(events[i], q.hash) && SparesArtefact(events[i], q.hash)
    ensures
      var (n, r) := RunQuery(c, e, q);
      var m := Run(n, e, events);
      RunQuery(m, e, later) == (m, r)
  {
    hide Run;
    var (n, r) := RunQuery(c, e, q);
    assert HoldsModule(n, e, q.hash, r.value) && exists script :: HoldsScript(n, e, q.hash, script) by {
      ExecutionIsCached(c, e, q);
    }
    var script :| HoldsScript(n, e, q.hash, script);
    ScriptStays(n, e, events, q.hash, script);
    ModuleStays(n, e, events, q.hash, r.value);
    var m := Run(n, e, events);
    CachedScriptAnswers(m, e, later, script);
    ArtefactAnswers(m, e, q.hash, script, later.healOk, r.value);
  }

  // ------------------------------------------------------------- the service

  class ScriptService {
    const engine: Engine
    var scripts: map<string, string>
    var artefacts: map<string, string>

    ghost function View(): Caches
      reads this
    {
      Caches(scripts, artefacts)
    }

    constructor (engine: Engine, scripts: map<string, string>)
      ensures this.engine == engine && View() == Caches(scripts, map[]) && Trusted(View(), engine)
    {
      this.engine, this.scripts, artefacts := engine, scripts, map[];
    }

    method Fetch(q: Query) returns (r: Result<string, Failure>)
      modifies this`scripts
      ensures (View(), r) == FetchAndVerify(old(View()), engine, q)
      ensures r.Ok? ==> engine.hash(r.value) == q.hash
    {
      if q.hash in scripts {
        var bytes := scripts[q.hash];
        if engine.hash(bytes) == q.hash {
          return Ok(bytes);
        }
      }
      if q.download.None? {
        return Err(FetchFailed);
      }
      var bytes := q.download.value;
      if engine.hash(bytes) != q.hash {
        return Err(HashMismatch);
      }
      if !q.storeOk {
        return Err(CacheWriteFailed);
      }
      scripts := scripts[q.hash := bytes];
      return Ok(bytes);
    }

    method Precompile(hash: string, script: string, writeOk: bool)
      modifies this`artefacts
      ensures View() == EnsurePrecompiled(old(View()), engine, hash, script, writeOk)
      ensures engine.Loads() && old(Trusted(View(), engine)) && engine.hash(script) == hash ==> Trusted(View(), engine)
    {
      hide Engine.Loads, Trusted;
      if engine.Loads() && Trusted(View(), engine) && engine.hash(script) == hash {
        EnsureKeepsTrust(View(), engine, hash, script, writeOk);
      }
      if hash in artefacts && engine.load(artefacts[hash]).Some? {
        return;
      }
      var compiled := engine.compile(script);
      if compiled.Some? && writeOk {
        artefacts := artefacts[hash := engine.serialize(compiled.value)];
      }
    }

    method RunBlocking(hash: string, script: string, healOk: bool) returns (r: Result<Module, Failure>)
      modifies this`artefacts
      ensures (View(), r) == SelectModule(old(View()), engine, hash, script, healOk)
      ensures engine.Loads() && old(Trusted(View(), engine)) && engine.hash(script) == hash ==>
                Trusted(View(), engine) && (r.Ok? ==> Compiles(engine, hash, r.value))
    {
      hide Engine.Loads, Trusted, Compiles;
      if engine.Loads() && Trusted(View(), engine) && engine.hash(script) == hash {
        SelectedIsCompiled(View(), engine, hash, script, healOk);
      }
      var present := hash in artefacts;
      if present {
        var loaded := engine.load(artefacts[hash]);
        if loaded.Some? {
          return Ok(loaded.value);
        }
      }
      var compiled := engine.compile(script);
      if compiled.None? {
        return Err(CompileFailed);
      }
      if present && healOk {
        artefacts := artefacts[hash := engine.serialize(compiled.value)];
      }
      return Ok(compiled.value);
    }

    /** A whole query. */
    method Execute(q: Query) returns (r: Result<Module, Failure>)
      modifies this`scripts, this`artefacts
      ensures (View(), r) == RunQuery(old(View()), engine, q)
      ensures engine.Loads() && old(Trusted(View(), engine)) ==>
                Trusted(View(), engine) && (r.Ok? ==> Compiles(engine, q.hash, r.value))
    {
      hide FetchAndVerify, EnsurePrecompiled, SelectModule, Engine.Loads, Trusted, Compiles;
      if engine.Loads() && Trusted(View(), engine) {
        QueryKeepsTrust(View(), engine, q);
      }
      var script := Fetch(q);
      if script.Err? {
        return Err(script.error);
      }
      Precompile(q.hash, script.value, q.precompileOk);
      r := RunBlocking(q.hash, script.value, q.healOk);
    }
  }
}
