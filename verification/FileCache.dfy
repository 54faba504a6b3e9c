/**
 The reconciler's cache of instance files: reads are remembered for a time, pushes and lifecycle
 events drop a machine's entries, and the world outside may write files at any moment.
 */
module FileCache {
  import opened Text

  // ---------------------------------------------------------------- the cache

  datatype Answer = Found(content: string) | NotFound | Unreachable

  datatype Cached = Cached(answer: Answer, at: int)

  /** By machine key and path. */
  type Cache = map<string, map<string, Cached>>

  function MachineKey(project: string, name: string): string {
    project + "/" + name
  }

  predicate InCache(cache: Cache, m: string, path: string) {
    m in cache && path in cache[m]
  }

  /** The remembered answer, while it is younger than the TTL. */
  function Hit(cache: Cache, ttl: int, m: string, path: string, now: int): Option<Answer> {
    if ttl > 0 && InCache(cache, m, path) && now - cache[m][path].at < ttl then Some(cache[m][path].answer) else None
  }

  /** Found and not-found are remembered; an unreachable instance is asked again. */
  function Remember(cache: Cache, ttl: int, m: string, path: string, answer: Answer, at: int): Cache {
    if ttl <= 0 || answer == Unreachable then cache
    else cache[m := (if m in cache then cache[m] else map[])[path := Cached(answer, at)]]
  }

  function Forget(cache: Cache, m: string): Cache {
    cache - {m}
  }

  predicate Marks(project: string, m: string) {
    HasPrefix(m, project + "/")
  }

  function Clean(cache: Cache, project: string): Cache {
    map m | m in cache && !Marks(project, m) :: cache[m]
  }

  // ---------------------------------------------------------------- what is remembered

  /** Nothing but the entry of one machine and path may differ. */
  ghost predicate OtherEntriesKept(before: Cache, after: Cache, m: string, path: string) {
    forall n, p :: !(n == m && p == path) ==>
      (InCache(after, n, p) <==> InCache(before, n, p)) && (InCache(before, n, p) ==> after[n][p] == before[n][p])
  }

  /** A reachable answer is given again while it is younger than the TTL; no other entry changes. */
  lemma RememberedIsGiven(cache: Cache, ttl: int, m: string, path: string, answer: Answer, at: int, now: int)
    ensures var after := Remember(cache, ttl, m, path, answer, at);
            && (ttl > 0 && answer != Unreachable ==>
                  Hit(after, ttl, m, path, now) == if now - at < ttl then Some(answer) else None)
            && (ttl <= 0 || answer == Unreachable ==> after == cache)
            && OtherEntriesKept(cache, after, m, path)
  {}

  /** With no TTL nothing is ever remembered. */
  lemma NoTtlNoHit(cache: Cache, ttl: int, m: string, path: string, now: int)
    requires ttl <= 0 || !(m in cache && path in cache[m])
    ensures Hit(cache, ttl, m, path, now) == None
  {}

  /** A dirty mark reaches a machine's key exactly when the machine is of the marked project. */
  lemma {:induction false} MarksProject(project: string, other: string, name: string)
    requires '/' !in project && '/' !in other
    ensures Marks(project, MachineKey(other, name)) <==> project == other
    decreases |project|
  {
    var key := other + "/" + name;
    if project == "" {
      assert key[..1] == [key[0]] && key[0] == if other == "" then '/' else other[0];
    } else if other == "" {
      assert key == ['/'] + name && project + "/" == [project[0]] + (project[1..] + "/");
      PrefixStep(project[0], project[1..] + "/", '/', name);
    } else {
      MarksProject(project[1..], other[1..], name);
      assert project + "/" == [project[0]] + (project[1..] + "/");
      assert key == [other[0]] + (other[1..] + "/" + name);
      PrefixStep(project[0], project[1..] + "/", other[0], other[1..] + "/" + name);
      assert project == [project[0]] + project[1..] && other == [other[0]] + other[1..];
    }
  }

  lemma PrefixStep(a: char, p: string, b: char, s: string)
    ensures HasPrefix([b] + s, [a] + p) <==> a == b && HasPrefix(s, p)
  {
    if |p| <= |s| {
      assert ([b] + s)[..|p| + 1] == [b] + s[..|p|];
      assert [b] + s[..|p|] == [a] + p <==> a == b && s[..|p|] == p by {
        assert ([b] + s[..|p|])[1..] == s[..|p|] && ([a] + p)[1..] == p;
      }
    }
  }

  /** A mark drops the marked project's machines whole, and keeps every other machine's entries. */
  lemma CleanDrops(cache: Cache, project: string, other: string, name: string)
    requires '/' !in project && '/' !in other
    ensures var m, after := MachineKey(other, name), Clean(cache, project);
            && (m in after <==> m in cache && project != other)
            && (m in after ==> after[m] == cache[m])
  {
    MarksProject(project, other, name);
  }

  /** A push forgets its own machine's entries only. */
  lemma ForgetDrops(cache: Cache, m: string, other: string)
    ensures other in Forget(cache, m) <==> other in cache && other != m
    ensures other in Forget(cache, m) ==> Forget(cache, m)[other] == cache[other]
  {}

  class ReadCache {
    var cache: Cache
    const ttl: int

    constructor (ttl: int)
      ensures cache == map[] && this.ttl == ttl
    {
      cache := map[];
      this.ttl := ttl;
    }

    /** `markProjectDirty`: the keys of the project go one by one. */
    method MarkProjectDirty(project: string)
      modifies this
      ensures cache == Clean(old(cache), project)
    {
      var pending := cache.Keys;
      while pending != {}
        invariant pending <= old(cache).Keys
        invariant cache == map m | m in old(cache) && (m in pending || !Marks(project, m)) :: old(cache)[m]
        decreases pending
      {
        var m :| m in pending;
        pending := pending - {m};
        if HasPrefix(m, project + "/") {
          cache := cache - {m};
        }
      }
    }

    method ForgetMachineFiles(project: string, name: string)
      modifies this
      ensures cache == Forget(old(cache), MachineKey(project, name))
    {
      cache := cache - {MachineKey(project, name)};
    }

    /** `readFile` with no other thread in between; `live` is what the instance would answer. */
    method ReadFile(project: string, name: string, path: string, now: int, live: Answer) returns (answer: Answer)
      modifies this
      ensures var m := MachineKey(project, name);
              match Hit(old(cache), ttl, m, path, now)
              case Some(remembered) => answer == remembered && cache == old(cache)
              case None => answer == live && cache == Remember(old(cache), ttl, m, path, live, now)
    {
      if ttl <= 0 {
        return live;
      }
      var m := MachineKey(project, name);
      if m in cache {
        if path in cache[m] && now - cache[m][path].at < ttl {
          return cache[m][path].answer;
        }
      }
      answer := live;
      if answer != Unreachable {
        if m !in cache {
          cache := cache[m := map[]];
        }
        cache := cache[m := cache[m][path := Cached(answer, now)]];
      }
    }
  }

  // ---------------------------------------------------------------- interleavings

  type Files = map<(string, string), string>

  function Live(files: Files, m: string, path: string): Answer {
    if (m, path) in files then Found(files[(m, path)]) else NotFound
  }

  /** A read between its lookup and its store; `answer` is set by the live read. */
  datatype Window = Window(machine: string, path: string, at: int, answer: Option<Answer>)

  datatype World = World(files: Files, cache: Cache, window: Option<Window>)

  /**
   Passes are serialized, so one read is open at a time and a push happens outside any read.
   Lifecycle events and outside writers come at any moment.
   */
  datatype Event =
    | Lookup(machine: string, path: string, now: int)
    | Fetch(reachable: bool)
    | Store
    | Push(machine: string, files: Files)
    | Dirty(project: string)
    | Write(machine: string, path: string, content: Option<string>)

  predicate Enabled(w: World, e: Event) {
    match e
    case Lookup(_, _, _) => w.window.None?
    case Fetch(_) => w.window.Some? && w.window.value.answer.None?
    case Store => w.window.Some? && w.window.value.answer.Some?
    case Push(_, _) => w.window.None?
    case _ => true
  }

  /** A push may leave any files on its machine, and no other machine's files change. */
  function Pushed(files: Files, m: string, pushed: Files): Files {
    (map k | k in files && k.0 != m :: files[k]) + (map k | k in pushed && k.0 == m :: pushed[k])
  }

  function Apply(w: World, ttl: int, e: Event): World
    requires Enabled(w, e)
  {
    match e
    case Lookup(m, path, now) =>
      if Hit(w.cache, ttl, m, path, now).Some? then w else w.(window := Some(Window(m, path, now, None)))
    case Fetch(reachable) =>
      var win := w.window.value;
      w.(window := Some(win.(answer := Some(if reachable then Live(w.files, win.machine, win.path) else Unreachable))))
    case Store =>
      var win := w.window.value;
      w.(cache := Remember(w.cache, ttl, win.machine, win.path, win.answer.value, win.at), window := None)
    case Push(m, files) => w.(cache := Forget(w.cache, m), files := Pushed(w.files, m, files))
    case Dirty(project) => w.(cache := Clean(w.cache, project))
    case Write(m, path, content) =>
      w.(files := if content.Some? then w.files[(m, path) := content.value] else w.files - {(m, path)})
  }

  /** What a step hands to the caller of `readFile`. */
  function Answered(w: World, ttl: int, e: Event): Option<Answer>
    requires Enabled(w, e)
  {
    match e
    case Lookup(m, path, now) => Hit(w.cache, ttl, m, path, now)
    case Store => w.window.value.answer
    case _ => None
  }

  /** The file the answer of a step is about. */
  function AboutFile(w: World, e: Event): (string, string)
    requires Enabled(w, e) && (e.Lookup? || e.Store?)
  {
    if e.Lookup? then (e.machine, e.path) else (w.window.value.machine, w.window.value.path)
  }

  /** The undisturbed `readFile` is the three steps in a row. */
  lemma SerialRead(w: World, ttl: int, m: string, path: string, now: int, reachable: bool)
    requires w.window.None? && Hit(w.cache, ttl, m, path, now).None?
    ensures var live := if reachable then Live(w.files, m, path) else Unreachable;
            var fetched := Apply(Apply(w, ttl, Lookup(m, path, now)), ttl, Fetch(reachable));
            && Enabled(fetched, Store) && Answered(fetched, ttl, Store) == Some(live)
            && Apply(fetched, ttl, Store) == w.(cache := Remember(w.cache, ttl, m, path, live, now))
  {}

  // ---------------------------------------------------------------- only the reconciler writes

  /** Everything remembered or fetched is what the instance would answer now. */
  ghost predicate Coherent(w: World) {
    && (forall m, path :: InCache(w.cache, m, path) ==> w.cache[m][path].answer == Live(w.files, m, path))
    && (w.window.Some? && w.window.value.answer.Some? && w.window.value.answer != Some(Unreachable) ==>
          w.window.value.answer == Some(Live(w.files, w.window.value.machine, w.window.value.path)))
  }

  lemma PushedElsewhere(files: Files, m: string, pushed: Files, other: string, path: string)
    requires other != m
    ensures Live(Pushed(files, m, pushed), other, path) == Live(files, other, path)
  {}

  /** Every step but an outside write keeps coherence. */
  lemma CoherentStep(w: World, ttl: int, e: Event)
    requires Coherent(w) && Enabled(w, e) && !e.Write?
    ensures Coherent(Apply(w, ttl, e))
  {
    if e.Push? {
      var w' := Apply(w, ttl, e);
      forall m, path | InCache(w'.cache, m, path) ensures w'.cache[m][path].answer == Live(w'.files, m, path) {
        assert InCache(w.cache, m, path);
        PushedElsewhere(w.files, e.machine, e.files, m, path);
      }
    }
  }

  lemma CoherentAnswer(w: World, ttl: int, e: Event)
    requires Coherent(w) && Enabled(w, e) && Answered(w, ttl, e).Some?
    ensures var (m, path) := AboutFile(w, e);
            Answered(w, ttl, e) == Some(Unreachable) || Answered(w, ttl, e) == Some(Live(w.files, m, path))
  {}

  ghost predicate Possible(w: World, ttl: int, events: seq<Event>)
    decreases |events|, 0
  {
    events == [] ||
    (Possible(w, ttl, events[..|events| - 1])
     && Enabled(Run(w, ttl, events[..|events| - 1]), events[|events| - 1]))
  }

  ghost function Run(w: World, ttl: int, events: seq<Event>): World
    requires Possible(w, ttl, events)
    decreases |events|, 1
  {
    if events == [] then w else Apply(Run(w, ttl, events[..|events| - 1]), ttl, events[|events| - 1])
  }

  /** With no outside writer, every answer of every run is the file's current content or not-found. */
  lemma {:induction false} AnswersAreLive(w: World, ttl: int, events: seq<Event>)
    requires Coherent(w) && Possible(w, ttl, events)
    requires forall e :: e in events ==> !e.Write?
    ensures Coherent(Run(w, ttl, events))
    ensures forall e :: Enabled(Run(w, ttl, events), e) && (e.Lookup? || e.Store?) ==>
              var now, (m, path) := Run(w, ttl, events), AboutFile(Run(w, ttl, events), e);
              Answered(now, ttl, e) in {None, Some(Unreachable), Some(Live(now.files, m, path))}
  {
    if events != [] {
      var front, last := events[..|events| - 1], events[|events| - 1];
      assert last in events;
      AnswersAreLive(w, ttl, front);
      CoherentStep(Run(w, ttl, front), ttl, last);
    }
    var now := Run(w, ttl, events);
    forall e | Enabled(now, e) && (e.Lookup? || e.Store?)
      ensures var (m, path) := AboutFile(now, e);
              Answered(now, ttl, e) in {None, Some(Unreachable), Some(Live(now.files, m, path))} {
      if Answered(now, ttl, e).Some? {
        CoherentAnswer(now, ttl, e);
      }
    }
  }

  // ---------------------------------------------------------------- outside writers

  ghost predicate Looked(events: seq<Event>, j: int, m: string, path: string, at: int) {
    0 <= j < |events| && events[j] == Lookup(m, path, at)
  }

  /** Step `k` was the live read of an open window, and `answer` is what the file held at that step. */
  ghost predicate Fetched(w: World, ttl: int, events: seq<Event>, k: int, m: string, path: string, at: int, answer: Answer) {
    && 0 <= k < |events| && events[k] == Fetch(true)
    && Possible(w, ttl, events[..k])
    && Run(w, ttl, events[..k]).window == Some(Window(m, path, at, None))
    && answer == Live(Run(w, ttl, events[..k]).files, m, path)
  }

  ghost predicate NoPushAfter(events: seq<Event>, k: int, m: string) {
    forall i :: k < i < |events| && 0 <= i ==> !(events[i].Push? && events[i].machine == m)
  }

  ghost predicate NoMarkAfter(events: seq<Event>, k: int, m: string) {
    forall i :: k < i < |events| && 0 <= i ==> !(events[i].Dirty? && Marks(events[i].project, m))
  }

  ghost predicate NoMarkBetween(events: seq<Event>, k: int, s: int, m: string) {
    forall i :: k < i < s && 0 <= i < |events| ==> !(events[i].Dirty? && Marks(events[i].project, m))
  }

  /** Between a live read and its store only others act: lifecycle events and outside writers. */
  ghost predicate OthersBetween(events: seq<Event>, k: int, s: int) {
    forall i :: k < i < s && 0 <= i < |events| ==> events[i].Dirty? || events[i].Write?
  }

  /** An entry was looked up at step j, read live at k and stored at s, and nothing dropped it since. */
  ghost predicate Explained(w: World, ttl: int, events: seq<Event>, j: int, k: int, s: int, m: string, path: string, c: Cached) {
    && j < k < s < |events|
    && Looked(events, j, m, path, c.at)
    && Fetched(w, ttl, events, k, m, path, c.at, c.answer)
    && OthersBetween(events, k, s) && events[s] == Store
    && NoPushAfter(events, k, m) && NoMarkAfter(events, s, m)
  }

  ghost predicate ExplainedEntry(w: World, ttl: int, events: seq<Event>, m: string, path: string, c: Cached) {
    exists j, k, s :: Explained(w, ttl, events, j, k, s, m, path, c)
  }

  /** An open window was looked up at step j and, once it has a reachable answer, read live at k. */
  ghost predicate ReadSince(w: World, ttl: int, events: seq<Event>, j: int, k: int, win: Window) {
    && j < k && Looked(events, j, win.machine, win.path, win.at)
    && win.answer.Some? && Fetched(w, ttl, events, k, win.machine, win.path, win.at, win.answer.value)
    && OthersBetween(events, k, |events|)
  }

  ghost predicate ExplainedWindow(w: World, ttl: int, events: seq<Event>, win: Window) {
    && (win.answer.None? ==> exists j :: Looked(events, j, win.machine, win.path, win.at))
    && (win.answer.Some? && win.answer != Some(Unreachable) ==> exists j, k :: ReadSince(w, ttl, events, j, k, win))
  }

  ghost predicate History(w: World, ttl: int, events: seq<Event>)
    requires Possible(w, ttl, events)
  {
    var now := Run(w, ttl, events);
    && (forall m, path :: InCache(now.cache, m, path) ==> ExplainedEntry(w, ttl, events, m, path, now.cache[m][path]))
    && (now.window.Some? ==> ExplainedWindow(w, ttl, events, now.window.value))
  }

  lemma LookedSnoc(events: seq<Event>, e: Event, j: int, m: string, path: string, at: int)
    requires Looked(events, j, m, path, at)
    ensures Looked(events + [e], j, m, path, at)
  {}

  lemma FetchedSnoc(w: World, ttl: int, events: seq<Event>, e: Event, k: int, m: string, path: string, at: int, answer: Answer)
    requires Fetched(w, ttl, events, k, m, path, at, answer)
    ensures Fetched(w, ttl, events + [e], k, m, path, at, answer)
  {
    assert (events + [e])[..k] == events[..k];
  }

  /** An entry stays explained by a step that neither pushes to its machine nor marks its project. */
  lemma EntrySnoc(w: World, ttl: int, events: seq<Event>, e: Event, m: string, path: string, c: Cached)
    requires ExplainedEntry(w, ttl, events, m, path, c)
    requires !(e.Push? && e.machine == m) && !(e.Dirty? && Marks(e.project, m))
    ensures ExplainedEntry(w, ttl, events + [e], m, path, c)
  {
    var j, k, s :| Explained(w, ttl, events, j, k, s, m, path, c);
    LookedSnoc(events, e, j, m, path, c.at);
    FetchedSnoc(w, ttl, events, e, k, m, path, c.at, c.answer);
    assert Explained(w, ttl, events + [e], j, k, s, m, path, c);
  }

  /** The step that stores an explained window makes an explained entry. */
  lemma StoreExplains(w: World, ttl: int, events: seq<Event>, win: Window)
    requires ExplainedWindow(w, ttl, events, win) && win.answer.Some? && win.answer != Some(Unreachable)
    ensures ExplainedEntry(w, ttl, events + [Store], win.machine, win.path, Cached(win.answer.value, win.at))
  {
    var j, k :| ReadSince(w, ttl, events, j, k, win);
    LookedSnoc(events, Store, j, win.machine, win.path, win.at);
    FetchedSnoc(w, ttl, events, Store, k, win.machine, win.path, win.at, win.answer.value);
    assert Explained(w, ttl, events + [Store], j, k, |events|, win.machine, win.path, Cached(win.answer.value, win.at));
  }

  /** An open window stays explained while others act. */
  lemma WindowSnoc(w: World, ttl: int, events: seq<Event>, e: Event, win: Window)
    requires ExplainedWindow(w, ttl, events, win) && (e.Dirty? || e.Write?)
    ensures ExplainedWindow(w, ttl, events + [e], win)
  {
    if win.answer.None? {
      var j :| Looked(events, j, win.machine, win.path, win.at);
      LookedSnoc(events, e, j, win.machine, win.path, win.at);
    } else if win.answer != Some(Unreachable) {
      var j, k :| ReadSince(w, ttl, events, j, k, win);
      LookedSnoc(events, e, j, win.machine, win.path, win.at);
      FetchedSnoc(w, ttl, events, e, k, win.machine, win.path, win.at, win.answer.value);
      assert ReadSince(w, ttl, events + [e], j, k, win);
    }
  }

  /** The live read explains the answer it brings. */
  lemma FetchExplains(w: World, ttl: int, events: seq<Event>, win: Window)
    requires Possible(w, ttl, events) && Run(w, ttl, events).window == Some(win) && win.answer.None?
    requires ExplainedWindow(w, ttl, events, win)
    ensures ExplainedWindow(w, ttl, events + [Fetch(true)],
              win.(answer := Some(Live(Run(w, ttl, events).files, win.machine, win.path))))
  {
    var j :| Looked(events, j, win.machine, win.path, win.at);
    var more := events + [Fetch(true)];
    assert more[..|events|] == events;
    LookedSnoc(events, Fetch(true), j, win.machine, win.path, win.at);
    assert ReadSince(w, ttl, more, j, |events|,
                     win.(answer := Some(Live(Run(w, ttl, events).files, win.machine, win.path))));
  }

  lemma HistoryWindow(w: World, ttl: int, events: seq<Event>, e: Event)
    requires Possible(w, ttl, events) && History(w, ttl, events) && Enabled(Run(w, ttl, events), e)
    ensures var window := Apply(Run(w, ttl, events), ttl, e).window;
            window.Some? ==> ExplainedWindow(w, ttl, events + [e], window.value)
  {
    var now := Run(w, ttl, events);
    match e
    case Lookup(m, path, at) => assert Looked(events + [e], |events|, m, path, at);
    case Fetch(reachable) =>
      if reachable {
        FetchExplains(w, ttl, events, now.window.value);
      }
    case Store =>
    case Push(_, _) =>
    case _ =>
      if now.window.Some? {
        WindowSnoc(w, ttl, events, e, now.window.value);
      }
  }

  lemma HistoryEntry(w: World, ttl: int, events: seq<Event>, e: Event, m: string, path: string)
    requires Possible(w, ttl, events) && History(w, ttl, events) && Enabled(Run(w, ttl, events), e)
    ensures var cache := Apply(Run(w, ttl, events), ttl, e).cache;
            InCache(cache, m, path) ==> ExplainedEntry(w, ttl, events + [e], m, path, cache[m][path])
  {
    var now := Run(w, ttl, events);
    var cache := Apply(now, ttl, e).cache;
    if InCache(cache, m, path) {
      if InCache(now.cache, m, path) && cache[m][path] == now.cache[m][path] {
        EntrySnoc(w, ttl, events, e, m, path, cache[m][path]);
      } else {
        StoreExplains(w, ttl, events, now.window.value);
      }
    }
  }

  lemma {:induction false} RunHistory(w: World, ttl: int, events: seq<Event>)
    requires w.cache == map[] && w.window.None? && Possible(w, ttl, events)
    ensures History(w, ttl, events)
  {
    if events != [] {
      var front, last := events[..|events| - 1], events[|events| - 1];
      RunHistory(w, ttl, front);
      assert front + [last] == events;
      HistoryWindow(w, ttl, front, last);
      forall m, path | InCache(Run(w, ttl, events).cache, m, path)
        ensures ExplainedEntry(w, ttl, events, m, path, Run(w, ttl, events).cache[m][path]) {
        HistoryEntry(w, ttl, front, last, m, path);
      }
    }
  }

  /**
   Whoever writes, a remembered answer is what the file held at a step k, whose lookup lies less than the
   TTL back, with no later push to the machine, and no later dirty mark once the answer was stored.
   */
  lemma AnswersAreFresh(w: World, ttl: int, events: seq<Event>, m: string, path: string, now: int)
    returns (j: int, k: int, s: int)
    requires w.cache == map[] && w.window.None? && Possible(w, ttl, events)
    requires Hit(Run(w, ttl, events).cache, ttl, m, path, now).Some?
    ensures 0 <= j < k < s < |events|
    ensures events[j].Lookup? && now - events[j].now < ttl
    ensures Possible(w, ttl, events[..k])
    ensures Hit(Run(w, ttl, events).cache, ttl, m, path, now) == Some(Live(Run(w, ttl, events[..k]).files, m, path))
    ensures NoPushAfter(events, k, m) && NoMarkAfter(events, s, m)
    ensures OthersBetween(events, k, s)
    ensures NoMarkAfter(events, k, m) <==> NoMarkBetween(events, k, s, m)
  {
    var c := Run(w, ttl, events).cache[m][path];
    j, k, s := EntryHistory(w, ttl, events, m, path);
    assert Looked(events, j, m, path, c.at);
    assert Fetched(w, ttl, events, k, m, path, c.at, c.answer);
    MarksSplit(events, k, s, m);
  }

  lemma EntryHistory(w: World, ttl: int, events: seq<Event>, m: string, path: string) returns (j: int, k: int, s: int)
    requires w.cache == map[] && w.window.None? && Possible(w, ttl, events)
    requires InCache(Run(w, ttl, events).cache, m, path)
    ensures Explained(w, ttl, events, j, k, s, m, path, Run(w, ttl, events).cache[m][path])
  {
    RunHistory(w, ttl, events);
    var c := Run(w, ttl, events).cache[m][path];
    assert ExplainedEntry(w, ttl, events, m, path, c);
    j, k, s :| Explained(w, ttl, events, j, k, s, m, path, c);
  }

  /** Marks after the live read are those inside the read and those after its store. */
  lemma MarksSplit(events: seq<Event>, k: int, s: int, m: string)
    requires 0 <= k < s < |events| && events[s] == Store && NoMarkAfter(events, s, m)
    ensures NoMarkAfter(events, k, m) <==> NoMarkBetween(events, k, s, m)
  {}

  // ---------------------------------------------------------------- dirty marks inside a read

  /** A read whose live answer is in stores it next, whatever came in between. */
  function Close(w: World, ttl: int): World {
    if w.window.Some? && w.window.value.answer.Some? then Apply(w, ttl, Store) else w
  }

  /** A dirty mark leaves an entry of its project behind exactly when it falls inside that entry's read. */
  lemma MarkLostIff(w: World, ttl: int, project: string, m: string, path: string)
    requires ttl > 0 && Marks(project, m)
    ensures InCache(Close(Apply(w, ttl, Dirty(project)), ttl).cache, m, path) <==>
            w.window.Some? && w.window.value.machine == m && w.window.value.path == path
            && w.window.value.answer.Some? && w.window.value.answer != Some(Unreachable)
  {
    var cleaned := Apply(w, ttl, Dirty(project));
    assert !InCache(cleaned.cache, m, path);
  }

  /** The whole failing family: a write and its mark inside the read, then the old content within the TTL. */
  lemma MarkLostServesOld(w: World, ttl: int, project: string, stale: string, current: string, later: int)
    requires w.window.Some? && w.window.value.answer == Some(Found(stale)) && Marks(project, w.window.value.machine)
    requires ttl > 0 && later - w.window.value.at < ttl
    ensures var m, path := w.window.value.machine, w.window.value.path;
            var written := Apply(w, ttl, Write(m, path, Some(current)));
            var after := Apply(Apply(written, ttl, Dirty(project)), ttl, Store);
            && Live(after.files, m, path) == Found(current)
            && Hit(after.cache, ttl, m, path, later) == Some(Found(stale))
  {}

  /** One more possible step. */
  lemma RunSnoc(w: World, ttl: int, events: seq<Event>, e: Event)
    requires Possible(w, ttl, events) && Enabled(Run(w, ttl, events), e)
    ensures Possible(w, ttl, events + [e]) && Run(w, ttl, events + [e]) == Apply(Run(w, ttl, events), ttl, e)
  {
    assert (events + [e])[..|events|] == events;
  }

  /** Reachable from an empty cache: lookup, live read, a write and its mark, then the store. */
  lemma MarkLostReachable(files: Files, ttl: int, project: string, m: string, path: string, at: int, stale: string, current: string, later: int)
    returns (events: seq<Event>)
    requires ttl > 0 && Marks(project, m) && later - at < ttl && (m, path) in files && files[(m, path)] == stale && stale != current
    ensures events == [Lookup(m, path, at), Fetch(true), Write(m, path, Some(current)), Dirty(project), Store]
    ensures var w := World(files, map[], None);
            && Possible(w, ttl, events)
            && Live(Run(w, ttl, events).files, m, path) == Found(current)
            && Hit(Run(w, ttl, events).cache, ttl, m, path, later) == Some(Found(stale))
  {
    var w := World(files, map[], None);
    RunSnoc(w, ttl, [], Lookup(m, path, at));
    RunSnoc(w, ttl, [Lookup(m, path, at)], Fetch(true));
    var read := [Lookup(m, path, at)] + [Fetch(true)];
    var fetched := Run(w, ttl, read);
    assert fetched.window == Some(Window(m, path, at, Some(Found(stale))));
    RunSnoc(w, ttl, read, Write(m, path, Some(current)));
    RunSnoc(w, ttl, read + [Write(m, path, Some(current))], Dirty(project));
    RunSnoc(w, ttl, read + [Write(m, path, Some(current))] + [Dirty(project)], Store);
    MarkLostServesOld(fetched, ttl, project, stale, current, later);
    events := read + [Write(m, path, Some(current))] + [Dirty(project)] + [Store];
  }
}
