/**
 The response cache: any number of `CacheService` layers, each with a cache and a ttl of its own,
 stacked over one handler. Requests are served concurrently; each cache access and each call of the
 handler is one step, and time passes in between.
 */
module ResponseCache {
  import opened Wrappers
  import opened CacheStore
  import Text

  /** `rest` stands for the headers and the body. */
  datatype Request = Request(isGet: bool, path: string, query: Option<string>, rest: string)
  {
    function QueryOrEmpty(): string {
      if query.Some? then query.value else ""
    }

    /** The path of a URI ends at its first question mark. */
    predicate WellFormed() {
      '?' !in path
    }
  }

  /** `cacheable` is the `CacheableResponse` marker. */
  datatype Response = Response(status: nat, headers: seq<(string, string)>, body: string, cacheable: bool)

  datatype CachedResponse = CachedResponse(status: nat, headers: seq<(string, string)>, body: string)

  function FromResponse(r: Response): CachedResponse {
    CachedResponse(r.status, r.headers, r.body)
  }

  function IntoResponse(c: CachedResponse): Response {
    Response(c.status, c.headers, c.body, true)
  }

  predicate HasSetCookie(headers: seq<(string, string)>) {
    exists i :: 0 <= i < |headers| && headers[i].0 == "set-cookie"
  }

  predicate OptedIn(r: Response) {
    r.cacheable && !HasSetCookie(r.headers)
  }

  function Key(r: Request): string {
    r.path + "?" + r.QueryOrEmpty()
  }

  /** Different (path, query-or-empty) pairs never share a key. */
  lemma KeysDiffer(r1: Request, r2: Request)
    requires r1.WellFormed() && r2.WellFormed() && Key(r1) == Key(r2)
    ensures r1.path == r2.path && r1.QueryOrEmpty() == r2.QueryOrEmpty()
  {
    Text.SplitOnceAtFirst(r1.path, '?', r1.QueryOrEmpty());
    Text.SplitOnceAtFirst(r2.path, '?', r2.QueryOrEmpty());
    assert ['?'] == "?";
  }

  // ---------------------------------------------------------------------------------------------
  // The running system.

  type Handler = (int, Request) -> Response

  /**
   What a cache holds: the response, and for the record the request it answered and the moment the
   handler made it. No step looks at the record.
   */
  datatype Stored = Stored(response: CachedResponse, madeAt: int, madeFor: Request)

  datatype Pc =
    | Asking(layer: nat)   // about to look in this layer's cache, or past the last to call the handler
    | Answering(layer: nat, response: Response, madeAt: int, receivedAt: int)
                           // this layer has its inner service's response
    | Done(response: Response, madeAt: int, answeredAt: int)

  datatype Task = Task(request: Request, beganAt: int, pc: Pc)

  /** `lag` bounds the time a layer takes from receiving a response to having stored it. */
  datatype Config = Config(ttls: seq<Option<nat>>, lag: nat)
  {
    function Ttl(layer: nat): Option<nat> {
      if layer < |ttls| then ttls[layer] else None
    }

    /** Every layer has a ttl. */
    predicate Bounded() {
      forall i :: 0 <= i < |ttls| ==> ttls[i].Some?
    }

    /** The ttls from a layer inward, with one lag for each. */
    function Bound(layer: nat): nat
      requires layer <= |ttls|
      decreases |ttls| - layer
    {
      if layer == |ttls| then 0
      else (if ttls[layer].Some? then ttls[layer].value else 0) + lag + Bound(layer + 1)
    }
  }

  datatype State = State(now: int, caches: seq<map<string, Slot<Stored>>>, tasks: map<nat, Task>)

  datatype Action =
    | Tick(delta: nat)
    | Begin(task: nat, request: Request)
    | Ask(task: nat, backendFails: bool)
    | Store(task: nat, backendFails: bool)
    | Drop(layer: nat, key: string)

  /** A response leaves a layer for the one around it, or for the client. */
  function Outward(layer: nat, response: Response, madeAt: int, now: int): Pc {
    if layer == 0 then Done(response, madeAt, now) else Answering(layer - 1, response, madeAt, now)
  }

  function AskPc(caches: seq<map<string, Slot<Stored>>>, h: Handler, t: Task, fails: bool, now: int): Pc
    requires t.pc.Asking?
  {
    var layer := t.pc.layer;
    if layer >= |caches| then Outward(layer, h(now, t.request), now, now)
    else if !t.request.isGet || fails then Asking(layer + 1)
    else match Lookup(caches[layer], Key(t.request), now)
      case None => Asking(layer + 1)
      case Some(hit) => Outward(layer, IntoResponse(hit.response), hit.madeAt, now)
  }

  function Next(c: Config, h: Handler, s: State, a: Action): State {
    match a
    case Tick(delta) =>
      // The clock does not leave a response waiting for longer than the lag.
      if exists k :: k in s.tasks && s.tasks[k].pc.Answering? && s.now + delta > s.tasks[k].pc.receivedAt + c.lag
      then s else s.(now := s.now + delta)
    case Begin(k, r) =>
      if k in s.tasks || !r.WellFormed() then s
      else s.(tasks := s.tasks[k := Task(r, s.now, Asking(0))])
    case Ask(k, fails) =>
      if k !in s.tasks || !s.tasks[k].pc.Asking? then s
      else s.(tasks := s.tasks[k := s.tasks[k].(pc := AskPc(s.caches, h, s.tasks[k], fails, s.now))])
    case Store(k, fails) =>
      if k !in s.tasks || !s.tasks[k].pc.Answering? || s.tasks[k].pc.layer >= |s.caches| then s
      else
        var Task(r, _, Answering(layer, response, madeAt, _)) := s.tasks[k];
        var outward := s.(tasks := s.tasks[k := s.tasks[k].(pc := Outward(layer, response, madeAt, s.now))]);
        if !r.isGet || !OptedIn(response) || fails then outward
        else
          var slot := Slot(Stored(FromResponse(response), madeAt, r), Expiry(s.now, c.Ttl(layer)));
          outward.(caches := s.caches[layer := s.caches[layer][Key(r) := slot]])
    case Drop(layer, key) =>
      if layer >= |s.caches| then s
      else s.(caches := s.caches[layer := s.caches[layer] - {key}])
  }

  function Exec(c: Config, h: Handler, s: State, run: seq<Action>): State {
    if run == [] then s else Next(c, h, Exec(c, h, s, run[..|run| - 1]), run[|run| - 1])
  }

  predicate Init(c: Config, s: State) {
    && s.tasks == map[]
    && |s.caches| == |c.ttls| && forall i :: 0 <= i < |s.caches| ==> s.caches[i] == map[]
  }

  /** What the handler opts in depends on nothing but the time, the path and the query. */
  ghost predicate Cacheable(h: Handler) {
    forall t: int, r1: Request, r2: Request ::
      r1.isGet && r2.isGet && r1.path == r2.path && r1.QueryOrEmpty() == r2.QueryOrEmpty() && OptedIn(h(t, r1))
      ==> h(t, r1) == h(t, r2)
  }

  // ---------------------------------------------------------------------------------------------

  /** An entry is what the handler answered at `madeAt` to a request with this key, and expires in time. */
  ghost predicate SlotOk(c: Config, h: Handler, layer: nat, key: string, slot: Slot<Stored>, now: int)
    requires layer < |c.ttls|
  {
    var made := h(slot.value.madeAt, slot.value.madeFor);
    && OptedIn(made) && slot.value.response == FromResponse(made)
    && slot.value.madeFor.isGet && slot.value.madeFor.WellFormed() && Key(slot.value.madeFor) == key
    && slot.value.madeAt <= now
    && (c.Bounded() ==> slot.expires.Some? && slot.expires.value <= slot.value.madeAt + c.Bound(layer))
  }

  /** A response is the handler's, and either made for this very request or younger than `bound`. */
  ghost predicate AnswerOk(c: Config, h: Handler, t: Task, response: Response, madeAt: int, at: int, bound: nat) {
    && response == h(madeAt, t.request)
    && madeAt <= at
    && (c.Bounded() ==> at - madeAt <= bound)
    && (madeAt >= t.beganAt || (t.request.isGet && OptedIn(response) && (c.Bounded() ==> at - madeAt < bound)))
  }

  ghost predicate TaskOk(c: Config, h: Handler, t: Task, now: int) {
    && t.request.WellFormed() && t.beganAt <= now
    && match t.pc
       case Asking(layer) => layer <= |c.ttls|
       case Answering(layer, response, madeAt, receivedAt) =>
         && layer < |c.ttls| && receivedAt <= now <= receivedAt + c.lag
         && AnswerOk(c, h, t, response, madeAt, receivedAt, c.Bound(layer + 1))
       case Done(response, madeAt, answeredAt) =>
         AnswerOk(c, h, t, response, madeAt, answeredAt, c.Bound(0))
  }

  ghost predicate Inv(c: Config, h: Handler, s: State) {
    && |s.caches| == |c.ttls|
    && (forall i, k :: 0 <= i < |s.caches| && k in s.caches[i] ==> SlotOk(c, h, i, k, s.caches[i][k], s.now))
    && (forall k :: k in s.tasks ==> TaskOk(c, h, s.tasks[k], s.now))
  }

  lemma HitOk(c: Config, h: Handler, t: Task, layer: nat, slot: Slot<Stored>, now: int)
    requires Cacheable(h) && layer < |c.ttls| && t.request.isGet && t.request.WellFormed() && t.beganAt <= now
    requires SlotOk(c, h, layer, Key(t.request), slot, now) && slot.Live(now)
    ensures AnswerOk(c, h, t, IntoResponse(slot.value.response), slot.value.madeAt, now, c.Bound(layer))
  {
    KeysDiffer(t.request, slot.value.madeFor);
    var made := h(slot.value.madeAt, slot.value.madeFor);
    assert made == h(slot.value.madeAt, t.request);
    assert IntoResponse(FromResponse(made)) == made;
  }

  lemma AskKeeps(c: Config, h: Handler, s: State, k: nat, fails: bool)
    requires Cacheable(h) && Inv(c, h, s) && k in s.tasks && s.tasks[k].pc.Asking?
    ensures TaskOk(c, h, s.tasks[k].(pc := AskPc(s.caches, h, s.tasks[k], fails, s.now)), s.now)
  {
    var t := s.tasks[k];
    var layer := t.pc.layer;
    assert TaskOk(c, h, t, s.now);
    if layer < |s.caches| && t.request.isGet && !fails && Lookup(s.caches[layer], Key(t.request), s.now).Some? {
      HitOk(c, h, t, layer, s.caches[layer][Key(t.request)], s.now);
    }
  }

  lemma StoreKeeps(c: Config, h: Handler, s: State, k: nat)
    requires Inv(c, h, s) && k in s.tasks && s.tasks[k].pc.Answering?
    ensures var t := s.tasks[k];
      var Answering(layer, response, madeAt, _) := t.pc;
      && layer < |c.ttls|
      && TaskOk(c, h, t.(pc := Outward(layer, response, madeAt, s.now)), s.now)
      && (t.request.isGet && OptedIn(response) ==>
            SlotOk(c, h, layer, Key(t.request),
                   Slot(Stored(FromResponse(response), madeAt, t.request), Expiry(s.now, c.Ttl(layer))), s.now))
  {
    assert TaskOk(c, h, s.tasks[k], s.now);
    var layer := s.tasks[k].pc.layer;
    assert c.Bound(layer) >= c.lag + c.Bound(layer + 1);
  }

  lemma NextKeeps(c: Config, h: Handler, s: State, a: Action)
    requires Cacheable(h) && Inv(c, h, s)
    ensures Inv(c, h, Next(c, h, s, a))
  {
    var s' := Next(c, h, s, a);
    if a.Ask? && a.task in s.tasks && s.tasks[a.task].pc.Asking? {
      AskKeeps(c, h, s, a.task, a.backendFails);
    }
    if a.Store? && a.task in s.tasks && s.tasks[a.task].pc.Answering? {
      StoreKeeps(c, h, s, a.task);
    }
    forall i, k | 0 <= i < |s'.caches| && k in s'.caches[i]
      ensures SlotOk(c, h, i, k, s'.caches[i][k], s'.now)
    {
      if k in s.caches[i] { assert SlotOk(c, h, i, k, s.caches[i][k], s.now); }
    }
    forall k | k in s'.tasks ensures TaskOk(c, h, s'.tasks[k], s'.now) {
      if k in s.tasks { assert TaskOk(c, h, s.tasks[k], s.now); }
    }
  }

  lemma {:induction false} RunKeeps(c: Config, h: Handler, s: State, run: seq<Action>)
    requires Cacheable(h) && Init(c, s)
    ensures Inv(c, h, Exec(c, h, s, run))
  {
    if run != [] {
      RunKeeps(c, h, s, run[..|run| - 1]);
      NextKeeps(c, h, Exec(c, h, s, run[..|run| - 1]), run[|run| - 1]);
    }
  }

  /**
   Every answer, in every run, is the handler's own answer to the same request: made while the
   request was being served, or, when it came out of a cache, less than the sum of the ttls and lags
   earlier.
   */
  lemma StalenessBound(c: Config, h: Handler, s: State, run: seq<Action>, k: nat)
    requires Cacheable(h) && Init(c, s) && c.Bounded()
    requires k in Exec(c, h, s, run).tasks && Exec(c, h, s, run).tasks[k].pc.Done?
    ensures var t := Exec(c, h, s, run).tasks[k];
      && t.pc.response == h(t.pc.madeAt, t.request)
      && (t.beganAt <= t.pc.madeAt <= t.pc.answeredAt
          || (t.request.isGet && 0 <= t.pc.answeredAt - t.pc.madeAt < c.Bound(0)))
  {
    RunKeeps(c, h, s, run);
    assert TaskOk(c, h, Exec(c, h, s, run).tasks[k], Exec(c, h, s, run).now);
  }

  function SumOf(ttls: seq<Option<nat>>): nat {
    if ttls == [] then 0 else (if ttls[0].Some? then ttls[0].value else 0) + SumOf(ttls[1..])
  }

  /** Without lag the bound is the sum of the ttls; for one layer, its ttl. */
  lemma {:induction false} BoundIsSum(c: Config, layer: nat)
    requires layer <= |c.ttls|
    ensures c.Bound(layer) == SumOf(c.ttls[layer..]) + (|c.ttls| - layer) * c.lag
    decreases |c.ttls| - layer
  {
    if layer < |c.ttls| {
      BoundIsSum(c, layer + 1);
      assert c.ttls[layer..][1..] == c.ttls[layer + 1..];
      assert (|c.ttls| - layer) * c.lag == (|c.ttls| - (layer + 1)) * c.lag + c.lag;
    }
  }

  /** No cache ever holds a response with a Set-Cookie header or one that was not opted in. */
  lemma NoCookiesStored(c: Config, h: Handler, s: State, run: seq<Action>, layer: nat, key: string)
    requires Cacheable(h) && Init(c, s)
    requires var caches := Exec(c, h, s, run).caches; layer < |caches| && key in caches[layer]
    ensures var stored := Exec(c, h, s, run).caches[layer][key].value;
      && (forall i :: 0 <= i < |stored.response.headers| ==> stored.response.headers[i].0 != "set-cookie")
      && h(stored.madeAt, stored.madeFor).cacheable
  {
    RunKeeps(c, h, s, run);
    var s' := Exec(c, h, s, run);
    assert SlotOk(c, h, layer, key, s'.caches[layer][key], s'.now);
  }

  // ---------------------------------------------------------------------------------------------
  // What a cache answers and keeps, said of its entries.

  /** An unexpired entry for the request's path and query, an absent query being an empty one. */
  predicate Answers(entries: map<string, Slot<Stored>>, r: Request, at: int, answer: CachedResponse) {
    var key := r.path + "?" + (if r.query.Some? then r.query.value else "");
    && key in entries && entries[key].value.response == answer
    && (entries[key].expires.None? || at < entries[key].expires.value)
  }

  /** The handler marked the response, and none of its headers sets a cookie. */
  predicate MayBeStored(r: Response) {
    r.cacheable && forall i :: 0 <= i < |r.headers| ==> r.headers[i].0 != "set-cookie"
  }

  /**
   From now on requests with this path and query are answered with this response, until one ttl after
   `stored`, and every other request as before.
   */
  ghost predicate Remembers(before: map<string, Slot<Stored>>, after: map<string, Slot<Stored>>,
                            r: Request, response: Response, ttl: Option<nat>, stored: int)
  {
    forall other: Request, at, answer :: r.WellFormed() && other.WellFormed() ==>
      (Answers(after, other, at, answer) <==>
       if other.path == r.path && other.QueryOrEmpty() == r.QueryOrEmpty() then
         && answer.status == response.status && answer.headers == response.headers && answer.body == response.body
         && (ttl.None? || at < stored + ttl.value)
       else Answers(before, other, at, answer))
  }

  lemma StoringRemembers(entries: map<string, Slot<Stored>>, r: Request, response: Response, madeAt: int,
                         ttl: Option<nat>, stored: int)
    ensures var slot := Slot(Stored(FromResponse(response), madeAt, r), Expiry(stored, ttl));
      Remembers(entries, entries[Key(r) := slot], r, response, ttl, stored)
  {
    forall other: Request | r.WellFormed() && other.WellFormed() && Key(other) == Key(r)
      ensures other.path == r.path && other.QueryOrEmpty() == r.QueryOrEmpty()
    {
      KeysDiffer(other, r);
    }
  }

  lemma OptedInMayBeStored(r: Response)
    ensures OptedIn(r) <==> MayBeStored(r)
  {
  }

  /** A lookup that finds something. */
  lemma LookupAnswers(entries: map<string, Slot<Stored>>, r: Request, at: int)
    ensures forall answer :: Answers(entries, r, at, answer) <==>
      var hit := Lookup(entries, Key(r), at); hit.Some? && hit.value.response == answer
  {
  }

  /** The response went to the layer around `layer`, or to the client. */
  predicate LeftLayer(pc: Pc, layer: nat, response: Response) {
    && (pc.Done? <==> layer == 0) && (pc.Answering? <==> layer > 0)
    && !pc.Asking? && pc.response == response && (pc.Answering? ==> pc.layer == layer - 1)
  }

  /** A lookup by a task: what the cache answers goes out, and the cache stays as it is. */
  lemma AskStep(c: Config, h: Handler, s: State, k: nat, fails: bool)
    requires k in s.tasks && s.tasks[k].pc.Asking?
    ensures var (t, s') := (s.tasks[k], Next(c, h, s, Ask(k, fails)));
      && s'.caches == s.caches && k in s'.tasks
      && (t.pc.layer >= |s.caches| ==> LeftLayer(s'.tasks[k].pc, t.pc.layer, h(s.now, t.request)))
      && (t.pc.layer < |s.caches| ==>
            && (forall answer :: t.request.isGet && !fails && Answers(s.caches[t.pc.layer], t.request, s.now, answer)
                  ==> LeftLayer(s'.tasks[k].pc, t.pc.layer, Response(answer.status, answer.headers, answer.body, true)))
            && (!t.request.isGet || fails
                  || (forall answer :: !Answers(s.caches[t.pc.layer], t.request, s.now, answer))
                ==> s'.tasks[k].pc == Asking(t.pc.layer + 1)))
  {
    var t := s.tasks[k];
    if t.pc.layer < |s.caches| {
      LookupAnswers(s.caches[t.pc.layer], t.request, s.now);
      var hit := Lookup(s.caches[t.pc.layer], Key(t.request), s.now);
      if hit.Some? { assert Answers(s.caches[t.pc.layer], t.request, s.now, hit.value.response); }
    }
  }

  /** A store is of a marked answer without cookies to a GET, and succeeds. */
  predicate Stores(s: State, a: Action, layer: nat) {
    && a.Store? && !a.backendFails && a.task in s.tasks
    && s.tasks[a.task].pc.Answering? && s.tasks[a.task].pc.layer == layer < |s.caches|
    && s.tasks[a.task].request.isGet && MayBeStored(s.tasks[a.task].pc.response)
  }

  /** Exactly those and evictions change a cache, and a store changes what one path and query are answered. */
  lemma CacheChanges(c: Config, h: Handler, s: State, a: Action, layer: nat)
    requires layer < |s.caches|
    ensures var s' := Next(c, h, s, a);
      && |s'.caches| == |s.caches|
      && (a.Drop? && a.layer == layer ==> s'.caches[layer] == s.caches[layer] - {a.key})
      && (Stores(s, a, layer) ==>
            Remembers(s.caches[layer], s'.caches[layer], s.tasks[a.task].request, s.tasks[a.task].pc.response,
                      c.Ttl(layer), s.now))
      && (!Stores(s, a, layer) && !(a.Drop? && a.layer == layer) ==> s'.caches[layer] == s.caches[layer])
  {
    if a.Store? && a.task in s.tasks && s.tasks[a.task].pc.Answering? {
      var t := s.tasks[a.task];
      OptedInMayBeStored(t.pc.response);
      StoringRemembers(s.caches[layer], t.request, t.pc.response, t.pc.madeAt, c.Ttl(layer), s.now);
    }
  }

  predicate WellMade(s: State) {
    forall k :: k in s.tasks ==> s.tasks[k].request.WellFormed()
  }

  lemma {:induction false} RunWellMade(c: Config, h: Handler, s: State, run: seq<Action>)
    requires WellMade(s)
    ensures WellMade(Exec(c, h, s, run)) && |Exec(c, h, s, run).caches| == |s.caches|
    ensures s.now <= Exec(c, h, s, run).now
  {
    if run != [] { RunWellMade(c, h, s, run[..|run| - 1]); }
  }

  /** The step evicts what `r` is answered in the layer, or stores something else for it. */
  predicate Disturbs(s: State, a: Action, layer: nat, r: Request) {
    || a == Drop(layer, r.path + "?" + r.QueryOrEmpty())
    || (Stores(s, a, layer) && s.tasks[a.task].request.path == r.path
        && s.tasks[a.task].request.QueryOrEmpty() == r.QueryOrEmpty())
  }

  ghost predicate Undisturbed(c: Config, h: Handler, s: State, run: seq<Action>, layer: nat, r: Request) {
    forall i :: 0 <= i < |run| ==> !Disturbs(Exec(c, h, s, run[..i]), run[i], layer, r)
  }

  lemma UndisturbedFront(c: Config, h: Handler, s: State, run: seq<Action>, layer: nat, r: Request)
    requires run != [] && Undisturbed(c, h, s, run, layer, r)
    ensures var front := run[..|run| - 1];
      Undisturbed(c, h, s, front, layer, r) && !Disturbs(Exec(c, h, s, front), run[|run| - 1], layer, r)
  {
    var front := run[..|run| - 1];
    forall i | 0 <= i < |front| ensures !Disturbs(Exec(c, h, s, front[..i]), front[i], layer, r) {
      assert front[..i] == run[..i] && front[i] == run[i];
    }
  }

  lemma QuietStep(c: Config, h: Handler, s: State, a: Action, layer: nat, r: Request, at: int, answer: CachedResponse)
    requires WellMade(s) && r.WellFormed() && layer < |s.caches| && !Disturbs(s, a, layer, r)
    requires Answers(s.caches[layer], r, at, answer)
    ensures var s' := Next(c, h, s, a); layer < |s'.caches| && Answers(s'.caches[layer], r, at, answer)
  {
    CacheChanges(c, h, s, a, layer);
  }

  lemma {:induction false} QuietRun(c: Config, h: Handler, s: State, run: seq<Action>, layer: nat, r: Request,
                                    at: int, answer: CachedResponse)
    requires WellMade(s) && r.WellFormed() && layer < |s.caches| && Undisturbed(c, h, s, run, layer, r)
    requires Answers(s.caches[layer], r, at, answer)
    ensures var s' := Exec(c, h, s, run); layer < |s'.caches| && Answers(s'.caches[layer], r, at, answer)
  {
    if run != [] {
      UndisturbedFront(c, h, s, run, layer, r);
      QuietRun(c, h, s, run[..|run| - 1], layer, r, at, answer);
      RunWellMade(c, h, s, run[..|run| - 1]);
      QuietStep(c, h, Exec(c, h, s, run[..|run| - 1]), run[|run| - 1], layer, r, at, answer);
    }
  }

  function Cached(r: Response): CachedResponse {
    CachedResponse(r.status, r.headers, r.body)
  }

  /** From a store on, the cache answers its request until one ttl later. */
  lemma StoreAnswers(c: Config, h: Handler, s: State, a: Action, layer: nat, at: int)
    requires WellMade(s) && |s.caches| == |c.ttls| && Stores(s, a, layer)
    requires c.ttls[layer].Some? ==> at < s.now + c.ttls[layer].value
    ensures var (t, s') := (s.tasks[a.task], Next(c, h, s, a));
      && WellMade(s') && layer < |s'.caches| && t.request.WellFormed()
      && Answers(s'.caches[layer], t.request, at, Cached(t.pc.response))
  {
    CacheChanges(c, h, s, a, layer);
  }

  /** A lookup for the path and query of `r`, which the cache answers. */
  lemma AskAnswered(c: Config, h: Handler, s: State, j: nat, r: Request, response: Response)
    requires j in s.tasks && s.tasks[j].pc.Asking? && s.tasks[j].pc.layer < |s.caches| && s.tasks[j].request.isGet
    requires s.tasks[j].request.path == r.path && s.tasks[j].request.QueryOrEmpty() == r.QueryOrEmpty()
    requires Answers(s.caches[s.tasks[j].pc.layer], r, s.now, Cached(response)) && response.cacheable
    ensures var s' := Next(c, h, s, Ask(j, false));
      s'.caches == s.caches && j in s'.tasks && LeftLayer(s'.tasks[j].pc, s.tasks[j].pc.layer, response)
  {
    assert Answers(s.caches[s.tasks[j].pc.layer], s.tasks[j].request, s.now, Cached(response));
    AskStep(c, h, s, j, false);
  }

  /**
   In every run: once a layer has stored a marked answer without cookies to a GET, it answers each GET
   with the same path and query with that very response until one ttl later, or for good without a ttl,
   unless the entry is evicted or stored anew in between; and answering leaves the caches alone.
   */
  lemma StoredIsAnswered(c: Config, h: Handler, s: State, a: Action, more: seq<Action>, layer: nat, j: nat)
    requires WellMade(s) && |s.caches| == |c.ttls| && Stores(s, a, layer)
    requires Undisturbed(c, h, Next(c, h, s, a), more, layer, s.tasks[a.task].request)
    requires var s' := Exec(c, h, Next(c, h, s, a), more);
      && j in s'.tasks && s'.tasks[j].pc == Asking(layer) && s'.tasks[j].request.isGet
      && s'.tasks[j].request.path == s.tasks[a.task].request.path
      && s'.tasks[j].request.QueryOrEmpty() == s.tasks[a.task].request.QueryOrEmpty()
      && (c.ttls[layer].Some? ==> s'.now < s.now + c.ttls[layer].value)
    ensures var s' := Exec(c, h, Next(c, h, s, a), more);
      var s'' := Next(c, h, s', Ask(j, false));
      && s''.caches == s'.caches && j in s''.tasks
      && LeftLayer(s''.tasks[j].pc, layer, s.tasks[a.task].pc.response)
  {
    var (t, s1) := (s.tasks[a.task], Next(c, h, s, a));
    var s' := Exec(c, h, s1, more);
    StoreAnswers(c, h, s, a, layer, s'.now);
    QuietRun(c, h, s1, more, layer, t.request, s'.now, Cached(t.pc.response));
    AskAnswered(c, h, s', j, t.request, t.pc.response);
  }

  /** How far a request is from its answer: inward to the handler, and out again. */
  function Rank(pc: Pc, layers: nat): int {
    match pc
    case Asking(layer) => 2 * layers + 1 - layer
    case Answering(layer, _, _, _) => layer + 1
    case Done(_, _, _) => 0
  }

  predicate InRange(pc: Pc, layers: nat) {
    (pc.Asking? ==> pc.layer <= layers) && (pc.Answering? ==> pc.layer < layers)
  }

  /** The step is the one the request is waiting for. */
  predicate OwnAccess(s: State, a: Action, k: nat) {
    && k in s.tasks
    && ((s.tasks[k].pc.Asking? && a.Ask? && a.task == k) || (s.tasks[k].pc.Answering? && a.Store? && a.task == k))
  }

  function OwnAccesses(c: Config, h: Handler, s: State, run: seq<Action>, k: nat): nat {
    if run == [] then 0
    else
      OwnAccesses(c, h, s, run[..|run| - 1], k)
      + (if OwnAccess(Exec(c, h, s, run[..|run| - 1]), run[|run| - 1], k) then 1 else 0)
  }

  lemma AccessLowersRank(c: Config, h: Handler, s: State, a: Action, k: nat)
    requires k in s.tasks && InRange(s.tasks[k].pc, |s.caches|)
    ensures var s' := Next(c, h, s, a);
      && |s'.caches| == |s.caches| && k in s'.tasks && InRange(s'.tasks[k].pc, |s.caches|)
      && if OwnAccess(s, a, k) then Rank(s'.tasks[k].pc, |s.caches|) < Rank(s.tasks[k].pc, |s.caches|)
         else s'.tasks[k] == s.tasks[k]
  {
  }

  /** Whatever runs in between, a request is answered by its accesses to each layer inward and outward. */
  lemma {:induction false} RankFalls(c: Config, h: Handler, s: State, run: seq<Action>, k: nat)
    requires k in s.tasks && InRange(s.tasks[k].pc, |s.caches|)
    ensures var s' := Exec(c, h, s, run);
      && |s'.caches| == |s.caches| && k in s'.tasks && InRange(s'.tasks[k].pc, |s.caches|)
      && Rank(s'.tasks[k].pc, |s.caches|) + OwnAccesses(c, h, s, run, k) <= Rank(s.tasks[k].pc, |s.caches|)
  {
    if run != [] {
      RankFalls(c, h, s, run[..|run| - 1], k);
      AccessLowersRank(c, h, Exec(c, h, s, run[..|run| - 1]), run[|run| - 1], k);
    }
  }

  /** How the backend fares during one request. */
  datatype Backend = Backend(getFails: bool, setFails: bool)

  /**
   What one layer makes of one request that nothing else gets in the way of: the response, and what
   the cache is left with. A failing get is a miss, a failing set is ignored. `inner` is what the
   inner service answers if it is called.
   */
  function Served(entries: map<string, Slot<Stored>>, ttl: Option<nat>, r: Request, asked: int,
                  inner: Response, madeAt: int, stored: int, b: Backend): (Response, map<string, Slot<Stored>>)
  {
    var hit := if r.isGet && !b.getFails then Lookup(entries, Key(r), asked) else None;
    if hit.Some? then (IntoResponse(hit.value.response), entries)
    else if r.isGet && OptedIn(inner) && !b.setFails then
      (inner, entries[Key(r) := Slot(Stored(FromResponse(inner), madeAt, r), Expiry(stored, ttl))])
    else (inner, entries)
  }

  class CacheService {
    const cache: InMemoryCache<Stored>
    const ttl: Option<nat>

    constructor (cache: InMemoryCache<Stored>, ttl: Option<nat>)
      ensures this.cache == cache && this.ttl == ttl
    {
      this.cache, this.ttl := cache, ttl;
    }

    method Call(r: Request, asked: int, inner: Response, madeAt: int, stored: int, b: Backend)
      returns (response: Response)
      modifies cache
      ensures forall answer :: r.isGet && !b.getFails && Answers(old(cache.entries), r, asked, answer) ==>
        && response == Response(answer.status, answer.headers, answer.body, true)
        && cache.entries == old(cache.entries)
      ensures (!r.isGet || b.getFails || forall answer :: !Answers(old(cache.entries), r, asked, answer)) ==>
        && response == inner
        && if r.isGet && MayBeStored(inner) && !b.setFails then
             Remembers(old(cache.entries), cache.entries, r, inner, ttl, stored)
           else cache.entries == old(cache.entries)
      ensures (response, cache.entries) == Served(old(cache.entries), ttl, r, asked, inner, madeAt, stored, b)
    {
      LookupAnswers(cache.entries, r, asked);
      OptedInMayBeStored(inner);
      StoringRemembers(cache.entries, r, inner, madeAt, ttl, stored);
      if !r.isGet {
        return inner;
      }
      var hit: Option<Stored> := None;
      if !b.getFails {
        hit := cache.Get(Key(r), asked);
      }
      if hit.Some? {
        assert Answers(old(cache.entries), r, asked, hit.value.response);
        return IntoResponse(hit.value.response);
      }
      if OptedIn(inner) {
        if !b.setFails {
          cache.Set(Key(r), Stored(FromResponse(inner), madeAt, r), ttl, stored);
        }
      }
      return inner;
    }
  }

  /** The steps of one request through one layer: the handler answers after `d`, the layer stores after `e` more. */
  function OneRequest(k: nat, r: Request, d: nat, e: nat, b: Backend): seq<Action> {
    [Begin(k, r), Ask(k, b.getFails), Tick(d)] + [Ask(k, false), Tick(e), Store(k, b.setFails)]
  }

  lemma ExecThree(c: Config, h: Handler, s: State, x: Action, y: Action, z: Action)
    ensures Exec(c, h, s, [x, y, z]) == Next(c, h, Next(c, h, Next(c, h, s, x), y), z)
  {
    assert [x][..0] == [] && Exec(c, h, s, [x]) == Next(c, h, s, x);
    assert [x, y][..1] == [x] && Exec(c, h, s, [x, y]) == Next(c, h, Next(c, h, s, x), y);
    assert [x, y, z][..2] == [x, y];
  }

  lemma {:induction false} ExecConcat(c: Config, h: Handler, s: State, run: seq<Action>, more: seq<Action>)
    ensures Exec(c, h, s, run + more) == Exec(c, h, Exec(c, h, s, run), more)
  {
    if more == [] {
      assert run + more == run;
    } else {
      ExecConcat(c, h, s, run, more[..|more| - 1]);
      assert (run + more)[..|run + more| - 1] == run + more[..|more| - 1];
    }
  }

  predicate NobodyAnswering(s: State) {
    forall k :: k in s.tasks ==> !s.tasks[k].pc.Answering?
  }

  /** Up to the moment the handler is about to be called, if it is. */
  lemma FirstHalf(c: Config, h: Handler, s: State, k: nat, r: Request, d: nat, b: Backend)
    requires |s.caches| == 1 && k !in s.tasks && r.WellFormed() && NobodyAnswering(s)
    ensures var s' := Exec(c, h, s, [Begin(k, r), Ask(k, b.getFails), Tick(d)]);
      var hit := if r.isGet && !b.getFails then Lookup(s.caches[0], Key(r), s.now) else None;
      var pc := if hit.Some? then Done(IntoResponse(hit.value.response), hit.value.madeAt, s.now) else Asking(1);
      s' == State(s.now + d, s.caches, s.tasks[k := Task(r, s.now, pc)])
  {
    ExecThree(c, h, s, Begin(k, r), Ask(k, b.getFails), Tick(d));
    var s1 := Next(c, h, s, Begin(k, r));
    var s2 := Next(c, h, s1, Ask(k, b.getFails));
    assert s1.tasks == s.tasks[k := Task(r, s.now, Asking(0))];
    assert s2.tasks == s.tasks[k := s2.tasks[k]];
    assert NobodyAnswering(s2);
  }

  /** From there on. */
  lemma SecondHalf(c: Config, h: Handler, s: State, k: nat, e: nat, b: Backend)
    requires |s.caches| == 1 && k in s.tasks && NobodyAnswering(s) && e <= c.lag
    requires s.tasks[k].pc.Done? || s.tasks[k].pc == Asking(1)
    ensures var s' := Exec(c, h, s, [Ask(k, false), Tick(e), Store(k, b.setFails)]);
      var r := s.tasks[k].request;
      && |s'.caches| == 1 && k in s'.tasks && s'.tasks[k].pc.Done?
      && if s.tasks[k].pc.Done? then
           s'.tasks[k].pc == s.tasks[k].pc && s'.caches == s.caches
         else
           var made := h(s.now, r);
           && s'.tasks[k].pc.response == made
           && s'.caches[0] ==
                if r.isGet && OptedIn(made) && !b.setFails then
                  s.caches[0][Key(r) := Slot(Stored(FromResponse(made), s.now, r), Expiry(s.now + e, c.Ttl(0)))]
                else s.caches[0]
  {
    ExecThree(c, h, s, Ask(k, false), Tick(e), Store(k, b.setFails));
    var s1 := Next(c, h, s, Ask(k, false));
    var s2 := Next(c, h, s1, Tick(e));
    assert s2 == s1.(now := s1.now + e);
  }

  /** One uninterrupted request through one layer is a call of that layer's service. */
  lemma OneRequestIsCall(c: Config, h: Handler, s: State, k: nat, r: Request, d: nat, e: nat, b: Backend)
    requires |s.caches| == 1 && k !in s.tasks && r.WellFormed() && NobodyAnswering(s) && e <= c.lag
    ensures var s' := Exec(c, h, s, OneRequest(k, r, d, e, b));
      && |s'.caches| == 1 && k in s'.tasks && s'.tasks[k].pc.Done?
      && (s'.tasks[k].pc.response, s'.caches[0]) ==
           Served(s.caches[0], c.Ttl(0), r, s.now, h(s.now + d, r), s.now + d, s.now + d + e, b)
  {
    var first, second := [Begin(k, r), Ask(k, b.getFails), Tick(d)], [Ask(k, false), Tick(e), Store(k, b.setFails)];
    ExecConcat(c, h, s, first, second);
    FirstHalf(c, h, s, k, r, d, b);
    SecondHalf(c, h, Exec(c, h, s, first), k, e, b);
  }
}
