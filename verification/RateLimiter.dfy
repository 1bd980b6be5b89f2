/**
 The in-memory login rate limiter. For each username it keeps a list of admission times from which
 every attempt first drops the ones that have left the window; the history that the list stands
 for is kept here as ghost state.
 */
module RateLimiter {
  import opened Decimal

  datatype Request = Request(username: string, at: int)

  datatype Attempt = Attempt(request: Request, admitted: bool)

  /** `Instant::duration_since`, which is zero for a later instant. */
  function Age(now: int, t: int): nat {
    if t <= now then now - t else 0
  }

  /** `attempts.retain(|&t| now.duration_since(t) < window)`. */
  function Retain(times: seq<int>, now: int, window: nat): (kept: seq<int>)
    ensures |kept| <= |times|
  {
    if times == [] then []
    else
      var front := Retain(times[..|times| - 1], now, window);
      var t := times[|times| - 1];
      if Age(now, t) < window then front + [t] else front
  }

  // ---------------------------------------------------------------------------------------------
  // What the limiter should decide, from the full history.

  /** The admission times of one username, oldest first. */
  function AdmittedTimes(log: seq<Attempt>, username: string): seq<int> {
    if log == [] then []
    else
      var front := AdmittedTimes(log[..|log| - 1], username);
      var a := log[|log| - 1];
      if a.admitted && a.request.username == username then front + [a.request.at] else front
  }

  /** Admissions of one username with times in `[from, from + window)`. */
  function AdmissionsWithin(log: seq<Attempt>, username: string, from: int, window: nat): nat {
    if log == [] then 0
    else
      var a := log[|log| - 1];
      AdmissionsWithin(log[..|log| - 1], username, from, window)
      + (if a.admitted && a.request.username == username && from <= a.request.at < from + window then 1 else 0)
  }

  /** Fewer than `max` admissions of the username lie in the window that ends now. */
  predicate ShouldAdmit(log: seq<Attempt>, r: Request, max: nat, window: nat) {
    AdmissionsWithin(log, r.username, r.at - window + 1, window) < max
  }

  /** The requests with the decisions the full history calls for. */
  function Decide(requests: seq<Request>, max: nat, window: nat): (log: seq<Attempt>)
    ensures |log| == |requests|
  {
    if requests == [] then []
    else
      var log := Decide(requests[..|requests| - 1], max, window);
      var r := requests[|requests| - 1];
      log + [Attempt(r, ShouldAdmit(log, r, max, window))]
  }

  function Requests(log: seq<Attempt>): seq<Request> {
    seq(|log|, i requires 0 <= i < |log| => log[i].request)
  }

  /** No username's clock readings go back, in the order the lock was taken. */
  predicate InOrder(requests: seq<Request>) {
    forall i, j :: 0 <= i < j < |requests| && requests[i].username == requests[j].username
      ==> requests[i].at <= requests[j].at
  }

  /** The latest request of a username, if it made any. */
  function LastOf(requests: seq<Request>, username: string): (times: seq<int>)
    ensures |times| <= 1
    ensures times == [] <==> forall i :: 0 <= i < |requests| ==> requests[i].username != username
    ensures times != [] ==> Request(username, times[0]) in requests
  {
    if requests == [] then []
    else if requests[|requests| - 1].username == username then [requests[|requests| - 1].at]
    else LastOf(requests[..|requests| - 1], username)
  }

  /** The list the limiter is left with: the admissions younger than the window at the last attempt. */
  function Kept(log: seq<Attempt>, username: string, window: nat): seq<int> {
    var last := LastOf(Requests(log), username);
    if last == [] then [] else Retain(AdmittedTimes(log, username), last[0], window)
  }

  // ---------------------------------------------------------------------------------------------

  /** No earlier request of the username is later than the clock reading. */
  predicate NoneLater(log: seq<Attempt>, r: Request) {
    forall i :: 0 <= i < |log| && log[i].request.username == r.username ==> log[i].request.at <= r.at
  }

  lemma InOrderNoneLater(log: seq<Attempt>, r: Request)
    requires InOrder(Requests(log) + [r])
    ensures NoneLater(log, r)
  {
    var requests := Requests(log) + [r];
    forall i | 0 <= i < |log| && log[i].request.username == r.username ensures log[i].request.at <= r.at {
      assert requests[i] == log[i].request && requests[|log|] == r;
    }
  }

  lemma NoneLaterFront(log: seq<Attempt>, r: Request)
    requires NoneLater(log, r) && log != []
    ensures NoneLater(log[..|log| - 1], r)
    ensures log[|log| - 1].request.username == r.username ==> log[|log| - 1].request.at <= r.at
  {
  }

  lemma RetainOneMore(times: seq<int>, t: int, now: int, window: nat)
    ensures |Retain(times + [t], now, window)|
         == |Retain(times, now, window)| + (if Age(now, t) < window then 1 else 0)
  {
    assert (times + [t])[..|times|] == times;
  }

  /** What is retained of the history are the admissions less than one window old. */
  lemma {:induction false} RetainedAreWithin(log: seq<Attempt>, r: Request, window: nat)
    requires NoneLater(log, r)
    ensures |Retain(AdmittedTimes(log, r.username), r.at, window)|
         == AdmissionsWithin(log, r.username, r.at - window + 1, window)
  {
    if log != [] {
      var front, a := log[..|log| - 1], log[|log| - 1];
      NoneLaterFront(log, r);
      RetainedAreWithin(front, r, window);
      RetainOneMore(AdmittedTimes(front, r.username), a.request.at, r.at, window);
    }
  }

  /**
   Whatever the clock did, an admission stays exactly if it is less than one window old, and one that
   lies ahead of the clock stays while the window is not empty.
   */
  lemma {:induction false} RetainExactly(times: seq<int>, now: int, window: nat, t: int)
    ensures multiset(Retain(times, now, window))[t]
         == if window > 0 && now - t < window then multiset(times)[t] else 0
  {
    if times != [] {
      var front := times[..|times| - 1];
      RetainExactly(front, now, window, t);
      assert times == front + [times[|times| - 1]];
    }
  }

  lemma {:induction false} RetainAgain(times: seq<int>, earlier: int, now: int, window: nat)
    requires earlier <= now
    ensures Retain(Retain(times, earlier, window), now, window) == Retain(times, now, window)
  {
    if times != [] {
      RetainAgain(times[..|times| - 1], earlier, now, window);
      var front := Retain(times[..|times| - 1], earlier, window);
      assert (front + [times[|times| - 1]])[..|front|] == front;
    }
  }

  lemma {:induction false} NothingAdmittedYet(log: seq<Attempt>, username: string)
    requires LastOf(Requests(log), username) == []
    ensures AdmittedTimes(log, username) == []
  {
    if log != [] {
      assert Requests(log)[|log| - 1] == log[|log| - 1].request;
      assert Requests(log)[..|log| - 1] == Requests(log[..|log| - 1]);
      NothingAdmittedYet(log[..|log| - 1], username);
    }
  }

  /** Dropping from the kept list what has left the window is as good as dropping from the history. */
  lemma KeptSuffices(log: seq<Attempt>, r: Request, window: nat)
    requires InOrder(Requests(log) + [r])
    ensures Retain(Kept(log, r.username, window), r.at, window)
         == Retain(AdmittedTimes(log, r.username), r.at, window)
  {
    var requests := Requests(log);
    var last := LastOf(requests, r.username);
    if last == [] {
      NothingAdmittedYet(log, r.username);
    } else {
      var i :| 0 <= i < |requests| && requests[i] == Request(r.username, last[0]);
      assert (requests + [r])[i].at <= (requests + [r])[|requests|].at;
      RetainAgain(AdmittedTimes(log, r.username), last[0], r.at, window);
    }
  }

  lemma LogGrows(log: seq<Attempt>, a: Attempt, username: string)
    ensures Requests(log + [a]) == Requests(log) + [a.request]
    ensures AdmittedTimes(log + [a], username)
         == AdmittedTimes(log, username) + (if a.admitted && a.request.username == username then [a.request.at] else [])
    ensures LastOf(Requests(log + [a]), username)
         == if a.request.username == username then [a.request.at] else LastOf(Requests(log), username)
  {
    assert (log + [a])[..|log|] == log;
    assert (Requests(log) + [a.request])[..|log|] == Requests(log);
  }

  lemma RetainGrows(times: seq<int>, now: int, window: nat)
    ensures Retain(times + [now], now, window) == Retain(times, now, window) + (if window > 0 then [now] else [])
  {
    assert (times + [now])[..|times|] == times;
  }

  // ---------------------------------------------------------------------------------------------

  function TimesOf(limiter: map<string, seq<int>>, username: string): seq<int> {
    if username in limiter then limiter[username] else []
  }

  /**
   As long as no username's clock has gone back, the lists keep exactly what the decisions need, and
   the decisions taken are those of the full history.
   */
  ghost predicate Agrees(limiter: map<string, seq<int>>, log: seq<Attempt>, max: nat, window: nat) {
    InOrder(Requests(log)) ==>
      && log == Decide(Requests(log), max, window)
      && (window > 0 ==> forall u :: TimesOf(limiter, u) == Kept(log, u, window))
  }

  predicate ListsBounded(limiter: map<string, seq<int>>, max: nat) {
    forall u :: u in limiter ==> |limiter[u]| <= max
  }

  class RateLimitedBackend {
    var limiter: map<string, seq<int>>
    const maxAttempts: nat
    const window: nat
    ghost var log: seq<Attempt>

    ghost predicate Valid()
      reads this
    {
      && maxAttempts <= U32_MAX
      && ListsBounded(limiter, maxAttempts)
      && Agrees(limiter, log, maxAttempts, window)
    }

    constructor (maxAttempts: nat, window: nat)
      requires maxAttempts <= U32_MAX
      ensures Valid() && log == [] && limiter == map[]
      ensures this.maxAttempts == maxAttempts && this.window == window
    {
      this.maxAttempts, this.window := maxAttempts, window;
      limiter := map[];
      log := [];
    }

    /** Whether the attempt reaches the inner backend. */
    method Authenticate(username: string, now: int) returns (admitted: bool)
      requires Valid()
      modifies this
      ensures Valid()
      ensures log == old(log) + [Attempt(Request(username, now), admitted)]
      ensures var young := Retain(TimesOf(old(limiter), username), now, window);
        && (admitted <==> |young| < maxAttempts)
        && limiter == old(limiter)[username := if admitted then young + [now] else young]
      ensures InOrder(Requests(log)) ==>
        (admitted <==> AdmissionsWithin(old(log), username, now - window + 1, window) < maxAttempts)
    {
      var young := Retain(TimesOf(limiter, username), now, window);
      // `attempts.len() as u32`
      admitted := !(|young| % (U32_MAX + 1) >= maxAttempts);
      ghost var a := Attempt(Request(username, now), admitted);
      AttemptKeeps(limiter, young, log, a, maxAttempts, window);
      limiter := limiter[username := if admitted then young + [now] else young];
      log := log + [a];
    }
  }

  lemma YoungIsRight(limiter: map<string, seq<int>>, log: seq<Attempt>, r: Request, max: nat, window: nat)
    requires Agrees(limiter, log, max, window) && InOrder(Requests(log) + [r])
    ensures Retain(TimesOf(limiter, r.username), r.at, window)
         == Retain(AdmittedTimes(log, r.username), r.at, window)
  {
    InOrderBefore(Requests(log), r);
    if window > 0 {
      KeptSuffices(log, r, window);
    } else {
      NothingKept(log, TimesOf(limiter, r.username), r);
    }
  }

  lemma KeptFollows(log: seq<Attempt>, a: Attempt, window: nat, username: string)
    requires window > 0
    ensures var kept := Retain(AdmittedTimes(log, username), a.request.at, window);
      Kept(log + [a], username, window)
      == if a.request.username != username then Kept(log, username, window)
         else if a.admitted then kept + [a.request.at] else kept
  {
    LogGrows(log, a, username);
    RetainGrows(AdmittedTimes(log, username), a.request.at, window);
    assert AdmittedTimes(log, username) + [] == AdmittedTimes(log, username);
  }

  lemma DecisionIsRight(limiter: map<string, seq<int>>, log: seq<Attempt>, r: Request, max: nat, window: nat)
    requires Agrees(limiter, log, max, window) && InOrder(Requests(log) + [r])
    ensures |Retain(TimesOf(limiter, r.username), r.at, window)| < max <==> ShouldAdmit(log, r, max, window)
  {
    YoungIsRight(limiter, log, r, max, window);
    InOrderNoneLater(log, r);
    RetainedAreWithin(log, r, window);
  }

  lemma ListsFollow(limiter: map<string, seq<int>>, log: seq<Attempt>, a: Attempt, max: nat, window: nat)
    requires Agrees(limiter, log, max, window) && InOrder(Requests(log) + [a.request]) && window > 0
    ensures var young := Retain(TimesOf(limiter, a.request.username), a.request.at, window);
      var limiter' := limiter[a.request.username := if a.admitted then young + [a.request.at] else young];
      forall u :: TimesOf(limiter', u) == Kept(log + [a], u, window)
  {
    InOrderBefore(Requests(log), a.request);
    YoungIsRight(limiter, log, a.request, max, window);
    var young := Retain(TimesOf(limiter, a.request.username), a.request.at, window);
    var limiter' := limiter[a.request.username := if a.admitted then young + [a.request.at] else young];
    forall u ensures TimesOf(limiter', u) == Kept(log + [a], u, window) {
      KeptFollows(log, a, window, u);
    }
  }

  lemma AttemptKeeps(
    limiter: map<string, seq<int>>, young: seq<int>, log: seq<Attempt>, a: Attempt, max: nat, window: nat)
    requires ListsBounded(limiter, max) && Agrees(limiter, log, max, window)
    requires young == Retain(TimesOf(limiter, a.request.username), a.request.at, window)
    requires a.admitted <==> |young| < max
    ensures var limiter' := limiter[a.request.username := if a.admitted then young + [a.request.at] else young];
      ListsBounded(limiter', max) && Agrees(limiter', log + [a], max, window)
    ensures InOrder(Requests(log + [a])) ==> (a.admitted <==> ShouldAdmit(log, a.request, max, window))
  {
    LogGrows(log, a, a.request.username);
    if InOrder(Requests(log + [a])) {
      InOrderBefore(Requests(log), a.request);
      DecisionIsRight(limiter, log, a.request, max, window);
      DecideGrows(log, a, max, window);
      if window > 0 { ListsFollow(limiter, log, a, max, window); }
    }
  }

  lemma InOrderBefore(requests: seq<Request>, r: Request)
    requires InOrder(requests + [r])
    ensures InOrder(requests)
  {
    forall i, j | 0 <= i < j < |requests| && requests[i].username == requests[j].username
      ensures requests[i].at <= requests[j].at
    {
      assert (requests + [r])[i] == requests[i] && (requests + [r])[j] == requests[j];
    }
  }

  lemma {:induction false} RetainNothing(times: seq<int>, now: int)
    ensures Retain(times, now, 0) == []
  {
    if times != [] { RetainNothing(times[..|times| - 1], now); }
  }

  lemma NothingKept(log: seq<Attempt>, current: seq<int>, r: Request)
    ensures Retain(current, r.at, 0) == Retain(AdmittedTimes(log, r.username), r.at, 0)
  {
    RetainNothing(current, r.at);
    RetainNothing(AdmittedTimes(log, r.username), r.at);
  }

  lemma DecideGrows(log: seq<Attempt>, a: Attempt, max: nat, window: nat)
    requires log == Decide(Requests(log), max, window)
    requires a.admitted <==> ShouldAdmit(log, a.request, max, window)
    ensures log + [a] == Decide(Requests(log + [a]), max, window)
  {
    var requests := Requests(log + [a]);
    assert requests == Requests(log) + [a.request];
    assert requests[..|requests| - 1] == Requests(log);
  }

  // ---------------------------------------------------------------------------------------------
  // What holds of every run of the limiter.

  /** Of any window with the request in it, no more is past than of the one that ends with it. */
  lemma {:induction false} WithinAreYoung(log: seq<Attempt>, r: Request, from: int, window: nat)
    requires NoneLater(log, r) && from <= r.at < from + window
    ensures AdmissionsWithin(log, r.username, from, window)
         <= AdmissionsWithin(log, r.username, r.at - window + 1, window)
  {
    if log != [] {
      NoneLaterFront(log, r);
      WithinAreYoung(log[..|log| - 1], r, from, window);
    }
  }

  /** No stretch of time one window long ever holds more than `max` admissions of a username. */
  lemma {:induction false} WindowBound(requests: seq<Request>, username: string, from: int, max: nat, window: nat)
    requires InOrder(requests)
    ensures AdmissionsWithin(Decide(requests, max, window), username, from, window) <= max
  {
    if requests != [] {
      var front, r := requests[..|requests| - 1], requests[|requests| - 1];
      assert requests == front + [r];
      InOrderBefore(front, r);
      WindowBound(front, username, from, max, window);
      var log := Decide(front, max, window);
      DecidedRequests(front, max, window);
      assert Decide(requests, max, window)[..|log|] == log;
      if r.username == username && from <= r.at < from + window {
        InOrderNoneLater(log, r);
        WithinAreYoung(log, r, from, window);
      }
    }
  }

  lemma {:induction false} DecidedRequests(requests: seq<Request>, max: nat, window: nat)
    ensures Requests(Decide(requests, max, window)) == requests
  {
    if requests != [] {
      var front, r := requests[..|requests| - 1], requests[|requests| - 1];
      DecidedRequests(front, max, window);
      var log := Decide(front, max, window);
      assert Requests(Decide(requests, max, window)) == Requests(log) + [r];
      assert requests == front + [r];
    }
  }

  function Own(log: seq<Attempt>, username: string): seq<Attempt> {
    if log == [] then []
    else
      var front := Own(log[..|log| - 1], username);
      if log[|log| - 1].request.username == username then front + [log[|log| - 1]] else front
  }

  function OwnRequests(requests: seq<Request>, username: string): seq<Request> {
    if requests == [] then []
    else
      var front := OwnRequests(requests[..|requests| - 1], username);
      if requests[|requests| - 1].username == username then front + [requests[|requests| - 1]] else front
  }

  lemma {:induction false} OwnAdmissions(log: seq<Attempt>, username: string, from: int, window: nat)
    ensures AdmissionsWithin(Own(log, username), username, from, window)
         == AdmissionsWithin(log, username, from, window)
  {
    if log != [] {
      var front := log[..|log| - 1];
      OwnAdmissions(front, username, from, window);
      var own := Own(front, username);
      assert (own + [log[|log| - 1]])[..|own|] == own;
    }
  }

  lemma DecideLast(front: seq<Request>, r: Request, max: nat, window: nat)
    ensures var log := Decide(front, max, window);
      Decide(front + [r], max, window) == log + [Attempt(r, ShouldAdmit(log, r, max, window))]
  {
    assert (front + [r])[..|front|] == front;
  }

  /** Among the other usernames' requests, a request is decided as among its own alone. */
  lemma SameDecision(front: seq<Request>, own: seq<Request>, r: Request, max: nat, window: nat)
    returns (admitted: bool)
    requires Own(Decide(front, max, window), r.username) == Decide(own, max, window)
    ensures Decide(front + [r], max, window) == Decide(front, max, window) + [Attempt(r, admitted)]
    ensures Decide(own + [r], max, window) == Decide(own, max, window) + [Attempt(r, admitted)]
  {
    var log := Decide(front, max, window);
    admitted := ShouldAdmit(log, r, max, window);
    DecideLast(front, r, max, window);
    DecideLast(own, r, max, window);
    OwnAdmissions(log, r.username, r.at - window + 1, window);
  }

  lemma OwnLast(log: seq<Attempt>, a: Attempt, username: string)
    ensures Own(log + [a], username)
         == if a.request.username == username then Own(log, username) + [a] else Own(log, username)
  {
    assert (log + [a])[..|log|] == log;
  }

  /** What a username is answered depends on its own requests alone. */
  lemma {:induction false} UsernamesIndependent(requests: seq<Request>, username: string, max: nat, window: nat)
    ensures Own(Decide(requests, max, window), username)
         == Decide(OwnRequests(requests, username), max, window)
  {
    if requests != [] {
      var front, r := requests[..|requests| - 1], requests[|requests| - 1];
      UsernamesIndependent(front, username, max, window);
      var log := Decide(front, max, window);
      assert requests == front + [r];
      if r.username == username {
        var admitted := SameDecision(front, OwnRequests(front, username), r, max, window);
        OwnLast(log, Attempt(r, admitted), username);
      } else {
        DecideLast(front, r, max, window);
        OwnLast(log, Attempt(r, ShouldAdmit(log, r, max, window)), username);
      }
    }
  }
}
