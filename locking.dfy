/**
 * The lock discipline of the mutating routes. Each of them takes
 * `data_mutex` (a non-recursive `std::mutex`) once its request has passed
 * the checks made before the lock, and holds it for the rest of its body;
 * the database helpers it calls after an accepted change take the same
 * mutex again.
 */
module Locking {
  import opened Wrappers
  import opened Json
  import opened Store
  import opened Handlers

  /** What one thread does to `data_mutex`, in program order. */
  datatype Action = Lock | Unlock

  /**
   * How one thread's actions on the mutex end: it gets to the end, or it
   * blocks for good; `held` says whether the mutex is held at that point.
   */
  datatype Outcome = Done(held: bool) | Stuck(held: bool)

  /**
   * One thread performing `actions` on a non-recursive mutex that is held
   * at the start exactly when `held` (by this thread or by one that never
   * releases it). Locking a held mutex never returns (for the thread's own
   * mutex this is undefined behaviour of `std::mutex`; the usual
   * implementation blocks for good); unlocking a free one is not allowed
   * either.
   */
  function Run(held: bool, actions: seq<Action>): Outcome
    decreases |actions|
  {
    if actions == [] then Done(held)
    else
      match actions[0]
      case Lock => if held then Stuck(held) else Run(true, actions[1..])
      case Unlock => if held then Run(false, actions[1..]) else Stuck(held)
  }

  /**
   * Whether a route gets as far as its `lock_guard`: POST /books, the issue
   * route and POST /users first answer 400 for missing members and 500 for
   * an id that does not convert, without the lock.
   */
  function ReachesLock(req: Request): bool {
    match req
    case PostBook(body) =>
      Has(body, "id") && Has(body, "title") && Has(body, "author") && IntAt(body.value, "id").Success?
    case DeleteBookById(_) => true
    case IssueBookTo(_, body) => RequestedUser(body).Some?
    case ReturnBookById(_) => true
    case PostUser(body) =>
      Has(body, "userId") && Has(body, "userName") && IntAt(body.value, "userId").Success?
  }

  /** Only the answers given before the lock come without it, and no statement is sent without it. */
  lemma LockPrecedesWrite(c: Catalog, req: Request)
    ensures !ReachesLock(req) ==> Handle(c, req).status == BadInput || Handle(c, req).status == ServerError
    ensures Handle(c, req).write.Some? ==> ReachesLock(req)
  {
  }

  /** What the database helpers do to the mutex as written: a `lock_guard` of their own. */
  const HelperActionsAsWritten: seq<Action> := [Lock, Unlock]

  /** What the database helpers do to the mutex once corrected: nothing, the route already holds it. */
  const HelperActions: seq<Action> := []

  /**
   * A mutating route: nothing when it answers before the lock; otherwise its
   * `lock_guard`, then the database helper when the request was accepted
   * (`write` is the statement it sends), then the release when the guard is
   * destroyed (also when `from_json` throws).
   */
  function RouteActions(req: Request, write: Option<Write>, helper: seq<Action>): (r: seq<Action>)
    ensures r != [] <==> ReachesLock(req)
    ensures r != [] ==> r[0] == Lock && r[|r| - 1] == Unlock
    ensures write.None? ==> r == [] || r == [Lock, Unlock]
    ensures ReachesLock(req) && write.Some? ==> r[1..|r| - 1] == helper
  {
    if ReachesLock(req) then [Lock] + (if write.Some? then helper else []) + [Unlock] else []
  }

  /**
   * As written, from a free mutex, a mutating route returns exactly when it
   * rejects the request: every accepted one blocks for good in the helper's
   * second lock, and it blocks holding the mutex.
   */
  lemma AsWrittenAcceptedRequestHangs(c: Catalog, req: Request)
    ensures Run(false, RouteActions(req, Handle(c, req).write, HelperActionsAsWritten))
         == if Handle(c, req).status == Ok then Stuck(true) else Done(false)
  {
    var actions := RouteActions(req, Handle(c, req).write, HelperActionsAsWritten);
    if Handle(c, req).write.Some? {
      assert actions == [Lock, Lock, Unlock, Unlock];
      assert actions[1..] == [Lock, Unlock, Unlock];
    } else if ReachesLock(req) {
      assert actions == [Lock, Unlock];
      assert actions[1..] == [Unlock];
      assert actions[1..][1..] == [];
    }
  }

  /**
   * With the mutex held for good, every mutating route that gets to its
   * lock blocks too, whatever it would have answered; only the answers given
   * before the lock still come back.
   */
  lemma HeldMutexBlocksRoutes(c: Catalog, req: Request, helper: seq<Action>)
    ensures Run(true, RouteActions(req, Handle(c, req).write, helper))
         == if ReachesLock(req) then Stuck(true) else Done(true)
  {
    var actions := RouteActions(req, Handle(c, req).write, helper);
    if ReachesLock(req) {
      assert actions[0] == Lock;
    }
  }

  /** What a client gets back for one request: an answer, or nothing ever. */
  datatype Answer = Answered(status: Status) | Hangs

  /**
   * Mutating requests served one after another as written, starting with
   * the mutex held exactly when `held`. A request that blocks before its
   * lock changes nothing; one that blocks in the helper has already changed
   * the vectors (the `push_back` or the flag write comes first), and keeps
   * the mutex. No statement is ever sent, since each helper blocks before it.
   */
  function ServeAsWritten(c: Catalog, held: bool, reqs: seq<Request>): (r: (Catalog, seq<Answer>))
    ensures |r.1| == |reqs|
    decreases |reqs|
  {
    if reqs == [] then (c, [])
    else
      var reply := Handle(c, reqs[0]);
      var out := Run(held, RouteActions(reqs[0], reply.write, HelperActionsAsWritten));
      var answer := if out.Done? then Answered(reply.status) else Hangs;
      var rest := ServeAsWritten(if held then c else reply.catalog, out.held, reqs[1..]);
      (rest.0, [answer] + rest.1)
  }

  /**
   * Once the mutex is held for good, the vectors never change again, every
   * request that gets to its lock hangs, and every other one answers 400 or
   * 500 as it would have.
   */
  lemma {:induction false} AsWrittenStaysBlocked(c: Catalog, reqs: seq<Request>)
    ensures ServeAsWritten(c, true, reqs).0 == c
    ensures forall j :: 0 <= j < |reqs| ==>
      ServeAsWritten(c, true, reqs).1[j]
        == if ReachesLock(reqs[j]) then Hangs else Answered(Handle(c, reqs[j]).status)
    ensures forall j :: 0 <= j < |reqs| && !ReachesLock(reqs[j]) ==>
      Handle(c, reqs[j]).status == BadInput || Handle(c, reqs[j]).status == ServerError
    ensures forall j :: 0 <= j < |reqs| ==> (ServeAsWritten(c, true, reqs).1[j] == Hangs <==> ReachesLock(reqs[j]))
    decreases |reqs|
  {
    if reqs != [] {
      HeldMutexBlocksRoutes(c, reqs[0], HelperActionsAsWritten);
      AsWrittenStaysBlocked(c, reqs[1..]);
      forall j | 0 <= j < |reqs| && !ReachesLock(reqs[j])
        ensures Handle(c, reqs[j]).status == BadInput || Handle(c, reqs[j]).status == ServerError
      {
        LockPrecedesWrite(c, reqs[j]);
      }
    }
  }

  /** One step of `ServeAsWritten`: the first request, then the rest from the state it leaves. */
  lemma ServeAsWrittenFirst(c: Catalog, held: bool, req: Request, later: seq<Request>)
    ensures ServeAsWritten(c, held, [req] + later)
         == var out := Run(held, RouteActions(req, Handle(c, req).write, HelperActionsAsWritten));
            var rest := ServeAsWritten(if held then c else Handle(c, req).catalog, out.held, later);
            (rest.0, [if out.Done? then Answered(Handle(c, req).status) else Hangs] + rest.1)
  {
    assert ([req] + later)[0] == req && ([req] + later)[1..] == later;
  }

  /**
   * As written, the first accepted request on a free mutex never answers,
   * yet its change stays in the vectors (where the unlocked GET routes show
   * it), and every later request is served with the mutex held for good:
   * by `AsWrittenStaysBlocked`, the vectors are then frozen and every later
   * request that gets to its lock hangs, including ones that would answer
   * 404 or 409.
   */
  lemma AsWrittenFirstAcceptBlocksAll(c: Catalog, req: Request, later: seq<Request>)
    requires Handle(c, req).status == Ok
    ensures ServeAsWritten(c, false, [req] + later)
         == (ServeAsWritten(Handle(c, req).catalog, true, later).0,
             [Hangs] + ServeAsWritten(Handle(c, req).catalog, true, later).1)
  {
    AsWrittenAcceptedRequestHangs(c, req);
    ServeAsWrittenFirst(c, false, req, later);
  }

  /** Corrected, every mutating route returns from a free mutex and leaves it free, whatever it answers. */
  lemma EveryRouteCompletes(c: Catalog, req: Request)
    ensures Run(false, RouteActions(req, Handle(c, req).write, HelperActions)) == Done(false)
  {
    var actions := RouteActions(req, Handle(c, req).write, HelperActions);
    if ReachesLock(req) {
      assert (if Handle(c, req).write.Some? then HelperActions else []) == [];
      assert actions == [Lock, Unlock];
      assert actions[1..] == [Unlock];
      assert Run(true, [Unlock]) == Run(false, []);
    }
  }
}
