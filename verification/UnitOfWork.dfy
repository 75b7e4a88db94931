/**
 The unit of work: transaction blocks that nest by joining, repository writes inside and outside them, raised
 errors and handlers.  A block of a different unit of work inside an active one is refused.
 */
module UnitOfWork {
  import opened Basics

  datatype Error = Application(code: nat) | WriteFailed | TransactionBroken | ForeignTransaction

  datatype Outcome = Ok | Raised(error: Error)

  /** A write names the row it stores; `owner` is the unit of work whose repository or block it is. */
  datatype Program =
    | Write(owner: nat, row: nat)
    | FailingWrite(owner: nat)
    | Raise(error: Error)
    | Then(first: Program, second: Program)
    | Handle(body: Program, handler: Program)
    | Transaction(owner: nat, body: Program)

  /** The session held by the context variable; a failed flush leaves it unusable until its block ends. */
  datatype Session = Session(owner: nat, pending: seq<nat>, broken: bool)

  /**
   `performed` is history only: every write that returned normally.  `raises` is the database library's choice, the
   same throughout: whether a block that ends normally on an unusable session raises or closes it silently.
   */
  datatype World = World(committed: seq<nat>, current: Option<Session>, performed: seq<nat>, raises: bool)

  function WriteRow(w: World, owner: nat, row: nat): (World, Outcome) {
    match w.current
    case None => (w.(committed := w.committed + [row], performed := w.performed + [row]), Ok)
    case Some(s) =>
      if s.owner != owner then (w, Raised(ForeignTransaction))
      else if s.broken then (w, Raised(TransactionBroken))
      else (w.(current := Some(s.(pending := s.pending + [row])), performed := w.performed + [row]), Ok)
  }

  function FailWrite(w: World, owner: nat): (World, Outcome) {
    match w.current
    case None => (w, Raised(WriteFailed))
    case Some(s) =>
      if s.owner != owner then (w, Raised(ForeignTransaction))
      else if s.broken then (w, Raised(TransactionBroken))
      else (w.(current := Some(s.(broken := true))), Raised(WriteFailed))
  }

  /** The end of the outermost block: everything pending is committed, or nothing. */
  function Finish(w: World, outcome: Outcome): (World, Outcome)
    requires w.current.Some?
  {
    var s := w.current.value;
    if outcome.Raised? then (w.(current := None), outcome)
    else if s.broken then (w.(current := None), if w.raises then Raised(TransactionBroken) else Ok)
    else (w.(committed := w.committed + s.pending, current := None), Ok)
  }

  /** What a program does, blocks nesting as the code nests them. */
  function Exec(p: Program, w: World): (r: (World, Outcome))
    ensures SameSession(w, r.0)
    decreases p
  {
    match p
    case Write(owner, row) => WriteRow(w, owner, row)
    case FailingWrite(owner) => FailWrite(w, owner)
    case Raise(error) => (w, Raised(error))
    case Then(first, second) =>
      var (w1, outcome) := Exec(first, w);
      if outcome.Raised? then (w1, outcome) else Exec(second, w1)
    case Handle(body, handler) =>
      var (w1, outcome) := Exec(body, w);
      if outcome.Raised? then Exec(handler, w1) else (w1, outcome)
    case Transaction(owner, body) =>
      if w.current.Some? then
        if w.current.value.owner == owner then Exec(body, w) else (w, Raised(ForeignTransaction))
      else
        var (w1, outcome) := Exec(body, w.(current := Some(Session(owner, [], false))));
        Finish(w1, outcome)
  }

  /** Whoever opened the session still holds it. */
  predicate SameSession(before: World, after: World) {
    && before.raises == after.raises
    && match before.current
    case None => after.current == None
    case Some(s) => after.current.Some? && after.current.value.owner == s.owner
  }

  function OwnerOf(w: World): Option<nat> {
    if w.current.Some? then Some(w.current.value.owner) else None
  }

  /** The program with its inner blocks removed; a foreign inner block is an error where it stood. */
  function WithoutInner(p: Program, inside: Option<nat>): Program {
    match p
    case Write(_, _) => p
    case FailingWrite(_) => p
    case Raise(_) => p
    case Then(first, second) => Then(WithoutInner(first, inside), WithoutInner(second, inside))
    case Handle(body, handler) => Handle(WithoutInner(body, inside), WithoutInner(handler, inside))
    case Transaction(owner, body) =>
      match inside
      case None => Transaction(owner, WithoutInner(body, Some(owner)))
      case Some(outer) => if outer == owner then WithoutInner(body, inside) else Raise(ForeignTransaction)
  }

  /** No block inside a block. */
  predicate Flat(p: Program, inside: bool) {
    match p
    case Write(_, _) => true
    case FailingWrite(_) => true
    case Raise(_) => true
    case Then(first, second) => Flat(first, inside) && Flat(second, inside)
    case Handle(body, handler) => Flat(body, inside) && Flat(handler, inside)
    case Transaction(_, body) => !inside && Flat(body, true)
  }

  lemma {:induction false} WithoutInnerIsFlat(p: Program, inside: Option<nat>)
    ensures Flat(WithoutInner(p, inside), inside.Some?)
  {
    match p
    case Write(_, _) =>
    case FailingWrite(_) =>
    case Raise(_) =>
    case Then(first, second) =>
      WithoutInnerIsFlat(first, inside);
      WithoutInnerIsFlat(second, inside);
    case Handle(body, handler) =>
      WithoutInnerIsFlat(body, inside);
      WithoutInnerIsFlat(handler, inside);
    case Transaction(owner, body) =>
      WithoutInnerIsFlat(body, Some(owner));
  }

  /** Nested blocks mean the same as no inner blocks at all, whatever is written, raised or handled. */
  lemma {:induction false} NestingIsFlat(p: Program, w: World)
    ensures Exec(p, w) == Exec(WithoutInner(p, OwnerOf(w)), w)
    decreases p
  {
    match p
    case Write(_, _) =>
    case FailingWrite(_) =>
    case Raise(_) =>
    case Then(first, second) =>
      NestingIsFlat(first, w);
      NestingIsFlat(second, Exec(first, w).0);
    case Handle(body, handler) =>
      NestingIsFlat(body, w);
      NestingIsFlat(handler, Exec(body, w).0);
    case Transaction(owner, body) =>
      NestingIsFlat(body, if w.current.Some? then w else w.(current := Some(Session(owner, [], false))));
  }

  /** Inside a block, exactly the performed writes are pending, in their order, and nothing is committed. */
  lemma {:induction false} PendingIsPerformed(p: Program, w: World)
    requires w.current.Some?
    ensures var after := Exec(p, w).0;
            && after.committed == w.committed
            && w.performed <= after.performed
            && after.current.value.pending == w.current.value.pending + after.performed[|w.performed|..]
            && (w.current.value.broken ==> after.current.value.broken)
    decreases p
  {
    match p
    case Write(_, _) =>
    case FailingWrite(_) =>
    case Raise(_) =>
    case Then(first, second) =>
      PendingIsPerformed(first, w);
      PendingIsPerformed(second, Exec(first, w).0);
    case Handle(body, handler) =>
      PendingIsPerformed(body, w);
      PendingIsPerformed(handler, Exec(body, w).0);
    case Transaction(owner, body) =>
      if owner == w.current.value.owner {
        PendingIsPerformed(body, w);
      }
  }

  /** The block's body ends normally on a session that is still usable. */
  predicate EndsWell(owner: nat, body: Program, w: World)
    requires w.current == None
  {
    var (inner, ended) := Exec(body, w.(current := Some(Session(owner, [], false))));
    ended.Ok? && !inner.current.value.broken
  }

  /** An outermost block commits all the writes it performed, in order, exactly when its body ends well; else none. */
  lemma OutermostIsAllOrNothing(owner: nat, body: Program, w: World)
    requires w.current == None
    ensures var (after, outcome) := Exec(Transaction(owner, body), w);
            && w.performed <= after.performed && after.current == None
            && after.committed == w.committed + (if EndsWell(owner, body, w) then after.performed[|w.performed|..] else [])
            && (EndsWell(owner, body, w) ==> outcome.Ok?)
            && (w.raises && outcome.Ok? ==> EndsWell(owner, body, w))
  {
    PendingIsPerformed(body, w.(current := Some(Session(owner, [], false))));
  }

  /** A block in which a write failed never commits, even when the failure was handled. */
  lemma BrokenBlockCommitsNothing(owner: nat, first: Program, second: Program, w: World)
    requires w.current == None
    requires var entered := w.(current := Some(Session(owner, [], false)));
             Exec(first, entered).0.current.value.broken
    ensures Exec(Transaction(owner, Then(first, second)), w).0.committed == w.committed
  {
    var entered := w.(current := Some(Session(owner, [], false)));
    PendingIsPerformed(first, entered);
    PendingIsPerformed(second, Exec(first, entered).0);
  }

  /** Writes that no block encloses. */
  predicate NoBlocks(p: Program) {
    match p
    case Write(_, _) => true
    case FailingWrite(_) => true
    case Raise(_) => true
    case Then(first, second) => NoBlocks(first) && NoBlocks(second)
    case Handle(body, handler) => NoBlocks(body) && NoBlocks(handler)
    case Transaction(_, _) => false
  }

  /** Outside any block each performed write is committed by itself, whatever is raised later. */
  lemma {:induction false} LoneWritesCommit(p: Program, w: World)
    requires NoBlocks(p) && w.current == None
    ensures var after := Exec(p, w).0;
            w.performed <= after.performed && after.committed == w.committed + after.performed[|w.performed|..]
    decreases p
  {
    match p
    case Write(_, _) =>
    case FailingWrite(_) =>
    case Raise(_) =>
    case Then(first, second) =>
      LoneWritesCommit(first, w);
      LoneWritesCommit(second, Exec(first, w).0);
    case Handle(body, handler) =>
      LoneWritesCommit(body, w);
      LoneWritesCommit(handler, Exec(body, w).0);
  }

  /** The context variable and the database, run imperatively: set on entry of the outermost block, reset on exit. */
  class Context {
    const raises: bool
    var current: Option<Session>
    var committed: seq<nat>
    ghost var performed: seq<nat>

    ghost function Now(): World
      reads this
    {
      World(committed, current, performed, raises)
    }

    constructor (raises: bool)
      ensures Now() == World([], None, [], raises)
    {
      this.raises := raises;
      current, committed, performed := None, [], [];
    }

    /** Runs a nested program; the effect is that of the program with its inner blocks removed. */
    method Run(p: Program) returns (outcome: Outcome)
      modifies this
      ensures (Now(), outcome) == Exec(WithoutInner(p, OwnerOf(old(Now()))), old(Now()))
    {
      NestingIsFlat(p, Now());
      outcome := RunNested(p);
    }

    method RunNested(p: Program) returns (outcome: Outcome)
      modifies this
      ensures (Now(), outcome) == Exec(p, old(Now()))
      decreases p
    {
      match p
      case Write(owner, row) =>
        outcome := Persist(owner, row, false);
      case FailingWrite(owner) =>
        outcome := Persist(owner, 0, true);
      case Raise(error) =>
        outcome := Raised(error);
      case Then(first, second) =>
        outcome := RunNested(first);
        if outcome.Ok? {
          outcome := RunNested(second);
        }
      case Handle(body, handler) =>
        outcome := RunNested(body);
        if outcome.Raised? {
          outcome := RunNested(handler);
        }
      case Transaction(owner, body) =>
        if current.Some? && current.value.owner == owner {
          outcome := RunNested(body);
          return;
        }
        if current.Some? {
          return Raised(ForeignTransaction);
        }
        current := Some(Session(owner, [], false));
        outcome := RunNested(body);
        if outcome.Ok? {
          if current.value.broken {
            outcome := if raises then Raised(TransactionBroken) else Ok;
          } else {
            committed := committed + current.value.pending;
          }
        }
        current := None;
    }

    /** `session_scope` and `_persist`: flush into the current block, or commit alone. */
    method Persist(owner: nat, row: nat, fails: bool) returns (outcome: Outcome)
      modifies this
      ensures (Now(), outcome) == if fails then FailWrite(old(Now()), owner) else WriteRow(old(Now()), owner, row)
    {
      if current == None {
        if fails {
          return Raised(WriteFailed);
        }
        committed, performed := committed + [row], performed + [row];
        return Ok;
      }
      if current.value.owner != owner {
        return Raised(ForeignTransaction);
      }
      if current.value.broken {
        return Raised(TransactionBroken);
      }
      if fails {
        current := Some(current.value.(broken := true));
        return Raised(WriteFailed);
      }
      current := Some(current.value.(pending := current.value.pending + [row]));
      performed := performed + [row];
      outcome := Ok;
    }
  }
}
