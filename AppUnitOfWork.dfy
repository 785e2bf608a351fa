/**
  The unit of work over the application's database context: at most one active
  transaction, begun on demand and cleared by commit or rollback. The database is
  a collaborator: what it is asked to do is recorded in an event log, and the
  transactions it hands out are numbered in order.
 */
module UnitOfWork {
  import opened Wrappers

  datatype Event =
    | Began(id: nat)
    | Committed(id: nat)
    | RolledBack(id: nat)
    | TransactionDisposed(id: nat)
    | ContextDisposed
    | Saved(written: nat)

  const NoActiveTransaction: Exception := InvalidOperation("No active transaction.")

  /** The transactions begun in `log` and not yet disposed. */
  function Active(log: seq<Event>): (ids: set<nat>)
    ensures forall id | id in ids :: Began(id) in log
  {
    if log == [] then {}
    else
      var before := Active(log[..|log| - 1]);
      assert forall e | e in log[..|log| - 1] :: e in log;
      match log[|log| - 1]
      case Began(id) => before + {id}
      case TransactionDisposed(id) => before - {id}
      case _ => before
  }

  /** Every transaction named in `log` was numbered below `bound`. */
  predicate NumberedBelow(log: seq<Event>, bound: nat) {
    forall i | 0 <= i < |log| :: (log[i].Began? || log[i].Committed? || log[i].RolledBack? || log[i].TransactionDisposed?)
      ==> log[i].id < bound
  }

  function EndEvent(commit: bool, id: nat): Event {
    if commit then Committed(id) else RolledBack(id)
  }

  function Held(t: Option<nat>): set<nat> {
    if t.Some? then {t.value} else {}
  }

  lemma ActiveBelow(log: seq<Event>, bound: nat)
    requires NumberedBelow(log, bound)
    ensures forall id | id in Active(log) :: id < bound
  {
    forall id | id in Active(log)
      ensures id < bound
    {
      var i :| 0 <= i < |log| && log[i] == Began(id);
    }
  }

  /** Raising the bound or appending an event numbered below it keeps the log numbered below it. */
  lemma NumberedAppend(log: seq<Event>, bound: nat, e: Event, newBound: nat)
    requires NumberedBelow(log, bound) && bound <= newBound
    requires (e.Began? || e.Committed? || e.RolledBack? || e.TransactionDisposed?) ==> e.id < newBound
    ensures NumberedBelow(log + [e], newBound)
  {
    forall i | 0 <= i < |log + [e]|
      ensures var x := (log + [e])[i];
        (x.Began? || x.Committed? || x.RolledBack? || x.TransactionDisposed?) ==> x.id < newBound
    {
      if i < |log| {
        assert (log + [e])[i] == log[i];
      }
    }
  }

  lemma ActiveAppend(log: seq<Event>, e: Event)
    ensures e.Began? ==> Active(log + [e]) == Active(log) + {e.id}
    ensures e.TransactionDisposed? ==> Active(log + [e]) == Active(log) - {e.id}
    ensures !(e.Began? || e.TransactionDisposed?) ==> Active(log + [e]) == Active(log)
  {
    assert (log + [e])[..|log|] == log;
  }

  class AppUnitOfWork {
    /** The active transaction, if any. */
    var transaction: Option<nat>
    /** The number the database gives the next transaction it begins. */
    var nextId: nat
    var log: seq<Event>
    var disposed: bool

    /** Until disposal, the held transaction is the one and only active transaction. */
    ghost predicate Valid()
      reads this
    {
      && NumberedBelow(log, nextId)
      && (transaction.Some? ==> transaction.value < nextId)
      && (!disposed ==> Active(log) == Held(transaction))
    }

    constructor ()
      ensures Valid() && transaction == None && log == [] && !disposed
    {
      transaction := None;
      nextId := 0;
      log := [];
      disposed := false;
    }

    /** BeginTransaction: starts a transaction only when none is active, and returns the active one. */
    method BeginTransaction() returns (t: nat)
      requires Valid() && !disposed
      modifies this
      ensures Valid() && !disposed
      ensures transaction == Some(t) && Active(log) == {t}
      ensures old(transaction).Some? ==> t == old(transaction).value && log == old(log) && nextId == old(nextId)
      ensures old(transaction).None? ==>
        t == old(nextId) && nextId == old(nextId) + 1 && log == old(log) + [Began(t)]
    {
      if transaction.None? {
        var id := nextId;
        assert Active(log) == {};
        ActiveAppend(log, Began(id));
        assert Active(log + [Began(id)]) == {id};
        NumberedAppend(log, id, Began(id), id + 1);
        nextId := id + 1;
        log := log + [Began(id)];
        transaction := Some(id);
      }
      t := transaction.value;
    }

    /** BeginTransactionAsync: awaited, it behaves as BeginTransaction. */
    method BeginTransactionAsync() returns (t: nat)
      requires Valid() && !disposed
      modifies this
      ensures Valid() && !disposed
      ensures transaction == Some(t) && Active(log) == {t}
      ensures old(transaction).Some? ==> t == old(transaction).value && log == old(log) && nextId == old(nextId)
      ensures old(transaction).None? ==>
        t == old(nextId) && nextId == old(nextId) + 1 && log == old(log) + [Began(t)]
    {
      t := BeginTransaction();
    }

    /** Commits (or rolls back) the active transaction, then disposes it. */
    method End(commit: bool) returns (r: Result<()>)
      requires Valid() && !disposed
      modifies this
      ensures Valid() && !disposed && nextId == old(nextId)
      ensures old(transaction).None? ==> r == Err(NoActiveTransaction) && log == old(log) && transaction == None
      ensures old(transaction).Some? ==>
        && r == Ok(())
        && log == old(log) + [EndEvent(commit, old(transaction).value), TransactionDisposed(old(transaction).value)]
        && transaction == None && Active(log) == {}
    {
      if transaction.None? {
        return Err(NoActiveTransaction);
      }
      var id := transaction.value;
      NumberedAppend(log, nextId, EndEvent(commit, id), nextId);
      ActiveAppend(log, EndEvent(commit, id));
      log := log + [EndEvent(commit, id)];
      NumberedAppend(log, nextId, TransactionDisposed(id), nextId);
      ActiveAppend(log, TransactionDisposed(id));
      log := log + [TransactionDisposed(id)];
      transaction := None;
      r := Ok(());
    }

    /** CommitTransaction: fails when no transaction is active; otherwise commits, disposes and clears it. */
    method CommitTransaction() returns (r: Result<()>)
      requires Valid() && !disposed
      modifies this
      ensures Valid() && !disposed && nextId == old(nextId)
      ensures old(transaction).None? ==> r == Err(NoActiveTransaction) && log == old(log) && transaction == None
      ensures old(transaction).Some? ==>
        && r == Ok(())
        && log == old(log) + [Committed(old(transaction).value), TransactionDisposed(old(transaction).value)]
        && transaction == None && Active(log) == {}
    {
      r := End(true);
    }

    /** CommitTransactionAsync: awaited, it behaves as CommitTransaction. */
    method CommitTransactionAsync() returns (r: Result<()>)
      requires Valid() && !disposed
      modifies this
      ensures Valid() && !disposed && nextId == old(nextId)
      ensures old(transaction).None? ==> r == Err(NoActiveTransaction) && log == old(log) && transaction == None
      ensures old(transaction).Some? ==>
        && r == Ok(())
        && log == old(log) + [Committed(old(transaction).value), TransactionDisposed(old(transaction).value)]
        && transaction == None && Active(log) == {}
    {
      r := CommitTransaction();
    }

    /** RollbackTransaction: fails when no transaction is active; otherwise rolls back, disposes and clears it. */
    method RollbackTransaction() returns (r: Result<()>)
      requires Valid() && !disposed
      modifies this
      ensures Valid() && !disposed && nextId == old(nextId)
      ensures old(transaction).None? ==> r == Err(NoActiveTransaction) && log == old(log) && transaction == None
      ensures old(transaction).Some? ==>
        && r == Ok(())
        && log == old(log) + [RolledBack(old(transaction).value), TransactionDisposed(old(transaction).value)]
        && transaction == None && Active(log) == {}
    {
      r := End(false);
    }

    /** RollbackTransactionAsync: awaited, it behaves as RollbackTransaction. */
    method RollbackTransactionAsync() returns (r: Result<()>)
      requires Valid() && !disposed
      modifies this
      ensures Valid() && !disposed && nextId == old(nextId)
      ensures old(transaction).None? ==> r == Err(NoActiveTransaction) && log == old(log) && transaction == None
      ensures old(transaction).Some? ==>
        && r == Ok(())
        && log == old(log) + [RolledBack(old(transaction).value), TransactionDisposed(old(transaction).value)]
        && transaction == None && Active(log) == {}
    {
      r := RollbackTransaction();
    }

    /**
      Dispose: disposes the active transaction, if any, then the context. The field
      keeps naming the disposed transaction.
     */
    method Dispose()
      requires Valid()
      modifies this
      ensures Valid() && disposed
      ensures transaction == old(transaction) && nextId == old(nextId)
      ensures log == old(log) + (if transaction.Some? then [TransactionDisposed(transaction.value)] else []) + [ContextDisposed]
      ensures !old(disposed) ==> Active(log) == {}
    {
      var withTransaction := log;
      if transaction.Some? {
        NumberedAppend(log, nextId, TransactionDisposed(transaction.value), nextId);
        ActiveAppend(log, TransactionDisposed(transaction.value));
        withTransaction := log + [TransactionDisposed(transaction.value)];
      }
      NumberedAppend(withTransaction, nextId, ContextDisposed, nextId);
      ActiveAppend(withTransaction, ContextDisposed);
      log := withTransaction + [ContextDisposed];
      disposed := true;
    }

    /** DisposeAsync: awaited, it behaves as Dispose. */
    method DisposeAsync()
      requires Valid()
      modifies this
      ensures Valid() && disposed
      ensures transaction == old(transaction) && nextId == old(nextId)
      ensures log == old(log) + (if transaction.Some? then [TransactionDisposed(transaction.value)] else []) + [ContextDisposed]
      ensures !old(disposed) ==> Active(log) == {}
    {
      Dispose();
    }

    /** SaveChanges: the context's own count of written entries, `written`, is returned as it is. */
    method SaveChanges(written: nat) returns (n: nat)
      requires Valid() && !disposed
      modifies this
      ensures Valid() && !disposed
      ensures n == written && log == old(log) + [Saved(written)]
      ensures transaction == old(transaction) && nextId == old(nextId)
    {
      NumberedAppend(log, nextId, Saved(written), nextId);
      ActiveAppend(log, Saved(written));
      log := log + [Saved(written)];
      n := written;
    }

    /** SaveChangesAsync: awaited, it behaves as SaveChanges. */
    method SaveChangesAsync(written: nat) returns (n: nat)
      requires Valid() && !disposed
      modifies this
      ensures Valid() && !disposed
      ensures n == written && log == old(log) + [Saved(written)]
      ensures transaction == old(transaction) && nextId == old(nextId)
    {
      n := SaveChanges(written);
    }
  }

  /**
    A client sequence: begin, commit, begin. Beginning twice returns the same
    transaction; after the commit the next begin starts a fresh one.
   */
  method BeginCommitBegin(u: AppUnitOfWork) returns (first: nat, again: nat, second: nat)
    requires u.Valid() && !u.disposed && u.transaction.None?
    modifies u
    ensures u.Valid() && u.transaction == Some(second)
    ensures again == first && second != first
    ensures u.log == old(u.log) + [Began(first), Committed(first), TransactionDisposed(first), Began(second)]
  {
    first := u.BeginTransaction();
    again := u.BeginTransaction();
    var committed := u.CommitTransaction();
    second := u.BeginTransaction();
  }
}
