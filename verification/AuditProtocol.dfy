/** The audited-mutation protocol as a state machine: any number of operators,
    each begin / read the old value / mutate / append the audit row / commit,
    interleaved step by step with each other and with quota ticks, with a
    failure or a crash possible at every step (service/src/admin_api.rs,
    `audited_mutation`; service/src/quota.rs). Durable state is what a commit
    has written; working state belongs to the holder of the write lock. */
module AuditProtocol {
  import opened Numbers
  import opened Routes
  import opened AdminActions

  datatype Attempt = Attempt(actor: string, action: Action, note: string)

  datatype AuditOutcome = Success | Failure(error: AdminError)

  datatype AuditRow = AuditRow(attempt: Attempt, oldValue: Option<bool>, newValue: bool, outcome: AuditOutcome)

  datatype Db = Db(business: Business, log: seq<AuditRow>)

  /** Where one operator's attempt stands. `Leaked` has returned its error but
      could not roll back: its scope stays open until the connection drops. */
  datatype Pc =
    | Idle | Begun | HasRead(prior: Option<bool>)
    | Mutated(prior: Option<bool>, result: Result<(), AdminError>)
    | Appended(row: AuditRow)
    | Leaked(error: AdminError)
    | Done(receipt: AuditRow) | Failed(error: AdminError) | Crashed

  predicate InScope(pc: Pc)
  {
    pc.Begun? || pc.HasRead? || pc.Mutated? || pc.Appended? || pc.Leaked?
  }

  datatype Happening = Committed(p: nat, row: AuditRow) | QuotaPaused(reserve: Chain)

  /** What became durable, in order. */
  datatype History = Nothing | Then(earlier: History, last: Happening)

  datatype System = System(durable: Db, holder: Option<nat>, working: Db, pcs: map<nat, Pc>, history: History) {
    function At(p: nat): (pc: Pc)
    {
      if p in pcs then pcs[p] else Idle
    }

    function Goto(p: nat, pc: Pc): (s: System)
    {
      this.(pcs := pcs[p := pc])
    }
  }

  function Start(db: Db): (s: System)
  {
    System(db, None, db, map[], Nothing)
  }

  datatype Event =
    | Begin(p: nat) | BeginFails(p: nat)
    | Read(p: nat, rollbackWorks: bool) | ReadFails(p: nat, rollbackWorks: bool)
    | DoMutate(p: nat) | MutateFaults(p: nat, afterChecks: bool)
    | Append(p: nat, rollbackWorks: bool) | AppendFails(p: nat, rollbackWorks: bool)
    | Commit(p: nat) | CommitFails(p: nat, rollbackWorks: bool)
    | Crash(p: nat)
    | QuotaTick(reserve: Chain, remaining: u64, minTransfer: u64)
    | Traffic(reserve: Chain, figures: Reserve)

  /** The row an attempt appends once its mutation has an outcome. */
  function RowFor(a: Attempt, prior: Option<bool>, result: Result<(), AdminError>): (row: AuditRow)
  {
    AuditRow(a, prior, a.action.NewValue(), if result.Ok? then Success else Failure(result.error))
  }

  /** The append-only log refuses a row without an actor or a note. */
  predicate Appendable(a: Attempt)
  {
    a.actor != "" && a.note != ""
  }

  /** An error path: roll back and return, or return with the scope leaked. */
  function Abort(s: System, p: nat, error: AdminError, rollbackWorks: bool): (s': System)
  {
    if rollbackWorks then s.Goto(p, Failed(error)).(holder := None, working := s.durable)
    else s.Goto(p, Leaked(error))
  }

  /** A mutation step that fails in storage leaves either nothing or what its
      safety checks had already written. */
  function FaultedBusiness(b: Business, a: Action, afterChecks: bool): (b': Business)
  {
    if afterChecks && GuardedReserve(a).Some? then SafetyChecks(b, GuardedReserve(a).value).0 else b
  }

  function Next(s: System, e: Event, attempts: nat -> Attempt): (s': System)
  {
    match e
    case Begin(p) =>
      if s.At(p) != Idle then s
      else if s.holder.Some? then s.Goto(p, Failed(Storage))
      else s.Goto(p, Begun).(holder := Some(p), working := s.durable)
    case BeginFails(p) => if s.At(p) == Idle then s.Goto(p, Failed(Storage)) else s
    case Read(p, rollbackWorks) =>
      if s.At(p) != Begun then s
      else
        (match ReadOldValue(s.working.business, attempts(p).action)
         case Ok(prior) => s.Goto(p, HasRead(prior))
         case Err(error) => Abort(s, p, error, rollbackWorks))
    case ReadFails(p, rollbackWorks) =>
      if s.At(p) == Begun then Abort(s, p, Storage, rollbackWorks) else s
    case DoMutate(p) =>
      if !s.At(p).HasRead? then s
      else
        var (business, result) := Mutate(s.working.business, attempts(p).action);
        s.Goto(p, Mutated(s.At(p).prior, result)).(working := s.working.(business := business))
    case MutateFaults(p, afterChecks) =>
      if !s.At(p).HasRead? then s
      else
        s.Goto(p, Mutated(s.At(p).prior, Err(Storage)))
        .(working := s.working.(business := FaultedBusiness(s.working.business, attempts(p).action, afterChecks)))
    case Append(p, rollbackWorks) =>
      if !s.At(p).Mutated? then s
      else if !Appendable(attempts(p)) then Abort(s, p, Storage, rollbackWorks)
      else
        var row := RowFor(attempts(p), s.At(p).prior, s.At(p).result);
        s.Goto(p, Appended(row)).(working := s.working.(log := s.working.log + [row]))
    case AppendFails(p, rollbackWorks) =>
      if s.At(p).Mutated? then Abort(s, p, Storage, rollbackWorks) else s
    case Commit(p) =>
      if !s.At(p).Appended? then s
      else
        var row := s.At(p).row;
        s.Goto(p, if row.outcome.Success? then Done(row) else Failed(row.outcome.error))
        .(durable := s.working, holder := None, history := Then(s.history, Committed(p, row)))
    case CommitFails(p, rollbackWorks) =>
      if s.At(p).Appended? then Abort(s, p, Storage, rollbackWorks) else s
    case Crash(p) =>
      if InScope(s.At(p)) then s.Goto(p, Crashed).(holder := None, working := s.durable)
      else if s.At(p) == Idle then s.Goto(p, Crashed)
      else s
    case QuotaTick(c, remaining, minTransfer) =>
      if remaining < minTransfer && s.holder.None? && c in s.durable.business.reserves
      then
        s.(durable := s.durable.(business := PauseReserve(s.durable.business, c)),
           history := Then(s.history, QuotaPaused(c)))
      else s
    case Traffic(c, figures) =>
      if s.holder.None? && c in s.durable.business.reserves
      then s.(durable := s.durable.(business := MoveFigures(s.durable.business, c, figures)))
      else s
  }

  /** Deposits, payouts, reconciliation and the automatic gate move a reserve's
      figures; its two operator flags are not among them. */
  function MoveFigures(b: Business, c: Chain, figures: Reserve): (b': Business)
    requires c in b.reserves
  {
    SetReserve(b, c, figures.(paused := b.reserves[c].paused, admissionClosed := b.reserves[c].admissionClosed))
  }

  lemma MoveFiguresKeepsFlags(b: Business, c: Chain, figures: Reserve)
    requires c in b.reserves
    ensures FlagsOf(MoveFigures(b, c, figures)) == FlagsOf(b)
  {
    var row := b.reserves[c];
    SetReserveFlags(b, c, figures.(paused := row.paused, admissionClosed := row.admissionClosed));
    SetToItself(FlagsOf(b).paused, c);
    SetToItself(FlagsOf(b).admissionClosed, c);
  }

  function Run(s: System, events: seq<Event>, attempts: nat -> Attempt): (s': System)
    decreases |events|
  {
    if events == [] then s
    else Next(Run(s, events[..|events| - 1], attempts), events[|events| - 1], attempts)
  }

  // -------------------------------------------- what the history explains

  function RowsOf(h: History): (rows: seq<AuditRow>)
  {
    match h
    case Nothing => []
    case Then(earlier, Committed(_, row)) => RowsOf(earlier) + [row]
    case Then(earlier, QuotaPaused(_)) => RowsOf(earlier)
  }

  /** The flags after the Success rows and the quota pauses, in order. */
  function Replay(f: Flags, h: History): (f': Flags)
  {
    match h
    case Nothing => f
    case Then(earlier, QuotaPaused(c)) => SetFlag(Replay(f, earlier), SetPaused(c, true))
    case Then(earlier, Committed(_, row)) =>
      if row.outcome.Success? then SetFlag(Replay(f, earlier), row.attempt.action) else Replay(f, earlier)
  }

  /** A committed row is its operator's own and records the value its flag had
      in `before`, the flags just before it. */
  ghost predicate RowRight(before: Flags, what: Happening, attempts: nat -> Attempt)
  {
    what.Committed? ==>
      && what.row.attempt == attempts(what.p) && what.row.attempt.actor != "" && what.row.attempt.note != ""
      && what.row.newValue == what.row.attempt.action.NewValue()
      && what.row.oldValue == OldValueOf(before, what.row.attempt.action)
      && (what.row.outcome.Success? ==> what.row.oldValue == FlagBefore(before, what.row.attempt.action) != None)
  }

  /** Every row of the history is right at its own moment. */
  ghost predicate RecordedRight(f: Flags, h: History, attempts: nat -> Attempt)
  {
    h.Then? ==> RecordedRight(f, h.earlier, attempts) && RowRight(Replay(f, h.earlier), h.last, attempts)
  }

  /** The history accounts for the log, the flags and every recorded value. */
  ghost predicate Explains(h: History, init: Db, durable: Db, attempts: nat -> Attempt)
  {
    && durable.log == init.log + RowsOf(h)
    && FlagsOf(durable.business) == Replay(FlagsOf(init.business), h)
    && RecordedRight(FlagsOf(init.business), h, attempts)
  }

  /** Only a call that returned success has a Success row. */
  ghost predicate SuccessesAreDone(s: System, h: History)
  {
    h.Then? ==>
      && SuccessesAreDone(s, h.earlier)
      && (h.last.Committed? && h.last.row.outcome.Success? ==> s.At(h.last.p) == Done(h.last.row))
  }

  ghost predicate HistoryInv(s: System, init: Db, attempts: nat -> Attempt)
  {
    Explains(s.history, init, s.durable, attempts) && SuccessesAreDone(s, s.history)
  }

  /** What the holder of the lock has done to its working copy so far. */
  ghost predicate HolderInv(s: System, p: nat, a: Attempt)
  {
    match s.At(p)
    case Begun => s.working == s.durable
    case HasRead(prior) => s.working == s.durable && ReadOldValue(s.durable.business, a.action) == Ok(prior)
    case Mutated(prior, result) => s.working.log == s.durable.log && WorkedOn(s, a, prior, result)
    case Appended(row) =>
      && Appendable(a)
      && exists prior, result :: row == RowFor(a, prior, result) && WorkedOn(s, a, prior, result)
                                 && s.working.log == s.durable.log + [row]
    case Leaked(_) => true
    case _ => false
  }

  ghost predicate WorkedOn(s: System, a: Attempt, prior: Option<bool>, result: Result<(), AdminError>)
  {
    && ReadOldValue(s.durable.business, a.action) == Ok(prior)
    && if result.Ok? then Mutate(s.durable.business, a.action) == (s.working.business, result)
       else LeftByAFailure(s.durable.business, a.action, s.working.business)
  }

  /** All a failed mutation can leave: nothing, or the automatic liquidity gate's
      own transition. */
  ghost predicate LeftByAFailure(b: Business, a: Action, b': Business)
  {
    b' == b || b' == GateMoved(b, a)
  }

  ghost predicate LockInv(s: System)
  {
    forall p: nat :: InScope(s.At(p)) <==> s.holder == Some(p)
  }

  ghost predicate Inv(s: System, init: Db, attempts: nat -> Attempt)
  {
    && HistoryInv(s, init, attempts)
    && LockInv(s)
    && (s.holder.Some? ==> HolderInv(s, s.holder.value, attempts(s.holder.value)))
  }

  lemma StartInv(init: Db, attempts: nat -> Attempt)
    ensures Inv(Start(init), init, attempts)
  {
    assert init.log + RowsOf(Nothing) == init.log;
  }

  /** Steps that write nothing durable keep the history's explanation. */
  lemma QuietStep(s: System, s': System, p: nat, init: Db, attempts: nat -> Attempt)
    requires HistoryInv(s, init, attempts)
    requires s'.durable == s.durable && s'.history == s.history
    requires forall q: nat :: q != p ==> s'.At(q) == s.At(q)
    requires !s.At(p).Done?
    ensures HistoryInv(s', init, attempts)
  {
    DoneKept(s, s', p, s.history);
  }

  lemma {:induction false} DoneKept(s: System, s': System, p: nat, h: History)
    requires SuccessesAreDone(s, h) && !s.At(p).Done?
    requires forall q: nat :: q != p ==> s'.At(q) == s.At(q)
    ensures SuccessesAreDone(s', h)
  {
    if h.Then? { DoneKept(s, s', p, h.earlier); }
  }

  /** The row a commit appends tells what happened to the flags. */
  ghost predicate RowTells(before: Db, after: Db, a: Attempt, row: AuditRow)
  {
    var f, f' := FlagsOf(before.business), FlagsOf(after.business);
    && after.log == before.log + [row]
    && row.attempt == a && a.actor != "" && a.note != ""
    && row.newValue == a.action.NewValue() && row.oldValue == OldValueOf(f, a.action)
    && (if row.outcome.Success?
        then f' == SetFlag(f, a.action) && row.oldValue == FlagBefore(f, a.action) != None
        else f' == f)
  }

  /** What one commit makes durable: one row, and either the whole mutation or,
      under a Failure row, at most the automatic gate's transition. */
  ghost predicate AuditedChange(before: Db, after: Db, a: Attempt, row: AuditRow)
  {
    && RowTells(before, after, a, row)
    && (if row.outcome.Success?
        then Mutate(before.business, a.action) == (after.business, Ok(()))
        else LeftByAFailure(before.business, a.action, after.business))
  }

  lemma CommitIsAudited(s: System, p: nat, init: Db, attempts: nat -> Attempt)
    requires Inv(s, init, attempts) && s.At(p).Appended?
    ensures AuditedChange(s.durable, s.working, attempts(p), s.At(p).row)
  {
    var a, row := attempts(p), s.At(p).row;
    assert s.holder == Some(p);
    var prior, result :| row == RowFor(a, prior, result) && WorkedOn(s, a, prior, result)
                         && s.working.log == s.durable.log + [row];
    if result.Ok? {
      SuccessIsAudited(s.durable, s.working, a, prior);
    } else {
      FailureIsAudited(s.durable, s.working, a, prior, result.error);
    }
  }

  lemma SuccessIsAudited(before: Db, after: Db, a: Attempt, prior: Option<bool>)
    requires after.log == before.log + [RowFor(a, prior, Ok(()))] && Appendable(a)
    requires ReadOldValue(before.business, a.action) == Ok(prior)
    requires Mutate(before.business, a.action) == (after.business, Ok(()))
    ensures AuditedChange(before, after, a, RowFor(a, prior, Ok(())))
  {
    MutateFlags(before.business, a.action);
    ReadIsFlag(before.business, a.action);
  }

  lemma FailureIsAudited(before: Db, after: Db, a: Attempt, prior: Option<bool>, error: AdminError)
    requires after.log == before.log + [RowFor(a, prior, Err(error))] && Appendable(a)
    requires ReadOldValue(before.business, a.action) == Ok(prior)
    requires LeftByAFailure(before.business, a.action, after.business)
    ensures AuditedChange(before, after, a, RowFor(a, prior, Err(error)))
  {
    GateMovedKeepsFlags(before.business, a.action);
    ReadIsFlag(before.business, a.action);
  }

  lemma CommitTells(s: System, p: nat, init: Db, attempts: nat -> Attempt)
    requires Inv(s, init, attempts) && s.At(p).Appended?
    ensures RowTells(s.durable, s.working, attempts(p), s.At(p).row)
  {
    CommitIsAudited(s, p, init, attempts);
  }

  /** A happening that tells its own change keeps the explanation. */
  lemma HistoryTold(init: Db, before: Db, after: Db, h: History, p: nat, row: AuditRow, attempts: nat -> Attempt)
    requires RowTells(before, after, attempts(p), row) && Explains(h, init, before, attempts)
    ensures Explains(Then(h, Committed(p, row)), init, after, attempts)
  {
    assert init.log + RowsOf(h) + [row] == init.log + (RowsOf(h) + [row]);
  }

  lemma CommitHistoryInv(s: System, p: nat, init: Db, attempts: nat -> Attempt)
    requires Inv(s, init, attempts) && s.At(p).Appended?
    ensures HistoryInv(Next(s, Commit(p), attempts), init, attempts)
  {
    CommitTells(s, p, init, attempts);
    HistoryTold(init, s.durable, s.working, s.history, p, s.At(p).row, attempts);
    DoneKept(s, Next(s, Commit(p), attempts), p, s.history);
  }

  lemma CommitInv(s: System, p: nat, init: Db, attempts: nat -> Attempt)
    requires Inv(s, init, attempts) && s.At(p).Appended?
    ensures Inv(Next(s, Commit(p), attempts), init, attempts)
  {
    assert s.holder == Some(p);
    CommitHistoryInv(s, p, init, attempts);
  }

  lemma QuotaInv(s: System, e: Event, init: Db, attempts: nat -> Attempt)
    requires Inv(s, init, attempts) && e.QuotaTick?
    ensures Inv(Next(s, e, attempts), init, attempts)
  {
    if e.remaining < e.minTransfer && s.holder.None? && e.reserve in s.durable.business.reserves {
      QuotaHistory(s.durable, e.reserve, s.history, init, attempts);
      NoOneMoves(s, Next(s, e, attempts), s.history);
    } else {
      assert Next(s, e, attempts) == s;
    }
  }

  lemma TrafficInv(s: System, e: Event, init: Db, attempts: nat -> Attempt)
    requires Inv(s, init, attempts) && e.Traffic?
    ensures Inv(Next(s, e, attempts), init, attempts)
  {
    if s.holder.None? && e.reserve in s.durable.business.reserves {
      MoveFiguresKeepsFlags(s.durable.business, e.reserve, e.figures);
      NoOneMoves(s, Next(s, e, attempts), s.history);
    } else {
      assert Next(s, e, attempts) == s;
    }
  }

  lemma {:induction false} NoOneMoves(s: System, s': System, h: History)
    requires SuccessesAreDone(s, h) && s'.pcs == s.pcs
    ensures SuccessesAreDone(s', h)
  {
    if h.Then? { NoOneMoves(s, s', h.earlier); }
  }

  lemma QuotaHistory(before: Db, c: Chain, h: History, init: Db, attempts: nat -> Attempt)
    requires c in before.business.reserves && Explains(h, init, before, attempts)
    ensures Explains(Then(h, QuotaPaused(c)), init, before.(business := PauseReserve(before.business, c)), attempts)
  {
    PauseReserveFlags(before.business, c);
  }

  lemma MutateInv(s: System, e: Event, init: Db, attempts: nat -> Attempt)
    requires Inv(s, init, attempts) && (e.DoMutate? || e.MutateFaults?)
    ensures Inv(Next(s, e, attempts), init, attempts)
  {
    var p := e.p;
    if s.At(p).HasRead? {
      var a := attempts(p);
      assert s.holder == Some(p);
      if Mutate(s.durable.business, a.action).1.Err? { RefusalEffect(s.durable.business, a.action); }
      if GuardedReserve(a.action).Some? { SafetyChecksMoveOnlyTheGate(s.durable.business, a.action); }
      QuietStep(s, Next(s, e, attempts), p, init, attempts);
    }
  }

  lemma AppendInv(s: System, p: nat, rollbackWorks: bool, init: Db, attempts: nat -> Attempt)
    requires Inv(s, init, attempts)
    ensures Inv(Next(s, Append(p, rollbackWorks), attempts), init, attempts)
  {
    if s.At(p).Mutated? {
      assert s.holder == Some(p);
      if !Appendable(attempts(p)) {
        AbortInv(s, p, Storage, rollbackWorks, init, attempts);
      } else {
        var s' := Next(s, Append(p, rollbackWorks), attempts);
        QuietStep(s, s', p, init, attempts);
        var prior, result := s.At(p).prior, s.At(p).result;
        assert s'.At(p).row == RowFor(attempts(p), prior, result) && WorkedOn(s', attempts(p), prior, result);
      }
    }
  }

  lemma AbortInv(s: System, p: nat, error: AdminError, rollbackWorks: bool, init: Db, attempts: nat -> Attempt)
    requires Inv(s, init, attempts) && InScope(s.At(p))
    ensures Inv(Abort(s, p, error, rollbackWorks), init, attempts)
  {
    assert s.holder == Some(p);
    QuietStep(s, Abort(s, p, error, rollbackWorks), p, init, attempts);
  }

  lemma ReadInv(s: System, e: Event, init: Db, attempts: nat -> Attempt)
    requires Inv(s, init, attempts) && (e.Read? || e.ReadFails?)
    ensures Inv(Next(s, e, attempts), init, attempts)
  {
    if s.At(e.p) == Begun {
      assert s.holder == Some(e.p);
      var prior := ReadOldValue(s.working.business, attempts(e.p).action);
      if e.Read? && prior.Ok? {
        QuietStep(s, Next(s, e, attempts), e.p, init, attempts);
      } else {
        AbortInv(s, e.p, if e.Read? then prior.error else Storage, e.rollbackWorks, init, attempts);
      }
    }
  }

  lemma EdgeInv(s: System, e: Event, init: Db, attempts: nat -> Attempt)
    requires Inv(s, init, attempts) && (e.Begin? || e.BeginFails? || e.Crash?)
    ensures Inv(Next(s, e, attempts), init, attempts)
  {
    var s' := Next(s, e, attempts);
    if s' != s {
      assert InScope(s.At(e.p)) ==> s.holder == Some(e.p);
      QuietStep(s, s', e.p, init, attempts);
    }
  }

  lemma NextInv(s: System, e: Event, init: Db, attempts: nat -> Attempt)
    requires Inv(s, init, attempts)
    ensures Inv(Next(s, e, attempts), init, attempts)
  {
    match e
    case DoMutate(_) => MutateInv(s, e, init, attempts);
    case MutateFaults(_, _) => MutateInv(s, e, init, attempts);
    case Append(p, rollbackWorks) => AppendInv(s, p, rollbackWorks, init, attempts);
    case Commit(p) => if s.At(p).Appended? { CommitInv(s, p, init, attempts); }
    case QuotaTick(_, _, _) => QuotaInv(s, e, init, attempts);
    case Traffic(_, _) => TrafficInv(s, e, init, attempts);
    case Read(_, _) => ReadInv(s, e, init, attempts);
    case ReadFails(_, _) => ReadInv(s, e, init, attempts);
    case AppendFails(p, rollbackWorks) =>
      if s.At(p).Mutated? { AbortInv(s, p, Storage, rollbackWorks, init, attempts); }
    case CommitFails(p, rollbackWorks) =>
      if s.At(p).Appended? { AbortInv(s, p, Storage, rollbackWorks, init, attempts); }
    case _ => EdgeInv(s, e, init, attempts);
  }

  lemma {:induction false} RunInv(init: Db, events: seq<Event>, attempts: nat -> Attempt)
    ensures Inv(Run(Start(init), events, attempts), init, attempts)
    decreases |events|
  {
    if events == [] {
      StartInv(init, attempts);
    } else {
      var before := events[..|events| - 1];
      RunInv(init, before, attempts);
      NextInv(Run(Start(init), before, attempts), events[|events| - 1], init, attempts);
    }
  }

  // ------------------------------------------------------- main theorems

  /** In every interleaving, with any failures and crashes: the log is the
      initial log plus the committed rows; the operator flags are exactly the
      initial flags replayed through the Success rows and the quota pauses;
      every row records the value its flag had immediately before it; and an
      attempt that returned an error (or crashed) has no Success row. */
  lemma AuditedHistory(init: Db, events: seq<Event>, attempts: nat -> Attempt)
    ensures var s := Run(Start(init), events, attempts);
            Explains(s.history, init, s.durable, attempts) && SuccessesAreDone(s, s.history)
  {
    RunInv(init, events, attempts);
  }

  /** Every single step: a flag changes only in a commit, with exactly one row
      that tells the whole change, or in an unaudited quota pause; traffic moves
      figures only; nothing else becomes durable. */
  lemma DurableChangesAreAudited(init: Db, events: seq<Event>, attempts: nat -> Attempt, e: Event)
    ensures var s := Run(Start(init), events, attempts);
            var s' := Next(s, e, attempts);
            match e
            case Commit(p) =>
              || s'.durable == s.durable
              || (s.At(p).Appended? && AuditedChange(s.durable, s'.durable, attempts(p), s.At(p).row))
            case QuotaTick(c, remaining, minTransfer) =>
              && s'.durable.log == s.durable.log
              && (s'.durable != s.durable ==>
                    remaining < minTransfer && s.holder.None?
                    && FlagsOf(s'.durable.business) == SetFlag(FlagsOf(s.durable.business), SetPaused(c, true)))
            case Traffic(_, _) =>
              && s'.durable.log == s.durable.log
              && FlagsOf(s'.durable.business) == FlagsOf(s.durable.business)
            case _ => s'.durable == s.durable
  {
    RunInv(init, events, attempts);
    var s := Run(Start(init), events, attempts);
    if e.Commit? && s.At(e.p).Appended? { CommitIsAudited(s, e.p, init, attempts); }
    if e.QuotaTick? && e.reserve in s.durable.business.reserves { PauseReserveFlags(s.durable.business, e.reserve); }
    if e.Traffic? && e.reserve in s.durable.business.reserves {
      MoveFiguresKeepsFlags(s.durable.business, e.reserve, e.figures);
    }
  }

  /** A step after which an attempt has returned an error, or crashed, left the
      business state as it was, or moved only the automatic gate. */
  lemma ErrorsChangeNothingElse(init: Db, events: seq<Event>, attempts: nat -> Attempt, e: Event, p: nat)
    requires var s := Run(Start(init), events, attempts);
             var s' := Next(s, e, attempts);
             s'.At(p) != s.At(p) && (s'.At(p).Failed? || s'.At(p).Leaked? || s'.At(p).Crashed?)
    ensures var s := Run(Start(init), events, attempts);
            LeftByAFailure(s.durable.business, attempts(p).action, Next(s, e, attempts).durable.business)
  {
    RunInv(init, events, attempts);
    ErrorStep(Run(Start(init), events, attempts), e, p, init, attempts);
  }

  lemma ErrorStep(s: System, e: Event, p: nat, init: Db, attempts: nat -> Attempt)
    requires Inv(s, init, attempts)
    requires var s' := Next(s, e, attempts);
             s'.At(p) != s.At(p) && (s'.At(p).Failed? || s'.At(p).Leaked? || s'.At(p).Crashed?)
    ensures LeftByAFailure(s.durable.business, attempts(p).action, Next(s, e, attempts).durable.business)
  {
    if e.Commit? { CommitIsAudited(s, p, init, attempts); }
  }

  /** A reserve is unpaused only by a commit that appends a Success `unpause`
      row for that reserve; no quota tick ever unpauses. */
  lemma UnpauseIsAudited(init: Db, events: seq<Event>, attempts: nat -> Attempt, e: Event, c: Chain)
    requires var s := Run(Start(init), events, attempts);
             var s' := Next(s, e, attempts);
             c in s.durable.business.reserves && s.durable.business.reserves[c].paused
             && !(c in s'.durable.business.reserves && s'.durable.business.reserves[c].paused)
    ensures var s := Run(Start(init), events, attempts);
            var s' := Next(s, e, attempts);
            e.Commit? && s.At(e.p).Appended?
            && var row := s.At(e.p).row;
               s'.durable.log == s.durable.log + [row] && row.outcome.Success?
               && row.attempt.action == SetPaused(c, false) && row.oldValue == Some(true)
  {
    DurableChangesAreAudited(init, events, attempts, e);
    var s := Run(Start(init), events, attempts);
    var f, f' := FlagsOf(s.durable.business), FlagsOf(Next(s, e, attempts).durable.business);
    assert c in f.paused && f.paused[c] && !(c in f'.paused && f'.paused[c]);
  }

  /** `part` is where the history `h` stood at some moment. */
  ghost predicate Reached(part: History, h: History)
  {
    part == h || (h.Then? && Reached(part, h.earlier))
  }

  /** Read moment by moment: whatever happened, and whenever, its row is right
      against the flags of that moment. */
  lemma {:induction false} EveryMomentIsRight(f: Flags, h: History, attempts: nat -> Attempt, part: History)
    requires RecordedRight(f, h, attempts) && Reached(part, h) && part.Then?
    ensures RowRight(Replay(f, part.earlier), part.last, attempts)
  {
    if part != h { EveryMomentIsRight(f, h.earlier, attempts, part); }
  }

  predicate SameFlag(a: Action, b: Action)
  {
    match (a, b)
    case (SetPaused(c, _), SetPaused(d, _)) => c == d
    case (SetAdmission(c, _), SetAdmission(d, _)) => c == d
    case (SetRouteAdmission(r, _), SetRouteAdmission(q, _)) => r == q
    case _ => false
  }

  /** The value the latest Success row or quota pause gave the flag of `a`. */
  function LastWrite(h: History, a: Action): (v: Option<bool>)
  {
    match h
    case Nothing => None
    case Then(earlier, QuotaPaused(c)) => if SameFlag(SetPaused(c, true), a) then Some(true) else LastWrite(earlier, a)
    case Then(earlier, Committed(_, row)) =>
      if row.outcome.Success? && SameFlag(row.attempt.action, a) then Some(row.attempt.action.NewValue())
      else LastWrite(earlier, a)
  }

  lemma {:induction false} ReplayIsLastWrite(f: Flags, h: History, a: Action)
    ensures FlagBefore(Replay(f, h), a) == if LastWrite(h, a).Some? then LastWrite(h, a) else FlagBefore(f, a)
  {
    if h.Then? {
      ReplayIsLastWrite(f, h.earlier, a);
      var what := if h.last.QuotaPaused? then SetPaused(h.last.reserve, true) else h.last.row.attempt.action;
      SetFlagWrites(Replay(f, h.earlier), what, a);
    }
  }

  /** Setting one flag writes it and keeps every other. */
  lemma SetFlagWrites(f: Flags, what: Action, a: Action)
    ensures FlagBefore(SetFlag(f, what), a) == if SameFlag(what, a) then Some(what.NewValue()) else FlagBefore(f, a)
  {
  }

  /** Two operators can never both record the same impossible transition: in
      every run, every Success row records exactly what the latest writer of its
      flag wrote, or the initial value when there was none. */
  lemma RowsChain(init: Db, events: seq<Event>, attempts: nat -> Attempt, part: History)
    requires Reached(part, Run(Start(init), events, attempts).history)
    requires part.Then? && part.last.Committed? && part.last.row.outcome.Success?
    ensures var a, row := part.last.row.attempt.action, part.last.row;
            row.oldValue == if LastWrite(part.earlier, a).Some? then LastWrite(part.earlier, a)
                            else FlagBefore(FlagsOf(init.business), a)
  {
    var f := FlagsOf(init.business);
    RunInv(init, events, attempts);
    EveryMomentIsRight(f, Run(Start(init), events, attempts).history, attempts, part);
    ReplayIsLastWrite(f, part.earlier, part.last.row.attempt.action);
  }
}
