/** The ledger connection the admin surface drives, as the mutable object it is:
    a durable database, and the working copy of the one open admin scope. The
    audited mutation is proved to be one uninterrupted run of the step machine
    of `AuditProtocol`, whatever storage does to it. */
module AdminLedger {
  import opened Numbers
  import opened Routes
  import opened AdminActions
  import opened AuditProtocol

  /** What storage does during one audited mutation. A mutation fault happens
      before (false) or after (true) its safety checks have written. */
  datatype StorageAnswers = StorageAnswers(
    canBegin: bool, canRead: bool, mutationFault: Option<bool>, canAppend: bool, canCommit: bool, canRollBack: bool)

  /** The steps of the machine one call takes; those past an abort are ignored. */
  function StepsOf(w: StorageAnswers): (events: seq<Event>)
  {
    [ if w.canBegin then Begin(0) else BeginFails(0),
      if w.canRead then Read(0, w.canRollBack) else ReadFails(0, w.canRollBack),
      if w.mutationFault.Some? then MutateFaults(0, w.mutationFault.value) else DoMutate(0),
      if w.canAppend then Append(0, w.canRollBack) else AppendFails(0, w.canRollBack),
      if w.canCommit then Commit(0) else CommitFails(0, w.canRollBack) ]
  }

  /** Where the machine ends, alone, on the database `db`. */
  function RunAlone(db: Db, a: Attempt, w: StorageAnswers): (s: System)
  {
    Run(Start(db), StepsOf(w), _ => a)
  }

  function NextThree(s: System, events: seq<Event>, attempts: nat -> Attempt): (s': System)
    requires |events| >= 3
  {
    Next(Next(Next(s, events[0], attempts), events[1], attempts), events[2], attempts)
  }

  lemma RunOfFive(s: System, events: seq<Event>, attempts: nat -> Attempt)
    requires |events| == 5
    ensures Run(s, events, attempts) ==
            Next(Next(NextThree(s, events, attempts), events[3], attempts), events[4], attempts)
  {
    RunSnoc(s, events, 5, attempts);
    RunSnoc(s, events, 4, attempts);
    RunSnoc(s, events, 3, attempts);
    RunSnoc(s, events, 2, attempts);
    RunSnoc(s, events, 1, attempts);
  }

  lemma RunSnoc(s: System, events: seq<Event>, n: nat, attempts: nat -> Attempt)
    requires 0 < n <= |events|
    ensures Run(s, events[..n], attempts) == Next(Run(s, events[..n - 1], attempts), events[n - 1], attempts)
    ensures events[..|events|] == events
  {
    assert events[..n][..n - 1] == events[..n - 1];
  }

  /** Nothing goes wrong in storage. */
  predicate Calm(w: StorageAnswers)
  {
    w.canBegin && w.canRead && w.mutationFault.None? && w.canAppend && w.canCommit
  }

  /** Returned `error` before anything became durable. */
  predicate Aborted(s: System, db: Db, w: StorageAnswers, error: AdminError)
  {
    && s.durable == db
    && (s.holder.Some? <==> w.canBegin && !w.canRollBack)
    && s.At(0) == if w.canBegin && !w.canRollBack then Leaked(error) else Failed(error)
  }

  /** What the mutation step does to the working copy, and answers. */
  function MutationStep(b: Business, a: Action, w: StorageAnswers): (r: (Business, Result<(), AdminError>))
  {
    if w.mutationFault.Some? then (FaultedBusiness(b, a, w.mutationFault.value), Err(Storage)) else Mutate(b, a)
  }

  /** The old value as the call reads it. */
  function PriorRead(b: Business, a: Action, w: StorageAnswers): (r: Result<Option<bool>, AdminError>)
  {
    if w.canBegin && w.canRead then ReadOldValue(b, a) else Err(Storage)
  }

  ghost predicate IsMutated(s: System, db: Db, a: Attempt, w: StorageAnswers)
  {
    var prior, m := PriorRead(db.business, a.action, w), MutationStep(db.business, a.action, w);
    if prior.Ok?
    then s == System(db, Some(0), db.(business := m.0), s.pcs, Nothing) && s.At(0) == Mutated(prior.value, m.1)
    else Aborted(s, db, w, prior.error)
  }

  ghost predicate IsAppended(s: System, db: Db, a: Attempt, w: StorageAnswers)
  {
    var prior, m := PriorRead(db.business, a.action, w), MutationStep(db.business, a.action, w);
    if prior.Err? then Aborted(s, db, w, prior.error)
    else if w.canAppend && Appendable(a)
    then var row := RowFor(a, prior.value, m.1);
         s == System(db, Some(0), Db(m.0, db.log + [row]), s.pcs, Nothing) && s.At(0) == Appended(row)
    else Aborted(s, db, w, Storage)
  }

  lemma AfterMutation(db: Db, a: Attempt, w: StorageAnswers)
    ensures var events, attempts: nat -> Attempt := StepsOf(w), _ => a;
            IsMutated(NextThree(Start(db), events, attempts), db, a, w)
  {
  }

  lemma AfterAppend(db: Db, a: Attempt, w: StorageAnswers, s: System)
    requires IsMutated(s, db, a, w)
    ensures IsAppended(Next(s, StepsOf(w)[3], _ => a), db, a, w)
  {
  }

  /** What one call leaves durable, whether its scope stays open, and its
      answer, in closed form. */
  datatype Ending = Ending(durable: Db, leaked: bool, answer: Result<AuditRow, AdminError>)

  function EndingOf(db: Db, a: Attempt, w: StorageAnswers): (x: Ending)
  {
    var prior := PriorRead(db.business, a.action, w);
    if prior.Err? then Ending(db, w.canBegin && !w.canRollBack, Err(prior.error))
    else if !w.canAppend || !Appendable(a) || !w.canCommit then Ending(db, !w.canRollBack, Err(Storage))
    else
      var (b, result) := MutationStep(db.business, a.action, w);
      var row := RowFor(a, prior.value, result);
      Ending(Db(b, db.log + [row]), false, if result.Ok? then Ok(row) else Err(result.error))
  }

  ghost predicate EndsAs(s: System, x: Ending)
  {
    && s.durable == x.durable && (s.holder.Some? <==> x.leaked)
    && s.At(0) == (match x.answer
                   case Ok(row) => Done(row)
                   case Err(e) => if x.leaked then Leaked(e) else Failed(e))
  }

  lemma AfterCommit(db: Db, a: Attempt, w: StorageAnswers, s: System)
    requires IsAppended(s, db, a, w)
    ensures EndsAs(Next(s, StepsOf(w)[4], _ => a), EndingOf(db, a, w))
  {
  }

  /** The closed form is where the machine's run ends. */
  lemma EndingIsTheRuns(db: Db, a: Attempt, w: StorageAnswers)
    ensures EndsAs(RunAlone(db, a, w), EndingOf(db, a, w))
  {
    var attempts: nat -> Attempt := _ => a;
    var events := StepsOf(w);
    RunOfFive(Start(db), events, attempts);
    var s3 := NextThree(Start(db), events, attempts);
    AfterMutation(db, a, w);
    AfterAppend(db, a, w, s3);
    AfterCommit(db, a, w, Next(s3, events[3], attempts));
  }

  /** The caller's reading of one audited mutation. Ok exactly when storage did
      not fail, the row was appendable, the old value readable and the mutation
      accepted; then the mutation and its Success row became durable together.
      Otherwise an error, and the database is as it was, or gained exactly one
      Failure row naming that error and at most the automatic gate's transition. */
  lemma OneAttempt(db: Db, a: Attempt, w: StorageAnswers)
    ensures var x, prior, m := EndingOf(db, a, w), ReadOldValue(db.business, a.action), Mutate(db.business, a.action);
            && (x.answer.Ok? <==> Calm(w) && a.actor != "" && a.note != "" && prior.Ok? && m.1.Ok?)
            && (x.answer.Ok? ==> !x.leaked && x.durable == Db(m.0, db.log + [x.answer.value])
                                 && AuditedChange(db, x.durable, a, x.answer.value))
            && (x.answer.Err? && x.durable != db ==>
                  && !x.leaked && prior.Ok?
                  && AuditedChange(db, x.durable, a, RowFor(a, prior.value, Err(x.answer.error))))
            && (x.leaked ==> !w.canRollBack && x.durable == db)
  {
    var b, b' := db.business, MutationStep(db.business, a.action, w).0;
    if Mutate(b, a.action).1.Err? { RefusalEffect(b, a.action); }
    if GuardedReserve(a.action).Some? { SafetyChecksMoveOnlyTheGate(b, a.action); }
    GateMovedKeepsFlags(b, a.action);
    MutateFlags(b, a.action);
    if ReadOldValue(b, a.action).Ok? { ReadIsFlag(b, a.action); }
  }

  /** The reserve whose missing row ends an attempt before anything is recorded. */
  predicate RowMissing(b: Business, a: Action)
  {
    match a
    case SetPaused(c, _) => c !in b.reserves
    case SetAdmission(c, _) => c == Goldcoin && Goldcoin !in b.reserves
    case SetRouteAdmission(_, _) => false
  }

  /** While storage holds, every refusal of a signed and noted attempt leaves its
      Failure row, the restriction to one reserve included; only a reserve
      without a row ends the attempt unrecorded. */
  lemma RefusalsLeaveARow(db: Db, a: Attempt, w: StorageAnswers)
    requires Calm(w) && a.actor != "" && a.note != "" && EndingOf(db, a, w).answer.Err?
    ensures var x := EndingOf(db, a, w);
            && (RowMissing(db.business, a.action) ==> x.durable == db)
            && (!RowMissing(db.business, a.action) ==>
                  exists v :: x.durable.log == db.log + [AuditRow(a, v, a.action.NewValue(), Failure(x.answer.error))])
  {
    var prior := PriorRead(db.business, a.action, w);
    if prior.Ok? {
      var result := MutationStep(db.business, a.action, w).1;
      assert EndingOf(db, a, w).durable.log == db.log + [RowFor(a, prior.value, result)];
    }
  }

  class Ledger {
    var durable: Db
    var scope: Option<Db>

    constructor (db: Db)
      ensures durable == db && scope == None
    {
      durable := db;
      scope := None;
    }

    /** What a read on this connection sees. */
    function Seen(): (db: Db)
      reads this
    {
      if scope.Some? then scope.value else durable
    }

    /** Inside a scope a write is a savepoint of it; outside, it is durable. */
    method Write(b: Business)
      modifies this
      ensures Seen() == old(Seen()).(business := b)
      ensures scope.Some? == old(scope.Some?)
      ensures scope.Some? ==> durable == old(durable)
    {
      if scope.Some? { scope := Some(scope.value.(business := b)); }
      else { durable := durable.(business := b); }
    }

    method BeginAdminAction(works: bool) returns (ok: bool)
      modifies this
      ensures ok == (works && old(scope).None?)
      ensures durable == old(durable) && scope == if ok then Some(durable) else old(scope)
    {
      ok := works && scope.None?;
      if ok { scope := Some(durable); }
    }

    method CommitAdminAction(works: bool)
      requires scope.Some?
      modifies this
      ensures durable == (if works then old(scope).value else old(durable))
      ensures scope == (if works then None else old(scope))
    {
      if works { durable, scope := scope.value, None; }
    }

    method RollbackAdminAction(works: bool)
      modifies this
      ensures durable == old(durable) && scope == if works then None else old(scope)
    {
      if works { scope := None; }
    }

    method AppendAdminAudit(row: AuditRow, works: bool) returns (ok: bool)
      requires scope.Some?
      modifies this
      ensures ok == (works && Appendable(row.attempt))
      ensures durable == old(durable)
      ensures scope == if ok then Some(old(scope).value.(log := old(scope).value.log + [row])) else old(scope)
    {
      ok := works && Appendable(row.attempt);
      if ok { scope := Some(scope.value.(log := scope.value.log + [row])); }
    }

    /** Re-evaluates the automatic liquidity gate and writes the transition, if
        any. Only the Goldcoin reserve has one; any other answers open. */
    method EvaluateLiquidityGate(c: Chain) returns (closed: bool)
      requires c in Seen().business.reserves
      modifies this
      ensures var row := old(Seen()).business.reserves[c];
              && closed == (c == Goldcoin && row.GateClosesNext())
              && Seen() == old(Seen()).(business :=
                   SetReserve(old(Seen()).business, c, row.(liquidityAdmissionClosed := closed)))
      ensures scope.Some? == old(scope.Some?) && (scope.Some? ==> durable == old(durable))
    {
      var b := Seen().business;
      var row := b.reserves[c];
      closed := c == Goldcoin && row.GateClosesNext();
      Write(SetReserve(b, c, row.(liquidityAdmissionClosed := closed)));
    }

    method RequireReserveSafe(c: Chain) returns (r: Result<(), AdminError>)
      modifies this
      ensures (Seen().business, r) == SafetyChecks(old(Seen()).business, c) && Seen().log == old(Seen()).log
      ensures scope.Some? == old(scope.Some?) && (scope.Some? ==> durable == old(durable))
    {
      var b := Seen().business;
      if c !in b.reserves { return Err(Conflict); }
      var row := b.reserves[c];
      if row.balance < row.protectedMinimum + row.reserved { return Err(Conflict); }
      if c == Goldcoin {
        if row.minAvailableUtxos != 0 && row.availableUtxos <= row.minAvailableUtxos { return Err(Conflict); }
        var closed := EvaluateLiquidityGate(c);
        if closed { return Err(Conflict); }
      }
      r := Ok(());
    }

    method SetFlagRow(a: Action) returns (r: Result<(), AdminError>)
      modifies this
      ensures (Seen().business, r) == WriteFlag(old(Seen()).business, a) && Seen().log == old(Seen()).log
      ensures scope.Some? == old(scope.Some?) && (scope.Some? ==> durable == old(durable))
    {
      var (b, outcome) := WriteFlag(Seen().business, a);
      Write(b);
      r := outcome;
    }

    /** The mutation closure of each audited action. Pausing and closing write
        at once; re-opening passes the safety checks first. */
    method Apply(a: Action) returns (r: Result<(), AdminError>)
      modifies this
      ensures (Seen().business, r) == Mutate(old(Seen()).business, a) && Seen().log == old(Seen()).log
      ensures scope.Some? == old(scope.Some?) && (scope.Some? ==> durable == old(durable))
    {
      if a.SetAdmission? && a.reserve != Goldcoin { return Err(BadRequest); }
      if GuardedReserve(a).Some? {
        r := RequireReserveSafe(GuardedReserve(a).value);
        if r.Err? { return; }
        if a.SetPaused? && UnpauseStillUnfunded(Seen().business) { return Err(Conflict); }
      }
      r := SetFlagRow(a);
    }

    /** As `Apply`, under storage that may fail before anything is written or
        after the safety checks have been. */
    method ApplyUnder(a: Action, fault: Option<bool>) returns (r: Result<(), AdminError>)
      modifies this
      ensures fault.None? ==> (Seen().business, r) == Mutate(old(Seen()).business, a)
      ensures fault.Some? ==>
                r == Err(Storage) && Seen().business == FaultedBusiness(old(Seen()).business, a, fault.value)
      ensures Seen().log == old(Seen()).log
      ensures scope.Some? == old(scope.Some?) && (scope.Some? ==> durable == old(durable))
    {
      if fault.None? {
        r := Apply(a);
      } else {
        if fault.value && GuardedReserve(a).Some? { var _ := RequireReserveSafe(GuardedReserve(a).value); }
        r := Err(Storage);
      }
    }

    /** begin, read the old value, mutate, append the row, commit; every error
        path rolls back. A call made while a leaked scope is open cannot begin. */
    method AuditedMutation(a: Attempt, w: StorageAnswers) returns (r: Result<AuditRow, AdminError>)
      modifies this
      ensures old(scope).Some? ==> r == Err(Storage) && durable == old(durable) && scope == old(scope)
      ensures old(scope).None? ==> Ending(durable, scope.Some?, r) == EndingOf(old(durable), a, w)
    {
      var began := BeginAdminAction(w.canBegin);
      if !began { return Err(Storage); }

      var prior := PriorRead(Seen().business, a.action, w);
      if prior.Err? {
        RollbackAdminAction(w.canRollBack);
        return Err(prior.error);
      }

      var result := ApplyUnder(a.action, w.mutationFault);
      var row := RowFor(a, prior.value, result);
      var appended := AppendAdminAudit(row, w.canAppend);
      if !appended {
        RollbackAdminAction(w.canRollBack);
        return Err(Storage);
      }

      CommitAdminAction(w.canCommit);
      if !w.canCommit {
        RollbackAdminAction(w.canRollBack);
        return Err(Storage);
      }
      r := if result.Ok? then Ok(row) else Err(result.error);
    }

    /** The quota's periodic step: engages the local pause exactly when the
        remaining quota cannot carry the smallest transfer, and never clears it.
        Inside a leaked scope the pause is only a savepoint, so not durable. */
    method EnforceRollingVolumeQuota(c: Chain, remaining: u64, minTransfer: u64) returns (r: Result<bool, AdminError>)
      modifies this
      ensures r == if remaining < minTransfer && c !in old(Seen()).business.reserves then Err(ReserveNotInitialized(c))
                   else Ok(remaining < minTransfer)
      ensures old(scope).None? ==>
                && scope.None?
                && forall attempts ::
                     durable == Next(Start(old(durable)), QuotaTick(c, remaining, minTransfer), attempts).durable
      ensures old(scope).Some? ==> durable == old(durable)
      ensures Seen().log == old(Seen()).log
      ensures FlagsOf(Seen().business) ==
              if r == Ok(true) then SetFlag(FlagsOf(old(Seen()).business), SetPaused(c, true))
              else FlagsOf(old(Seen()).business)
    {
      var exhausted := remaining < minTransfer;
      if exhausted {
        ghost var was := Seen().business;
        WriteFlagFlags(was, SetPaused(c, true));
        var written := SetFlagRow(SetPaused(c, true));
        if written.Err? { return Err(written.error); }
      }
      r := Ok(exhausted);
    }
  }
}
