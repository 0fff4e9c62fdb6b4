/**
 * What the steps of a run say about its sessions: who is attached, who is online, and which messages are admitted
 * (packages/remote/src/index.ts).
 */
module Admission {
  import opened Numbers
  import opened Strings
  import opened Sessions

  type Steps = seq<Step>

  function After(start: Net, addressable: Id -> bool, steps: Steps): Net
    decreases |steps|
  {
    if steps == [] then start
    else Apply(After(start, addressable, steps[..|steps| - 1]), addressable, steps[|steps| - 1])
  }

  /** Every step is enabled when it is taken. */
  ghost predicate Possible(start: Net, addressable: Id -> bool, steps: Steps) {
    forall k | 0 <= k < |steps| :: Enabled(After(start, addressable, steps[..k]), addressable, steps[k])
  }

  // ------------------------------------------------------------------ told from the steps

  /** The connection over which the worker attached last. */
  function LastAttachment(steps: Steps, w: Id): Option<Id>
    decreases |steps|
  {
    if steps == [] then None
    else
      var n := |steps| - 1;
      if steps[n].DoAttach? && steps[n].worker == w then Some(steps[n].connection) else LastAttachment(steps[..n], w)
  }

  /** The step is the disconnect of the connection over which the worker attached last. */
  predicate Leaves(before: Steps, step: Step, w: Id) {
    step.DoDisconnect? && step.binding.workerId == w && LastAttachment(before, w) == Some(step.binding.connectionId)
  }

  predicate IsAttached(steps: Steps, w: Id)
    decreases |steps|
  {
    steps != []
    && var n := |steps| - 1;
       || (steps[n].DoAttach? && steps[n].worker == w)
       || (!Leaves(steps[..n], steps[n], w) && IsAttached(steps[..n], w))
  }

  predicate IsAdmitted(start: Net, addressable: Id -> bool, before: Steps, step: Step) {
    step.DoMessage? && Judge(After(start, addressable, before), step.binding, step.envelope) == Admitted
  }

  /** The status of a worker: online since an attachment or an admitted heartbeat, offline since it left. */
  function StatusOf(start: Net, addressable: Id -> bool, steps: Steps, w: Id): Option<bool>
    decreases |steps|
  {
    if steps == [] then Lookup(start.online, w)
    else
      var n := |steps| - 1;
      var step := steps[n];
      if step.DoAttach? && step.worker == w then Some(true)
      else if Leaves(steps[..n], step, w) then Some(false)
      else if IsAdmitted(start, addressable, steps[..n], step) && step.envelope.heartbeat && step.binding.workerId == w then Some(true)
      else StatusOf(start, addressable, steps[..n], w)
  }

  /** The number of the last admitted message of a connection. */
  function LastAdmitted(start: Net, addressable: Id -> bool, steps: Steps, c: Id): Option<int>
    decreases |steps|
  {
    if steps == [] then None
    else
      var n := |steps| - 1;
      if IsAdmitted(start, addressable, steps[..n], steps[n]) && steps[n].binding.connectionId == c
      then Some(steps[n].envelope.sequence)
      else LastAdmitted(start, addressable, steps[..n], c)
  }

  predicate IsClosed(start: Net, steps: Steps, c: Id)
    decreases |steps|
  {
    if steps == [] then c in start.closed
    else
      var n := |steps| - 1;
      if steps[n].DoAttach? && steps[n].connection == c then false
      else (steps[n].DoDisconnect? && steps[n].binding.connectionId == c) || IsClosed(start, steps[..n], c)
  }

  function Lookup<T>(m: map<Id, T>, key: Id): Option<T> {
    if key in m then Some(m[key]) else None
  }

  // ------------------------------------------------------------------ the tables say the same

  ghost predicate CurrentTold(steps: Steps, n: Net) {
    forall w :: LastAttachment(steps, w) == LastConnection(n, w)
  }

  function LastConnection(n: Net, w: Id): Option<Id> {
    if w in n.current then Some(n.current[w].connectionId) else None
  }

  ghost predicate TransportsTold(steps: Steps, n: Net) {
    forall w :: w in n.transports <==> IsAttached(steps, w)
  }

  ghost predicate StatusTold(start: Net, addressable: Id -> bool, steps: Steps, n: Net) {
    forall w :: Lookup(n.online, w) == StatusOf(start, addressable, steps, w)
  }

  ghost predicate ReceivedTold(start: Net, addressable: Id -> bool, steps: Steps, n: Net) {
    forall c :: Lookup(n.received, c) == LastAdmitted(start, addressable, steps, c)
  }

  ghost predicate ClosedTold(start: Net, steps: Steps, n: Net) {
    forall c :: c in n.closed <==> IsClosed(start, steps, c)
  }

  lemma OneMore(steps: Steps, step: Step)
    ensures var all := steps + [step]; |all| == |steps| + 1 && all[..|steps|] == steps && all[|steps|] == step
  {}

  lemma AttachFields(n: Net, addressable: Id -> bool, worker: Id, connection: Id, instance: Id)
    ensures var m := Attach(n, addressable, worker, connection, instance);
            && m.current.Keys == n.current.Keys + {worker} && m.current[worker].connectionId == connection
            && (forall w | w in n.current && w != worker :: m.current[w] == n.current[w])
            && m.transports.Keys == n.transports.Keys + {worker}
            && m.online == n.online[worker := true]
            && m.received == n.received && m.closed == n.closed - {connection}
  {
    hide Routable;
  }

  lemma DisconnectFields(n: Net, b: Binding)
    ensures var m := Disconnect(n, b);
            && m.current == n.current && m.received == n.received && m.closed == n.closed + {b.connectionId}
            && m.transports == (if IsCurrent(n, b) then n.transports - {b.workerId} else n.transports)
            && m.online == if IsCurrent(n, b) then n.online[b.workerId := false] else n.online
  {
    hide IsCurrent;
  }

  lemma MessageFields(n: Net, b: Binding, e: Envelope)
    ensures var m, admitted := Message(n, b, e), Judge(n, b, e) == Admitted;
            && m.current == n.current && m.transports == n.transports && m.closed == n.closed
            && m.received == (if admitted then n.received[b.connectionId := e.sequence] else n.received)
            && m.online == if admitted && e.heartbeat then n.online[b.workerId := true] else n.online
  {
    hide Judge;
  }

  lemma CurrentAfter(n: Net, addressable: Id -> bool, step: Step)
    ensures var m := Apply(n, addressable, step);
            forall w :: LastConnection(m, w) == if step.DoAttach? && step.worker == w then Some(step.connection) else LastConnection(n, w)
  {
    hide Attach, Disconnect, Message, Judge, IsCurrent;
    match step
    case DoAttach(worker, connection, instance) => AttachFields(n, addressable, worker, connection, instance);
    case DoDisconnect(b) => DisconnectFields(n, b);
    case DoMessage(b, e) => MessageFields(n, b, e);
  }

  lemma CurrentNext(addressable: Id -> bool, steps: Steps, n: Net, step: Step)
    requires CurrentTold(steps, n)
    ensures CurrentTold(steps + [step], Apply(n, addressable, step))
  {
    OneMore(steps, step);
    CurrentAfter(n, addressable, step);
    forall w
      ensures LastAttachment(steps + [step], w) == LastConnection(Apply(n, addressable, step), w)
    {
      assert LastAttachment(steps, w) == LastConnection(n, w);
      hide Apply, LastConnection;
    }
  }

  lemma LeavesIs(steps: Steps, n: Net, step: Step, w: Id)
    requires CurrentTold(steps, n)
    ensures Leaves(steps, step, w) <==> step.DoDisconnect? && step.binding.workerId == w && IsCurrent(n, step.binding)
  {
    assert LastAttachment(steps, w) == LastConnection(n, w);
    hide LastAttachment;
  }

  lemma TransportsNext(addressable: Id -> bool, steps: Steps, n: Net, step: Step)
    requires CurrentTold(steps, n) && TransportsTold(steps, n)
    ensures TransportsTold(steps + [step], Apply(n, addressable, step))
  {
    OneMore(steps, step);
    var m := Apply(n, addressable, step);
    TransportsAfter(n, addressable, step);
    forall w
      ensures w in m.transports <==> IsAttached(steps + [step], w)
    {
      LeavesIs(steps, n, step, w);
      hide Apply, Leaves, CurrentTold, IsCurrent;
    }
  }

  lemma TransportsAfter(n: Net, addressable: Id -> bool, step: Step)
    ensures forall w :: w in Apply(n, addressable, step).transports <==>
                        || (step.DoAttach? && step.worker == w)
                        || (w in n.transports && !(step.DoDisconnect? && step.binding.workerId == w && IsCurrent(n, step.binding)))
  {
    hide Attach, Disconnect, Message, Judge, IsCurrent;
    match step
    case DoAttach(worker, connection, instance) => AttachFields(n, addressable, worker, connection, instance);
    case DoDisconnect(b) => DisconnectFields(n, b);
    case DoMessage(b, e) => MessageFields(n, b, e);
  }

  lemma StatusNext(start: Net, addressable: Id -> bool, steps: Steps, step: Step)
    requires CurrentTold(steps, After(start, addressable, steps))
    requires StatusTold(start, addressable, steps, After(start, addressable, steps))
    ensures StatusTold(start, addressable, steps + [step], Apply(After(start, addressable, steps), addressable, step))
  {
    OneMore(steps, step);
    var n := After(start, addressable, steps);
    var m := Apply(n, addressable, step);
    StatusAfter(n, addressable, step);
    forall w
      ensures Lookup(m.online, w) == StatusOf(start, addressable, steps + [step], w)
    {
      LeavesIs(steps, n, step, w);
      hide Apply, Leaves, CurrentTold, IsCurrent, After, Judge;
    }
  }

  lemma StatusAfter(n: Net, addressable: Id -> bool, step: Step)
    ensures forall w :: Lookup(Apply(n, addressable, step).online, w) ==
                        if step.DoAttach? && step.worker == w then Some(true)
                        else if step.DoDisconnect? && step.binding.workerId == w && IsCurrent(n, step.binding) then Some(false)
                        else if step.DoMessage? && Judge(n, step.binding, step.envelope) == Admitted && step.envelope.heartbeat
                                && step.binding.workerId == w then Some(true)
                        else Lookup(n.online, w)
  {
    hide Attach, Disconnect, Message, Judge, IsCurrent;
    match step
    case DoAttach(worker, connection, instance) => AttachFields(n, addressable, worker, connection, instance);
    case DoDisconnect(b) => DisconnectFields(n, b);
    case DoMessage(b, e) => MessageFields(n, b, e);
  }

  lemma ReceivedNext(start: Net, addressable: Id -> bool, steps: Steps, step: Step)
    requires ReceivedTold(start, addressable, steps, After(start, addressable, steps))
    ensures ReceivedTold(start, addressable, steps + [step], Apply(After(start, addressable, steps), addressable, step))
  {
    OneMore(steps, step);
    var m := Apply(After(start, addressable, steps), addressable, step);
    ReceivedAfter(After(start, addressable, steps), addressable, step);
    forall c
      ensures Lookup(m.received, c) == LastAdmitted(start, addressable, steps + [step], c)
    {
      hide Apply, After, Judge;
    }
  }

  lemma ReceivedAfter(n: Net, addressable: Id -> bool, step: Step)
    ensures forall c :: Lookup(Apply(n, addressable, step).received, c) ==
                        if step.DoMessage? && Judge(n, step.binding, step.envelope) == Admitted && step.binding.connectionId == c
                        then Some(step.envelope.sequence) else Lookup(n.received, c)
  {
    hide Attach, Disconnect, Message, Judge, IsCurrent;
    match step
    case DoAttach(worker, connection, instance) => AttachFields(n, addressable, worker, connection, instance);
    case DoDisconnect(b) => DisconnectFields(n, b);
    case DoMessage(b, e) => MessageFields(n, b, e);
  }

  lemma ClosedNext(start: Net, addressable: Id -> bool, steps: Steps, n: Net, step: Step)
    requires ClosedTold(start, steps, n)
    ensures ClosedTold(start, steps + [step], Apply(n, addressable, step))
  {
    OneMore(steps, step);
    var m := Apply(n, addressable, step);
    ClosedAfter(n, addressable, step);
    forall c
      ensures c in m.closed <==> IsClosed(start, steps + [step], c)
    {
      hide Apply;
    }
  }

  lemma ClosedAfter(n: Net, addressable: Id -> bool, step: Step)
    ensures forall c :: c in Apply(n, addressable, step).closed <==>
                        if step.DoAttach? && step.connection == c then false
                        else (step.DoDisconnect? && step.binding.connectionId == c) || c in n.closed
  {
    hide Attach, Disconnect, Message, Judge, IsCurrent;
    match step
    case DoAttach(worker, connection, instance) => AttachFields(n, addressable, worker, connection, instance);
    case DoDisconnect(b) => DisconnectFields(n, b);
    case DoMessage(b, e) => MessageFields(n, b, e);
  }

  /** From a new controller on, after any steps: the tables of the sessions are what the steps alone say. */
  lemma {:induction false} StepsTellSessions(start: Net, addressable: Id -> bool, steps: Steps)
    requires IsStarted(start, addressable)
    ensures var n := After(start, addressable, steps);
            && CurrentTold(steps, n) && TransportsTold(steps, n) && StatusTold(start, addressable, steps, n)
            && ReceivedTold(start, addressable, steps, n) && ClosedTold(start, steps, n)
    decreases |steps|
  {
    hide Apply, CurrentTold, TransportsTold, StatusTold, ReceivedTold, ClosedTold;
    if steps == [] {
      NothingTold(start, addressable);
    } else {
      var k := |steps| - 1;
      var before, step := steps[..k], steps[k];
      assert steps == before + [step];
      var n := After(start, addressable, before);
      StepsTellSessions(start, addressable, before);
      CurrentNext(addressable, before, n, step);
      TransportsNext(addressable, before, n, step);
      StatusNext(start, addressable, before, step);
      ReceivedNext(start, addressable, before, step);
      ClosedNext(start, addressable, before, n, step);
    }
  }

  lemma NothingTold(start: Net, addressable: Id -> bool)
    requires IsStarted(start, addressable)
    ensures CurrentTold([], start) && TransportsTold([], start) && StatusTold(start, addressable, [], start)
    ensures ReceivedTold(start, addressable, [], start) && ClosedTold(start, [], start)
  {}

  // ------------------------------------------------------------------ which messages are admitted

  /** The envelope names the worker, instance, connection and epoch of the binding. */
  predicate SpeaksFor(e: Envelope, b: Binding) {
    e.workerId == b.workerId && e.instanceId == b.instanceId && e.connection == Some(b.connectionId) && e.epoch == Some(b.epoch)
  }

  lemma EarlierPossible(start: Net, addressable: Id -> bool, steps: Steps, k: nat)
    requires Possible(start, addressable, steps) && k < |steps|
    ensures Possible(start, addressable, steps[..k])
    ensures Enabled(After(start, addressable, steps[..k]), addressable, steps[k])
  {
    hide After, Enabled;
    forall j | 0 <= j < k
      ensures steps[..k][..j] == steps[..j] && steps[..k][j] == steps[j]
    {}
  }

  lemma {:induction false} SoundThroughout(start: Net, addressable: Id -> bool, steps: Steps)
    requires IsStarted(start, addressable) && Possible(start, addressable, steps)
    ensures Inv(After(start, addressable, steps), addressable)
    decreases |steps|
  {
    hide Apply, Enabled, Inv, Possible, IsStarted;
    if steps == [] {
      StartedIsSound(start, addressable);
    } else {
      var k := |steps| - 1;
      EarlierPossible(start, addressable, steps, k);
      SoundThroughout(start, addressable, steps[..k]);
      StepKeepsInv(After(start, addressable, steps[..k]), addressable, steps[k]);
    }
  }

  /**
   * At every point of every run, a message of a binding is admitted exactly when its envelope speaks for the binding, the
   * worker attached last over the binding's connection, and its number is the first admitted there or follows the last; each
   * other verdict has its own reason.
   */
  lemma AdmittedExactlyWhen(start: Net, addressable: Id -> bool, steps: Steps, b: Binding, e: Envelope)
    requires IsStarted(start, addressable) && Possible(start, addressable, steps)
    requires var n := After(start, addressable, steps); b.connectionId in n.bound && n.bound[b.connectionId] == b
    ensures IsAdmitted(start, addressable, steps, DoMessage(b, e)) <==>
              && SpeaksFor(e, b)
              && LastAttachment(steps, b.workerId) == Some(b.connectionId)
              && 1 <= e.sequence <= MAX_SAFE_INTEGER
              && (LastAdmitted(start, addressable, steps, b.connectionId).Some? ==>
                    e.sequence == LastAdmitted(start, addressable, steps, b.connectionId).value + 1)
    ensures var verdict := Judge(After(start, addressable, steps), b, e);
            && (verdict == Malformed <==> !(1 <= e.sequence <= MAX_SAFE_INTEGER))
            && (verdict == Unauthorized <==> 1 <= e.sequence <= MAX_SAFE_INTEGER && !SpeaksFor(e, b))
            && (verdict == StaleEpoch <==> && 1 <= e.sequence <= MAX_SAFE_INTEGER && SpeaksFor(e, b)
                                           && LastAttachment(steps, b.workerId) != Some(b.connectionId))
            && (verdict == Duplicate ==> LastAdmitted(start, addressable, steps, b.connectionId).Some?
                                         && e.sequence <= LastAdmitted(start, addressable, steps, b.connectionId).value)
            && (verdict == SequenceGap ==> LastAdmitted(start, addressable, steps, b.connectionId).Some?
                                           && e.sequence > LastAdmitted(start, addressable, steps, b.connectionId).value + 1)
  {
    var n := After(start, addressable, steps);
    SoundThroughout(start, addressable, steps);
    StepsTellSessions(start, addressable, steps);
    CurrentEpoch(n, addressable, b);
    JudgedAdmitted(n, b, e);
    hide Judge;
    assert LastAdmitted(start, addressable, steps, b.connectionId) == Lookup(n.received, b.connectionId);
    assert LastAttachment(steps, b.workerId) == LastConnection(n, b.workerId);
    hide After, Inv, Possible, IsStarted, CurrentTold, ReceivedTold, TransportsTold, StatusTold, ClosedTold, LastAdmitted, LastAttachment;
  }

  lemma JudgedAdmitted(n: Net, b: Binding, e: Envelope)
    requires IsCurrent(n, b) ==> n.current[b.workerId].epoch == b.epoch
    ensures Judge(n, b, e) == Admitted <==>
              && SpeaksFor(e, b) && LastConnection(n, b.workerId) == Some(b.connectionId) && 1 <= e.sequence <= MAX_SAFE_INTEGER
              && (Lookup(n.received, b.connectionId).Some? ==> e.sequence == Lookup(n.received, b.connectionId).value + 1)
    ensures var verdict, last := Judge(n, b, e), Lookup(n.received, b.connectionId);
            && (verdict == Malformed <==> !(1 <= e.sequence <= MAX_SAFE_INTEGER))
            && (verdict == Unauthorized <==> 1 <= e.sequence <= MAX_SAFE_INTEGER && !SpeaksFor(e, b))
            && (verdict == StaleEpoch <==> && 1 <= e.sequence <= MAX_SAFE_INTEGER && SpeaksFor(e, b)
                                           && LastConnection(n, b.workerId) != Some(b.connectionId))
            && (verdict == Duplicate ==> last.Some? && e.sequence <= last.value)
            && (verdict == SequenceGap ==> last.Some? && e.sequence > last.value + 1)
  {}

  lemma CurrentEpoch(n: Net, addressable: Id -> bool, b: Binding)
    requires Inv(n, addressable) && b.connectionId in n.bound && n.bound[b.connectionId] == b
    ensures IsCurrent(n, b) ==> n.current[b.workerId].epoch == b.epoch
  {
    hide RoutesAgree, BoundIsKnown, TransportsServe;
  }

  /** The messages admitted on one connection are numbered one after the other, whatever comes between them. */
  lemma {:induction false} AdmittedRunOn(start: Net, addressable: Id -> bool, steps: Steps, i: nat, j: nat)
    requires IsStarted(start, addressable) && i < j < |steps|
    requires IsAdmitted(start, addressable, steps[..i], steps[i]) && IsAdmitted(start, addressable, steps[..j], steps[j])
    requires steps[i].binding.connectionId == steps[j].binding.connectionId
    requires forall k | i < k < j && IsAdmitted(start, addressable, steps[..k], steps[k]) ::
               steps[k].binding.connectionId != steps[i].binding.connectionId
    ensures steps[j].envelope.sequence == steps[i].envelope.sequence + 1
  {
    var c := steps[i].binding.connectionId;
    LastIs(start, addressable, steps, i, j);
    StepsTellSessions(start, addressable, steps[..j]);
    assert LastAdmitted(start, addressable, steps[..j], c) == Lookup(After(start, addressable, steps[..j]).received, c);
    hide After, CurrentTold, TransportsTold, StatusTold, ReceivedTold, ClosedTold, IsStarted, LastAdmitted;
  }

  lemma {:induction false} LastIs(start: Net, addressable: Id -> bool, steps: Steps, i: nat, j: nat)
    requires i < j <= |steps| && IsAdmitted(start, addressable, steps[..i], steps[i])
    requires forall k | i < k < j && IsAdmitted(start, addressable, steps[..k], steps[k]) ::
               steps[k].binding.connectionId != steps[i].binding.connectionId
    ensures LastAdmitted(start, addressable, steps[..j], steps[i].binding.connectionId) == Some(steps[i].envelope.sequence)
    decreases j
  {
    hide IsAdmitted;
    assert steps[..j][..j - 1] == steps[..j - 1];
    if j > i + 1 { LastIs(start, addressable, steps, i, j - 1); }
  }
}
