/** The compare-and-swap publication of the default target and the current target that shadows it, after
    `stumpless_get_default_target`, `stumpless_get_current_target` and `destroy_target` of src/target.c. A state
    machine: one event is one atomic access or one call, and the events of all threads interleave freely. */
module DefaultTarget {
  import opened Bytes

  /** A target some thread opened for the default. Its place in the history is its identity: addresses are reused. */
  datatype Opened = Opened(owner: nat, addr: nat, closes: nat, freed: bool)

  /** Where a thread stands; `cur` when it got there from `stumpless_get_current_target`. */
  datatype Pc =
    | Idle
    | AtCurrent
    | AtDefault(cur: bool)
    | AtOpen(cur: bool)
    | AtAnnounce(cur: bool, i: nat)
    | AtPublish(cur: bool, i: nat)
    | AtClose(cur: bool, i: nat)
    | AtUnhook(cur: bool, i: nat)
    | AtFree(cur: bool, i: nat)
    | AtAdopt(result: nat)
    | Done(result: nat, which: Option<nat>, fromDefault: bool)
  {
    predicate Holds() {
      AtAnnounce? || AtPublish? || Loses()
    }

    predicate Loses() {
      AtClose? || AtUnhook? || AtFree?
    }
  }

  /** `default` and `current` hold addresses, 0 being NULL; `winner` is the target the default was set to. The
      application's own targets are `users`, those it has begun to close `closing`. */
  datatype State = State(
    default: nat,
    current: nat,
    winner: Option<nat>,
    pcs: seq<Pc>,
    targets: seq<Opened>,
    users: set<nat>,
    closing: set<nat>)

  /** What a thread does next. */
  datatype Step =
    | CallDefault
    | CallCurrent
    | ReadCurrent
    | ReadDefault
    | Open(addr: nat)
    | OpenFails
    | Announce
    | Publish
    | Close
    | Unhook
    | Free
    | Adopt
    | SetBack
    | Return

  datatype Event =
    | Thread(t: nat, step: Step)
    | UserOpen(addr: nat)
    | UserSet(addr: nat)
    | UserUnhook(addr: nat)
    | UserFree(addr: nat)

  /** The target at an address, if it is one of the opened ones; otherwise their number. */
  function Which(targets: seq<Opened>, a: nat): (i: nat)
    ensures i <= |targets|
    ensures i < |targets| ==> !targets[i].freed && targets[i].addr == a
    ensures i == |targets| ==> forall k | 0 <= k < |targets| :: targets[k].freed || targets[k].addr != a
  {
    if targets == [] || (!targets[0].freed && targets[0].addr == a) then 0 else 1 + Which(targets[1..], a)
  }

  predicate Live(s: State, a: nat) {
    a in s.users || Which(s.targets, a) < |s.targets|
  }

  predicate CanStep(s: State, t: nat, step: Step) {
    && t < |s.pcs|
    && var p := s.pcs[t];
       && (p.Holds() ==> p.i < |s.targets|)
       && match step
          case CallDefault => p.Idle?
          case CallCurrent => p.Idle?
          case ReadCurrent => p.AtCurrent?
          case ReadDefault => p.AtDefault?
          case Open(a) => p.AtOpen? && a != 0 && !Live(s, a)
          case OpenFails => p.AtOpen?
          case Announce => p.AtAnnounce?
          case Publish => p.AtPublish?
          case Close => p.AtClose?
          case Unhook => p.AtUnhook?
          case Free => p.AtFree?
          case Adopt => p.AtAdopt?
          case SetBack => p.Done? && (p.which.None? ==> p.result == 0 || p.result in s.users - s.closing)
          case Return => p.Done?
  }

  /** What may happen next. The application closes only targets of its own, and makes current only those it is not
      closing, the default, or whatever a call has returned, which nothing stops it from doing late. */
  predicate Enabled(s: State, e: Event) {
    match e
    case Thread(t, step) => CanStep(s, t, step)
    case UserOpen(a) => a != 0 && !Live(s, a)
    case UserSet(a) => a == 0 || a in s.users - s.closing || a == s.default
    case UserUnhook(a) => a in s.users - s.closing
    case UserFree(a) => a in s.closing
  }

  /** `config_compare_exchange_ptr`. */
  function Exchange(p: nat, expected: nat, replacement: nat): nat {
    if p == expected then replacement else p
  }

  function Goes(s: State, t: nat, p: Pc): State
    requires t < |s.pcs|
  {
    s.(pcs := s.pcs[t := p])
  }

  /** `stumpless_get_default_target` ends with a result, for its own caller or for the other call. */
  function Finish(s: State, cur: bool, result: nat): Pc {
    if cur then AtAdopt(result) else Done(result, if result == 0 then None else s.winner, true)
  }

  function StepOf(s: State, t: nat, step: Step): State
    requires CanStep(s, t, step)
  {
    var p := s.pcs[t];
    match step
    case CallDefault => Goes(s, t, AtDefault(false))
    case CallCurrent => Goes(s, t, AtCurrent)
    case ReadCurrent =>
      var w := Which(s.targets, s.current);
      if s.current == 0 then Goes(s, t, AtDefault(true))
      else Goes(s, t, Done(s.current, if w < |s.targets| then Some(w) else None, false))
    case ReadDefault => Goes(s, t, if s.default == 0 then AtOpen(p.cur) else Finish(s, p.cur, s.default))
    case Open(a) => Goes(s, t, AtAnnounce(p.cur, |s.targets|)).(targets := s.targets + [Opened(t, a, 0, false)])
    case OpenFails => Goes(s, t, Finish(s, p.cur, 0))
    case Announce => Goes(s, t, AtPublish(p.cur, p.i)).(current := s.targets[p.i].addr)
    case Publish =>
      if s.default != 0 then Goes(s, t, AtClose(p.cur, p.i))
      else
        var s' := s.(default := s.targets[p.i].addr, winner := Some(p.i));
        Goes(s', t, Finish(s', p.cur, s'.default))
    case Close =>
      var o := s.targets[p.i];
      Goes(s, t, AtUnhook(p.cur, p.i)).(targets := s.targets[p.i := o.(closes := o.closes + 1)])
    case Unhook => Goes(s, t, AtFree(p.cur, p.i)).(current := Exchange(s.current, s.targets[p.i].addr, 0))
    case Free => Goes(s, t, AtDefault(p.cur)).(targets := s.targets[p.i := s.targets[p.i].(freed := true)])
    case Adopt => Goes(s, t, Finish(s, false, p.result)).(current := Exchange(s.current, 0, p.result))
    case SetBack => s.(current := p.result)
    case Return => Goes(s, t, Idle)
  }

  function Next(s: State, e: Event): State
    requires Enabled(s, e)
  {
    match e
    case Thread(t, step) => StepOf(s, t, step)
    case UserOpen(a) => s.(users := s.users + {a})
    case UserSet(a) => s.(current := a)
    case UserUnhook(a) => s.(current := Exchange(s.current, a, 0), closing := s.closing + {a})
    case UserFree(a) => s.(users := s.users - {a}, closing := s.closing - {a})
  }

  ghost predicate Runs(s: State, es: seq<Event>)
    decreases |es|, 0
  {
    es == [] || (Runs(s, es[..|es| - 1]) && Enabled(After(s, es[..|es| - 1]), es[|es| - 1]))
  }

  ghost function After(s: State, es: seq<Event>): State
    requires Runs(s, es)
    decreases |es|, 1
  {
    if es == [] then s else Next(After(s, es[..|es| - 1]), es[|es| - 1])
  }

  /** Nothing opened, nothing set, every thread elsewhere. */
  predicate Initial(s: State) {
    && s.default == 0 && s.current == 0 && s.winner.None? && s.targets == [] && s.users == {} && s.closing == {}
    && forall t | 0 <= t < |s.pcs| :: s.pcs[t].Idle?
  }

  // ----- the invariant

  /** A target opened for the default: the winner, or held by the thread that opened it, or closed once and freed. */
  predicate RecordOk(s: State, i: nat)
    requires i < |s.targets|
  {
    var o := s.targets[i];
    && o.owner < |s.pcs| && o.addr != 0
    && (o.freed ==> o.closes == 1 && s.winner != Some(i))
    && (!o.freed ==> o.addr !in s.users)
    && (!o.freed && s.winner != Some(i) ==> s.pcs[o.owner].Holds() && s.pcs[o.owner].i == i)
    && (s.winner == Some(i) ==> o.closes == 0)
    && !s.pcs[o.owner].AtOpen?
    && (s.winner.None? ==> s.pcs[o.owner].AtAnnounce? || s.pcs[o.owner].AtPublish?)
  }

  predicate PcOk(s: State, t: nat)
    requires t < |s.pcs|
  {
    var p := s.pcs[t];
    && (p.Holds() ==>
          && p.i < |s.targets| && s.targets[p.i].owner == t && !s.targets[p.i].freed && s.winner != Some(p.i)
          && s.targets[p.i].closes == if p.AtUnhook? || p.AtFree? then 1 else 0)
    && (p.Loses() ==> s.winner.Some?)
    && (p.AtAdopt? ==> p.result == 0 || p.result == s.default)
    && (p.Done? && p.fromDefault ==> p.result == 0 || (p.result == s.default && p.which == s.winner))
    && (p.Done? && p.which.Some? ==> p.which.value < |s.targets| && p.result == s.targets[p.which.value].addr)
  }

  predicate Records(s: State) {
    forall i | 0 <= i < |s.targets| :: RecordOk(s, i)
  }

  predicate Threads(s: State) {
    forall t | 0 <= t < |s.pcs| :: PcOk(s, t)
  }

  predicate OneEach(s: State) {
    forall i, j | 0 <= i < j < |s.targets| :: s.targets[i].owner != s.targets[j].owner
  }

  predicate Apart(s: State) {
    forall i, j | 0 <= i < j < |s.targets| ::
      s.targets[i].freed || s.targets[j].freed || s.targets[i].addr != s.targets[j].addr
  }

  predicate Pointers(s: State) {
    && (s.winner.Some? ==> s.winner.value < |s.targets| && s.default == s.targets[s.winner.value].addr)
    && (s.winner.None? ==> s.default == 0)
    && 0 !in s.users && s.closing <= s.users
  }

  predicate Inv(s: State) {
    Records(s) && Threads(s) && OneEach(s) && Apart(s) && Pointers(s)
  }

  lemma WhichIs(targets: seq<Opened>, i: nat)
    requires i < |targets| && !targets[i].freed
    ensures Which(targets, targets[i].addr) < |targets|
  {
  }

  /** At any address there is at most one target. */
  lemma WhichOne(s: State, i: nat)
    requires Apart(s) && i < |s.targets| && !s.targets[i].freed
    ensures Which(s.targets, s.targets[i].addr) == i
  {
  }

  lemma UserKeeps(s: State, e: Event)
    requires Inv(s) && Enabled(s, e) && !e.Thread?
    ensures Inv(Next(s, e))
  {
    var s' := Next(s, e);
    assert s'.targets == s.targets && s'.pcs == s.pcs;
    if s.winner.Some? {
      assert RecordOk(s, s.winner.value);
      WhichOne(s, s.winner.value);
    }
    forall i | 0 <= i < |s.targets| ensures RecordOk(s', i) {
      assert RecordOk(s, i);
      if !s.targets[i].freed {
        WhichOne(s, i);
      }
    }
    forall t | 0 <= t < |s.pcs| ensures PcOk(s', t) {
      assert PcOk(s, t);
    }
  }

  /** A thread's step that leaves the default and the targets alone and does not look at the default. */
  predicate Local(step: Step) {
    step.CallDefault? || step.CallCurrent? || step.ReadCurrent? || step.OpenFails? || step.SetBack? || step.Return?
  }

  lemma LocalKeeps(s: State, t: nat, step: Step)
    requires Inv(s) && CanStep(s, t, step) && Local(step)
    ensures Inv(StepOf(s, t, step))
  {
    var s' := StepOf(s, t, step);
    assert s'.targets == s.targets && |s'.pcs| == |s.pcs|;
    assert PcOk(s, t);
    forall i | 0 <= i < |s.targets| ensures RecordOk(s', i) {
      assert RecordOk(s, i);
    }
    forall u | 0 <= u < |s.pcs| ensures PcOk(s', u) {
      assert PcOk(s, u);
    }
  }

  lemma ReadDefaultKeeps(s: State, t: nat)
    requires Inv(s) && CanStep(s, t, ReadDefault)
    ensures Inv(StepOf(s, t, ReadDefault))
  {
    var s' := StepOf(s, t, ReadDefault);
    if s.winner.Some? {
      assert RecordOk(s, s.winner.value);
    }
    forall i | 0 <= i < |s.targets| ensures RecordOk(s', i) {
      assert RecordOk(s, i);
    }
    forall u | 0 <= u < |s.pcs| ensures PcOk(s', u) {
      assert PcOk(s, u);
    }
  }

  lemma OpenKeeps(s: State, t: nat, a: nat)
    requires Inv(s) && CanStep(s, t, Open(a))
    ensures Inv(StepOf(s, t, Open(a)))
  {
    var s' := StepOf(s, t, Open(a));
    forall i | 0 <= i < |s.targets| ensures RecordOk(s', i) && s.targets[i].owner != t {
      assert RecordOk(s, i);
    }
    assert RecordOk(s', |s.targets|);
    forall u | 0 <= u < |s.pcs| ensures PcOk(s', u) {
      assert PcOk(s, u);
    }
  }

  lemma AnnounceKeeps(s: State, t: nat)
    requires Inv(s) && CanStep(s, t, Announce)
    ensures Inv(StepOf(s, t, Announce))
  {
    var s' := StepOf(s, t, Announce);
    assert PcOk(s, t);
    var i := s.pcs[t].i;
    WhichOne(s, i);
    forall k | 0 <= k < |s.targets| ensures RecordOk(s', k) {
      assert RecordOk(s, k);
    }
    forall u | 0 <= u < |s.pcs| ensures PcOk(s', u) {
      assert PcOk(s, u);
    }
  }

  lemma PublishKeeps(s: State, t: nat)
    requires Inv(s) && CanStep(s, t, Publish)
    ensures Inv(StepOf(s, t, Publish))
  {
    var s' := StepOf(s, t, Publish);
    assert PcOk(s, t);
    var i := s.pcs[t].i;
    assert RecordOk(s, i);
    if s.winner.Some? {
      assert RecordOk(s, s.winner.value);
    }
    forall k | 0 <= k < |s.targets| ensures RecordOk(s', k) {
      assert RecordOk(s, k);
    }
    forall u | 0 <= u < |s.pcs| ensures PcOk(s', u) {
      assert PcOk(s, u);
    }
  }

  lemma CloseKeeps(s: State, t: nat)
    requires Inv(s) && CanStep(s, t, Close)
    ensures Inv(StepOf(s, t, Close))
  {
    var s' := StepOf(s, t, Close);
    assert PcOk(s, t);
    var i := s.pcs[t].i;
    forall k | 0 <= k < |s.targets| ensures RecordOk(s', k) {
      assert RecordOk(s, k);
    }
    forall u | 0 <= u < |s.pcs| ensures PcOk(s', u) {
      assert PcOk(s, u);
    }
  }

  lemma UnhookKeeps(s: State, t: nat)
    requires Inv(s) && CanStep(s, t, Unhook)
    ensures Inv(StepOf(s, t, Unhook))
  {
    var s' := StepOf(s, t, Unhook);
    assert PcOk(s, t);
    forall k | 0 <= k < |s.targets| ensures RecordOk(s', k) {
      assert RecordOk(s, k);
    }
    forall u | 0 <= u < |s.pcs| ensures PcOk(s', u) {
      assert PcOk(s, u);
      assert s.pcs[u].Holds() ==> RecordOk(s, s.pcs[u].i);
    }
  }

  lemma FreeKeeps(s: State, t: nat)
    requires Inv(s) && CanStep(s, t, Free)
    ensures Inv(StepOf(s, t, Free))
  {
    var s' := StepOf(s, t, Free);
    assert PcOk(s, t);
    var i := s.pcs[t].i;
    forall k | 0 <= k < |s.targets| ensures RecordOk(s', k) {
      assert RecordOk(s, k);
    }
    forall u | 0 <= u < |s.pcs| ensures PcOk(s', u) {
      assert PcOk(s, u);
    }
  }

  lemma AdoptKeeps(s: State, t: nat)
    requires Inv(s) && CanStep(s, t, Adopt)
    ensures Inv(StepOf(s, t, Adopt))
  {
    var s' := StepOf(s, t, Adopt);
    assert PcOk(s, t);
    if s.winner.Some? {
      assert RecordOk(s, s.winner.value);
      WhichOne(s, s.winner.value);
    }
    forall k | 0 <= k < |s.targets| ensures RecordOk(s', k) {
      assert RecordOk(s, k);
    }
    forall u | 0 <= u < |s.pcs| ensures PcOk(s', u) {
      assert PcOk(s, u);
    }
  }

  /** Every event of every thread and of the application keeps the invariant. */
  lemma NextKeeps(s: State, e: Event)
    requires Inv(s) && Enabled(s, e)
    ensures Inv(Next(s, e))
  {
    match e {
      case Thread(t, step) =>
        match step {
          case ReadDefault => ReadDefaultKeeps(s, t);
          case Open(a) => OpenKeeps(s, t, a);
          case Announce => AnnounceKeeps(s, t);
          case Publish => PublishKeeps(s, t);
          case Close => CloseKeeps(s, t);
          case Unhook => UnhookKeeps(s, t);
          case Free => FreeKeeps(s, t);
          case Adopt => AdoptKeeps(s, t);
          case _ => LocalKeeps(s, t, step);
        }
      case _ => UserKeeps(s, e);
    }
  }

  lemma {:induction false} RunsKeep(s: State, es: seq<Event>)
    requires Inv(s) && Runs(s, es)
    ensures Inv(After(s, es))
    decreases |es|
  {
    if es != [] {
      RunsKeep(s, es[..|es| - 1]);
      NextKeeps(After(s, es[..|es| - 1]), es[|es| - 1]);
    }
  }

  lemma StartsKept(s: State, es: seq<Event>)
    requires Initial(s) && Runs(s, es)
    ensures Inv(After(s, es))
  {
    RunsKeep(s, es);
  }

  lemma RecordIsOk(s: State, i: nat)
    requires Records(s) && i < |s.targets|
    ensures RecordOk(s, i)
  {
  }

  // ----- what every run guarantees

  function PcAt(s: State, t: nat): Pc {
    if t < |s.pcs| then s.pcs[t] else Idle
  }

  lemma {:induction false} DefaultNeverMoves(s: State, es: seq<Event>)
    requires Runs(s, es) && s.default != 0
    ensures After(s, es).default == s.default && After(s, es).winner == s.winner
    decreases |es|
  {
    if es != [] {
      DefaultNeverMoves(s, es[..|es| - 1]);
    }
  }

  /** The results of two calls that ended in the default, however far apart in a run, are the same target: the one
      installed, which is neither closed nor freed. */
  lemma ResultsAgree(s: State, es: seq<Event>, fs: seq<Event>, t: nat, u: nat)
    requires Initial(s) && Runs(s, es) && Runs(After(s, es), fs)
    requires var p := PcAt(After(s, es), t); p.Done? && p.fromDefault && p.result != 0
    requires var q := PcAt(After(After(s, es), fs), u); q.Done? && q.fromDefault && q.result != 0
    ensures var end := After(After(s, es), fs);
            && PcAt(After(s, es), t).result == PcAt(end, u).result == end.default
            && end.winner.Some? && end.winner.value < |end.targets|
            && var o := end.targets[end.winner.value];
               o.addr == end.default && o.closes == 0 && !o.freed
  {
    var mid := After(s, es);
    var end := After(mid, fs);
    StartsKept(s, es);
    RunsKeep(mid, fs);
    assert PcOk(mid, t) && PcOk(end, u);
    DefaultNeverMoves(mid, fs);
    assert RecordOk(end, end.winner.value);
  }

  // ----- what a call returns

  /** What the events so far say of the call a thread is in: for which target it asks, whether an attempt to open one
      failed in it, and how many steps it has taken. */
  datatype CallState = NoCall | Calling(current: bool, failed: bool, steps: nat)

  function Stepped(c: CallState, step: Step): CallState {
    match step
    case CallDefault => Calling(false, false, 0)
    case CallCurrent => Calling(true, false, 0)
    case Return => NoCall
    case SetBack => c
    case _ => if c.NoCall? then c else Calling(c.current, c.failed || step.OpenFails?, c.steps + 1)
  }

  function CallOf(es: seq<Event>, t: nat): CallState {
    if es == [] then NoCall
    else
      var c, e := CallOf(es[..|es| - 1], t), es[|es| - 1];
      if e.Thread? && e.t == t then Stepped(c, e.step) else c
  }

  /** What a thread's place in the code has to do with the call it is in. */
  predicate CallOk(s: State, c: CallState, p: Pc) {
    if c.NoCall? then p.Idle?
    else
      var base := if c.current then 1 else 0;
      match p
      case Idle => false
      case AtCurrent => c.current && !c.failed && c.steps == 0
      case AtDefault(cur) =>
        cur == c.current && !c.failed && (c.steps == base || (c.steps == base + 7 && s.default != 0))
      case AtOpen(cur) => cur == c.current && !c.failed && c.steps == base + 1
      case AtAnnounce(cur, _) => cur == c.current && !c.failed && c.steps == base + 2
      case AtPublish(cur, _) => cur == c.current && !c.failed && c.steps == base + 3
      case AtClose(cur, _) => cur == c.current && !c.failed && c.steps == base + 4
      case AtUnhook(cur, _) => cur == c.current && !c.failed && c.steps == base + 5
      case AtFree(cur, _) => cur == c.current && !c.failed && c.steps == base + 6
      case AtAdopt(result) => c.current && c.steps <= base + 8 && ResultOk(s, c, result)
      case Done(result, _, fromDefault) =>
        if fromDefault then c.steps <= base + 8 + base && ResultOk(s, c, result)
        else c.current && !c.failed && c.steps == 1 && result != 0
  }

  /** NULL if and only if opening failed in this very call, and otherwise the installed default. */
  predicate ResultOk(s: State, c: CallState, result: nat)
    requires c.Calling?
  {
    (result == 0 <==> c.failed) && (result != 0 ==> result == s.default)
  }

  lemma DefaultStays(s: State, e: Event)
    requires Enabled(s, e) && s.default != 0
    ensures Next(s, e).default == s.default
  {
  }

  lemma HeldHasAddress(s: State, t: nat)
    requires Inv(s) && t < |s.pcs| && s.pcs[t].Holds()
    ensures s.pcs[t].i < |s.targets| && s.targets[s.pcs[t].i].addr != 0
    ensures s.pcs[t].Loses() ==> s.default != 0
  {
    assert PcOk(s, t);
    RecordIsOk(s, s.pcs[t].i);
    if s.winner.Some? {
      RecordIsOk(s, s.winner.value);
    }
  }

  lemma OwnStepKeepsCall(s: State, c: CallState, t: nat, step: Step)
    requires Inv(s) && CanStep(s, t, step) && CallOk(s, c, s.pcs[t])
    ensures CallOk(StepOf(s, t, step), Stepped(c, step), StepOf(s, t, step).pcs[t])
  {
    if s.pcs[t].Holds() {
      HeldHasAddress(s, t);
    }
  }

  lemma CallKept(s: State, e: Event, es: seq<Event>, t: nat)
    requires Inv(s) && Enabled(s, e) && t < |s.pcs| && CallOk(s, CallOf(es, t), s.pcs[t])
    ensures |Next(s, e).pcs| == |s.pcs| && CallOk(Next(s, e), CallOf(es + [e], t), Next(s, e).pcs[t])
  {
    assert (es + [e])[..|es|] == es;
    if e.Thread? && e.t == t {
      OwnStepKeepsCall(s, CallOf(es, t), t, e.step);
    } else if s.default != 0 {
      DefaultStays(s, e);
    }
  }

  lemma {:induction false} CallsOk(s: State, es: seq<Event>, t: nat)
    requires Inv(s) && t < |s.pcs| && s.pcs[t].Idle? && Runs(s, es)
    ensures var end := After(s, es); |end.pcs| == |s.pcs| && CallOk(end, CallOf(es, t), end.pcs[t])
    decreases |es|
  {
    if es != [] {
      var front, e := es[..|es| - 1], es[|es| - 1];
      CallsOk(s, front, t);
      RunsKeep(s, front);
      CallKept(After(s, front), e, front, t);
      assert front + [e] == es;
    }
  }

  /** In every run, a call that ends with a result from the default, whichever call it is, returns NULL if and only if
      opening a target failed in that very call, and otherwise the installed default. */
  lemma ResultExactly(s: State, es: seq<Event>, t: nat)
    requires Inv(s) && t < |s.pcs| && s.pcs[t].Idle? && Runs(s, es)
    requires var p := PcAt(After(s, es), t); p.Done? && p.fromDefault
    ensures var end, c := After(s, es), CallOf(es, t);
            && c.Calling?
            && (PcAt(end, t).result == 0 <==> c.failed)
            && (!c.failed ==> PcAt(end, t).result == end.default != 0)
  {
    CallsOk(s, es, t);
  }

  /** The installed default is all that a call begun afterwards can see of it. */
  predicate Served(s: State, p: Pc) {
    match p
    case AtAdopt(result) => result == s.default
    case Done(result, _, fromDefault) => fromDefault ==> result == s.default
    case _ => !p.AtOpen? && !p.Holds()
  }

  lemma {:induction false} ServedAfter(s: State, es: seq<Event>, t: nat)
    requires s.default != 0 && t < |s.pcs| && s.pcs[t].Idle? && Runs(s, es)
    ensures var end := After(s, es);
            end.default == s.default && |end.pcs| == |s.pcs| && Served(end, end.pcs[t]) && !FailedIn(CallOf(es, t))
    decreases |es|
  {
    if es != [] {
      ServedAfter(s, es[..|es| - 1], t);
    }
  }

  predicate FailedIn(c: CallState) {
    c.Calling? && c.failed
  }

  /** A call begun while a default is installed returns that very default if it looks there at all, and never NULL. */
  lemma InstalledIsReturned(s: State, es: seq<Event>, t: nat)
    requires Inv(s) && s.default != 0 && t < |s.pcs| && s.pcs[t].Idle? && Runs(s, es)
    ensures var p := PcAt(After(s, es), t);
            p.Done? ==> p.result != 0 && (p.fromDefault ==> p.result == s.default)
  {
    ServedAfter(s, es, t);
    CallsOk(s, es, t);
  }

  /** What a thread last read from `current`. */
  ghost function LastRead(s: State, es: seq<Event>, t: nat): nat
    requires Runs(s, es)
  {
    if es == [] then 0
    else
      var front := es[..|es| - 1];
      if es[|es| - 1] == Thread(t, ReadCurrent) then After(s, front).current else LastRead(s, front, t)
  }

  /** A call for the current target returns what it read there, unless that was NULL, and only then turns to the
      default. */
  lemma {:induction false} CurrentComesFirst(s: State, es: seq<Event>, t: nat)
    requires Inv(s) && t < |s.pcs| && s.pcs[t].Idle? && Runs(s, es)
    ensures var p, c := PcAt(After(s, es), t), CallOf(es, t);
            && (p.Done? && !p.fromDefault ==> c.Calling? && c.current && p.result == LastRead(s, es, t) != 0)
            && (c.Calling? && c.current && !p.AtCurrent? && !(p.Done? && !p.fromDefault) ==> LastRead(s, es, t) == 0)
    decreases |es|
  {
    CallsOk(s, es, t);
    if es != [] {
      CurrentComesFirst(s, es[..|es| - 1], t);
      CallsOk(s, es[..|es| - 1], t);
    }
  }

  /** Wait-freedom: in every run and whatever the other threads do, a call takes at most ten steps of its own, eight if
      it asks for the default, and as long as it has not ended it has a step to take. */
  lemma WaitFree(s: State, es: seq<Event>, t: nat)
    requires Inv(s) && t < |s.pcs| && s.pcs[t].Idle? && Runs(s, es) && CallOf(es, t).Calling?
    ensures CallOf(es, t).steps <= if CallOf(es, t).current then 10 else 8
    ensures !PcAt(After(s, es), t).Done? ==> exists step: Step :: !step.SetBack? && CanStep(After(s, es), t, step)
  {
    var end := After(s, es);
    CallsOk(s, es, t);
    RunsKeep(s, es);
    var p := end.pcs[t];
    if p.Holds() {
      HeldHasAddress(end, t);
    }
    var step := match p
                case AtCurrent => ReadCurrent
                case AtDefault(_) => ReadDefault
                case AtOpen(_) => OpenFails
                case AtAnnounce(_, _) => Announce
                case AtPublish(_, _) => Publish
                case AtClose(_, _) => Close
                case AtUnhook(_, _) => Unhook
                case AtFree(_, _) => Free
                case AtAdopt(_) => Adopt
                case _ => Return;
    assert CanStep(end, t, step);
  }

  /** When a call for the current target ends with a target, `current` is not NULL, and is that target if it was. */
  lemma AdoptedIsCurrent(s: State, t: nat)
    requires Inv(s) && CanStep(s, t, Adopt) && s.pcs[t].result != 0
    ensures var s' := Next(s, Thread(t, Adopt));
            && s'.current == (if s.current != 0 then s.current else s.pcs[t].result)
            && PcAt(s', t).result == s.pcs[t].result
  {
  }

  predicate BetweenCalls(s: State) {
    forall t | 0 <= t < |s.pcs| :: s.pcs[t].Idle? || s.pcs[t].Done?
  }

  /** In every run, no target is closed twice and the installed one never; once no call is under way, every target
      that was opened and not installed has been closed exactly once and freed, and if any was opened then one was
      installed. */
  lemma LosersClosedOnce(s: State, es: seq<Event>)
    requires Initial(s) && Runs(s, es)
    ensures var end := After(s, es);
            && (forall i | 0 <= i < |end.targets| :: end.targets[i].closes <= 1)
            && (end.winner.Some? ==> end.winner.value < |end.targets| && end.targets[end.winner.value].closes == 0
                                     && !end.targets[end.winner.value].freed)
            && (BetweenCalls(end) ==>
                  && (end.targets != [] ==> end.winner.Some?)
                  && forall i | 0 <= i < |end.targets| && end.winner != Some(i) ::
                       end.targets[i].closes == 1 && end.targets[i].freed)
  {
    var end := After(s, es);
    StartsKept(s, es);
    forall i | 0 <= i < |end.targets| ensures RecordOk(end, i) && end.targets[i].closes <= 1 {
      assert RecordOk(end, i);
      var p := end.pcs[end.targets[i].owner];
      assert PcOk(end, end.targets[i].owner);
    }
    if end.targets != [] && BetweenCalls(end) {
      assert RecordOk(end, 0);
    }
  }

  /** In every run each thread opens at most one target, and a thread about to open one has opened none: the retry
      loop never opens twice. */
  lemma OpensOnce(s: State, es: seq<Event>)
    requires Initial(s) && Runs(s, es)
    ensures var end := After(s, es);
            && (forall i, j | 0 <= i < j < |end.targets| :: end.targets[i].owner != end.targets[j].owner)
            && (forall i | 0 <= i < |end.targets| :: !PcAt(end, end.targets[i].owner).AtOpen?)
  {
    var end := After(s, es);
    StartsKept(s, es);
    forall i | 0 <= i < |end.targets| ensures !PcAt(end, end.targets[i].owner).AtOpen? {
      assert RecordOk(end, i);
    }
  }

  // ----- the current target

  /** What `current` points at is there: a target of the application's that it is not closing, or one opened for the
      default and not freed; and no thread is about to free it. */
  predicate CurrentOk(s: State) {
    && (s.current != 0 && s.current !in s.users - s.closing ==> Which(s.targets, s.current) < |s.targets|)
    && forall t | 0 <= t < |s.pcs| :: !FreesCurrent(s, s.pcs[t])
  }

  predicate FreesCurrent(s: State, p: Pc) {
    p.AtFree? && p.i < |s.targets| && s.targets[p.i].addr == s.current
  }

  /** The target has been unhooked, so that nobody will unhook it again. */
  predicate Unhooked(s: State, i: nat)
    requires i < |s.targets|
  {
    s.targets[i].freed || PcAt(s, s.targets[i].owner).AtFree?
  }

  /** Not setting back a target that has been unhooked. */
  predicate Careful(s: State, e: Event) {
    e.Thread? && e.step.SetBack? && e.t < |s.pcs| && s.pcs[e.t].Done? && s.pcs[e.t].which.Some? ==>
      s.pcs[e.t].which.value < |s.targets| && !Unhooked(s, s.pcs[e.t].which.value)
  }

  ghost predicate AllCareful(s: State, es: seq<Event>)
    requires Runs(s, es)
  {
    es == [] || (AllCareful(s, es[..|es| - 1]) && Careful(After(s, es[..|es| - 1]), es[|es| - 1]))
  }

  lemma CurrentKept(s: State, e: Event)
    requires Inv(s) && CurrentOk(s) && Enabled(s, e) && Careful(s, e)
    ensures CurrentOk(Next(s, e))
  {
    NextKeeps(s, e);
    CurrentThere(s, e);
    var s' := Next(s, e);
    forall t | 0 <= t < |s'.pcs| ensures !FreesCurrent(s', s'.pcs[t]) {
      NotFreed(s, e, t);
    }
  }

  lemma CurrentThere(s: State, e: Event)
    requires Inv(s) && CurrentOk(s) && Enabled(s, e) && Careful(s, e)
    ensures var s' := Next(s, e);
            s'.current != 0 && s'.current !in s'.users - s'.closing ==> Which(s'.targets, s'.current) < |s'.targets|
  {
    var s' := Next(s, e);
    var i := Which(s.targets, s.current);
    if i < |s.targets| && !s'.targets[i].freed {
      WhichIs(s'.targets, i);
    }
    if s.winner.Some? {
      RecordIsOk(s, s.winner.value);
      WhichIs(s.targets, s.winner.value);
    }
    if e.Thread? {
      assert PcOk(s, e.t);
      if e.step.Announce? {
        WhichIs(s.targets, s.pcs[e.t].i);
      } else if e.step.SetBack? && s.pcs[e.t].which.Some? {
        WhichIs(s.targets, s.pcs[e.t].which.value);
      }
    }
  }

  lemma NotFreed(s: State, e: Event, t: nat)
    requires Inv(s) && CurrentOk(s) && Enabled(s, e) && Careful(s, e) && t < |s.pcs|
    ensures !FreesCurrent(Next(s, e), Next(s, e).pcs[t])
  {
    assert PcOk(s, t) && !FreesCurrent(s, s.pcs[t]);
    if s.pcs[t].AtFree? {
      var i := s.pcs[t].i;
      if !e.Thread? {
        UserSpares(s, e, i);
      } else if e.t != t {
        ThreadSpares(s, e.t, e.step, i);
        SameAddress(s, e.t, e.step, i);
      }
    } else if e == Thread(t, Unhook) {
      RecordIsOk(s, s.pcs[t].i);
    }
  }

  lemma SameAddress(s: State, t: nat, step: Step, i: nat)
    requires CanStep(s, t, step) && i < |s.targets|
    ensures i < |StepOf(s, t, step).targets| && StepOf(s, t, step).targets[i].addr == s.targets[i].addr
  {
  }

  lemma Differ(s: State, i: nat, j: nat)
    requires Apart(s) && i < |s.targets| && j < |s.targets| && i != j
    requires !s.targets[i].freed && !s.targets[j].freed
    ensures s.targets[i].addr != s.targets[j].addr
  {
  }

  lemma DefaultDiffers(s: State, i: nat)
    requires Inv(s) && i < |s.targets| && !s.targets[i].freed && s.winner != Some(i)
    ensures s.default != s.targets[i].addr
  {
    RecordIsOk(s, i);
    if s.winner.Some? {
      RecordIsOk(s, s.winner.value);
      Differ(s, i, s.winner.value);
    }
  }

  /** A target about to be freed does not become current: not by a call of the application, ... */
  lemma UserSpares(s: State, e: Event, i: nat)
    requires Inv(s) && Enabled(s, e) && !e.Thread?
    requires i < |s.targets| && !s.targets[i].freed && s.winner != Some(i) && s.current != s.targets[i].addr
    ensures Next(s, e).current != s.targets[i].addr
  {
    RecordIsOk(s, i);
    DefaultDiffers(s, i);
  }

  /** ... and not by a step of a thread. */
  lemma ThreadSpares(s: State, t: nat, step: Step, i: nat)
    requires Inv(s) && CanStep(s, t, step) && Careful(s, Thread(t, step))
    requires i < |s.targets| && !s.targets[i].freed && s.winner != Some(i) && s.current != s.targets[i].addr
    requires s.targets[i].owner != t && PcAt(s, s.targets[i].owner).AtFree?
    ensures StepOf(s, t, step).current != s.targets[i].addr
  {
    RecordIsOk(s, i);
    DefaultDiffers(s, i);
    assert PcOk(s, t);
    if step.Announce? {
      Differ(s, i, s.pcs[t].i);
    } else if step.SetBack? && s.pcs[t].which.Some? {
      Differ(s, i, s.pcs[t].which.value);
    }
  }

  lemma {:induction false} CarefulRuns(s: State, es: seq<Event>)
    requires Inv(s) && CurrentOk(s) && Runs(s, es) && AllCareful(s, es)
    ensures Inv(After(s, es)) && CurrentOk(After(s, es))
    decreases |es|
  {
    if es != [] {
      var front := es[..|es| - 1];
      CarefulRuns(s, front);
      NextKeeps(After(s, front), es[|es| - 1]);
      CurrentKept(After(s, front), es[|es| - 1]);
    }
  }

  /** Unless a target is set back after it was unhooked, `current` is NULL, a target the application is not closing, or
      one opened for the default that is not yet freed: never a dangling pointer. It may be a target already closed, but
      only just before its owner unhooks it; between calls it can only be the installed one. */
  lemma CurrentNeverDangles(s: State, es: seq<Event>)
    requires Initial(s) && Runs(s, es) && AllCareful(s, es)
    ensures var end := After(s, es);
            end.current == 0 || end.current in end.users - end.closing
            || exists i | 0 <= i < |end.targets| ::
                 && !end.targets[i].freed && end.targets[i].addr == end.current
                 && (end.targets[i].closes > 0 ==>
                       PcAt(end, end.targets[i].owner) in {AtUnhook(false, i), AtUnhook(true, i)})
                 && (BetweenCalls(end) ==> end.winner == Some(i))
  {
    var end := After(s, es);
    CarefulRuns(s, es);
    if end.current != 0 && end.current !in end.users - end.closing {
      var i := Which(end.targets, end.current);
      assert RecordOk(end, i);
      var t := end.targets[i].owner;
      assert PcOk(end, t) && !FreesCurrent(end, end.pcs[t]);
      assert !end.targets[i].freed && end.targets[i].addr == end.current;
    }
  }

  // ----- when the current target is safe to use

  /** Some call has returned, as the current target, one that the protocol has since closed. */
  ghost predicate Stale(s: State) {
    exists t | 0 <= t < |s.pcs| :: StaleAt(s, t)
  }

  predicate StaleAt(s: State, t: nat)
    requires t < |s.pcs|
  {
    var p := s.pcs[t];
    p.Done? && p.which.Some? && p.which.value < |s.targets| && s.targets[p.which.value].closes > 0
  }

  /** `current` points at a target that is gone, ... */
  predicate Dangles(s: State) {
    s.current != 0 && !Live(s, s.current)
  }

  /** ... or at one that the protocol has closed. */
  predicate CurrentClosed(s: State) {
    var i := Which(s.targets, s.current);
    i < |s.targets| && s.targets[i].closes > 0
  }

  predicate AllIdle(s: State) {
    forall t | 0 <= t < |s.pcs| :: s.pcs[t].Idle?
  }

  /** Not opening or closing a rival of the installed target, nor handing one out. */
  predicate Calm(s: State, p: Pc) {
    !p.AtOpen? && !p.Holds() && (p.Done? && p.which.Some? ==> p.which == s.winner)
  }

  predicate Settled(s: State) {
    s.default != 0 && forall t | 0 <= t < |s.pcs| :: Calm(s, s.pcs[t])
  }

  /** Nothing but the installed target can be `current`, among those opened for the default. */
  lemma SettledCurrent(s: State)
    requires Inv(s) && Settled(s)
    ensures var w := Which(s.targets, s.current); w < |s.targets| ==> s.winner == Some(w)
  {
    var w := Which(s.targets, s.current);
    if w < |s.targets| {
      RecordIsOk(s, w);
      assert Calm(s, s.pcs[s.targets[w].owner]);
    }
  }

  lemma SettledStays(s: State, e: Event)
    requires Inv(s) && Settled(s) && Enabled(s, e)
    ensures Settled(Next(s, e)) && Next(s, e).targets == s.targets
  {
    var s' := Next(s, e);
    if e.Thread? {
      SettledCurrent(s);
      assert Calm(s, s.pcs[e.t]) && PcOk(s, e.t);
      assert s'.winner == s.winner && s'.default == s.default && s'.pcs == s.pcs[e.t := s'.pcs[e.t]];
      assert Calm(s', s'.pcs[e.t]);
    }
    forall t | 0 <= t < |s.pcs| ensures Calm(s', s'.pcs[t]) {
      assert Calm(s, s.pcs[t]);
    }
  }

  lemma {:induction false} SettledForever(s: State, es: seq<Event>)
    requires Inv(s) && Settled(s) && Runs(s, es)
    ensures Inv(After(s, es)) && Settled(After(s, es)) && After(s, es).targets == s.targets
    decreases |es|
  {
    if es != [] {
      var front := es[..|es| - 1];
      SettledForever(s, front);
      SettledStays(After(s, front), es[|es| - 1]);
      NextKeeps(After(s, front), es[|es| - 1]);
    }
  }

  lemma NotStale(s: State)
    requires Inv(s) && Settled(s)
    ensures !Stale(s)
  {
    forall t | 0 <= t < |s.pcs| ensures !StaleAt(s, t) {
      if s.winner.Some? {
        assert RecordOk(s, s.winner.value);
      }
    }
  }

  /** One event more. */
  lemma Extend(s: State, es: seq<Event>, mid: State, e: Event) returns (fs: seq<Event>, next: State)
    requires Runs(s, es) && After(s, es) == mid && Enabled(mid, e)
    ensures Runs(s, fs) && After(s, fs) == next == Next(mid, e)
  {
    fs, next := es + [e], Next(mid, e);
    assert fs[..|fs| - 1] == es;
  }

  lemma {:induction false} Bound(S: set<nat>) returns (m: nat)
    ensures m > 0 && forall x | x in S :: x < m
  {
    if S == {} {
      m := 1;
    } else {
      var x :| x in S;
      m := Bound(S - {x});
      assert forall y | y in S :: y == x || y in S - {x};
      m := if x < m then m else x + 1;
    }
  }

  /** Nothing opened for the default yet, and two threads ready to ask for it. */
  predicate TwoReady(s: State) {
    s.default == 0 && s.winner.None? && s.targets == [] && |s.pcs| >= 2 && s.pcs[0].Idle? && s.pcs[1].Idle?
  }

  /** Both threads find no default, and the first opens a target. */
  lemma BothLook(s: State, a: nat) returns (es: seq<Event>, mid: State)
    requires TwoReady(s) && a != 0 && a !in s.users
    ensures Runs(s, es) && After(s, es) == mid
    ensures mid == s.(pcs := s.pcs[0 := AtAnnounce(false, 0)][1 := AtOpen(false)], targets := [Opened(0, a, 0, false)])
  {
    es, mid := Extend(s, [], s, Thread(0, CallDefault));
    es, mid := Extend(s, es, mid, Thread(0, ReadDefault));
    es, mid := Extend(s, es, mid, Thread(1, CallDefault));
    es, mid := Extend(s, es, mid, Thread(1, ReadDefault));
    assert mid == s.(pcs := s.pcs[0 := AtOpen(false)][1 := AtOpen(false)]);
    es, mid := Extend(s, es, mid, Thread(0, Open(a)));
  }

  /** The first installs its target; the second opens its own and announces it. */
  lemma FirstWins(s: State, a: nat) returns (es: seq<Event>, mid: State)
    requires TwoReady(s) && a != 0 && a !in s.users && a + 1 !in s.users
    ensures Runs(s, es) && After(s, es) == mid
    ensures mid == s.(pcs := s.pcs[1 := AtPublish(false, 1)],
                      targets := [Opened(0, a, 0, false), Opened(1, a + 1, 0, false)],
                      default := a, current := a + 1, winner := Some(0))
  {
    es, mid := BothLook(s, a);
    es, mid := Extend(s, es, mid, Thread(0, Announce));
    es, mid := Extend(s, es, mid, Thread(0, Publish));
    es, mid := Extend(s, es, mid, Thread(0, Return));
    es, mid := Extend(s, es, mid, Thread(1, Open(a + 1)));
    es, mid := Extend(s, es, mid, Thread(1, Announce));
  }

  /** The first holds the second's target as the current one; the second stands at `p`, and has closed it so often. */
  function Raced(s: State, a: nat, p: Pc, closes: nat): State
    requires |s.pcs| >= 2
  {
    State(a, a + 1, Some(0), s.pcs[0 := Done(a + 1, Some(1), false)][1 := p],
          [Opened(0, a, 0, false), Opened(1, a + 1, closes, false)], s.users, s.closing)
  }

  /** The first asks for the current target and gets the second's, ... */
  lemma GetsTheLoser(s: State, a: nat) returns (es: seq<Event>, mid: State)
    requires TwoReady(s) && a != 0 && a !in s.users && a + 1 !in s.users
    ensures Runs(s, es) && After(s, es) == mid == Raced(s, a, AtPublish(false, 1), 0)
  {
    es, mid := FirstWins(s, a);
    WhichOne(mid, 1);
    es, mid := Extend(s, es, mid, Thread(0, CallCurrent));
    es, mid := Extend(s, es, mid, Thread(0, ReadCurrent));
  }

  lemma RacedCloses(s: State, a: nat)
    requires |s.pcs| >= 2 && a != 0
    ensures var before, mid := Raced(s, a, AtPublish(false, 1), 0), Raced(s, a, AtClose(false, 1), 0);
            && Enabled(before, Thread(1, Publish)) && Next(before, Thread(1, Publish)) == mid
            && Enabled(mid, Thread(1, Close)) && Next(mid, Thread(1, Close)) == Raced(s, a, AtUnhook(false, 1), 1)
  {
  }

  /** ... which the second then closes. */
  lemma LoserClosed(s: State, a: nat) returns (es: seq<Event>, mid: State)
    requires TwoReady(s) && a != 0 && a !in s.users && a + 1 !in s.users
    ensures Runs(s, es) && After(s, es) == mid == Raced(s, a, AtUnhook(false, 1), 1)
  {
    es, mid := GetsTheLoser(s, a);
    RacedCloses(s, a);
    es, mid := Extend(s, es, mid, Thread(1, Publish));
    es, mid := Extend(s, es, mid, Thread(1, Close));
  }

  lemma RaceGoesStale(s: State) returns (es: seq<Event>)
    requires TwoReady(s)
    ensures Runs(s, es) && Stale(After(s, es)) && CurrentClosed(After(s, es))
  {
    var a := Bound(s.users);
    var mid: State;
    es, mid := LoserClosed(s, a);
    WhichOne(mid, 1);
    assert StaleAt(mid, 0);
  }

  /** The second unhooks and frees it, and the first sets it back. */
  lemma RaceDangles(s: State) returns (es: seq<Event>)
    requires TwoReady(s)
    ensures Runs(s, es) && Dangles(After(s, es))
  {
    var a := Bound(s.users);
    var mid: State;
    es, mid := LoserClosed(s, a);
    es, mid := Extend(s, es, mid, Thread(1, Unhook));
    es, mid := Extend(s, es, mid, Thread(1, Free));
    es, mid := Extend(s, es, mid, Thread(0, SetBack));
    assert mid.targets == [Opened(0, a, 0, false), Opened(1, a + 1, 1, true)];
  }

  lemma IdleIsReady(s: State)
    requires Inv(s) && AllIdle(s) && s.default == 0 && |s.pcs| >= 2
    ensures TwoReady(s)
  {
    if s.winner.Some? {
      RecordIsOk(s, s.winner.value);
    } else if s.targets != [] {
      RecordIsOk(s, 0);
    }
  }

  ghost predicate CanGoStale(s: State) {
    exists es :: Runs(s, es) && Stale(After(s, es))
  }

  /** With two or more threads, all of them outside these calls, some run ahead hands out a target and closes it
      behind its user's back exactly when the default is not yet installed. Asking for the default once before the
      threads start rules it out. */
  lemma StaleExactly(s: State)
    requires Inv(s) && AllIdle(s) && |s.pcs| >= 2
    ensures CanGoStale(s) <==> s.default == 0
  {
    if s.default == 0 {
      IdleIsReady(s);
      var es := RaceGoesStale(s);
      assert Runs(s, es) && Stale(After(s, es));
    } else if CanGoStale(s) {
      var es :| Runs(s, es) && Stale(After(s, es));
      SettledForever(s, es);
      NotStale(After(s, es));
    }
  }

  lemma {:induction false} SettledCurrentOk(s: State, es: seq<Event>)
    requires Inv(s) && Settled(s) && CurrentOk(s) && Runs(s, es)
    ensures CurrentOk(After(s, es))
    decreases |es|
  {
    if es != [] {
      var mid, e := After(s, es[..|es| - 1]), es[|es| - 1];
      SettledForever(s, es[..|es| - 1]);
      SettledCurrentOk(s, es[..|es| - 1]);
      if e.Thread? && e.step.SetBack? && mid.pcs[e.t].which.Some? {
        assert Calm(mid, mid.pcs[e.t]);
        RecordIsOk(mid, mid.winner.value);
        assert Calm(mid, mid.pcs[mid.targets[mid.winner.value].owner]);
      }
      CurrentKept(mid, e);
    }
  }

  ghost predicate CanDangle(s: State) {
    exists es :: Runs(s, es) && Dangles(After(s, es))
  }

  ghost predicate CanHaveClosed(s: State) {
    exists es :: Runs(s, es) && CurrentClosed(After(s, es))
  }

  /** The same for the current target itself: some run ahead, in which a returned target is set back too late, leaves it
      dangling, and some run makes it a closed target, exactly when the default is not yet installed. */
  lemma CurrentExactly(s: State)
    requires Inv(s) && CurrentOk(s) && AllIdle(s) && |s.pcs| >= 2
    ensures CanDangle(s) <==> s.default == 0
    ensures CanHaveClosed(s) <==> s.default == 0
  {
    if s.default == 0 {
      IdleIsReady(s);
      var es := RaceDangles(s);
      assert Runs(s, es) && Dangles(After(s, es));
      var fs := RaceGoesStale(s);
      assert Runs(s, fs) && CurrentClosed(After(s, fs));
    } else {
      forall es | Runs(s, es) ensures !Dangles(After(s, es)) && !CurrentClosed(After(s, es)) {
        SettledForever(s, es);
        SettledCurrentOk(s, es);
        CurrentStands(After(s, es));
      }
    }
  }

  lemma CurrentStands(s: State)
    requires Inv(s) && Settled(s) && CurrentOk(s)
    ensures !Dangles(s) && !CurrentClosed(s)
  {
    SettledCurrent(s);
    if s.winner.Some? {
      RecordIsOk(s, s.winner.value);
    }
  }
}
