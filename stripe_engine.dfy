/**
 * The asynchronous striped transfer of flexalloc_xnvme_env.c:
 * fla_xne_async_strp_seq_x and its completion callback fla_async_strp_cb.
 *
 * The queue and the device are an `Env` value: every reply the engine can
 * receive is a function of the member and of the attempt it answers. The
 * order in which outstanding commands complete is left open (the method
 * that processes a completion picks any member with a command in flight),
 * so every property below holds for every completion order.
 */
module StripeEngine {
  import opened Util
  import opened Arith
  import opened StripeTranslate
  import opened StripeLayout
  import opened StripePlan

  /** Capacity of the engine's per-member callback arguments (`cb_args[512]`). */
  const MaxMembers: nat := 512

  /**
   * struct fla_async_strp_cb_args: the member's current command (first
   * block, zero-based block count, buffer offset) and its counters.
   */
  datatype MemberArgs = MemberArgs(slba: u64, nlbs: u16, sbufNbytes: u64, submitted: nat, completed: nat, ecount: nat)

  /** A zero-initialised entry of `cb_args`. */
  const Idle := MemberArgs(0, 0, 0, 0, 0, 0)

  /** The queue and the device as the engine sees them. */
  datatype Env = Env(
    queueInitErr: i32,              // xnvme_queue_init
    ctxNull: nat -> bool,           // xnvme_queue_get_cmd_ctx yields NULL for member i
    errno: i32,                     // errno after a failed queue call
    busyRefusals: nat -> nat,       // -EBUSY / -EAGAIN replies to member i's first submission
    initSubmitErr: nat -> i32,      // the reply that follows them
    pokeReaps: (nat, nat) -> nat,   // completions processed by the j-th poke while member i waits
    pokeRet: (nat, nat) -> int,     // that poke's return value
    cplStatus: (nat, nat) -> int,   // completion status of member m's k-th command
    resubmitErr: (nat, nat) -> i32, // reply to the callback's submission of member m's k-th command
    waitRet: int,                   // xnvme_queue_wait
    termErr: i32)                   // xnvme_queue_term

  /** The replies the initial loop answers by poking the queue and trying again. */
  predicate Backpressure(e: int) {
    e == -EBUSY || e == -EAGAIN
  }

  /** Every member's first submission is eventually answered with something other than backpressure. */
  ghost predicate Settles(env: Env) {
    forall i: nat :: !Backpressure(env.initSubmitErr(i))
  }

  /** A run in which no queue call and no submission fails (completion statuses may still fail). */
  ghost predicate Clean(sp: StripeParams, env: Env) {
    && (forall i: nat :: i < sp.nobjs ==> !env.ctxNull(i) && env.initSubmitErr(i) == 0)
    && (forall i: nat, j: nat :: env.pokeRet(i, j) >= 0)
    && (forall m: nat, k: nat :: env.resubmitErr(m, k) == 0)
  }

  /** The check the engine starts with: transfer length and start are whole blocks. */
  predicate Validated(sp: StripeParams)
    requires sp.lbaNbytes > 0
  {
    sp.xferNbytes % sp.lbaNbytes == 0 && sp.xferSnbytes % sp.lbaNbytes == 0
  }

  /** Number of member `m`'s first `n` commands that completed with a nonzero status. */
  function CountFailed(env: Env, m: nat, n: nat): (r: nat)
    ensures r <= n
  {
    if n == 0 then 0
    else CountFailed(env, m, n - 1) + if env.cplStatus(m, n - 1) != 0 then 1 else 0
  }

  lemma {:induction false} CountFailedZero(env: Env, m: nat, n: nat)
    ensures CountFailed(env, m, n) == 0 <==> forall k: nat :: k < n ==> env.cplStatus(m, k) == 0
  {
    if n > 0 {
      CountFailedZero(env, m, n - 1);
    }
  }

  /** The error counters of all members after a run whose device log is `cmds`. */
  ghost function Ecounts(sp: StripeParams, env: Env, cmds: seq<IoCmd>): (r: seq<nat>)
    ensures |r| == sp.nobjs
  {
    seq(sp.nobjs, m requires 0 <= m => CountFailed(env, m, |OfMember(cmds, m)|))
  }

  /** What a run observed: the initial loop's error, the queue's replies and the members' error counts. */
  datatype Outcome = Outcome(early: int, waitRet: int, termErr: int, ecount: seq<nat>)

  /** The first nonzero error count, or 0. */
  function FirstNonzero(s: seq<nat>): (r: nat)
  {
    if s == [] then 0 else if s[0] != 0 then s[0] else FirstNonzero(s[1..])
  }

  lemma {:induction false} FirstNonzeroZero(s: seq<nat>)
    ensures FirstNonzero(s) == 0 <==> forall i :: 0 <= i < |s| ==> s[i] == 0
    ensures FirstNonzero(s) != 0 ==> FirstNonzero(s) in s
  {
    if s != [] {
      FirstNonzeroZero(s[1..]);
      if s[0] == 0 {
        assert forall i :: 1 <= i < |s| ==> s[i] == s[1..][i - 1];
      }
    }
  }

  /**
   * Return value of fla_xne_async_strp_seq_x as written: the wait's
   * failure, else the queue termination's error, else member 0's error
   * count; the initial loop's error is overwritten.
   */
  function AggregateAsWritten(o: Outcome): (r: int)
    ensures r == 0 <==> o.waitRet >= 0 && o.termErr == 0 && (|o.ecount| == 0 || o.ecount[0] == 0)
  {
    if o.waitRet < 0 then 1
    else if o.termErr != 0 then o.termErr
    else if |o.ecount| > 0 && o.ecount[0] != 0 then o.ecount[0]
    else 0
  }

  /**
   * The intended return value: the initial loop's error, else the wait's
   * failure, else the termination error, else the error count of the first
   * member that has one.
   */
  function Aggregate(o: Outcome): (r: int)
    ensures r == 0 <==>
              && o.early == 0 && o.waitRet >= 0 && o.termErr == 0
              && forall i :: 0 <= i < |o.ecount| ==> o.ecount[i] == 0
    ensures o.early != 0 ==> r == o.early
    ensures r != 0 ==> r == o.early || r == 1 || r == o.termErr || r in o.ecount
  {
    FirstNonzeroZero(o.ecount);
    if o.early != 0 then o.early
    else if o.waitRet < 0 then 1
    else if o.termErr != 0 then o.termErr
    else FirstNonzero(o.ecount)
  }

  /** As written, a failed completion of any member but member 0 is not reported. */
  lemma AsWrittenMissesOtherMembers(o: Outcome)
    requires o.waitRet >= 0 && o.termErr == 0 && |o.ecount| >= 1 && o.ecount[0] == 0
    ensures AggregateAsWritten(o) == 0
    ensures Aggregate(o) == 0 <==> o.early == 0 && forall i :: 0 <= i < |o.ecount| ==> o.ecount[i] == 0
  {
  }

  /** As written, the initial loop's error never reaches the caller. */
  lemma AsWrittenLosesEarlyError(o: Outcome, early: int)
    ensures AggregateAsWritten(o.(early := early)) == AggregateAsWritten(o.(early := 0))
    ensures early != 0 ==> Aggregate(o.(early := early)) == early
  {
  }

  /** A run of two members where member 1's command fails, and one where the first submission is refused. */
  lemma AsWrittenExamples()
    ensures AggregateAsWritten(Outcome(0, 0, 0, [0, 1])) == 0 && Aggregate(Outcome(0, 0, 0, [0, 1])) == 1
    ensures AggregateAsWritten(Outcome(-EIO, 0, 0, [0])) == 0 && Aggregate(Outcome(-EIO, 0, 0, [0])) == -EIO
  {
  }

  /**
   * What the device log says about member `m`: a prefix of the member's
   * plan, and nothing for members without a piece or beyond the width.
   */
  ghost predicate Issued(sp: StripeParams, cmds: seq<IoCmd>, m: nat)
    requires Divisors(sp)
  {
    if m < sp.nobjs && IsPiece(sp, m) && Aligned(sp) then OfMember(cmds, m) <= Plan(sp, m)
    else OfMember(cmds, m) == []
  }

  /**
   * A started member whose plan is `P`: its accepted commands `mine` are
   * the first ones of the plan; every accepted command but the one in flight
   * has completed, and the error count counts the failed ones; the record
   * describes the command in flight and the plan positions from it on may
   * still complete; a member leaves the queue only after its last command or
   * after a refused submission.
   */
  ghost predicate MemberOk(env: Env, m: nat, P: seq<IoCmd>, a: MemberArgs, mine: seq<IoCmd>,
                           flying: bool, todo: set<(nat, nat)>)
  {
    && 1 <= a.submitted <= |P|
    && mine == P[..a.submitted]
    && a.completed + (if flying then 1 else 0) == a.submitted
    && a.ecount == CountFailed(env, m, a.completed)
    && (flying ==>
          && a.sbufNbytes == P[a.submitted - 1].bufOffset
          && a.nlbs == P[a.submitted - 1].nlb
          && a.slba == P[a.submitted - 1].slba
          && forall k :: a.submitted - 1 <= k < |P| ==> (m, k) in todo)
    && (!flying ==> a.submitted == |P| || env.resubmitErr(m, a.submitted) != 0)
  }

  /** The record after a completion, with the cursor moved to `sbuf`, before any resubmission. */
  function Completed(env: Env, m: nat, a: MemberArgs, sbuf: u64): MemberArgs {
    var ecount := a.ecount + if env.cplStatus(m, a.completed) != 0 then 1 else 0;
    a.(sbufNbytes := sbuf, completed := a.completed + 1, ecount := ecount)
  }

  /** A member with a nonempty entry in `plans` has a piece, and the entry is its plan. */
  lemma StartedPlan(sp: StripeParams, plans: seq<seq<IoCmd>>, m: nat)
    requires Sane(sp) && PlansOk(sp, plans) && m < sp.nobjs <= MaxMembers && |plans[m]| >= 1
    ensures IsPiece(sp, m) && plans[m] == Plan(sp, m)
  {
    assert plans[m] == if m < sp.nobjs && Aligned(sp) && IsPiece(sp, m) then Plan(sp, m) else [];
  }

  /** The entry of `plans` for a member with a piece is its plan. */
  lemma PlanOfPiece(sp: StripeParams, plans: seq<seq<IoCmd>>, m: nat)
    requires Aligned(sp) && PlansOk(sp, plans) && m < sp.nobjs <= MaxMembers && IsPiece(sp, m)
    ensures plans[m] == Plan(sp, m)
  {
  }

  /**
   * fla_async_strp_cb follows the plan: from the record of the command in
   * flight it computes the next command of the member's plan while the
   * cursor is inside the transfer, and the cursor leaves the transfer only
   * after the plan's last command.
   */
  lemma CallbackFollowsPlan(sp: StripeParams, env: Env, m: nat, a: MemberArgs, mine: seq<IoCmd>, todo: set<(nat, nat)>)
    requires Sane(sp) && IsPiece(sp, m) && MemberOk(env, m, Plan(sp, m), a, mine, true, todo)
    ensures var P, s, next := Plan(sp, m), a.submitted, NextSbufNbytes(a.sbufNbytes, a.nlbs, sp);
            && (next < sp.xferNbytes ==>
                  s < |P| && P[s] == IoCmd(m, sp.write, Add64(a.slba, a.nlbs + 1), NextNlbs(next, sp), next))
            && (next >= sp.xferNbytes ==> s == |P|)
  {
    var s := a.submitted;
    PlanStep(sp, m, s);
    if s < |Plan(sp, m)| {
      MemberCmdsAt(sp, m, m, FirstSlba(sp, m), s);
    }
  }

  /** The completion of a member's command and the accepted submission of its next one `P[s]` keep its invariant. */
  lemma AcceptNext(env: Env, m: nat, P: seq<IoCmd>, a: MemberArgs, mine: seq<IoCmd>, todo: set<(nat, nat)>)
    requires MemberOk(env, m, P, a, mine, true, todo) && a.submitted < |P|
    ensures var s, c := a.submitted, P[a.submitted];
            && (m, s - 1) in todo
            && MemberOk(env, m, P, Completed(env, m, a, c.bufOffset).(slba := c.slba, nlbs := c.nlb, submitted := s + 1),
                        mine + [c], true, todo - {(m, s - 1)})
  {
    var s := a.submitted;
    assert P[..s + 1] == P[..s] + [P[s]];
  }

  /** The completion of a member's command followed by a refused submission of its next one keeps its invariant. */
  lemma RefuseNext(env: Env, m: nat, P: seq<IoCmd>, a: MemberArgs, mine: seq<IoCmd>, todo: set<(nat, nat)>)
    requires MemberOk(env, m, P, a, mine, true, todo) && a.submitted < |P| && env.resubmitErr(m, a.submitted) != 0
    ensures var s, c := a.submitted, P[a.submitted];
            && (m, s - 1) in todo
            && MemberOk(env, m, P, Completed(env, m, a, c.bufOffset).(slba := c.slba, nlbs := c.nlb),
                        mine, false, todo - {(m, s - 1)})
  {
  }

  /** The completion of a member's last command keeps its invariant, wherever the cursor moves. */
  lemma FinishLast(env: Env, m: nat, P: seq<IoCmd>, a: MemberArgs, mine: seq<IoCmd>, todo: set<(nat, nat)>, sbuf: u64)
    requires MemberOk(env, m, P, a, mine, true, todo) && a.submitted == |P|
    ensures (m, a.submitted - 1) in todo
    ensures MemberOk(env, m, P, Completed(env, m, a, sbuf), mine, false, todo - {(m, a.submitted - 1)})
  {
  }

  /** The plans of the members of a transfer, indexed by member; empty for a member without a piece. */
  ghost predicate PlansOk(sp: StripeParams, plans: seq<seq<IoCmd>>)
    requires Divisors(sp)
  {
    && |plans| == MaxMembers && sp.nobjs <= MaxMembers
    && forall m: nat :: m < MaxMembers ==>
         plans[m] == if m < sp.nobjs && Aligned(sp) && IsPiece(sp, m) then Plan(sp, m) else []
  }

  /**
   * The engine's state, on values: `args` is `cb_args`, `inflight` the
   * members whose command is in flight, `cmds` the commands the device has
   * accepted, in order. Members below `started` went through the initial
   * submission loop; the others are untouched and have sent nothing.
   * `todo` holds the plan positions that may still complete.
   */
  ghost predicate EngineOk(sp: StripeParams, env: Env, plans: seq<seq<IoCmd>>, started: nat, args: seq<MemberArgs>,
                           inflight: set<nat>, cmds: seq<IoCmd>, todo: set<(nat, nat)>)
  {
    && |args| == MaxMembers && |plans| == MaxMembers
    && Divisors(sp) && sp.nobjs <= MaxMembers
    && started <= sp.nobjs
    && (started > 0 ==> Sane(sp))
    && (forall m :: m in inflight ==> m < started)
    && (forall m: nat :: m < started ==> MemberOk(env, m, plans[m], args[m], OfMember(cmds, m), m in inflight, todo))
    && (forall m: nat :: started <= m < MaxMembers ==>
          args[m].submitted == 0 && args[m].completed == 0 && args[m].ecount == 0)
    && (forall m: nat :: m >= started ==> OfMember(cmds, m) == [])
  }

  /**
   * A change to one started member keeps the engine's state valid when that
   * member's invariant holds afterwards and nothing changes for the others.
   */
  lemma EngineFrame(sp: StripeParams, env: Env, plans: seq<seq<IoCmd>>, started: nat, args: seq<MemberArgs>,
                    inflight: set<nat>, cmds: seq<IoCmd>, todo: set<(nat, nat)>,
                    m: nat, a: MemberArgs, inflight': set<nat>, cmds': seq<IoCmd>, todo': set<(nat, nat)>)
    requires EngineOk(sp, env, plans, started, args, inflight, cmds, todo) && m < started
    requires MemberOk(env, m, plans[m], a, OfMember(cmds', m), m in inflight', todo')
    requires forall j :: j != m ==> (j in inflight' <==> j in inflight)
    requires forall j: nat {:trigger OfMember(cmds', j)} :: j != m ==> OfMember(cmds', j) == OfMember(cmds, j)
    requires forall j, k :: j != m && (j, k) in todo ==> (j, k) in todo'
    ensures EngineOk(sp, env, plans, started, args[m := a], inflight', cmds', todo')
  {
    var args' := args[m := a];
    forall j: nat | j < started
      ensures MemberOk(env, j, plans[j], args'[j], OfMember(cmds', j), j in inflight', todo')
    {
      if j != m {
        assert MemberOk(env, j, plans[j], args[j], OfMember(cmds, j), j in inflight, todo);
      }
    }
  }

  /** A member that has not started yet may have its record rewritten, as long as its counters stay zero. */
  lemma EnginePrepare(sp: StripeParams, env: Env, plans: seq<seq<IoCmd>>, started: nat, args: seq<MemberArgs>,
                      inflight: set<nat>, cmds: seq<IoCmd>, todo: set<(nat, nat)>, a: MemberArgs)
    requires EngineOk(sp, env, plans, started, args, inflight, cmds, todo) && started < MaxMembers
    requires a.submitted == 0 && a.completed == 0 && a.ecount == 0
    ensures EngineOk(sp, env, plans, started, args[started := a], inflight, cmds, todo)
  {
  }

  /**
   * The initial loop's accepted submission of the next member's first
   * command starts that member: its record holds the command, which is the
   * first of its plan, and the whole plan may still complete.
   */
  lemma EngineAdmit(sp: StripeParams, env: Env, plans: seq<seq<IoCmd>>, started: nat, args: seq<MemberArgs>,
                    inflight: set<nat>, cmds: seq<IoCmd>, todo: set<(nat, nat)>, c: IoCmd)
    requires EngineOk(sp, env, plans, started, args, inflight, cmds, todo)
    requires started < sp.nobjs && Sane(sp)
    requires |plans[started]| >= 1 && c == plans[started][0] && c.member == started
    ensures var i := started;
            EngineOk(sp, env, plans, i + 1, args[i := MemberArgs(c.slba, c.nlb, c.bufOffset, 1, 0, 0)],
                     inflight + {i}, cmds + [c], todo + set k | 0 <= k < |plans[i]| :: (i, k))
  {
    var i := started;
    var args' := args[i := MemberArgs(c.slba, c.nlb, c.bufOffset, 1, 0, 0)];
    var todo' := todo + set k | 0 <= k < |plans[i]| :: (i, k);
    OfMemberAppend(cmds, c);
    assert plans[i][..1] == [c];
    forall j: nat | j < i + 1
      ensures MemberOk(env, j, plans[j], args'[j], OfMember(cmds + [c], j), j in inflight + {i}, todo')
    {
      if j < i {
        assert MemberOk(env, j, plans[j], args[j], OfMember(cmds, j), j in inflight, todo);
      }
    }
  }

  /** The initial loop's cursor after a first command of `nlbs + 1` blocks at `sbuf`. */
  function AfterFirst(sbuf: u64, nlbs: u16, sp: StripeParams): (r: u64)
    ensures sbuf + (nlbs + 1) * sp.lbaNbytes < U64 ==> r == sbuf + (nlbs + 1) * sp.lbaNbytes
  {
    MulNonneg(nlbs + 1, sp.lbaNbytes);
    Add64(sbuf, Mul64(nlbs + 1, sp.lbaNbytes))
  }

  /**
   * The initial loop's cursor after member `i`'s first command is the start
   * of piece `i + 1`, or the end of the transfer when there is none.
   */
  lemma LaunchAdvance(sp: StripeParams, i: nat)
    requires Aligned(sp) && IsPiece(sp, i)
    ensures 0 <= PieceNlbs(sp, i) < U16
    ensures var next := AfterFirst(PieceStart(sp, i), PieceNlbs(sp, i), sp);
            && (next < sp.xferNbytes ==> IsPiece(sp, i + 1) && next == PieceStart(sp, i + 1))
            && (next >= sp.xferNbytes ==> !IsPiece(sp, i + 1))
  {
    PiecesTile(sp, i);
    PieceNlbsFits(sp, i);
  }

  /** Past the first member without a piece, no member has one. */
  lemma NoPieceBeyond(sp: StripeParams, i: nat)
    requires Divisors(sp) && !IsPiece(sp, i)
    ensures forall m: nat :: m >= i ==> !IsPiece(sp, m)
  {
    forall m: nat | m >= i
      ensures !IsPiece(sp, m)
    {
      StartMonotone(sp, i, m);
    }
  }

  /**
   * The error that ends the submission of member `i`'s first command, from
   * the `j`-th busy reply on: a failed poke gives the errno error, and once
   * the queue stops answering -EBUSY / -EAGAIN its reply is the result.
   */
  function SubmitErr(env: Env, i: nat, j: nat): int
    decreases env.busyRefusals(i) - j
  {
    if j >= env.busyRefusals(i) then env.initSubmitErr(i)
    else if env.pokeRet(i, j) < 0 then ErrErrnoFl(1, env.errno)
    else SubmitErr(env, i, j + 1)
  }

  /** A first submission succeeds exactly when every remaining poke and the final reply do. */
  lemma {:induction false} SubmitErrZero(env: Env, i: nat, j: nat)
    ensures SubmitErr(env, i, j) == 0 <==>
              && (forall k: nat :: j <= k < env.busyRefusals(i) ==> env.pokeRet(i, k) >= 0)
              && env.initSubmitErr(i) == 0
    decreases env.busyRefusals(i) - j
  {
    if j < env.busyRefusals(i) && env.pokeRet(i, j) >= 0 {
      SubmitErrZero(env, i, j + 1);
    }
  }

  /** The error that ends the initial loop's round for member `i`: a NULL command context, or its submission's. */
  function MemberErr(env: Env, i: nat): int {
    if env.ctxNull(i) then ErrErrnoFl(1, env.errno) else SubmitErr(env, i, 0)
  }

  /**
   * The error the initial loop of fla_xne_async_strp_seq_x ends with, from
   * member `i` on: the first member with a piece whose round fails, or 0.
   */
  function LaunchErr(sp: StripeParams, env: Env, i: nat): int
    requires Divisors(sp)
    decreases sp.nobjs - i
  {
    if i >= sp.nobjs || !IsPiece(sp, i) then 0
    else if MemberErr(env, i) != 0 then MemberErr(env, i)
    else LaunchErr(sp, env, i + 1)
  }

  /** The initial loop succeeds exactly when every member with a piece gets a context and its submission succeeds. */
  lemma {:induction false} LaunchErrZero(sp: StripeParams, env: Env, i: nat)
    requires Divisors(sp)
    ensures LaunchErr(sp, env, i) == 0 <==>
              forall m: nat :: i <= m < sp.nobjs && IsPiece(sp, m) ==> !env.ctxNull(m) && SubmitErr(env, m, 0) == 0
    decreases sp.nobjs - i
  {
    if i < sp.nobjs {
      if !IsPiece(sp, i) {
        NoPieceBeyond(sp, i);
      } else {
        LaunchErrZero(sp, env, i + 1);
      }
    }
  }

  /**
   * What fla_async_strp_cb does with member `m`'s record when its command
   * completes: `args` is the new record, `issued` the resubmitted command
   * when the device accepted one. A member with nothing issued leaves the
   * queue.
   */
  datatype Reaction = Reaction(args: MemberArgs, issued: seq<IoCmd>)

  /**
   * fla_async_strp_cb: the completion is counted, a failed one in the error
   * count; the cursor moves past the other members' chunks; while it is
   * inside the transfer the block address moves past the blocks just moved
   * and the next command is submitted, and only an accepted submission
   * counts as submitted.
   */
  function Callback(sp: StripeParams, env: Env, m: nat, a: MemberArgs): (r: Reaction)
    requires Divisors(sp)
    ensures |r.issued| <= 1
    ensures r.args.completed == a.completed + 1
    ensures r.args.sbufNbytes == NextSbufNbytes(a.sbufNbytes, a.nlbs, sp)
    ensures r.issued != [] <==> r.args.sbufNbytes < sp.xferNbytes && env.resubmitErr(m, a.submitted) == 0
    ensures r.args.submitted == a.submitted + |r.issued|
  {
    var sbuf := NextSbufNbytes(a.sbufNbytes, a.nlbs, sp);
    var b := Completed(env, m, a, sbuf);
    if sbuf < sp.xferNbytes then
      var c := IoCmd(m, sp.write, Add64(a.slba, a.nlbs + 1), NextNlbs(sbuf, sp), sbuf);
      var b' := b.(slba := c.slba, nlbs := c.nlb);
      if env.resubmitErr(m, a.submitted) == 0 then Reaction(b'.(submitted := a.submitted + 1), [c])
      else Reaction(b', [])
    else
      Reaction(b, [])
  }

  /**
   * The callback keeps the engine's state valid: the member's record and
   * the command it resubmits are those of its plan, and one plan position
   * is used up.
   */
  lemma CallbackKeepsEngine(sp: StripeParams, env: Env, plans: seq<seq<IoCmd>>, started: nat, args: seq<MemberArgs>,
                            inflight: set<nat>, cmds: seq<IoCmd>, todo: set<(nat, nat)>, m: nat)
    requires EngineOk(sp, env, plans, started, args, inflight, cmds, todo) && PlansOk(sp, plans) && m in inflight
    ensures m < started && (m, args[m].submitted - 1) in todo
    ensures var r := Callback(sp, env, m, args[m]);
            r.issued != [] ==>
              EngineOk(sp, env, plans, started, args[m := r.args], inflight, cmds + r.issued,
                       todo - {(m, args[m].submitted - 1)})
    ensures var r := Callback(sp, env, m, args[m]);
            r.issued == [] ==>
              EngineOk(sp, env, plans, started, args[m := r.args], inflight - {m}, cmds + r.issued,
                       todo - {(m, args[m].submitted - 1)})
  {
    var a := args[m];
    assert m < started && MemberOk(env, m, plans[m], a, OfMember(cmds, m), true, todo);
    if NextSbufNbytes(a.sbufNbytes, a.nlbs, sp) < sp.xferNbytes && env.resubmitErr(m, a.submitted) == 0 {
      CallbackIssues(sp, env, plans, started, args, inflight, cmds, todo, m);
    } else {
      CallbackStops(sp, env, plans, started, args, inflight, cmds, todo, m);
    }
  }

  /** A callback whose resubmission is accepted keeps the member in flight with one more command. */
  lemma CallbackIssues(sp: StripeParams, env: Env, plans: seq<seq<IoCmd>>, started: nat, args: seq<MemberArgs>,
                       inflight: set<nat>, cmds: seq<IoCmd>, todo: set<(nat, nat)>, m: nat)
    requires EngineOk(sp, env, plans, started, args, inflight, cmds, todo) && PlansOk(sp, plans) && m in inflight
    requires NextSbufNbytes(args[m].sbufNbytes, args[m].nlbs, sp) < sp.xferNbytes
    requires env.resubmitErr(m, args[m].submitted) == 0
    ensures var r := Callback(sp, env, m, args[m]);
            && |r.issued| == 1
            && EngineOk(sp, env, plans, started, args[m := r.args], inflight, cmds + r.issued,
                        todo - {(m, args[m].submitted - 1)})
  {
    var a := args[m];
    var mine := OfMember(cmds, m);
    assert m < started && MemberOk(env, m, plans[m], a, mine, true, todo);
    StartedPlan(sp, plans, m);
    CallbackAccepted(sp, env, m, a, mine, todo);
    var r := Callback(sp, env, m, a);
    var c := r.issued[0];
    OfMemberAppend(cmds, c);
    assert r.issued == [c];
    assert OfMember(cmds + r.issued, m) == mine + r.issued;
    EngineFrame(sp, env, plans, started, args, inflight, cmds, todo, m, r.args, inflight, cmds + r.issued, todo - {(m, a.submitted - 1)});
  }

  /** An accepted resubmission sends the member's next planned command and keeps its record valid. */
  lemma CallbackAccepted(sp: StripeParams, env: Env, m: nat, a: MemberArgs, mine: seq<IoCmd>, todo: set<(nat, nat)>)
    requires Sane(sp) && IsPiece(sp, m) && MemberOk(env, m, Plan(sp, m), a, mine, true, todo)
    requires NextSbufNbytes(a.sbufNbytes, a.nlbs, sp) < sp.xferNbytes && env.resubmitErr(m, a.submitted) == 0
    ensures var r := Callback(sp, env, m, a);
            && |r.issued| == 1 && a.submitted < |Plan(sp, m)| && r.issued[0] == Plan(sp, m)[a.submitted]
            && r.issued[0].member == m
            && MemberOk(env, m, Plan(sp, m), r.args, mine + r.issued, true, todo - {(m, a.submitted - 1)})
  {
    CallbackFollowsPlan(sp, env, m, a, mine, todo);
    var c := Plan(sp, m)[a.submitted];
    AcceptNext(env, m, Plan(sp, m), a, mine, todo);
    assert Callback(sp, env, m, a).issued == [c];
  }

  /** A callback that is refused or reaches the end of the transfer takes the member out of flight. */
  lemma CallbackStops(sp: StripeParams, env: Env, plans: seq<seq<IoCmd>>, started: nat, args: seq<MemberArgs>,
                      inflight: set<nat>, cmds: seq<IoCmd>, todo: set<(nat, nat)>, m: nat)
    requires EngineOk(sp, env, plans, started, args, inflight, cmds, todo) && PlansOk(sp, plans) && m in inflight
    requires !(NextSbufNbytes(args[m].sbufNbytes, args[m].nlbs, sp) < sp.xferNbytes
               && env.resubmitErr(m, args[m].submitted) == 0)
    ensures var r := Callback(sp, env, m, args[m]);
            && r.issued == []
            && EngineOk(sp, env, plans, started, args[m := r.args], inflight - {m}, cmds + r.issued,
                        todo - {(m, args[m].submitted - 1)})
  {
    var a := args[m];
    var mine := OfMember(cmds, m);
    assert m < started && MemberOk(env, m, plans[m], a, mine, true, todo);
    StartedPlan(sp, plans, m);
    CallbackFollowsPlan(sp, env, m, a, mine, todo);
    var r := Callback(sp, env, m, a);
    var sbuf := NextSbufNbytes(a.sbufNbytes, a.nlbs, sp);
    var todo' := todo - {(m, a.submitted - 1)};
    if sbuf < sp.xferNbytes {
      RefuseNext(env, m, plans[m], a, mine, todo);
    } else {
      FinishLast(env, m, plans[m], a, mine, todo, sbuf);
    }
    EngineFrame(sp, env, plans, started, args, inflight, cmds, todo, m, r.args, inflight - {m}, cmds, todo');
    assert cmds + r.issued == cmds;
  }

  class Engine {
    const sp: StripeParams
    const env: Env
    ghost const plans: seq<seq<IoCmd>>
    const args: array<MemberArgs>
    var started: nat
    var inflight: set<nat>
    var cmds: seq<IoCmd>
    ghost var todo: set<(nat, nat)>

    ghost predicate Valid()
      reads this, args
    {
      && args.Length == MaxMembers && Divisors(sp) && PlansOk(sp, plans)
      && EngineOk(sp, env, plans, started, args[..], inflight, cmds, todo)
    }

    /** Queue creation: zeroed callback arguments, nothing in flight. */
    constructor (sp: StripeParams, env: Env)
      requires Divisors(sp) && sp.nobjs <= MaxMembers
      ensures Valid() && fresh(args)
      ensures this.sp == sp && this.env == env
      ensures started == 0 && inflight == {} && cmds == []
    {
      this.sp := sp;
      this.env := env;
      plans := seq(MaxMembers, m requires 0 <= m =>
                     if m < sp.nobjs && Aligned(sp) && IsPiece(sp, m) then Plan(sp, m) else []);
      args := new MemberArgs[MaxMembers](_ => Idle);
      started := 0;
      inflight := {};
      cmds := [];
      todo := {};
    }

    /** fla_async_strp_cb on the completion of member `m`'s command in flight. */
    method Complete(m: nat)
      requires Valid() && m in inflight
      modifies this, args
      ensures Valid() && m < started
      ensures started == old(started) && todo < old(todo)
      ensures var r := Callback(sp, env, m, old(args[m]));
              && args[..] == old(args[..])[m := r.args]
              && cmds == old(cmds) + r.issued
              && inflight == if r.issued == [] then old(inflight) - {m} else old(inflight)
    {
      var r := Callback(sp, env, m, args[m]);
      CallbackKeepsEngine(sp, env, plans, started, args[..], inflight, cmds, todo, m);
      todo := todo - {(m, args[m].submitted - 1)};
      args[m] := r.args;
      cmds := cmds + r.issued;
      if r.issued == [] {
        inflight := inflight - {m};
      }
    }

    /**
     * The initial submission loop of fla_xne_async_strp_seq_x: member `i`'s
     * first command starts at the buffer offset where member `i - 1`'s first
     * command ended. The loop stops at the stripe width or at the end of the
     * transfer; the first error ends it and is returned.
     */
    method Launch() returns (early: int)
      requires Valid() && started == 0 && inflight == {} && cmds == []
      requires Validated(sp) && (sp.nobjs >= 1 ==> Sane(sp)) && Settles(env)
      modifies this, args
      ensures Valid()
      ensures early == LaunchErr(sp, env, 0)
      ensures early == 0 ==> forall m: nat :: m < sp.nobjs && IsPiece(sp, m) ==> m < started
      ensures Clean(sp, env) ==> early == 0
    {
      early := 0;
      var sbuf: u64 := 0;
      var i: nat := 0;
      while i < sp.nobjs && sbuf < sp.xferNbytes
        invariant Valid() && started == i <= sp.nobjs
        invariant early == 0 && LaunchErr(sp, env, i) == LaunchErr(sp, env, 0)
        invariant sbuf < sp.xferNbytes ==> IsPiece(sp, i) && sbuf == PieceStart(sp, i)
        invariant sbuf >= sp.xferNbytes ==> !IsPiece(sp, i)
        decreases sp.nobjs - i
      {
        var nlbs: u16;
        early, nlbs := StartMember(sbuf);
        if early != 0 {
          assert early == LaunchErr(sp, env, i);
          return;
        }
        assert LaunchErr(sp, env, i) == LaunchErr(sp, env, i + 1);
        LaunchAdvance(sp, i);
        sbuf := AfterFirst(sbuf, nlbs, sp);
        i := i + 1;
      }
      if i < sp.nobjs {
        NoPieceBeyond(sp, i);
      }
    }

    /**
     * One round of the initial loop: member `started` gets a command context,
     * its first command is built at buffer offset `sbuf` and submitted; on
     * acceptance the member is started, and `nlbs` is the command's block
     * count.
     */
    method StartMember(sbuf: u64) returns (early: int, nlbs: u16)
      requires Valid() && started < sp.nobjs && Sane(sp) && Settles(env)
      requires IsPiece(sp, started) && sbuf == PieceStart(sp, started)
      modifies this, args
      ensures Valid()
      ensures early == MemberErr(env, old(started))
      ensures early == 0 ==> started == old(started) + 1 && nlbs == PieceNlbs(sp, old(started))
      ensures Clean(sp, env) ==> early == 0
    {
      var i := started;
      if env.ctxNull(i) {
        return ErrErrnoFl(1, env.errno), 0;
      }
      var g := Add64(sbuf, sp.xferSnbytes);
      nlbs := FirstNlbsIntended(sbuf, g, sp);
      var slba := SbufSlba(sp, sbuf);
      var a := MemberArgs(slba, nlbs, sbuf, 0, 0, 0);
      Prepare(a);
      early := SubmitFirst();
      if early != 0 {
        return;
      }
      var c := IoCmd(i, sp.write, slba, nlbs, sbuf);
      PlanFirst(sp, i);
      PlanOfPiece(sp, plans, i);
      FirstNlbsIntendedAtPiece(sp, i);
      Admit(c);
    }

    /**
     * Submission of member `started`'s first command: a busy queue (-EBUSY,
     * -EAGAIN) is poked, which processes completions, and the submission is
     * retried; a failed poke ends the loop with its error, any other reply
     * is returned as it is.
     */
    method SubmitFirst() returns (err: int)
      requires Valid() && started < sp.nobjs && Settles(env)
      modifies this, args
      ensures Valid() && started == old(started) && args[started] == old(args[started])
      ensures err == SubmitErr(env, started, 0)
      ensures Clean(sp, env) ==> err == 0
      ensures err == 0 ==> env.initSubmitErr(started) == 0
    {
      var i := started;
      var attempt: nat := 0;
      while attempt < env.busyRefusals(i)
        invariant Valid() && started == i && args[i] == old(args[i])
        invariant SubmitErr(env, i, attempt) == SubmitErr(env, i, 0)
      {
        Reap(env.pokeReaps(i, attempt));
        if env.pokeRet(i, attempt) < 0 {
          return ErrErrnoFl(1, env.errno);
        }
        attempt := attempt + 1;
      }
      err := env.initSubmitErr(i);
    }

    /** The initial loop fills in the record of the next member before submitting its first command. */
    method Prepare(a: MemberArgs)
      requires Valid() && started < MaxMembers
      requires a.submitted == 0 && a.completed == 0 && a.ecount == 0
      modifies args
      ensures Valid() && args[..] == old(args[..])[started := a]
    {
      EnginePrepare(sp, env, plans, started, args[..], inflight, cmds, todo, a);
      args[started] := a;
    }

    /** The first command `c` of the next member was accepted: the member is started. */
    method Admit(c: IoCmd)
      requires Valid() && started < sp.nobjs && Sane(sp)
      requires |plans[started]| >= 1 && c == plans[started][0] && c.member == started
      requires args[started] == MemberArgs(c.slba, c.nlb, c.bufOffset, 0, 0, 0)
      modifies this, args
      ensures Valid()
      ensures started == old(started) + 1 && cmds == old(cmds) + [c] && inflight == old(inflight) + {old(started)}
      ensures args[..] == old(args[..])[old(started) := MemberArgs(c.slba, c.nlb, c.bufOffset, 1, 0, 0)]
    {
      var i := started;
      EngineAdmit(sp, env, plans, i, args[..], inflight, cmds, todo, c);
      args[i] := MemberArgs(c.slba, c.nlb, c.bufOffset, 1, 0, 0);
      cmds := cmds + [c];
      inflight := inflight + {i};
      todo := todo + set k | 0 <= k < |plans[i]| :: (i, k);
      started := i + 1;
    }

    /** Processes up to `n` completions, as xnvme_queue_poke does. */
    method Reap(n: nat)
      requires Valid()
      modifies this, args
      ensures Valid() && started == old(started)
      ensures started < MaxMembers ==> args[started] == old(args[started])
    {
      var k := 0;
      while k < n && inflight != {}
        invariant Valid() && started == old(started)
        invariant started < MaxMembers ==> args[started] == old(args[started])
      {
        var m :| m in inflight;
        Complete(m);
        k := k + 1;
      }
    }

    /**
     * The initial submission loop followed by xnvme_queue_wait. Whatever the
     * replies, each member's commands are a prefix of its plan; with no
     * failed queue call or submission every member with a piece sent its
     * whole plan.
     */
    method Run() returns (early: int)
      requires Valid() && started == 0 && inflight == {} && cmds == []
      requires Validated(sp) && (sp.nobjs >= 1 ==> Sane(sp)) && Settles(env)
      modifies this, args
      ensures Valid() && inflight == {}
      ensures early == LaunchErr(sp, env, 0)
      ensures forall m: nat :: Issued(sp, cmds, m)
      ensures early == 0 ==> forall m: nat :: m < sp.nobjs && IsPiece(sp, m) ==> |OfMember(cmds, m)| >= 1
      ensures Clean(sp, env) ==>
                && early == 0
                && forall m: nat :: m < sp.nobjs && IsPiece(sp, m) ==> OfMember(cmds, m) == Plan(sp, m)
    {
      early := Launch();
      Drain();
      DrainedRun(sp, env, plans, started, args[..], cmds, todo);
    }

    /** The error count of the first member that has one, or 0, once nothing is in flight. */
    method FirstEcount() returns (e: nat)
      requires Valid() && inflight == {}
      ensures e == FirstNonzero(Ecounts(sp, env, cmds))
    {
      e := FirstNonzeroEcount(args, sp.nobjs);
      DrainedEcounts(sp, env, plans, started, args[..], cmds, todo);
      assert EcountsOf(args[..sp.nobjs]) == Ecounts(sp, env, cmds);
    }

    /**
     * The error-count loop as written: every round reads the first member's
     * record, so the result is member 0's error count whatever the others hold.
     */
    method FirstEcountAsWritten() returns (e: nat)
      requires Valid() && inflight == {}
      ensures e == if sp.nobjs == 0 then 0 else Ecounts(sp, env, cmds)[0]
    {
      DrainedEcounts(sp, env, plans, started, args[..], cmds, todo);
      e := 0;
      var i: nat := 0;
      while i < sp.nobjs
        invariant i <= sp.nobjs
        invariant e == 0 && (i > 0 ==> args[0].ecount == 0)
      {
        e := args[0].ecount;
        if e != 0 {
          break;
        }
        i := i + 1;
      }
    }

    /** xnvme_queue_wait: processes completions until nothing is in flight. */
    method Drain()
      requires Valid()
      modifies this, args
      ensures Valid() && started == old(started) && inflight == {}
    {
      while inflight != {}
        invariant Valid() && started == old(started)
        decreases todo
      {
        var m :| m in inflight;
        Complete(m);
      }
    }
  }

  /** Once nothing is in flight the members' records hold the error counts of the run. */
  lemma DrainedEcounts(sp: StripeParams, env: Env, plans: seq<seq<IoCmd>>, started: nat, args: seq<MemberArgs>,
                       cmds: seq<IoCmd>, todo: set<(nat, nat)>)
    requires EngineOk(sp, env, plans, started, args, {}, cmds, todo) && PlansOk(sp, plans)
    ensures sp.nobjs <= |args|
    ensures forall m :: 0 <= m < sp.nobjs ==> args[m].ecount == Ecounts(sp, env, cmds)[m]
  {
    DrainedRun(sp, env, plans, started, args, cmds, todo);
  }

  /**
   * Once nothing is in flight every member's error count counts the failed
   * completions among the commands the device accepted from it; each
   * member's commands are a prefix of its plan, and every started member
   * has at least one command; a started member none of whose resubmissions
   * was refused sent its whole plan.
   */
  lemma DrainedRun(sp: StripeParams, env: Env, plans: seq<seq<IoCmd>>, started: nat, args: seq<MemberArgs>,
                   cmds: seq<IoCmd>, todo: set<(nat, nat)>)
    requires EngineOk(sp, env, plans, started, args, {}, cmds, todo) && PlansOk(sp, plans)
    ensures forall m: nat :: m < sp.nobjs ==> args[m].ecount == CountFailed(env, m, |OfMember(cmds, m)|)
    ensures forall m: nat :: Issued(sp, cmds, m)
    ensures forall m: nat :: m < started ==>
              && Aligned(sp) && IsPiece(sp, m) && |OfMember(cmds, m)| >= 1
              && ((forall k: nat :: env.resubmitErr(m, k) == 0) ==> OfMember(cmds, m) == Plan(sp, m))
  {
    forall m: nat | m < started
      ensures args[m].ecount == CountFailed(env, m, |OfMember(cmds, m)|)
      ensures Aligned(sp) && IsPiece(sp, m) && |OfMember(cmds, m)| >= 1 && Issued(sp, cmds, m)
      ensures (forall k: nat :: env.resubmitErr(m, k) == 0) ==> OfMember(cmds, m) == Plan(sp, m)
    {
      var P := plans[m];
      assert MemberOk(env, m, P, args[m], OfMember(cmds, m), false, todo);
      StartedPlan(sp, plans, m);
      assert P[..|P|] == P;
    }
    forall m: nat | m >= started
      ensures Issued(sp, cmds, m)
      ensures m < sp.nobjs ==> args[m].ecount == CountFailed(env, m, |OfMember(cmds, m)|)
    {
      assert OfMember(cmds, m) == [];
    }
  }

  /** The first nonzero entry is the first nonzero one from any position that only has zeros before it. */
  /** The error counts held by a sequence of member records. */
  function EcountsOf(s: seq<MemberArgs>): (r: seq<nat>)
    ensures |r| == |s| && forall j :: 0 <= j < |s| ==> r[j] == s[j].ecount
  {
    seq(|s|, j requires 0 <= j < |s| => s[j].ecount)
  }

  /** The members' error-count loop: the error count of the first of the `n` records that has one, or 0. */
  method FirstNonzeroEcount(args: array<MemberArgs>, n: nat) returns (e: nat)
    requires n <= args.Length
    ensures e == FirstNonzero(EcountsOf(args[..n]))
  {
    ghost var ecounts := EcountsOf(args[..n]);
    e := 0;
    var i: nat := 0;
    while i < n
      invariant i <= n
      invariant forall j :: 0 <= j < i ==> ecounts[j] == 0
    {
      if args[i].ecount != 0 {
        e := args[i].ecount;
        break;
      }
      i := i + 1;
    }
    FirstNonzeroFrom(ecounts, i);
  }

  lemma {:induction false} FirstNonzeroFrom(s: seq<nat>, i: nat)
    requires i <= |s| && forall j :: 0 <= j < i ==> s[j] == 0
    ensures FirstNonzero(s) == FirstNonzero(s[i..])
    ensures i == |s| ==> FirstNonzero(s) == 0
    ensures i < |s| && s[i] != 0 ==> FirstNonzero(s) == s[i]
  {
    if i > 0 {
      assert s[1..][i - 1..] == s[i..];
      FirstNonzeroFrom(s[1..], i - 1);
    }
  }

  /**
   * fla_xne_async_strp_seq_x, with the corrected first block count and
   * error reporting (see the findings): the alignment check, queue
   * creation, the initial submission loop, the wait for all completions,
   * queue termination and the members' error counts. `cmds` is the device
   * log, `early` the error that ended the initial loop, or 0, `err` the
   * corrected return value and `errAsWritten` the one lines 382-399 of the
   * C function compute from the same run.
   */
  method StrpSeqX(sp: StripeParams, env: Env) returns (err: int, errAsWritten: int, cmds: seq<IoCmd>, early: int)
    requires Divisors(sp) && sp.nobjs <= MaxMembers
    requires Validated(sp) && sp.nobjs >= 1 ==> Sane(sp)
    requires Settles(env)
    ensures !Validated(sp) ==> err == 1 && errAsWritten == 1 && cmds == []
    ensures Validated(sp) && env.queueInitErr != 0 ==>
              err == env.queueInitErr && errAsWritten == env.queueInitErr && cmds == []
    ensures Validated(sp) && env.queueInitErr == 0 ==> early == LaunchErr(sp, env, 0)
    ensures Validated(sp) && env.queueInitErr == 0 ==>
              err == Aggregate(Outcome(early, env.waitRet, env.termErr, Ecounts(sp, env, cmds)))
    ensures Validated(sp) && env.queueInitErr == 0 ==>
              errAsWritten == AggregateAsWritten(Outcome(early, env.waitRet, env.termErr, Ecounts(sp, env, cmds)))
    ensures forall m: nat :: Issued(sp, cmds, m)
    ensures Validated(sp) && env.queueInitErr == 0 && early == 0 ==>
              forall m: nat :: m < sp.nobjs && IsPiece(sp, m) ==> |OfMember(cmds, m)| >= 1
    ensures Clean(sp, env) && Validated(sp) && env.queueInitErr == 0 ==>
              && early == 0
              && forall m: nat :: m < sp.nobjs && IsPiece(sp, m) ==> OfMember(cmds, m) == Plan(sp, m)
  {
    cmds, early := [], 0;
    err := ErrFl(BoolToInt(!Validated(sp)));
    errAsWritten := err;
    if err != 0 {
      return;
    }
    if env.queueInitErr != 0 {
      err := ErrFl(env.queueInitErr);
      errAsWritten := err;
      return;
    }
    var engine := new Engine(sp, env);
    early := engine.Run();
    cmds := engine.cmds;
    var late: int;
    if env.waitRet < 0 {
      late := ErrFl(1);
      errAsWritten := late;
    } else if env.termErr != 0 {
      late := ErrFl(env.termErr);
      errAsWritten := late;
    } else {
      late := engine.FirstEcount();
      errAsWritten := engine.FirstEcountAsWritten();
    }
    err := if early != 0 then early else late;
  }
}
