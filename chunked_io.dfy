/**
 * The chunked synchronous transfers of flexalloc_xnvme_env.c:
 * fla_xne_sync_seq_w, fla_xne_sync_seq_r and fla_xne_write_zeroes split the
 * block range `[slba, elba]` into commands of at most
 * fla_xne_calc_mdts_naddrs blocks, and the `_naddrs` / `_nbytes` wrappers
 * check the range first.
 *
 * The device is a parameter: `dev(k)` is the reply to the `k`-th command of
 * the call. Buffers are offsets from the start of the caller's buffer.
 */
module ChunkedIo {
  import opened Util
  import opened Arith
  import opened SyncReply

  /** The two fields of struct xnvme_geo the transfers read. */
  datatype Geo = Geo(mdtsNbytes: u32, lbaNbytes: u32)

  /** The three commands the transfers issue. */
  datatype Op = Write | Read | WriteZeroes

  /**
   * One synchronous command: opcode, first block, zero-based block count
   * (the NLB field of Command Dword 12) and buffer offset (0 for Write
   * Zeroes, which has no buffer).
   */
  datatype Cmd = Cmd(op: Op, slba: u64, nlb: u32, bufOffset: int)

  /**
   * struct xnvme_lba_range as the range helpers return it: first and last
   * block, number of blocks, and the validity flag.
   */
  datatype LbaRange = LbaRange(slba: u64, elba: u64, naddrs: u64, valid: bool)

  /** What a valid range promises: it is nonempty and `naddrs` counts its blocks. */
  predicate WellFormed(r: LbaRange) {
    r.valid ==> r.slba <= r.elba && r.naddrs == r.elba - r.slba + 1
  }

  /**
   * fla_xne_calc_mdts_naddrs: the blocks of one maximum data transfer,
   * `fla_min(mdts_nbytes / lba_nbytes, UINT16_MAX)`.
   */
  function MdtsNaddrs(geo: Geo): (r: u32)
    requires geo.lbaNbytes > 0
    ensures r <= Uint16Max
    ensures geo.mdtsNbytes / geo.lbaNbytes <= Uint16Max ==> r == geo.mdtsNbytes / geo.lbaNbytes
    ensures geo.mdtsNbytes / geo.lbaNbytes > Uint16Max ==> r == Uint16Max
    ensures r * geo.lbaNbytes <= geo.mdtsNbytes
  {
    var q := geo.mdtsNbytes / geo.lbaNbytes;
    DivLe(geo.mdtsNbytes, geo.lbaNbytes);
    var r := Min(q, Uint16Max);
    MulMono(r, q, geo.lbaNbytes);
    r
  }

  /**
   * The loops advance: a transfer unit of at least one block, and the last
   * block far enough below 2^64 that `slba += mdts_naddrs` does not wrap.
   */
  predicate Chunkable(r: LbaRange, geo: Geo) {
    geo.lbaNbytes > 0 && MdtsNaddrs(geo) >= 1 && r.elba + MdtsNaddrs(geo) < U64
  }

  /** One command's blocks: first block and zero-based count. */
  datatype Seg = Seg(slba: u64, nlb: u32)

  /** The segments from block `start` to `elba`, `m` blocks at a time, the last one possibly shorter. */
  function Segments(start: u64, elba: u64, m: nat): seq<Seg>
    requires 1 <= m <= Uint16Max && elba + m < U64
    decreases elba + 1 - start
  {
    if start > elba then []
    else [Seg(start, Min(elba - start, m - 1))] + Segments(start + m, elba, m)
  }

  /**
   * The command for segment `s` of a transfer that starts at block `base`:
   * the buffer offset is the bytes of the blocks before it.
   */
  function SegCmd(op: Op, base: u64, L: nat, s: Seg): Cmd {
    Cmd(op, s.slba, s.nlb, if op == WriteZeroes then 0 else Scaled(s.slba - base, L))
  }

  /** The bytes of `k` blocks of `L` bytes each (none for `k <= 0`), counted block by block. */
  function Scaled(k: int, L: nat): nat
    decreases k
  {
    if k <= 0 then 0 else Scaled(k - 1, L) + L
  }

  lemma {:induction false} ScaledIsProduct(k: nat, L: nat)
    ensures Scaled(k, L) == k * L
  {
    if k > 0 {
      ScaledIsProduct(k - 1, L);
      MulSucc(k - 1, L);
    }
  }

  /** The commands for a list of segments. */
  function Cmds(op: Op, base: u64, L: nat, S: seq<Seg>): (r: seq<Cmd>)
    ensures |r| == |S|
  {
    if S == [] then [] else [SegCmd(op, base, L, S[0])] + Cmds(op, base, L, S[1..])
  }

  lemma {:induction false} CmdsAt(op: Op, base: u64, L: nat, S: seq<Seg>, k: nat)
    requires k < |S|
    ensures Cmds(op, base, L, S)[k] == SegCmd(op, base, L, S[k])
  {
    if k > 0 {
      CmdsAt(op, base, L, S[1..], k - 1);
    }
  }

  /** The commands a chunked transfer of range `r` issues when none fails. */
  function Plan(op: Op, r: LbaRange, geo: Geo): seq<Cmd>
    requires Chunkable(r, geo)
  {
    Cmds(op, r.slba, geo.lbaNbytes, Segments(r.slba, r.elba, MdtsNaddrs(geo)))
  }

  /** No segment starts before `start`. */
  lemma {:induction false} SegmentsFrom(start: u64, elba: u64, m: nat)
    requires 1 <= m <= Uint16Max && elba + m < U64
    ensures forall k :: 0 <= k < |Segments(start, elba, m)| ==> start <= Segments(start, elba, m)[k].slba
    decreases elba + 1 - start
  {
    if start <= elba {
      SegmentsFrom(start + m, elba, m);
    }
  }

  /** There is one segment for every `m` blocks from `start`. */
  lemma {:induction false} SegmentsCount(start: u64, elba: u64, m: nat)
    requires 1 <= m <= Uint16Max && elba + m < U64
    ensures |Segments(start, elba, m)| == if start > elba then 0 else (elba - start) / m + 1
    decreases elba + 1 - start
  {
    if start <= elba {
      SegmentsCount(start + m, elba, m);
      if start + m <= elba {
        DivStep(elba - start, m);
      } else {
        DivSmall(elba - start, m);
      }
    }
  }

  /** Segment `k` starts `k * m` blocks after `start` and moves at most `m` blocks, never past `elba`. */
  lemma {:induction false} SegmentsAt(start: u64, elba: u64, m: nat, k: nat)
    requires 1 <= m <= Uint16Max && elba + m < U64
    requires k < |Segments(start, elba, m)|
    ensures start + k * m <= elba
    ensures Segments(start, elba, m)[k] == Seg(start + k * m, Min(elba - (start + k * m), m - 1))
    decreases k
  {
    if k > 0 {
      SegmentsAt(start + m, elba, m, k - 1);
      MulSucc(k - 1, m);
    }
  }

  /** Every command fits the 16-bit NLB field and moves at most `m` blocks. */
  lemma SegmentsFitNlb(start: u64, elba: u64, m: nat, k: nat)
    requires 1 <= m <= Uint16Max && elba + m < U64
    requires k < |Segments(start, elba, m)|
    ensures Segments(start, elba, m)[k].nlb < m <= Uint16Max
  {
    SegmentsAt(start, elba, m, k);
  }

  /** Each segment starts on the block after the previous one's last. */
  lemma {:induction false} SegmentsContiguous(start: u64, elba: u64, m: nat, k: nat)
    requires 1 <= m <= Uint16Max && elba + m < U64
    requires k + 1 < |Segments(start, elba, m)|
    ensures var S := Segments(start, elba, m);
            S[k + 1].slba == S[k].slba + S[k].nlb + 1
    decreases k
  {
    if k > 0 {
      SegmentsContiguous(start + m, elba, m, k - 1);
    }
  }

  /** The last segment ends at `elba`. */
  lemma {:induction false} SegmentsEnd(start: u64, elba: u64, m: nat)
    requires 1 <= m <= Uint16Max && elba + m < U64 && start <= elba
    ensures var S := Segments(start, elba, m);
            |S| >= 1 && S[|S| - 1].slba + S[|S| - 1].nlb == elba
    decreases elba + 1 - start
  {
    if start + m <= elba {
      SegmentsEnd(start + m, elba, m);
    }
  }

  /**
   * The segments tile `[start, elba]`: the first starts at `start`, each
   * one starts on the block after the previous one's last, and the last
   * one ends at `elba`.
   */
  lemma SegmentsTile(start: u64, elba: u64, m: nat)
    requires 1 <= m <= Uint16Max && elba + m < U64 && start <= elba
    ensures var S := Segments(start, elba, m);
            && |S| >= 1 && S[0].slba == start
            && (forall k :: 0 <= k < |S| - 1 ==> S[k + 1].slba == S[k].slba + S[k].nlb + 1)
            && S[|S| - 1].slba + S[|S| - 1].nlb == elba
  {
    var S := Segments(start, elba, m);
    forall k | 0 <= k < |S| - 1
      ensures S[k + 1].slba == S[k].slba + S[k].nlb + 1
    {
      SegmentsContiguous(start, elba, m, k);
    }
    SegmentsEnd(start, elba, m);
  }

  /** Block `b` of `[start, elba]` is in segment `(b - start) / m`. */
  lemma {:induction false} SegmentsCover(start: u64, elba: u64, m: nat, b: int)
    requires 1 <= m <= Uint16Max && elba + m < U64 && start <= b <= elba
    ensures var S, k := Segments(start, elba, m), (b - start) / m;
            0 <= k < |S| && S[k].slba <= b <= S[k].slba + S[k].nlb
    decreases elba + 1 - start
  {
    if b < start + m {
      DivSmall(b - start, m);
    } else {
      SegmentsCover(start + m, elba, m, b);
      DivStep(b - start, m);
    }
  }

  /** A segment that holds block `b` is segment `(b - start) / m`: no block is moved twice. */
  lemma {:induction false} SegmentsDisjoint(start: u64, elba: u64, m: nat, b: int, j: nat)
    requires 1 <= m <= Uint16Max && elba + m < U64
    requires j < |Segments(start, elba, m)|
    requires Segments(start, elba, m)[j].slba <= b <= Segments(start, elba, m)[j].slba + Segments(start, elba, m)[j].nlb
    ensures start <= b && j == (b - start) / m
    decreases j
  {
    if j == 0 {
      DivSmall(b - start, m);
    } else {
      SegmentsFrom(start + m, elba, m);
      SegmentsDisjoint(start + m, elba, m, b, j - 1);
      DivStep(b - start, m);
    }
  }

  /** Command `k` of a plan carries the bytes of the blocks before it as its buffer offset. */
  lemma PlanOffset(op: Op, r: LbaRange, geo: Geo, k: nat)
    requires Chunkable(r, geo) && k < |Plan(op, r, geo)|
    ensures Plan(op, r, geo)[k].bufOffset
              == if op == WriteZeroes then 0 else (Plan(op, r, geo)[k].slba - r.slba) * geo.lbaNbytes
  {
    var S := Segments(r.slba, r.elba, MdtsNaddrs(geo));
    CmdsAt(op, r.slba, geo.lbaNbytes, S, k);
    SegmentsFrom(r.slba, r.elba, MdtsNaddrs(geo));
    assert r.slba <= S[k].slba;
    ScaledIsProduct(S[k].slba - r.slba, geo.lbaNbytes);
  }

  /**
   * A valid range needs FLA_CEIL_DIV(naddrs, m) commands, which tile it;
   * each command's buffer offset is `(slba - range.slba) * lba_nbytes`.
   */
  lemma PlanShape(op: Op, r: LbaRange, geo: Geo)
    requires Chunkable(r, geo) && WellFormed(r) && r.valid
    ensures |Plan(op, r, geo)| == CeilDiv(r.naddrs, MdtsNaddrs(geo))
    ensures forall k :: 0 <= k < |Plan(op, r, geo)| ==>
              Plan(op, r, geo)[k].bufOffset
                == if op == WriteZeroes then 0 else (Plan(op, r, geo)[k].slba - r.slba) * geo.lbaNbytes
  {
    PlanLength(op, r, geo);
    forall k | 0 <= k < |Plan(op, r, geo)| {
      PlanOffset(op, r, geo, k);
    }
  }

  /** The command count of a plan, as the ceiling division of its blocks. */
  lemma PlanLength(op: Op, r: LbaRange, geo: Geo)
    requires Chunkable(r, geo) && WellFormed(r) && r.valid
    ensures |Plan(op, r, geo)| == CeilDiv(r.naddrs, MdtsNaddrs(geo))
  {
    var m := MdtsNaddrs(geo);
    SegmentsCount(r.slba, r.elba, m);
    var d := r.elba - r.slba;
    var n := r.naddrs + m - 1;
    assert n == d + m < U64;
    assert CeilDiv(r.naddrs, m) == n / m;
    DivStep(n, m);
  }

  // ---------------------------------------------------------------------------
  // The loop and its result.

  /** What a transfer returns and the commands the device received. */
  datatype Transfer = Transfer(err: int, cmds: seq<Cmd>)

  /**
   * Sending the commands of `P` from index `k` on, one at a time, where the
   * device answers command `j` with `dev(j)`: the first failure ends the
   * transfer with that command's error.
   */
  function Send(P: seq<Cmd>, dev: nat -> Reply, k: nat): Transfer
    requires k <= |P|
    decreases |P| - k
  {
    if k == |P| then Transfer(0, P)
    else if Fails(dev(k)) then Transfer(ReplyErr(dev(k)), P[..k + 1])
    else Send(P, dev, k + 1)
  }

  /** Sending from `k`, after the commands before `k` succeeded. */
  lemma {:induction false} SendMeaning(P: seq<Cmd>, dev: nat -> Reply, k: nat)
    requires k <= |P|
    requires forall j :: 0 <= j < k ==> !Fails(dev(j))
    ensures var t := Send(P, dev, k);
            && t.cmds <= P
            && (t.err == 0 <==> t.cmds == P && forall j :: 0 <= j < |t.cmds| ==> !Fails(dev(j)))
            && (t.err != 0 ==>
                  && |t.cmds| >= 1 && Fails(dev(|t.cmds| - 1)) && t.err == ReplyErr(dev(|t.cmds| - 1))
                  && forall j :: 0 <= j < |t.cmds| - 1 ==> !Fails(dev(j)))
    decreases |P| - k
  {
    if k < |P| && !Fails(dev(k)) {
      SendMeaning(P, dev, k + 1);
    }
  }

  /** The chunked transfer's outcome: the plan, sent until a command fails. */
  function Expected(op: Op, r: LbaRange, geo: Geo, dev: nat -> Reply): Transfer
    requires Chunkable(r, geo)
  {
    Send(Plan(op, r, geo), dev, 0)
  }

  /**
   * The expected transfer sends a prefix of the plan; it succeeds exactly
   * when the whole plan is sent and every command succeeds; otherwise it
   * stops at the first failing command and returns that command's error.
   */
  lemma ExpectedMeaning(op: Op, r: LbaRange, geo: Geo, dev: nat -> Reply)
    requires Chunkable(r, geo)
    ensures var t := Expected(op, r, geo, dev);
            && t.cmds <= Plan(op, r, geo)
            && (t.err == 0 <==> t.cmds == Plan(op, r, geo) && forall j :: 0 <= j < |t.cmds| ==> !Fails(dev(j)))
            && (t.err != 0 ==>
                  && |t.cmds| >= 1 && Fails(dev(|t.cmds| - 1)) && t.err == ReplyErr(dev(|t.cmds| - 1))
                  && forall j :: 0 <= j < |t.cmds| - 1 ==> !Fails(dev(j)))
  {
    SendMeaning(Plan(op, r, geo), dev, 0);
  }

  /** A step of `m` blocks that fits the command's 16-bit count and cannot carry a block number past 2^64. */
  predicate Stepping(elba: u64, m: nat) {
    1 <= m <= Uint16Max && elba + m < U64
  }

  /**
   * One round of the chunked loop: the command for the segment at `slba` is
   * the next one of `P`, the rest of `P` are the segments from `slba + m`,
   * and the buffer offset moves past the segment's bytes.
   */
  lemma LoopStep(op: Op, base: u64, elba: u64, m: nat, L: u32, P: seq<Cmd>, cmds: seq<Cmd>, slba: u64, buf: nat)
    requires Stepping(elba, m) && m * L < U32 && base <= slba <= elba
    requires cmds + Cmds(op, base, L, Segments(slba, elba, m)) == P
    requires buf == if op == WriteZeroes then 0 else Scaled(slba - base, L)
    ensures var nlb := Min(elba - slba, m - 1);
            var cmds' := cmds + [Cmd(op, slba, nlb, buf)];
            var buf' := if op == WriteZeroes then buf else buf + Mul32(nlb + 1, L);
            && slba + m < U64 && Add64(slba, m) == slba + m
            && |cmds| < |P| && cmds' == P[..|cmds'|]
            && cmds' + Cmds(op, base, L, Segments(slba + m, elba, m)) == P
            && (slba + m <= elba ==> buf' == if op == WriteZeroes then 0 else Scaled(slba + m - base, L))
  {
    var nlb := Min(elba - slba, m - 1);
    var c := Cmd(op, slba, nlb, buf);
    var rest := Cmds(op, base, L, Segments(slba + m, elba, m));
    assert Cmds(op, base, L, Segments(slba, elba, m)) == [c] + rest;
    assert (cmds + [c]) + rest == cmds + ([c] + rest);
    if op != WriteZeroes {
      MulMono(nlb + 1, m, L);
      MulDistrib(slba - base, m, L);
      ScaledIsProduct(slba - base, L);
      ScaledIsProduct(slba + m - base, L);
    }
  }

  /**
   * The loop of the chunked transfers run from a state: the next block
   * `slba`, the buffer offset `buf` and the commands sent so far.
   */
  ghost function RunFrom(op: Op, base: u64, elba: u64, m: nat, L: u32, dev: nat -> Reply, slba: u64, buf: nat, cmds: seq<Cmd>): Transfer
    requires Stepping(elba, m)
    decreases elba + 1 - slba
  {
    if slba > elba then Transfer(0, cmds)
    else
      var nlb := Min(elba - slba, m - 1);
      var cmds' := cmds + [Cmd(op, slba, nlb, buf)];
      var rep := dev(|cmds'| - 1);
      if Fails(rep) then Transfer(ReplyErr(rep), cmds')
      else RunFrom(op, base, elba, m, L, dev, Add64(slba, m), if op == WriteZeroes then buf else buf + Mul32(nlb + 1, L), cmds')
  }

  /** One round of RunFrom: send the next command, then stop or go on. */
  lemma RunStep(op: Op, base: u64, elba: u64, m: nat, L: u32, dev: nat -> Reply, slba: u64, buf: nat, cmds: seq<Cmd>)
    requires Stepping(elba, m) && slba <= elba
    ensures var nlb := Min(elba - slba, m - 1);
            var cmds' := cmds + [Cmd(op, slba, nlb, buf)];
            var buf' := if op == WriteZeroes then buf else buf + Mul32(nlb + 1, L);
            RunFrom(op, base, elba, m, L, dev, slba, buf, cmds)
              == if Fails(dev(|cmds|)) then Transfer(ReplyErr(dev(|cmds|)), cmds')
                 else RunFrom(op, base, elba, m, L, dev, Add64(slba, m), buf', cmds')
  {
  }

  /** One round of Send. */
  lemma SendStep(P: seq<Cmd>, dev: nat -> Reply, k: nat)
    requires k < |P|
    ensures Send(P, dev, k)
              == if Fails(dev(k)) then Transfer(ReplyErr(dev(k)), P[..k + 1]) else Send(P, dev, k + 1)
  {
  }

  /** From any state on the plan `P`, the loop sends the rest of `P`. */
  lemma {:induction false} RunFromSends(op: Op, base: u64, elba: u64, m: nat, L: u32, P: seq<Cmd>, dev: nat -> Reply, slba: u64, buf: nat, cmds: seq<Cmd>)
    requires Stepping(elba, m) && m * L < U32 && base <= slba
    requires cmds + Cmds(op, base, L, Segments(slba, elba, m)) == P
    requires slba <= elba ==> buf == if op == WriteZeroes then 0 else Scaled(slba - base, L)
    ensures |cmds| <= |P|
    ensures RunFrom(op, base, elba, m, L, dev, slba, buf, cmds) == Send(P, dev, |cmds|)
    decreases elba + 1 - slba
  {
    if slba > elba {
      assert cmds == P;
    } else {
      var nlb := Min(elba - slba, m - 1);
      var cmds' := cmds + [Cmd(op, slba, nlb, buf)];
      var buf' := if op == WriteZeroes then buf else buf + Mul32(nlb + 1, L);
      LoopStep(op, base, elba, m, L, P, cmds, slba, buf);
      RunStep(op, base, elba, m, L, dev, slba, buf, cmds);
      SendStep(P, dev, |cmds|);
      if !Fails(dev(|cmds|)) {
        RunFromSends(op, base, elba, m, L, P, dev, Add64(slba, m), buf', cmds');
      }
    }
  }

  /**
   * fla_xne_sync_seq_w, fla_xne_sync_seq_r and fla_xne_write_zeroes (they
   * differ only in the command): one command per `mdts_naddrs` blocks of
   * `[slba, elba]`, stopping at the first that fails.
   */
  method SyncSeq(op: Op, r: LbaRange, geo: Geo, dev: nat -> Reply) returns (err: int, cmds: seq<Cmd>)
    requires Chunkable(r, geo)
    ensures Transfer(err, cmds) == Expected(op, r, geo, dev)
  {
    var m := MdtsNaddrs(geo);
    var L := geo.lbaNbytes;
    ghost var outcome := RunFrom(op, r.slba, r.elba, m, L, dev, r.slba, 0, []);
    err, cmds := 0, [];
    var buf: nat := 0;
    var slba: u64 := r.slba;
    assert Stepping(r.elba, m);
    while slba <= r.elba
      invariant err == 0
      invariant Stepping(r.elba, m) && r.slba <= slba
      invariant RunFrom(op, r.slba, r.elba, m, L, dev, slba, buf, cmds) == outcome
      decreases r.elba + 1 - slba
    {
      RunStep(op, r.slba, r.elba, m, L, dev, slba, buf, cmds);
      var nlb: u32 := Min(r.elba - slba, m - 1);
      ghost var (slba0, buf0, cmds0) := (slba, buf, cmds);
      cmds := cmds + [Cmd(op, slba, nlb, buf)];
      var rep := dev(|cmds| - 1);
      assert rep == dev(|cmds0|);
      if Fails(rep) {
        err := ReplyErr(rep);
        break;
      }
      if op != WriteZeroes {
        buf := buf + Mul32(nlb + 1, L);
      }
      slba := Add64(slba, m);
      assert RunFrom(op, r.slba, r.elba, m, L, dev, slba0, buf0, cmds0) == RunFrom(op, r.slba, r.elba, m, L, dev, slba, buf, cmds);
    }
    assert Transfer(err, cmds) == outcome;
    RunIsExpected(op, r, geo, dev);
  }

  /** The loop started on the whole range yields the expected transfer. */
  lemma RunIsExpected(op: Op, r: LbaRange, geo: Geo, dev: nat -> Reply)
    requires Chunkable(r, geo)
    ensures RunFrom(op, r.slba, r.elba, MdtsNaddrs(geo), geo.lbaNbytes, dev, r.slba, 0, []) == Expected(op, r, geo, dev)
  {
    RunFromSends(op, r.slba, r.elba, MdtsNaddrs(geo), geo.lbaNbytes, Plan(op, r, geo), dev, r.slba, 0, []);
  }

  /** fla_xne_sync_seq_w: the chunked write of `r`. */
  method SyncSeqW(r: LbaRange, geo: Geo, dev: nat -> Reply) returns (err: int, cmds: seq<Cmd>)
    requires Chunkable(r, geo)
    ensures Transfer(err, cmds) == Expected(Write, r, geo, dev)
    ensures forall k :: 0 <= k < |cmds| ==> cmds[k].op == Write
  {
    err, cmds := SyncSeq(Write, r, geo, dev);
    ExpectedOps(Write, r, geo, dev);
  }

  /** fla_xne_sync_seq_r: the chunked read of `r`. */
  method SyncSeqR(r: LbaRange, geo: Geo, dev: nat -> Reply) returns (err: int, cmds: seq<Cmd>)
    requires Chunkable(r, geo)
    ensures Transfer(err, cmds) == Expected(Read, r, geo, dev)
    ensures forall k :: 0 <= k < |cmds| ==> cmds[k].op == Read
  {
    err, cmds := SyncSeq(Read, r, geo, dev);
    ExpectedOps(Read, r, geo, dev);
  }

  /** fla_xne_write_zeroes: the chunked Write Zeroes of `r`, which moves no buffer. */
  method SyncWriteZeroes(r: LbaRange, geo: Geo, dev: nat -> Reply) returns (err: int, cmds: seq<Cmd>)
    requires Chunkable(r, geo)
    ensures Transfer(err, cmds) == Expected(WriteZeroes, r, geo, dev)
    ensures forall k :: 0 <= k < |cmds| ==> cmds[k].op == WriteZeroes && cmds[k].bufOffset == 0
  {
    err, cmds := SyncSeq(WriteZeroes, r, geo, dev);
    ExpectedOps(WriteZeroes, r, geo, dev);
  }

  /** Every command of a transfer carries its opcode, and Write Zeroes no buffer offset. */
  lemma ExpectedOps(op: Op, r: LbaRange, geo: Geo, dev: nat -> Reply)
    requires Chunkable(r, geo)
    ensures var t := Expected(op, r, geo, dev);
            forall k :: 0 <= k < |t.cmds| ==> t.cmds[k].op == op && (op == WriteZeroes ==> t.cmds[k].bufOffset == 0)
  {
    ExpectedMeaning(op, r, geo, dev);
    var S := Segments(r.slba, r.elba, MdtsNaddrs(geo));
    var P := Plan(op, r, geo);
    forall k | 0 <= k < |Expected(op, r, geo, dev).cmds|
      ensures P[k].op == op && (op == WriteZeroes ==> P[k].bufOffset == 0)
    {
      CmdsAt(op, r.slba, geo.lbaNbytes, S, k);
    }
  }

  // ---------------------------------------------------------------------------
  // The range-checking wrappers. The xNVMe helper that turns the caller's
  // block or byte range into an `LbaRange` is a parameter.

  /** fla_xne_sync_seq_w_naddrs: an invalid range fails with 1 before any command. */
  method SyncSeqWNaddrs(slba: u64, naddrs: u64, fromNaddrs: (u64, u64) -> LbaRange, geo: Geo, dev: nat -> Reply)
    returns (err: int, cmds: seq<Cmd>)
    requires fromNaddrs(slba, naddrs).valid ==> Chunkable(fromNaddrs(slba, naddrs), geo)
    ensures var r := fromNaddrs(slba, naddrs);
            && (!r.valid ==> err == 1 && cmds == [])
            && (r.valid ==> Transfer(err, cmds) == Expected(Write, r, geo, dev))
  {
    var r := fromNaddrs(slba, naddrs);
    cmds := [];
    err := ErrFl(BoolToInt(!r.valid));
    if err != 0 {
      return;
    }
    err, cmds := SyncSeqW(r, geo, dev);
  }

  /** fla_xne_sync_seq_w_nbytes: the byte range is converted to blocks first. */
  method SyncSeqWNbytes(offset: u64, nbytes: u64, fromNbytes: (u64, u64) -> LbaRange, geo: Geo, dev: nat -> Reply)
    returns (err: int, cmds: seq<Cmd>)
    requires fromNbytes(offset, nbytes).valid ==> Chunkable(fromNbytes(offset, nbytes), geo)
    ensures var r := fromNbytes(offset, nbytes);
            && (!r.valid ==> err == 1 && cmds == [])
            && (r.valid ==> Transfer(err, cmds) == Expected(Write, r, geo, dev))
  {
    var r := fromNbytes(offset, nbytes);
    cmds := [];
    err := ErrFl(BoolToInt(!r.valid));
    if err != 0 {
      return;
    }
    err, cmds := SyncSeqW(r, geo, dev);
  }

  /** fla_xne_sync_seq_r_naddrs. */
  method SyncSeqRNaddrs(slba: u64, naddrs: u64, fromNaddrs: (u64, u64) -> LbaRange, geo: Geo, dev: nat -> Reply)
    returns (err: int, cmds: seq<Cmd>)
    requires fromNaddrs(slba, naddrs).valid ==> Chunkable(fromNaddrs(slba, naddrs), geo)
    ensures var r := fromNaddrs(slba, naddrs);
            && (!r.valid ==> err == 1 && cmds == [])
            && (r.valid ==> Transfer(err, cmds) == Expected(Read, r, geo, dev))
  {
    var r := fromNaddrs(slba, naddrs);
    cmds := [];
    err := ErrFl(BoolToInt(!r.valid));
    if err != 0 {
      return;
    }
    err, cmds := SyncSeqR(r, geo, dev);
  }

  /** fla_xne_sync_seq_r_nbytes. */
  method SyncSeqRNbytes(offset: u64, nbytes: u64, fromNbytes: (u64, u64) -> LbaRange, geo: Geo, dev: nat -> Reply)
    returns (err: int, cmds: seq<Cmd>)
    requires fromNbytes(offset, nbytes).valid ==> Chunkable(fromNbytes(offset, nbytes), geo)
    ensures var r := fromNbytes(offset, nbytes);
            && (!r.valid ==> err == 1 && cmds == [])
            && (r.valid ==> Transfer(err, cmds) == Expected(Read, r, geo, dev))
  {
    var r := fromNbytes(offset, nbytes);
    cmds := [];
    err := ErrFl(BoolToInt(!r.valid));
    if err != 0 {
      return;
    }
    err, cmds := SyncSeqR(r, geo, dev);
  }
}
