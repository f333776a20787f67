/**
 * The commands a member of the striped engine submits when none of its
 * submissions is refused: one read or write per piece of the member, with
 * the block address advancing by the blocks just moved, as
 * fla_async_strp_cb does.
 */
module StripePlan {
  import opened Util
  import opened Arith
  import opened StripeTranslate
  import opened StripeLayout

  /**
   * One NVMe read or write of the engine: submitting member, direction,
   * first device block, zero-based block count and offset in the caller's
   * buffer.
   */
  datatype IoCmd = IoCmd(member: nat, write: bool, slba: u64, nlb: u16, bufOffset: u64)

  /** The buffer bytes a command moves. */
  function CmdExtent(sp: StripeParams, c: IoCmd): Extent {
    Extent(c.bufOffset, (c.nlb + 1) * sp.lbaNbytes)
  }

  /** The block at which the first member begins on the device. */
  function ObjStartLba(sp: StripeParams): u64
    requires Divisors(sp)
  {
    DivLe(sp.objStartNbytes, sp.lbaNbytes);
    sp.objStartNbytes / sp.lbaNbytes
  }

  /**
   * The device block of buffer offset `sbuf`: calc_strp_obj_slba of its
   * byte in the striped space, plus the block at which the first member
   * begins.
   */
  function SbufSlba(sp: StripeParams, sbuf: u64): u64
    requires Divisors(sp)
  {
    Add64(StrpObjSlba(Add64(sbuf, sp.xferSnbytes), sp), ObjStartLba(sp))
  }

  /** The first device block of member `i`, at the start of its first piece. */
  function FirstSlba(sp: StripeParams, i: nat): u64
    requires Aligned(sp) && IsPiece(sp, i)
  {
    SbufSlba(sp, PieceStart(sp, i))
  }

  /** Member `i`'s commands from piece `p` on, the first one at block `slba`. */
  function MemberCmds(sp: StripeParams, i: nat, p: nat, slba: u64): (r: seq<IoCmd>)
    requires Aligned(sp) && IsPiece(sp, p)
    ensures |r| >= 1
    decreases sp.xferNbytes - PieceStart(sp, p)
  {
    PieceNlbsFits(sp, p);
    StartMonotone(sp, p, p + sp.nobjs);
    var n := PieceNlbs(sp, p);
    [IoCmd(i, sp.write, slba, n, PieceStart(sp, p))]
      + if IsPiece(sp, p + sp.nobjs) then MemberCmds(sp, i, p + sp.nobjs, Add64(slba, n + 1)) else []
  }

  /** Everything member `i` submits when none of its submissions is refused. */
  function Plan(sp: StripeParams, i: nat): seq<IoCmd>
    requires Aligned(sp) && IsPiece(sp, i)
  {
    MemberCmds(sp, i, i, FirstSlba(sp, i))
  }

  lemma MemberCmdsUnfold(sp: StripeParams, i: nat, p: nat, slba: u64)
    requires Aligned(sp) && IsPiece(sp, p)
    ensures 0 <= PieceNlbs(sp, p) < U16
    ensures var r, n := MemberCmds(sp, i, p, slba), PieceNlbs(sp, p);
            && r[0] == IoCmd(i, sp.write, slba, n, PieceStart(sp, p))
            && (IsPiece(sp, p + sp.nobjs) ==> r[1..] == MemberCmds(sp, i, p + sp.nobjs, Add64(slba, n + 1)))
            && (!IsPiece(sp, p + sp.nobjs) ==> |r| == 1)
  {
    PieceNlbsFits(sp, p);
  }

  /** Member `i` has a command `k` from piece `p` exactly when piece `p + W * k` exists. */
  lemma {:induction false} MemberCmdsLength(sp: StripeParams, i: nat, p: nat, slba: u64, k: nat)
    requires Aligned(sp) && IsPiece(sp, p)
    ensures k < |MemberCmds(sp, i, p, slba)| <==> IsPiece(sp, p + sp.nobjs * k)
    decreases k
  {
    var W := sp.nobjs;
    MemberCmdsUnfold(sp, i, p, slba);
    if k == 0 {
      assert p + W * k == p;
    } else {
      var q, e := p + W, W * k;
      MulSucc(k - 1, W);
      assert p + e == q + W * (k - 1);
      if IsPiece(sp, q) {
        var rest := MemberCmds(sp, i, q, Add64(slba, PieceNlbs(sp, p) + 1));
        assert |MemberCmds(sp, i, p, slba)| == 1 + |rest|;
        MemberCmdsLength(sp, i, q, Add64(slba, PieceNlbs(sp, p) + 1), k - 1);
      } else {
        MulAtLeast(W, k);
        StartMonotone(sp, q, p + e);
        assert !IsPiece(sp, p + e);
      }
    }
  }

  /**
   * Command `k` of member `i` from piece `p` moves piece `p + W * k` with
   * that piece's block count.
   */
  lemma {:induction false} MemberCmdsAt(sp: StripeParams, i: nat, p: nat, slba: u64, k: nat)
    requires Aligned(sp) && IsPiece(sp, p) && k < |MemberCmds(sp, i, p, slba)|
    ensures IsPiece(sp, p + sp.nobjs * k)
    ensures var c := MemberCmds(sp, i, p, slba)[k];
            && c.member == i && c.write == sp.write
            && c.bufOffset == PieceStart(sp, p + sp.nobjs * k)
            && c.nlb == PieceNlbs(sp, p + sp.nobjs * k)
    decreases k
  {
    var W := sp.nobjs;
    MemberCmdsUnfold(sp, i, p, slba);
    if k > 0 {
      assert p + W * k == (p + W) + W * (k - 1);
      var slba' := Add64(slba, PieceNlbs(sp, p) + 1);
      MemberCmdsAt(sp, i, p + W, slba', k - 1);
    }
  }

  /** Each command of a member starts on the block after the previous one's last. */
  lemma {:induction false} MemberCmdsContiguous(sp: StripeParams, i: nat, p: nat, slba: u64, k: nat)
    requires Aligned(sp) && IsPiece(sp, p) && k + 1 < |MemberCmds(sp, i, p, slba)|
    ensures var r := MemberCmds(sp, i, p, slba);
            r[k + 1].slba == Add64(r[k].slba, r[k].nlb + 1)
    decreases k
  {
    var W := sp.nobjs;
    MemberCmdsUnfold(sp, i, p, slba);
    var slba' := Add64(slba, PieceNlbs(sp, p) + 1);
    if k > 0 {
      MemberCmdsContiguous(sp, i, p + W, slba', k - 1);
    } else {
      MemberCmdsUnfold(sp, i, p + W, slba');
    }
  }

  /**
   * The plan of member `i` moves exactly the pieces `i, i + W, i + 2W, ...`
   * of StripeLayout, in that order.
   */
  lemma PlanMovesPieces(sp: StripeParams, i: nat, k: nat)
    requires Aligned(sp) && IsPiece(sp, i)
    ensures k < |Plan(sp, i)| <==> k < |PiecesFrom(sp, i)|
    ensures k < |Plan(sp, i)| ==> CmdExtent(sp, Plan(sp, i)[k]) == PiecesFrom(sp, i)[k]
  {
    MemberCmdsLength(sp, i, i, FirstSlba(sp, i), k);
    PiecesFromAt(sp, i, k);
    MulNonneg(sp.nobjs, k);
    if k < |Plan(sp, i)| {
      MemberCmdsAt(sp, i, i, FirstSlba(sp, i), k);
      PieceNlbsFits(sp, i + sp.nobjs * k);
    }
  }

  /**
   * Every piece of the transfer is in the plan of its owner, at position
   * Round(p), and in no other position of any member's plan.
   */
  lemma PlanCoversPiece(sp: StripeParams, p: nat)
    requires Aligned(sp) && IsPiece(sp, p)
    ensures IsPiece(sp, Owner(sp, p)) && Round(sp, p) < |Plan(sp, Owner(sp, p))|
    ensures CmdExtent(sp, Plan(sp, Owner(sp, p))[Round(sp, p)]) == Piece(sp, p)
  {
    StripeCoverage(sp, p);
    PlanMovesPieces(sp, Owner(sp, p), Round(sp, p));
  }

  lemma PlanPieceUnique(sp: StripeParams, p: nat, i: nat, k: nat)
    requires Aligned(sp) && IsPiece(sp, p) && i < sp.nobjs && IsPiece(sp, i)
    requires k < |Plan(sp, i)| && Plan(sp, i)[k].bufOffset == PieceStart(sp, p)
    ensures i == Owner(sp, p) && k == Round(sp, p)
  {
    PlanMovesPieces(sp, i, k);
    PiecesFromAt(sp, i, k);
    var q := i + sp.nobjs * k;
    MulNonneg(sp.nobjs, k);
    PiecesTile(sp, p);
    PiecesTile(sp, q);
    if q < p {
      StartMonotone(sp, q, p);
    } else if q > p {
      StartMonotone(sp, p, q);
    }
    PieceOwnerUnique(sp, p, i, k);
  }

  /**
   * The callback agrees with the plan: after command `s - 1` of member `i`
   * completes, the cursor, block count and block address it computes are
   * those of command `s`, or the cursor is past the transfer when the plan
   * has no command `s`.
   */
  lemma PlanStep(sp: StripeParams, i: nat, s: nat)
    requires Sane(sp) && IsPiece(sp, i) && 1 <= s <= |Plan(sp, i)|
    ensures var P, c := Plan(sp, i), Plan(sp, i)[s - 1];
            var next := NextSbufNbytes(c.bufOffset, c.nlb, sp);
            && (s < |P| ==> next == P[s].bufOffset && NextNlbs(next, sp) == P[s].nlb
                            && P[s].slba == Add64(c.slba, c.nlb + 1))
            && (s == |P| ==> next >= sp.xferNbytes)
  {
    var W := sp.nobjs;
    var slba := FirstSlba(sp, i);
    MemberCmdsAt(sp, i, i, slba, s - 1);
    MemberCmdsLength(sp, i, i, slba, s);
    MulNonneg(W, s - 1);
    var q := i + W * (s - 1);
    assert i + W * s == q + W;
    NextCursorIsNextPiece(sp, q);
    if s < |Plan(sp, i)| {
      MemberCmdsAt(sp, i, i, slba, s);
      MemberCmdsContiguous(sp, i, i, slba, s - 1);
      NextNlbsAtPiece(sp, q + W);
    }
  }

  // ---------------------------------------------------------------------------
  // The block addresses follow the round-robin translation.

  /**
   * The layout calc_strp_obj_slba presumes: the striped object is `nobjs`
   * members of `faobjNlbs` blocks side by side, a chunk fits in one member,
   * and translating any byte of the transfer does not wrap around 2^64.
   */
  ghost predicate RoundRobinGeometry(sp: StripeParams) {
    var B := sp.faobjNlbs * sp.lbaNbytes;
    && Divisors(sp) && sp.nobjs >= 1
    && B < U64
    && sp.objTnbytes == sp.nobjs * B
    && sp.chunkNbytes <= B
    && ((sp.xferSnbytes + sp.xferNbytes) / sp.chunkNbytes) * B + sp.chunkNbytes <= U64
  }

  /** A shift that does not wrap commutes with a wrapping addition. */
  lemma Add64Shift(a: u64, b: u64, n: nat)
    requires a + n < U64
    ensures Add64(Add64(a, b), n) == Add64(a + n, b)
  {
  }

  /** No byte of the transfer is translated past the 64-bit space. */
  lemma RoundRobinBound(sp: StripeParams, g: nat)
    requires RoundRobinGeometry(sp) && g <= sp.xferSnbytes + sp.xferNbytes
    ensures (g / sp.chunkNbytes) * (sp.faobjNlbs * sp.lbaNbytes) + sp.chunkNbytes <= U64
  {
    var B := sp.faobjNlbs * sp.lbaNbytes;
    DivMono(g, sp.xferSnbytes + sp.xferNbytes, sp.chunkNbytes);
    MulMono(g / sp.chunkNbytes, (sp.xferSnbytes + sp.xferNbytes) / sp.chunkNbytes, B);
  }

  /** A piece followed by another is whole: it runs to the next one's start. */
  lemma PieceWhole(sp: StripeParams, p: nat)
    requires Aligned(sp) && IsPiece(sp, p + 1)
    ensures IsPiece(sp, p) && 0 <= PieceNlbs(sp, p)
    ensures (PieceNlbs(sp, p) + 1) * sp.lbaNbytes == PieceStart(sp, p + 1) - PieceStart(sp, p)
  {
    StartStep(sp, p);
    PiecesTile(sp, p);
    PieceNlbsFits(sp, p);
  }

  /** The striped byte at which piece `p + k` starts, `k` pieces after a chunk-aligned piece `p`. */
  lemma ChunkAhead(sp: StripeParams, p: nat, k: nat)
    requires Divisors(sp) && p >= 1
    ensures var C, S := sp.chunkNbytes, sp.xferSnbytes;
            PieceStart(sp, p + k) + S == ((PieceStart(sp, p) + S) / C + k) * C
  {
    var C, S := sp.chunkNbytes, sp.xferSnbytes;
    var g := PieceStart(sp, p) + S;
    StartChunkAligned(sp, p);
    StartAhead(sp, p, k);
    assert g == (g / C) * C;
    MulDistrib(g / C, k, C);
  }

  /**
   * The member's next piece `p + W` starts on the chunk `W` chunks after
   * the one piece `p` lies in, and piece `p` runs to its chunk's end.
   */
  lemma PieceChunkStep(sp: StripeParams, p: nat)
    requires Aligned(sp) && IsPiece(sp, p + sp.nobjs)
    ensures IsPiece(sp, p) && 0 <= PieceNlbs(sp, p)
    ensures var C, S := sp.chunkNbytes, sp.xferSnbytes;
            var g, g' := PieceStart(sp, p) + S, PieceStart(sp, p + sp.nobjs) + S;
            && g <= g' <= S + sp.xferNbytes
            && g' == (g / C + sp.nobjs) * C
            && g % C + (PieceNlbs(sp, p) + 1) * sp.lbaNbytes == C
  {
    var W, C, S := sp.nobjs, sp.chunkNbytes, sp.xferSnbytes;
    StartMonotone(sp, p + 1, p + W);
    StartMonotone(sp, p, p + W);
    PieceWhole(sp, p);
    if p == 0 {
      FirstChunkStep(sp);
    } else {
      ChunkAhead(sp, p, W);
      StartChunkAligned(sp, p);
      StartStep(sp, p);
    }
  }

  /** The first piece runs from the transfer start to its chunk's end; piece `W` starts `W` chunks on. */
  lemma FirstChunkStep(sp: StripeParams)
    requires Divisors(sp) && sp.nobjs >= 1
    ensures var C, S := sp.chunkNbytes, sp.xferSnbytes;
            && PieceStart(sp, sp.nobjs) + S == (S / C + sp.nobjs) * C
            && S % C + PieceStart(sp, 1) == C
  {
    var W: int, C: int, S: int := sp.nobjs, sp.chunkNbytes, sp.xferSnbytes;
    var c := S / C;
    assert PieceStart(sp, 1) + S == (c + 1) * C;
    DivModUnique(PieceStart(sp, 1) + S, C, c + 1, 0);
    ChunkAhead(sp, 1, W - 1);
    assert 1 + (W - 1) == W;
  }

  /**
   * From piece `p` to the member's next piece `p + W` the translated block
   * address grows by exactly the blocks of piece `p`.
   */
  lemma ObjSlbaStep(sp: StripeParams, p: nat)
    requires Aligned(sp) && RoundRobinGeometry(sp) && IsPiece(sp, p + sp.nobjs)
    ensures IsPiece(sp, p) && PieceStart(sp, p + sp.nobjs) + sp.xferSnbytes < U64
    ensures StrpObjSlba(PieceStart(sp, p + sp.nobjs) + sp.xferSnbytes, sp)
         == StrpObjSlba(PieceStart(sp, p) + sp.xferSnbytes, sp) + PieceNlbs(sp, p) + 1
  {
    var g, g' := PieceStart(sp, p) + sp.xferSnbytes, PieceStart(sp, p + sp.nobjs) + sp.xferSnbytes;
    PieceChunkStep(sp, p);
    RoundRobinBound(sp, g');
    ObjSlbaAdvance(g, g', sp, sp.faobjNlbs * sp.lbaNbytes, PieceNlbs(sp, p) + 1);
  }

  /** Where the translation grows by `n` blocks, so does the device block. */
  lemma SbufSlbaShift(sp: StripeParams, a: u64, b: u64, n: nat)
    requires Divisors(sp) && a + sp.xferSnbytes < U64 && b + sp.xferSnbytes < U64
    requires StrpObjSlba(b + sp.xferSnbytes, sp) == StrpObjSlba(a + sp.xferSnbytes, sp) + n
    ensures n < U64 && Add64(SbufSlba(sp, a), n) == SbufSlba(sp, b)
  {
    var d := StrpObjSlba(a + sp.xferSnbytes, sp);
    assert SbufSlba(sp, a) == Add64(d, ObjStartLba(sp));
    assert SbufSlba(sp, b) == Add64(d + n, ObjStartLba(sp));
    Add64Shift(d, ObjStartLba(sp), n);
  }

  lemma FirstSlbaStep(sp: StripeParams, p: nat)
    requires Aligned(sp) && RoundRobinGeometry(sp) && IsPiece(sp, p + sp.nobjs)
    ensures IsPiece(sp, p) && 0 <= PieceNlbs(sp, p) < U16
    ensures Add64(FirstSlba(sp, p), PieceNlbs(sp, p) + 1) == FirstSlba(sp, p + sp.nobjs)
  {
    ObjSlbaStep(sp, p);
    PieceNlbsFits(sp, p);
    SbufSlbaShift(sp, PieceStart(sp, p), PieceStart(sp, p + sp.nobjs), PieceNlbs(sp, p) + 1);
  }

  /**
   * From one command of member `i` to the next, the translation of the
   * buffer offset grows by exactly the blocks the first command moves, as
   * the callback's block address does.
   */
  lemma PlanSlbaStep(sp: StripeParams, i: nat, k: nat)
    requires Aligned(sp) && RoundRobinGeometry(sp) && IsPiece(sp, i) && k + 1 < |Plan(sp, i)|
    ensures var P := Plan(sp, i);
            && P[k + 1].slba == Add64(P[k].slba, P[k].nlb + 1)
            && SbufSlba(sp, P[k + 1].bufOffset) == Add64(SbufSlba(sp, P[k].bufOffset), P[k].nlb + 1)
  {
    var W := sp.nobjs;
    MulNonneg(W, k);
    var q := i + W * k;
    assert q + W == i + W * (k + 1);
    MemberCmdsAt(sp, i, i, FirstSlba(sp, i), k);
    MemberCmdsAt(sp, i, i, FirstSlba(sp, i), k + 1);
    MemberCmdsContiguous(sp, i, i, FirstSlba(sp, i), k);
    FirstSlbaStep(sp, q);
  }

  /**
   * The block address the callback carries forward never drifts from the
   * translation: every command of member `i` is addressed at
   * calc_strp_obj_slba of the striped byte its buffer offset stands for,
   * plus the first member's start, as the initial loop addresses a
   * member's first command.
   */
  lemma {:induction false} PlanSlbaRoundRobin(sp: StripeParams, i: nat, k: nat)
    requires Aligned(sp) && RoundRobinGeometry(sp) && IsPiece(sp, i) && k < |Plan(sp, i)|
    ensures Plan(sp, i)[k].slba == SbufSlba(sp, Plan(sp, i)[k].bufOffset)
    decreases k
  {
    if k == 0 {
      MemberCmdsUnfold(sp, i, i, FirstSlba(sp, i));
    } else {
      PlanSlbaRoundRobin(sp, i, k - 1);
      PlanSlbaStep(sp, i, k - 1);
    }
  }

  /**
   * The striped byte at buffer offset `sbuf`, in chunk `c`, lies in member
   * `c % W`, in that member's chunk `c / W`.
   */
  lemma SbufSlbaRoundRobin(sp: StripeParams, sbuf: u64)
    requires Aligned(sp) && RoundRobinGeometry(sp) && sbuf < sp.xferNbytes
    ensures var g := sbuf + sp.xferSnbytes;
            var c, W, C, B := g / sp.chunkNbytes, sp.nobjs, sp.chunkNbytes, sp.faobjNlbs * sp.lbaNbytes;
            && g < U64
            && StrpObjSlba(g, sp) == ((c % W) * B + (c / W) * C + g % C) / sp.lbaNbytes
            && SbufSlba(sp, sbuf) == Add64(StrpObjSlba(g, sp), ObjStartLba(sp))
  {
    var g := sbuf + sp.xferSnbytes;
    RoundRobinBound(sp, g);
    ObjSlbaRoundRobin(g, sp, sp.faobjNlbs * sp.lbaNbytes);
  }

  /** The member's first command as the initial submission loop builds it is the plan's first. */
  lemma PlanFirst(sp: StripeParams, i: nat)
    requires Aligned(sp) && IsPiece(sp, i)
    ensures PieceStart(sp, i) + sp.xferSnbytes < U64
    ensures var g := Add64(PieceStart(sp, i), sp.xferSnbytes);
            Plan(sp, i)[0] == IoCmd(i, sp.write, FirstSlba(sp, i), FirstNlbsIntended(PieceStart(sp, i), g, sp), PieceStart(sp, i))
  {
    FirstNlbsIntendedAtPiece(sp, i);
    MemberCmdsUnfold(sp, i, i, FirstSlba(sp, i));
  }

  // ---------------------------------------------------------------------------
  // The device's view: commands of one member in submission order.

  /** The commands of `cmds` that member `m` submitted, in order. */
  function OfMember(cmds: seq<IoCmd>, m: nat): (r: seq<IoCmd>)
    ensures |r| <= |cmds|
  {
    if cmds == [] then []
    else
      var last := cmds[|cmds| - 1];
      OfMember(cmds[..|cmds| - 1], m) + if last.member == m then [last] else []
  }

  lemma OfMemberAppend(cmds: seq<IoCmd>, c: IoCmd)
    ensures forall m: nat {:trigger OfMember(cmds + [c], m)} ::
              OfMember(cmds + [c], m) == OfMember(cmds, m) + if c.member == m then [c] else []
  {
    assert (cmds + [c])[..|cmds|] == cmds;
  }
}
