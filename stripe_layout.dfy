/**
 * What the striped engine of flexalloc_xnvme_env.c does to the caller's
 * buffer, stated as pure functions.
 *
 * The buffer holds the transfer in the order of the striped byte space. Cut
 * at the chunk boundaries of that space, it falls into pieces: piece 0 runs
 * from the transfer start to the end of its chunk, every later piece is one
 * whole chunk, the last may stop short at `xferNbytes`. Member `i` of the
 * engine begins with piece `i` and, through the callback's cursor arithmetic,
 * goes on with pieces `i + W`, `i + 2W`, ... (W the stripe width).
 */
module StripeLayout {
  import opened Util
  import opened Arith
  import opened StripeTranslate

  /** A region of the transfer buffer: byte offset and length. */
  datatype Extent = Extent(offset: int, nbytes: int)

  /**
   * The geometry the striping arithmetic relies on: block-aligned sizes and
   * start, chunks that a 16-bit block count can describe, at least one
   * member, and a transfer that ends inside the 64-bit space.
   */
  ghost predicate Aligned(sp: StripeParams) {
    && Divisors(sp)
    && sp.nobjs >= 1
    && sp.chunkNbytes % sp.lbaNbytes == 0
    && sp.xferNbytes % sp.lbaNbytes == 0
    && sp.xferSnbytes % sp.lbaNbytes == 0
    && sp.chunkNbytes <= 0x1_0000 * sp.lbaNbytes
    && sp.xferSnbytes + sp.xferNbytes < U64
  }

  /** In addition, the callback's buffer cursor cannot wrap around 2^64. */
  ghost predicate Sane(sp: StripeParams) {
    && Aligned(sp)
    && sp.xferNbytes + 0x1_0000 * sp.lbaNbytes + sp.chunkNbytes * sp.nobjs < U64
  }

  /** Offset of the transfer start inside its chunk. */
  function Skew(sp: StripeParams): (r: nat)
    requires Divisors(sp)
    ensures r < sp.chunkNbytes
  {
    sp.xferSnbytes % sp.chunkNbytes
  }

  /**
   * Buffer offset at which piece `p` begins (it may lie past the transfer):
   * piece 1 begins at the first chunk boundary, every later piece one chunk on.
   */
  function PieceStart(sp: StripeParams, p: nat): (r: nat)
    requires Divisors(sp)
    ensures p >= 1 ==> r > 0
  {
    if p == 0 then 0
    else if p == 1 then sp.chunkNbytes - Skew(sp)
    else PieceStart(sp, p - 1) + sp.chunkNbytes
  }

  /** Buffer offset at which piece `p` ends: the next piece's start, or the end of the transfer. */
  function PieceEnd(sp: StripeParams, p: nat): int
    requires Divisors(sp)
  {
    Min(sp.xferNbytes, PieceStart(sp, p + 1))
  }

  /** Piece `p` exists when it begins inside the transfer. */
  predicate IsPiece(sp: StripeParams, p: nat)
    requires Divisors(sp)
  {
    PieceStart(sp, p) < sp.xferNbytes
  }

  function Piece(sp: StripeParams, p: nat): Extent
    requires Divisors(sp)
  {
    Extent(PieceStart(sp, p), PieceEnd(sp, p) - PieceStart(sp, p))
  }

  /** Zero-based block count of the command that moves piece `p`. */
  function PieceNlbs(sp: StripeParams, p: nat): int
    requires Divisors(sp)
  {
    (PieceEnd(sp, p) - PieceStart(sp, p)) / sp.lbaNbytes - 1
  }

  // ---------------------------------------------------------------------------
  // The pieces tile the transfer.

  lemma StartStep(sp: StripeParams, p: nat)
    requires Divisors(sp)
    ensures p == 0 ==> PieceStart(sp, p + 1) == sp.chunkNbytes - Skew(sp)
    ensures p >= 1 ==> PieceStart(sp, p + 1) == PieceStart(sp, p) + sp.chunkNbytes
    ensures PieceStart(sp, p) < PieceStart(sp, p + 1) <= PieceStart(sp, p) + sp.chunkNbytes
  {
  }

  /** From piece 1 on, pieces are one chunk apart. */
  lemma {:induction false} StartAhead(sp: StripeParams, p: nat, k: nat)
    requires Divisors(sp) && p >= 1
    ensures PieceStart(sp, p + k) == PieceStart(sp, p) + sp.chunkNbytes * k
    decreases k
  {
    if k > 0 {
      StartAhead(sp, p, k - 1);
      StartStep(sp, p + k - 1);
      assert sp.chunkNbytes * k == sp.chunkNbytes * (k - 1) + sp.chunkNbytes;
    }
  }

  /** Pieces are in buffer order. */
  lemma {:induction false} StartMonotone(sp: StripeParams, p: nat, q: nat)
    requires Divisors(sp) && p <= q
    ensures PieceStart(sp, p) <= PieceStart(sp, q)
    ensures p < q ==> PieceStart(sp, p) < PieceStart(sp, q)
    decreases q - p
  {
    if p < q {
      StartStep(sp, p);
      StartMonotone(sp, p + 1, q);
    }
  }

  /** The skew is a whole number of blocks. */
  lemma SkewAligned(sp: StripeParams)
    requires Aligned(sp)
    ensures Skew(sp) % sp.lbaNbytes == 0
  {
    var C, L, S := sp.chunkNbytes, sp.lbaNbytes, sp.xferSnbytes;
    var s := S / C;
    ScaleAligned(s, C, L);
    assert S == s * C + Skew(sp);
    AddAligned(S, s * C, L);
  }

  /** Every piece begins on a block boundary. */
  lemma {:induction false} StartAligned(sp: StripeParams, p: nat)
    requires Aligned(sp)
    ensures PieceStart(sp, p) % sp.lbaNbytes == 0
  {
    var C, L := sp.chunkNbytes, sp.lbaNbytes;
    if p == 0 {
      assert PieceStart(sp, p) == 0;
    } else if p == 1 {
      SkewAligned(sp);
      AddAligned(C, Skew(sp), L);
      assert PieceStart(sp, p) == C - Skew(sp);
    } else {
      StartAligned(sp, p - 1);
      AddAligned(PieceStart(sp, p - 1), C, L);
    }
  }

  /** Every piece but the first begins on a chunk boundary of the striped space. */
  lemma {:induction false} StartChunkAligned(sp: StripeParams, p: nat)
    requires Divisors(sp) && p >= 1
    ensures (PieceStart(sp, p) + sp.xferSnbytes) % sp.chunkNbytes == 0
  {
    var C, S := sp.chunkNbytes, sp.xferSnbytes;
    if p == 1 {
      var s := S / C;
      assert S == s * C + Skew(sp);
      assert PieceStart(sp, p) + S == (s + 1) * C;
      DivModUnique(PieceStart(sp, p) + S, C, s + 1, 0);
    } else {
      StartChunkAligned(sp, p - 1);
      AddAligned(PieceStart(sp, p - 1) + S, C, C);
    }
  }

  /**
   * The pieces cover `[0, xferNbytes)` in order, without gap or overlap;
   * each holds between one block and one chunk.
   */
  lemma PiecesTile(sp: StripeParams, p: nat)
    requires Aligned(sp) && IsPiece(sp, p)
    ensures p == 0 ==> PieceStart(sp, p) == 0
    ensures IsPiece(sp, p + 1) ==> PieceEnd(sp, p) == PieceStart(sp, p + 1)
    ensures !IsPiece(sp, p + 1) ==> PieceEnd(sp, p) == sp.xferNbytes
    ensures sp.lbaNbytes <= PieceEnd(sp, p) - PieceStart(sp, p) <= sp.chunkNbytes
    ensures (PieceEnd(sp, p) - PieceStart(sp, p)) % sp.lbaNbytes == 0
  {
    StartStep(sp, p);
    StartAligned(sp, p);
    StartAligned(sp, p + 1);
    var e := PieceEnd(sp, p);
    assert e == sp.xferNbytes || e == PieceStart(sp, p + 1);
    AlignedGap(e, PieceStart(sp, p), sp.lbaNbytes);
  }

  /** The block count of a piece fits the 16-bit field and describes the piece exactly. */
  lemma PieceNlbsFits(sp: StripeParams, p: nat)
    requires Aligned(sp) && IsPiece(sp, p)
    ensures 0 <= PieceNlbs(sp, p) < U16
    ensures (PieceNlbs(sp, p) + 1) * sp.lbaNbytes == PieceEnd(sp, p) - PieceStart(sp, p)
  {
    PiecesTile(sp, p);
    var L := sp.lbaNbytes;
    var len := PieceEnd(sp, p) - PieceStart(sp, p);
    BlocksFit(len, sp);
    var n := len / L;
    assert PieceNlbs(sp, p) + 1 == n;
    assert n * L == len;
  }

  /** A block-aligned length of at most one chunk has between 1 and 2^16 blocks. */
  lemma BlocksFit(len: int, sp: StripeParams)
    requires Aligned(sp) && sp.lbaNbytes <= len <= sp.chunkNbytes && len % sp.lbaNbytes == 0
    ensures 1 <= len / sp.lbaNbytes <= U16 && (len / sp.lbaNbytes) * sp.lbaNbytes == len
  {
    var L := sp.lbaNbytes;
    assert len == (len / L) * L + 0;
    if len / L > U16 {
      MulGap(U16, len / L, L);
    }
  }

  // ---------------------------------------------------------------------------
  // What one member transfers.

  /** Under a sane geometry the callback's cursor strictly advances and does not wrap. */
  lemma CursorAdvances(sp: StripeParams, sbufNbytes: u64, nlbs: u16)
    requires Sane(sp) && sbufNbytes < sp.xferNbytes
    ensures NextSbufNbytes(sbufNbytes, nlbs, sp)
         == sbufNbytes + (nlbs + 1) * sp.lbaNbytes + sp.chunkNbytes * (sp.nobjs - 1)
    ensures NextSbufNbytes(sbufNbytes, nlbs, sp) > sbufNbytes
  {
    CursorExact(sp, sbufNbytes, nlbs);
    CursorBound(sbufNbytes, nlbs, sp.lbaNbytes, sp.chunkNbytes, sp.nobjs, sp.xferNbytes);
  }

  /** The cursor arithmetic does not wrap under a sane geometry. */
  lemma CursorExact(sp: StripeParams, sbufNbytes: u64, nlbs: u16)
    requires Sane(sp) && sbufNbytes < sp.xferNbytes
    ensures NextSbufNbytes(sbufNbytes, nlbs, sp)
         == sbufNbytes + (nlbs + 1) * sp.lbaNbytes + sp.chunkNbytes * (sp.nobjs - 1)
  {
    CursorBound(sbufNbytes, nlbs, sp.lbaNbytes, sp.chunkNbytes, sp.nobjs, sp.xferNbytes);
  }

  /** The arithmetic of CursorAdvances: a command and the other members' chunks fit after the cursor. */
  lemma CursorBound(s: int, n: int, L: int, C: int, W: int, X: int)
    requires 0 <= s < X && 0 <= n < 0x1_0000 && L > 0 && C >= 0 && W >= 1
    requires X + 0x1_0000 * L + C * W < U64
    ensures 0 < (n + 1) * L && s + (n + 1) * L + C * (W - 1) < U64
  {
    MulMono(n + 1, 0x1_0000, L);
    MulMono(1, n + 1, L);
    assert C * (W - 1) + C == C * W;
  }

  /** The pieces member-wise: piece `p`, then `p + W`, `p + 2W`, ... while they exist. */
  function PiecesFrom(sp: StripeParams, p: nat): (r: seq<Extent>)
    requires Aligned(sp) && IsPiece(sp, p)
    ensures |r| >= 1 && r[0] == Piece(sp, p)
    decreases sp.xferNbytes - PieceStart(sp, p)
  {
    StartMonotone(sp, p, p + sp.nobjs);
    [Piece(sp, p)] + if IsPiece(sp, p + sp.nobjs) then PiecesFrom(sp, p + sp.nobjs) else []
  }

  /**
   * Piece `p` and the cursor arithmetic agree: after moving piece `p` the
   * callback's cursor is at piece `p + W`, or past the transfer when there is
   * no such piece.
   */
  lemma NextCursorIsNextPiece(sp: StripeParams, p: nat)
    requires Sane(sp) && IsPiece(sp, p)
    ensures 0 <= PieceNlbs(sp, p) < U16
    ensures var next := NextSbufNbytes(PieceStart(sp, p), PieceNlbs(sp, p), sp);
            (IsPiece(sp, p + sp.nobjs) ==> next == PieceStart(sp, p + sp.nobjs))
            && (!IsPiece(sp, p + sp.nobjs) ==> next >= sp.xferNbytes)
  {
    var C, W := sp.chunkNbytes, sp.nobjs;
    PieceNlbsFits(sp, p);
    var n := PieceNlbs(sp, p);
    CursorAdvances(sp, PieceStart(sp, p), n);
    var next := NextSbufNbytes(PieceStart(sp, p), n, sp);
    assert next == PieceEnd(sp, p) + C * (W - 1);
    var q, k: nat := p + 1, W - 1;
    StartAhead(sp, q, k);
    assert q + k == p + W;
    MulNonneg(C, W - 1);
    StartMonotone(sp, p + 1, p + W);
  }

  /** At a chunk-aligned piece, the callback's block count is the piece's. */
  lemma NextNlbsAtPiece(sp: StripeParams, p: nat)
    requires Aligned(sp) && IsPiece(sp, p) && p >= 1
    ensures NextNlbs(PieceStart(sp, p), sp) == PieceNlbs(sp, p)
  {
    var C, L, X := sp.chunkNbytes, sp.lbaNbytes, sp.xferNbytes;
    PieceNlbsFits(sp, p);
    StartStep(sp, p);
    var start := PieceStart(sp, p);
    var len := PieceEnd(sp, p) - start;
    assert (X - start) % U64 == X - start;
    assert len == Min(C, X - start);
    var n := len / L - 1;
    assert n == PieceNlbs(sp, p) && 0 <= n < U16;
    assert NextNlbs(start, sp) == Trunc16(n);
  }

  /** Position `k` of member `p`'s pieces is piece `p + W * k`. */
  lemma {:induction false} PiecesFromAt(sp: StripeParams, p: nat, k: nat)
    requires Aligned(sp) && IsPiece(sp, p)
    ensures k < |PiecesFrom(sp, p)| <==> IsPiece(sp, p + sp.nobjs * k)
    ensures k < |PiecesFrom(sp, p)| ==> PiecesFrom(sp, p)[k] == Piece(sp, p + sp.nobjs * k)
    decreases k
  {
    var W := sp.nobjs;
    StartMonotone(sp, p, p + W);
    if k > 0 {
      assert p + W * k == (p + W) + W * (k - 1);
      if IsPiece(sp, p + W) {
        PiecesFromAt(sp, p + W, k - 1);
      } else {
        MulMono(1, k, W);
        StartMonotone(sp, p + W, p + W * k);
      }
    }
  }

  /** The member that moves piece `p`, as round-robin striping assigns it. */
  function Owner(sp: StripeParams, p: nat): (i: nat)
    requires Divisors(sp) && sp.nobjs >= 1
    ensures i < sp.nobjs
  {
    p % sp.nobjs
  }

  /** The position of piece `p` among its owner's commands. */
  function Round(sp: StripeParams, p: nat): (k: nat)
    requires Divisors(sp) && sp.nobjs >= 1
    ensures k <= p
  {
    DivLe(p, sp.nobjs);
    p / sp.nobjs
  }

  /**
   * Striped coverage: every piece of the transfer is moved by member
   * Owner(p), as its Round(p)-th command, and that member exists, because
   * its first piece does.
   */
  lemma StripeCoverage(sp: StripeParams, p: nat)
    requires Aligned(sp) && IsPiece(sp, p)
    ensures IsPiece(sp, Owner(sp, p))
    ensures Round(sp, p) < |PiecesFrom(sp, Owner(sp, p))|
    ensures PiecesFrom(sp, Owner(sp, p))[Round(sp, p)] == Piece(sp, p)
  {
    var W := sp.nobjs;
    var i, k := Owner(sp, p), Round(sp, p);
    assert p == W * k + i;
    MemberPieces(sp, i, k);
  }

  /** Member `i` moves piece `i + W * k` as its `k`-th command. */
  lemma MemberPieces(sp: StripeParams, i: nat, k: nat)
    requires Aligned(sp) && i < sp.nobjs && IsPiece(sp, i + sp.nobjs * k)
    ensures IsPiece(sp, i) && k < |PiecesFrom(sp, i)|
    ensures PiecesFrom(sp, i)[k] == Piece(sp, i + sp.nobjs * k)
  {
    MulNonneg(k, sp.nobjs);
    StartMonotone(sp, i, i + sp.nobjs * k);
    PiecesFromAt(sp, i, k);
  }

  /**
   * No piece is moved twice: if member `i` moves piece `p` as its `k`-th
   * command, then `i` and `k` are Owner(p) and Round(p).
   */
  lemma PieceOwnerUnique(sp: StripeParams, p: nat, i: nat, k: nat)
    requires Aligned(sp) && IsPiece(sp, p) && i < sp.nobjs && IsPiece(sp, i)
    requires k < |PiecesFrom(sp, i)| && PiecesFrom(sp, i)[k] == Piece(sp, p)
    ensures i == Owner(sp, p) && k == Round(sp, p)
  {
    var W := sp.nobjs;
    PiecesFromAt(sp, i, k);
    MulNonneg(W, k);
    var q := i + W * k;
    assert PieceStart(sp, q) == PieceStart(sp, p);
    if q < p {
      StartMonotone(sp, q, p);
    } else if q > p {
      StartMonotone(sp, p, q);
    }
    DivModUnique(p, W, k, i);
  }

  // ---------------------------------------------------------------------------
  // The initial submission loop.

  /**
   * Buffer offset of member `i` in fla_xne_async_strp_seq_x's initial loop:
   * the sum of the bytes of the first commands of members `0 .. i - 1`, with
   * the first block counts as the source computes them.
   */
  function InitSbufNbytes(sp: StripeParams, i: nat): int
    requires Divisors(sp)
  {
    if i == 0 then 0
    else
      var prev := InitSbufNbytes(sp, i - 1);
      var g := if 0 <= prev < U64 then Add64(prev, sp.xferSnbytes) else 0;
      prev + (FirstNlbs(g, sp) + 1) * sp.lbaNbytes
  }

  /**
   * The byte length of piece `p`: what remains of the transfer or of the
   * chunk that the piece's start falls into, whichever is less.
   */
  lemma PieceLength(sp: StripeParams, p: nat)
    requires Aligned(sp) && IsPiece(sp, p)
    ensures PieceStart(sp, p) + sp.xferSnbytes < U64
    ensures var g := PieceStart(sp, p) + sp.xferSnbytes;
            && g % sp.chunkNbytes == (if p == 0 then Skew(sp) else 0)
            && PieceEnd(sp, p) - PieceStart(sp, p)
               == Min(sp.xferNbytes - PieceStart(sp, p), sp.chunkNbytes - g % sp.chunkNbytes)
  {
    StartStep(sp, p);
    if p >= 1 {
      StartChunkAligned(sp, p);
    }
  }

  /** With the remaining bytes as bound, the first block count of a member is its piece's. */
  lemma FirstNlbsIntendedAtPiece(sp: StripeParams, p: nat)
    requires Aligned(sp) && IsPiece(sp, p)
    ensures PieceStart(sp, p) + sp.xferSnbytes < U64
    ensures var g := Add64(PieceStart(sp, p), sp.xferSnbytes);
            FirstNlbsIntended(PieceStart(sp, p), g, sp) == PieceNlbs(sp, p)
  {
    PieceLength(sp, p);
    PieceNlbsFits(sp, p);
  }

  /**
   * The source's first block count equals the piece's own for member 0 and
   * for every member whose piece is a whole chunk, and for no other member.
   */
  lemma FirstNlbsAsWrittenAtPiece(sp: StripeParams, p: nat)
    requires Aligned(sp) && IsPiece(sp, p)
    ensures PieceStart(sp, p) + sp.xferSnbytes < U64
    ensures var g := Add64(PieceStart(sp, p), sp.xferSnbytes);
            FirstNlbs(g, sp) == PieceNlbs(sp, p)
            <==> (p == 0 || PieceEnd(sp, p) - PieceStart(sp, p) == sp.chunkNbytes)
  {
    PieceLength(sp, p);
    PieceNlbsFits(sp, p);
    var len := PieceEnd(sp, p) - PieceStart(sp, p);
    if p >= 1 && len != sp.chunkNbytes {
      FirstNlbsOverrun(sp, p);
    }
  }

  /**
   * The overrun: a member `p >= 1` whose piece is the last one and shorter
   * than a chunk is given a first command that reaches past the end of the
   * transfer, by the whole chunk or the whole transfer length.
   */
  lemma FirstNlbsOverrun(sp: StripeParams, p: nat)
    requires Aligned(sp) && IsPiece(sp, p) && p >= 1
    requires PieceEnd(sp, p) - PieceStart(sp, p) != sp.chunkNbytes
    ensures PieceStart(sp, p) + sp.xferSnbytes < U64
    ensures var g := Add64(PieceStart(sp, p), sp.xferSnbytes);
            && (FirstNlbs(g, sp) + 1) * sp.lbaNbytes == Min(sp.xferNbytes, sp.chunkNbytes)
            && PieceStart(sp, p) + (FirstNlbs(g, sp) + 1) * sp.lbaNbytes > sp.xferNbytes
            && FirstNlbs(g, sp) > PieceNlbs(sp, p)
  {
    var C, L, X := sp.chunkNbytes, sp.lbaNbytes, sp.xferNbytes;
    PieceLength(sp, p);
    PieceNlbsFits(sp, p);
    PiecesTile(sp, p);
    var start := PieceStart(sp, p);
    var len := PieceEnd(sp, p) - start;
    var g := Add64(start, sp.xferSnbytes);
    assert g % C == 0;
    var a := Min(X, C);
    assert len == X - start && start > 0;
    assert a > len;
    AlignedGap(a, len, L);
    BlocksFit(a, sp);
    var n := a / L - 1;
    assert 0 <= n < U16 && (n + 1) * L == a;
    assert FirstNlbs(g, sp) == Trunc16(n) == n;
    assert n > len / L - 1 == PieceNlbs(sp, p);
  }

  /**
   * Members are started on consecutive pieces: while piece `i` exists, the
   * initial loop places member `i` at the start of piece `i`.
   */
  lemma {:induction false} InitialOffsetsArePieces(sp: StripeParams, i: nat)
    requires Aligned(sp) && IsPiece(sp, i)
    ensures InitSbufNbytes(sp, i) == PieceStart(sp, i)
  {
    if i > 0 {
      StartMonotone(sp, i - 1, i);
      InitialOffsetsArePieces(sp, i - 1);
      FirstCountSpansPiece(sp, i - 1);
    }
  }

  /**
   * When piece `p + 1` exists, the first block count the source gives the
   * member at piece `p` covers exactly piece `p`.
   */
  lemma FirstCountSpansPiece(sp: StripeParams, p: nat)
    requires Aligned(sp) && IsPiece(sp, p + 1)
    ensures PieceStart(sp, p) + sp.xferSnbytes < U64
    ensures var g := Add64(PieceStart(sp, p), sp.xferSnbytes);
            PieceStart(sp, p) + (FirstNlbs(g, sp) + 1) * sp.lbaNbytes == PieceStart(sp, p + 1)
  {
    StartMonotone(sp, p, p + 1);
    PiecesTile(sp, p);
    StartStep(sp, p);
    var start, len := PieceStart(sp, p), PieceStart(sp, p + 1) - PieceStart(sp, p);
    assert PieceEnd(sp, p) - start == len;
    assert p >= 1 ==> len == sp.chunkNbytes;
    FirstNlbsAsWrittenAtPiece(sp, p);
    PieceNlbsFits(sp, p);
    var g := Add64(start, sp.xferSnbytes);
    assert FirstNlbs(g, sp) == PieceNlbs(sp, p);
  }
}
