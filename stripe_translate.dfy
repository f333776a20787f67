/**
 * Stripe address translation of flexalloc_xnvme_env.c (calc_chunk_translation
 * and the calc_strp_obj_* helpers).
 *
 * A striped transfer addresses a virtual byte space that is cut into chunks of
 * `chunkNbytes`; chunk `c` belongs to member `c % nobjs`. Each member is a
 * flexalloc object of `faobjNlbs` blocks, and the members lie side by side on
 * the device starting at `objStartNbytes`.
 */
module StripeTranslate {
  import opened Util
  import opened Arith

  /** struct fla_strp_params: the caller's description of one striped transfer. */
  datatype StripeParams = StripeParams(
    xferNbytes: u64,      // bytes to transfer
    xferSnbytes: u64,     // start of the transfer in the striped byte space
    chunkNbytes: u64,     // bytes written to one member before moving to the next
    nobjs: u32,           // stripe width
    objTnbytes: u64,      // bytes of the whole striped object (all members)
    objStartNbytes: u64,  // device byte offset of the first member
    faobjNlbs: u64,       // blocks of one member
    lbaNbytes: u64,       // device block size
    write: bool)

  /** The divisors the helpers use are nonzero. */
  predicate Divisors(sp: StripeParams) {
    sp.lbaNbytes > 0 && sp.chunkNbytes > 0 && sp.objTnbytes > 0
  }

  /**
   * calc_chunk_translation: `z % chunk + (z / chunk) * step` in `uint64_t`.
   * The chunk number of `z` is rescaled from `chunk` to `step`, the offset
   * inside the chunk is kept: the first chunk is left in place, and a
   * translation onto chunks of the same size changes nothing, even where
   * the sum wraps.
   */
  function ChunkTranslation(z: u64, chunk: u64, step: u64): (r: u64)
    requires chunk > 0
    ensures z < chunk ==> r == z
    ensures step == chunk ==> r == z
  {
    var q, o := z / chunk, z % chunk;
    assert q * chunk + o == z;
    MulNonneg(q, chunk);
    SmallDivMod(z, chunk);
    assert q * chunk <= z;
    Add64(o, Mul64(q, step))
  }

  /** Without wrap-around the translation is the exact formula. */
  lemma ChunkTranslationExact(z: u64, chunk: u64, step: u64)
    requires chunk > 0
    requires z % chunk + (z / chunk) * step < U64
    ensures ChunkTranslation(z, chunk, step) == z % chunk + (z / chunk) * step
  {
    MulNonneg(z / chunk, step);
  }

  /**
   * calc_strp_obj_slba: device LBA, relative to the first member, of byte
   * `xferSnbytes` of the striped space. The first chunk is the start of the
   * first member.
   */
  function StrpObjSlba(xferSnbytes: u64, sp: StripeParams): (r: u64)
    requires Divisors(sp)
    ensures xferSnbytes < sp.chunkNbytes && xferSnbytes < sp.objTnbytes ==> r == xferSnbytes / sp.lbaNbytes
  {
    var inObjs := ChunkTranslation(xferSnbytes, sp.chunkNbytes, Mul64(sp.faobjNlbs, sp.lbaNbytes));
    var devNbytes := ChunkTranslation(inObjs, sp.objTnbytes, sp.chunkNbytes);
    DivLe(devNbytes, sp.lbaNbytes);
    devNbytes / sp.lbaNbytes
  }

  /** `n` bytes are a whole, nonzero number of blocks that a 16-bit zero-based count can describe. */
  predicate WholeBlocks(n: int, sp: StripeParams)
    requires Divisors(sp)
  {
    n % sp.lbaNbytes == 0 && sp.lbaNbytes <= n <= U16 * sp.lbaNbytes
  }

  /**
   * calc_strp_obj_first_nlbs, as written: zero-based block count of a
   * member's first command, `min(xfer_nbytes, chunk - g % chunk) / lba - 1`
   * truncated to `uint16_t`. The command reaches the end of byte `g`'s chunk
   * or covers the whole transfer length, whichever is less, when that is a
   * whole number of blocks a 16-bit count can describe.
   */
  function FirstNlbs(xferSnbytes: u64, sp: StripeParams): (r: u16)
    requires Divisors(sp)
    ensures var want := Min(sp.xferNbytes, sp.chunkNbytes - xferSnbytes % sp.chunkNbytes);
            WholeBlocks(want, sp) ==> (r + 1) * sp.lbaNbytes == want
  {
    var want := Min(sp.xferNbytes, sp.chunkNbytes - xferSnbytes % sp.chunkNbytes);
    WholeUnits(want, sp.lbaNbytes, U16);
    Trunc16(want / sp.lbaNbytes - 1)
  }

  /**
   * The first block count bounded by the bytes that remain after the buffer
   * offset `sbufNbytes`, as the cursor arithmetic needs (see the findings):
   * the command reaches the end of the chunk or of the buffer, whichever
   * comes first.
   */
  function FirstNlbsIntended(sbufNbytes: u64, xferSnbytes: u64, sp: StripeParams): (r: u16)
    requires Divisors(sp) && sbufNbytes < sp.xferNbytes
    ensures var want := Min(sp.xferNbytes - sbufNbytes, sp.chunkNbytes - xferSnbytes % sp.chunkNbytes);
            WholeBlocks(want, sp) ==> (r + 1) * sp.lbaNbytes == want
  {
    var want := Min(sp.xferNbytes - sbufNbytes, sp.chunkNbytes - xferSnbytes % sp.chunkNbytes);
    WholeUnits(want, sp.lbaNbytes, U16);
    Trunc16(want / sp.lbaNbytes - 1)
  }

  /**
   * calc_strp_obj_next_nbls: zero-based block count of a later command,
   * `min(chunk, xfer_nbytes - sbuf) / lba - 1` truncated to `uint16_t`. Inside
   * the buffer the command covers a whole chunk or the rest of the buffer,
   * whichever is less, when that is a whole number of blocks a 16-bit count
   * can describe.
   */
  function NextNlbs(sbufNbytes: u64, sp: StripeParams): (r: u16)
    requires Divisors(sp)
    ensures sbufNbytes < sp.xferNbytes && WholeBlocks(Min(sp.chunkNbytes, sp.xferNbytes - sbufNbytes), sp) ==>
              (r + 1) * sp.lbaNbytes == Min(sp.chunkNbytes, sp.xferNbytes - sbufNbytes)
  {
    var remaining := (sp.xferNbytes - sbufNbytes) % U64;
    WholeUnits(Min(sp.chunkNbytes, remaining), sp.lbaNbytes, U16);
    Trunc16(Min(sp.chunkNbytes, remaining) / sp.lbaNbytes - 1)
  }

  /**
   * calc_strp_obj_next_sbuf_nbytes: the buffer cursor moves past the blocks
   * just transferred and past one chunk of each other member; without
   * wrap-around it moves by exactly those bytes.
   */
  function NextSbufNbytes(curr: u64, xferedNlbs: u32, sp: StripeParams): (r: u64)
    ensures sp.nobjs >= 1 && curr + (xferedNlbs + 1) * sp.lbaNbytes + sp.chunkNbytes * (sp.nobjs - 1) < U64 ==>
              r == curr + (xferedNlbs + 1) * sp.lbaNbytes + sp.chunkNbytes * (sp.nobjs - 1)
  {
    var others := (sp.nobjs - 1) % U32;
    MulNonneg(xferedNlbs + 1, sp.lbaNbytes);
    MulNonneg(sp.chunkNbytes, others);
    Add64(Add64(curr, Mul64(xferedNlbs + 1, sp.lbaNbytes)), Mul64(sp.chunkNbytes, others))
  }

  // ---------------------------------------------------------------------------
  // The two cascaded translations implement round-robin striping.

  lemma RoundRobinSplit(c: int, W: int, B: int, o: int)
    requires c >= 0 && W >= 1 && B > 0 && 0 <= o < B
    ensures (c * B + o) / (W * B) == c / W
    ensures (c * B + o) % (W * B) == (c % W) * B + o
  {
    var q, r := c / W, c % W;
    assert c == q * W + r;
    MulMono(r, W - 1, B);
    assert (W - 1) * B == W * B - B;
    assert c * B == q * (W * B) + r * B by {
      assert (q * W + r) * B == q * W * B + r * B;
    }
    DivModUnique(c * B + o, W * B, q, r * B + o);
  }

  /** The second translation undoes the interleaving of chunks across members. */
  lemma SecondTranslation(c: nat, o: nat, W: nat, B: nat, C: nat)
    requires W >= 1 && 0 < C <= B && o < C
    requires c * B + o < U64 && W * B < U64
    ensures 0 <= c * B + o
    ensures ChunkTranslation(c * B + o, W * B, C) == (c % W) * B + o + (c / W) * C
  {
    MulNonneg(c, B);
    MulMono(1, W, B);
    var y, T := c * B + o, W * B;
    RoundRobinSplit(c, W, B, o);
    MulMono(C, T, c / W);
    assert y == (y / T) * T + y % T;
    ChunkTranslationExact(y, T, C);
  }

  /**
   * With `objTnbytes == nobjs * B` (B the bytes of one member) and chunks no
   * larger than a member, byte `g` of the striped space lands in member
   * `c % nobjs`, at member chunk `c / nobjs`, where `c = g / chunk`.
   */
  lemma ObjSlbaRoundRobin(g: u64, sp: StripeParams, B: nat)
    requires Divisors(sp) && sp.nobjs >= 1
    requires B == sp.faobjNlbs * sp.lbaNbytes && B < U64
    requires sp.objTnbytes == sp.nobjs * B
    requires sp.chunkNbytes <= B
    requires (g / sp.chunkNbytes) * B + sp.chunkNbytes <= U64
    ensures var c, W := g / sp.chunkNbytes, sp.nobjs;
            StrpObjSlba(g, sp) == ((c % W) * B + (c / W) * sp.chunkNbytes + g % sp.chunkNbytes) / sp.lbaNbytes
  {
    var C, W := sp.chunkNbytes, sp.nobjs;
    var c, o := g / C, g % C;
    var step := Mul64(sp.faobjNlbs, sp.lbaNbytes);
    assert step == B;
    var inObjs := ChunkTranslation(g, C, step);
    assert inObjs == c * B + o by {
      MulNonneg(c, B);
      ChunkTranslationExact(g, C, B);
    }
    var dev := ChunkTranslation(inObjs, sp.objTnbytes, C);
    assert dev == (c % W) * B + o + (c / W) * C by {
      SecondTranslation(c, o, W, B, C);
    }
    assert StrpObjSlba(g, sp) == dev / sp.lbaNbytes;
    assert dev == (c % W) * B + (c / W) * C + o;
  }

  /**
   * Moving from byte `g` to the start of the chunk `nobjs` chunks on stays
   * in the same member and one member chunk further, so the translated
   * block grows by the `m` blocks that separate `g` from its chunk's end.
   */
  lemma ObjSlbaAdvance(g: u64, g': u64, sp: StripeParams, B: nat, m: nat)
    requires Divisors(sp) && sp.nobjs >= 1
    requires B == sp.faobjNlbs * sp.lbaNbytes && B < U64
    requires sp.objTnbytes == sp.nobjs * B
    requires sp.chunkNbytes <= B
    requires g <= g' && (g' / sp.chunkNbytes) * B + sp.chunkNbytes <= U64
    requires g' == (g / sp.chunkNbytes + sp.nobjs) * sp.chunkNbytes
    requires g % sp.chunkNbytes + m * sp.lbaNbytes == sp.chunkNbytes
    ensures StrpObjSlba(g', sp) == StrpObjSlba(g, sp) + m
  {
    var W, C := sp.nobjs, sp.chunkNbytes;
    var c := g / C;
    DivModUnique(g', C, c + W, 0);
    DivMono(g, g', C);
    MulMono(g / C, g' / C, B);
    ObjSlbaRoundRobin(g, sp, B);
    ObjSlbaRoundRobin(g', sp, B);
    RoundRobinNext(c, W, B, C, g % C, m, sp.lbaNbytes);
  }
}
