# flexalloc xNVMe I/O layer in Dafny

This project models the I/O core of flexalloc's xNVMe environment
(`src/flexalloc_xnvme_env.c`) together with the error and arithmetic helpers
it relies on (`src/flexalloc_util.h`), and proves properties of the model.

* **Util** (`util.dfy`): fixed-width C arithmetic (`uint16_t` truncation,
  wrapping `uint64_t` and `uint32_t` sums and products), `fla_min`,
  `FLA_CEIL_DIV`, `FLA_ERRNO_VAL`, and the return values of `fla_err_fl`
  (`FLA_ERR`) and `fla_err_errno_fl` (`FLA_ERR_ERRNO`). Arithmetic facts the
  solver needs spelled out are in **Arith** (`arith.dfy`).
* **SyncReply** and **ZoneMgmt**: how a synchronous command's reply becomes
  an error (`err ? err : -EIO`), and `fla_xne_dev_znd_send_mgmt`, which
  refuses non-zoned namespaces with `-EINVAL`.
* **ChunkedIo**: `fla_xne_sync_seq_w`, `fla_xne_sync_seq_r` and
  `fla_xne_write_zeroes` split `[slba, elba]` into commands of at most
  `fla_xne_calc_mdts_naddrs` blocks and stop at the first failing command.
  `SyncSeq` is the loop the three share; it is proved equal to `Expected`,
  a recursive specification characterised by `ExpectedMeaning`. The
  `Segments*` and `Plan*` lemmas describe its commands: they tile the
  range, there are `FLA_CEIL_DIV(naddrs, mdts_naddrs)` of them, and the
  buffer advances by the bytes just moved. The `_naddrs` and `_nbytes`
  wrappers reject an invalid range before any command.
* **StripeTranslate**: the static helpers of the striped transfer
  (`calc_chunk_translation`, `calc_strp_obj_slba`,
  `calc_strp_obj_first_nlbs`, `calc_strp_obj_next_nbls`,
  `calc_strp_obj_next_sbuf_nbytes`). `ObjSlbaRoundRobin` proves that the two
  cascaded translations place chunk `c` in member `c % nobjs` at member chunk
  `c / nobjs`.
* **StripeLayout** and **StripePlan**: the buffer of a striped transfer is cut
  at chunk boundaries into pieces that tile it. Member `i` moves pieces
  `i, i + W, i + 2W, ...`. `Plan(sp, i)` is the list of commands member `i`
  submits when nothing is refused. The lemmas prove three things:
  * the callback's cursor arithmetic walks exactly these pieces;
  * every piece is moved by exactly one member;
  * the initial loop puts member `i` at the start of piece `i`.
* **StripeEngine**: `fla_xne_async_strp_seq_x` and `fla_async_strp_cb`.
  * The engine is a class over the `cb_args[512]` array (`Engine.args`),
    with the set of members whose command is in flight and the log of
    commands the device accepted.
  * The queue and the device are an `Env` value. Completions are processed
    in an arbitrary order: `Complete(m)` may be called for any member in
    flight.
  * The invariant `EngineOk` states that each member's accepted commands are
    a prefix of its plan and that its error count counts its failed
    completions.
  * `StrpSeqX` returns two results for the same run: the intended aggregate
    error (`Aggregate`) and the one the source computes (`AggregateAsWritten`,
    see Findings). Its `early` result is the initial loop's error,
    `LaunchErr`. With no failed queue call or submission, every member with
    a piece sends its whole plan.
  * As in the source, a resubmission the callback sees refused ends that
    member without touching its error count. The model keeps this
    behaviour: `DrainedRun` promises the whole plan only for members none of
    whose resubmissions was refused.

The device, the queue, `errno` and the range helpers of xNVMe are inputs
(`dev`, `Env`, `LbaRange`). Nothing is executed; the properties are proved
by the Dafny verifier.

## Model

| member | source | states |
|---|---|---|
| Util.Trunc16 | src/flexalloc_xnvme_env.c:217-232 | the `uint16_t` return keeps a value that fits and otherwise differs from it by a multiple of 2^16 |
| Util.Add64 | src/flexalloc_xnvme_env.c:234-246 | a `uint64_t` sum is exact below 2^64 and reduced by 2^64 above |
| Util.Mul64 | src/flexalloc_xnvme_env.c:199-206 | a `uint64_t` product is exact when it fits and otherwise differs from the true product by a multiple of 2^64 |
| Util.Mul32 | src/flexalloc_xnvme_env.c:142 | the `uint32_t` product `(nlb+1)*lba_nbytes` is exact when it fits and otherwise differs from the true product by a multiple of 2^32 |
| Util.Min | src/flexalloc_util.h:89-92 | `fla_min` is a lower bound of both arguments and equals one of them |
| Util.CeilDiv | src/flexalloc_util.h:125 | without wrap-around, `FLA_CEIL_DIV(x, y)` `y`-blocks cover `x`, and one block fewer does not |
| Util.ErrnoVal | src/flexalloc_util.h:28 | `FLA_ERRNO_VAL(e)` is never positive, is 0 exactly for `e == 0`, `-e` for positive and -1 for negative `e` |
| Util.ErrFl | src/flexalloc_util.h:39-48 | `FLA_ERR` returns its condition, so it signals an error exactly when the condition is nonzero |
| Util.ErrErrnoFl | src/flexalloc_util.h:64-83 | `FLA_ERR_ERRNO` returns 0 exactly when the condition is 0; for an error it returns the negated errno when errno is set, else the condition |
| Util.BoolToInt | src/flexalloc_xnvme_env.c:321-323 | a C comparison yields 1 or 0, and 0 exactly when it is false |
| SyncReply.ReplyErr | src/flexalloc_xnvme_env.c:134-141 | a command fails exactly when the submission or the status is nonzero; the submission error wins, a bad status alone gives -EIO |
| ZoneMgmt.ZndSendMgmt | src/flexalloc_xnvme_env.c:60-84 | a non-zoned namespace gets -EINVAL and no command; a zoned one gets exactly one command, and the result is 0 exactly when it succeeds, else the submission error or -EIO |
| ChunkedIo.MdtsNaddrs | src/flexalloc_xnvme_env.c:18-23 | the blocks per command are `mdts_nbytes / lba_nbytes` when that is at most UINT16_MAX and UINT16_MAX otherwise, and they fit in the MDTS bytes |
| ChunkedIo.ScaledIsProduct | src/flexalloc_xnvme_env.c:142 | the buffer offset accumulated command by command is the blocks before it times the block size |
| ChunkedIo.SegmentsCount | src/flexalloc_xnvme_env.c:128-131 | the loop issues `(elba - slba) / mdts_naddrs + 1` commands for a nonempty range and none for an empty one |
| ChunkedIo.SegmentsAt | src/flexalloc_xnvme_env.c:128-131 | command `k` starts at `slba + k * mdts_naddrs`, inside the range, with `nlb = min(elba - start, mdts_naddrs - 1)` |
| ChunkedIo.SegmentsFitNlb | src/flexalloc_xnvme_env.c:128-131 | every zero-based block count is below `mdts_naddrs` and so fits 16 bits |
| ChunkedIo.SegmentsContiguous | src/flexalloc_xnvme_env.c:128-131 | each command starts on the block after the previous command's last |
| ChunkedIo.SegmentsEnd | src/flexalloc_xnvme_env.c:128-131 | the last command ends exactly at `elba` |
| ChunkedIo.SegmentsTile | src/flexalloc_xnvme_env.c:128-131 | the commands tile `[slba, elba]` from `slba` to `elba` without gap |
| ChunkedIo.SegmentsCover | src/flexalloc_xnvme_env.c:128-131 | every block of the range lies in command `(b - slba) / mdts_naddrs` |
| ChunkedIo.SegmentsDisjoint | src/flexalloc_xnvme_env.c:128-131 | a block lies in no other command than that one |
| ChunkedIo.PlanOffset | src/flexalloc_xnvme_env.c:142 | a command's buffer offset is `(slba - range.slba) * lba_nbytes`, and 0 for Write Zeroes |
| ChunkedIo.PlanShape | src/flexalloc_xnvme_env.c:128-142 | a valid range takes `FLA_CEIL_DIV(naddrs, mdts_naddrs)` commands, each at the buffer offset of its first block |
| ChunkedIo.SendMeaning | src/flexalloc_xnvme_env.c:133-140 | sending stops at the first failing command: a prefix is sent, 0 exactly when all commands were sent and succeeded, else the last one sent failed with that error |
| ChunkedIo.ExpectedMeaning | src/flexalloc_xnvme_env.c:128-145 | a chunked transfer sends a prefix of its plan; it returns 0 exactly when the whole plan is sent and every command succeeds, else the error of the first failing command, which is the last one sent |
| ChunkedIo.RunFromSends | src/flexalloc_xnvme_env.c:128-145 | the loop, run from any reachable state, yields what sending the rest of the plan yields |
| ChunkedIo.SyncSeq | src/flexalloc_xnvme_env.c:128-145 | the chunking loop the three transfers share yields exactly `Expected`: the commands sent and the error returned |
| ChunkedIo.ExpectedOps | src/flexalloc_xnvme_env.c:133 | every command of a transfer carries the transfer's opcode, and Write Zeroes carries no buffer |
| ChunkedIo.SyncSeqW | src/flexalloc_xnvme_env.c:100-148 | the chunked write returns `Expected` for writes, and every command it issues is a write |
| ChunkedIo.SyncSeqR | src/flexalloc_xnvme_env.c:425-470 | the chunked read returns `Expected` for reads, and every command it issues is a read |
| ChunkedIo.SyncWriteZeroes | src/flexalloc_xnvme_env.c:510-552 | the chunked Write Zeroes returns `Expected`, and its commands are Write Zeroes without a buffer |
| ChunkedIo.SyncSeqWNaddrs | src/flexalloc_xnvme_env.c:150-167 | an invalid block range fails with 1 and no command; a valid one returns the chunked write's result |
| ChunkedIo.SyncSeqWNbytes | src/flexalloc_xnvme_env.c:405-422 | the same for a byte range |
| ChunkedIo.SyncSeqRNaddrs | src/flexalloc_xnvme_env.c:472-489 | an invalid block range fails with 1 and no command; a valid one returns the chunked read's result |
| ChunkedIo.SyncSeqRNbytes | src/flexalloc_xnvme_env.c:491-508 | the same for a byte range |
| StripeTranslate.ChunkTranslation | src/flexalloc_xnvme_env.c:199-206 | offsets inside the first chunk are unchanged, and translating onto chunks of the same size is the identity even where the `uint64_t` sum wraps |
| StripeTranslate.ChunkTranslationExact | src/flexalloc_xnvme_env.c:199-206 | without wrap-around the translation is `z % chunk + (z / chunk) * step` |
| StripeTranslate.SecondTranslation | src/flexalloc_xnvme_env.c:211-214 | the second translation maps member-space chunk `c` to member `c % W`, chunk `c / W` |
| StripeTranslate.StrpObjSlba | src/flexalloc_xnvme_env.c:208-215 | a byte in the first chunk of the striped object lies in the first member, at block `g / lba_nbytes` |
| StripeTranslate.ObjSlbaRoundRobin | src/flexalloc_xnvme_env.c:208-215 | `calc_strp_obj_slba` of byte `g` is the block of round-robin striping: member `c % nobjs`, member chunk `c / nobjs`, offset `g % chunk` |
| StripeTranslate.ObjSlbaAdvance | src/flexalloc_xnvme_env.c:208-215 | from a byte to the start of the chunk `nobjs` chunks on, the translated block grows by exactly the blocks left in the first byte's chunk |
| StripeTranslate.FirstNlbs | src/flexalloc_xnvme_env.c:225-232 | as written, the first command reaches the end of its chunk or covers the whole transfer length, whichever is less, when that is whole blocks a 16-bit count can describe |
| StripeTranslate.FirstNlbsIntended | src/flexalloc_xnvme_env.c:225-232 | corrected: the first command reaches the end of its chunk or of the buffer, whichever comes first |
| StripeTranslate.NextNlbs | src/flexalloc_xnvme_env.c:217-223 | inside the buffer, a later command covers a whole chunk or the rest of the buffer, whichever is less |
| StripeTranslate.NextSbufNbytes | src/flexalloc_xnvme_env.c:234-246 | without wrap-around the cursor moves by its own blocks plus one chunk of each other member |
| StripeLayout.PiecesTile | src/flexalloc_xnvme_env.c:248-257 | the pieces cover the buffer in order without gap or overlap, each between one block and one chunk |
| StripeLayout.PieceNlbsFits | src/flexalloc_xnvme_env.c:217-223 | a piece's zero-based block count fits `uint16_t` and describes the piece exactly |
| StripeLayout.CursorAdvances | src/flexalloc_xnvme_env.c:234-246 | under the sane geometry the cursor strictly advances and does not wrap |
| StripeLayout.NextCursorIsNextPiece | src/flexalloc_xnvme_env.c:271-274 | after piece `p` the cursor is at piece `p + W`, or past the transfer when there is none |
| StripeLayout.NextNlbsAtPiece | src/flexalloc_xnvme_env.c:217-223 | at a later piece's start, `calc_strp_obj_next_nbls` is that piece's block count |
| StripeLayout.StripeCoverage | src/flexalloc_xnvme_env.c:248-257 | every piece is moved by member `p % W` as its `(p / W)`-th command |
| StripeLayout.PieceOwnerUnique | src/flexalloc_xnvme_env.c:248-257 | no other member or position moves that piece |
| StripeLayout.FirstNlbsIntendedAtPiece | src/flexalloc_xnvme_env.c:343 | bounded by the bytes that remain, the first block count of member `p` is its piece's |
| StripeLayout.FirstNlbsAsWrittenAtPiece | src/flexalloc_xnvme_env.c:225-232 | as written, the first block count is the piece's exactly for member 0 and for members whose piece is a whole chunk |
| StripeLayout.FirstNlbsOverrun | src/flexalloc_xnvme_env.c:225-232 | as written, a later member whose piece is short gets a first command that reaches past the end of the buffer |
| StripeLayout.InitialOffsetsArePieces | src/flexalloc_xnvme_env.c:336-379 | the initial loop places member `i` at the start of piece `i` |
| StripeLayout.FirstCountSpansPiece | src/flexalloc_xnvme_env.c:343 | when piece `p + 1` exists, the first block count as written covers exactly piece `p`, so the cursor lands on the next piece |
| StripePlan.MemberCmdsContiguous | src/flexalloc_xnvme_env.c:276 | each of a member's commands starts on the block after its previous one |
| StripePlan.PlanMovesPieces | src/flexalloc_xnvme_env.c:258-305 | member `i`'s plan moves exactly its pieces, in order |
| StripePlan.PlanCoversPiece | src/flexalloc_xnvme_env.c:248-257 | every piece is in its owner's plan |
| StripePlan.PlanPieceUnique | src/flexalloc_xnvme_env.c:248-257 | a plan command at a piece's offset belongs to the piece's owner, at the piece's round |
| StripePlan.PlanStep | src/flexalloc_xnvme_env.c:271-277 | the callback's cursor, block count and block address after a command are the next plan command's, and the cursor leaves the buffer only after the last |
| StripePlan.PlanSlbaStep | src/flexalloc_xnvme_env.c:276 | from one plan command to the next, the block address and the translation of the buffer offset both grow by the blocks just moved |
| StripePlan.PlanSlbaRoundRobin | src/flexalloc_xnvme_env.c:276 | every command of a member, not only its first, is addressed at `calc_strp_obj_slba` of the striped byte its buffer offset stands for plus the first member's start block |
| StripePlan.SbufSlbaRoundRobin | src/flexalloc_xnvme_env.c:347-348 | the block the initial loop computes for a buffer offset is the round-robin placement of its striped byte plus the first member's start block |
| StripePlan.PlanFirst | src/flexalloc_xnvme_env.c:343-349 | the first command the initial loop builds for a member is its plan's first |
| StripeEngine.CountFailedZero | src/flexalloc_xnvme_env.c:265-269 | a member's error count is 0 exactly when none of its completions failed |
| StripeEngine.FirstNonzeroZero | src/flexalloc_xnvme_env.c:394-399 | the first nonzero error count is 0 exactly when all counts are 0, and otherwise is one of them |
| StripeEngine.AggregateAsWritten | src/flexalloc_xnvme_env.c:382-399 | as written, the result is 0 exactly when the wait and the termination succeed and member 0's error count is 0 |
| StripeEngine.Aggregate | src/flexalloc_xnvme_env.c:382-399 | corrected: 0 exactly when the initial loop, the wait, the termination and every member succeeded; an initial-loop error is returned as is; any other error is 1, the termination's or a member's count |
| StripeEngine.AsWrittenMissesOtherMembers | src/flexalloc_xnvme_env.c:394-399 | as written, only member 0's error count is checked, so failures of other members return 0 |
| StripeEngine.AsWrittenLosesEarlyError | src/flexalloc_xnvme_env.c:382-385 | as written, the initial loop's error is overwritten by the wait |
| StripeEngine.AsWrittenExamples | src/flexalloc_xnvme_env.c:382-399 | two concrete runs where the as-written result is 0 and the intended one is not |
| StripeEngine.Callback | src/flexalloc_xnvme_env.c:258-305 | a completion is counted, the cursor moves, and a command is issued exactly when the cursor is inside the buffer and the device accepts it |
| StripeEngine.CallbackFollowsPlan | src/flexalloc_xnvme_env.c:271-283 | the command the callback builds is the member's next plan command, and it stops only after the last |
| StripeEngine.CallbackKeepsEngine | src/flexalloc_xnvme_env.c:258-305 | the callback keeps the engine invariant; an issued command is appended to the log, otherwise the member leaves the queue |
| StripeEngine.CallbackAccepted | src/flexalloc_xnvme_env.c:271-289 | an accepted resubmission is the member's next plan command, and the member's record stays consistent with its plan |
| StripeEngine.CallbackIssues | src/flexalloc_xnvme_env.c:285-289 | an accepted resubmission keeps the member in flight with one more command |
| StripeEngine.CallbackStops | src/flexalloc_xnvme_env.c:290-304 | a refused resubmission or the end of the buffer takes the member out of flight |
| StripeEngine.AfterFirst | src/flexalloc_xnvme_env.c:379 | without wrap-around the initial loop's cursor moves by exactly the bytes of the first command |
| StripeEngine.LaunchAdvance | src/flexalloc_xnvme_env.c:379 | the initial loop's cursor moves to the next piece, or past the buffer when none is left |
| StripeEngine.NoPieceBeyond | src/flexalloc_xnvme_env.c:337 | once the cursor is past the buffer no later member has a piece |
| StripeEngine.Engine.constructor | src/flexalloc_xnvme_env.c:314 | zeroed `cb_args`, nothing in flight, nothing sent |
| StripeEngine.Engine.Complete | src/flexalloc_xnvme_env.c:258-305 | one completion updates the member's record and the log as `Callback` says and keeps the invariant |
| StripeEngine.SubmitErrZero | src/flexalloc_xnvme_env.c:353-377 | a first submission succeeds exactly when every poke between -EBUSY/-EAGAIN replies succeeds and the final reply is 0 |
| StripeEngine.LaunchErrZero | src/flexalloc_xnvme_env.c:336-380 | the initial loop succeeds exactly when every member with a piece gets a command context and its first submission succeeds |
| StripeEngine.Engine.Launch | src/flexalloc_xnvme_env.c:336-380 | the initial loop returns the error of the first member with a piece whose round fails (NULL context, failed poke, or refused submission), or 0; with 0 every member with a piece has started |
| StripeEngine.Engine.StartMember | src/flexalloc_xnvme_env.c:339-363 | a NULL context returns the errno error, otherwise the submission's error; on success the member has started with its piece's block count |
| StripeEngine.Engine.SubmitFirst | src/flexalloc_xnvme_env.c:353-377 | -EBUSY and -EAGAIN poke the queue and retry; the first failed poke returns the errno error, otherwise the final reply is returned |
| StripeEngine.Engine.Prepare | src/flexalloc_xnvme_env.c:344-351 | the member's record is filled in before submission |
| StripeEngine.Engine.Admit | src/flexalloc_xnvme_env.c:360-363 | an accepted first command starts the member and is logged |
| StripeEngine.Engine.Reap | src/flexalloc_xnvme_env.c:368 | a poke processes completions and keeps the invariant |
| StripeEngine.Engine.Drain | src/flexalloc_xnvme_env.c:383 | the wait processes completions until nothing is in flight |
| StripeEngine.Engine.Run | src/flexalloc_xnvme_env.c:336-385 | returns the initial loop's error; after the loop and the wait each member's commands are a prefix of its plan; with no failed call each member with a piece sent its whole plan |
| StripeEngine.FirstNonzeroEcount | src/flexalloc_xnvme_env.c:394-399 | corrected: the loop over the records returns the first nonzero error count, or 0 |
| StripeEngine.Engine.FirstEcount | src/flexalloc_xnvme_env.c:394-399 | corrected: once nothing is in flight, the loop over `cb_args` returns the first nonzero error count of the run |
| StripeEngine.Engine.FirstEcountAsWritten | src/flexalloc_xnvme_env.c:394-399 | as written: the loop reads member 0's record every round, so it returns member 0's error count |
| StripeEngine.DrainedRun | src/flexalloc_xnvme_env.c:382-399 | after the wait each error count counts its member's failed completions, and a member with no refused resubmission sent its whole plan |
| StripeEngine.StrpSeqX | src/flexalloc_xnvme_env.c:307-403 | misalignment returns 1 and a failed queue init its error, both with no command; otherwise the initial loop ends with `LaunchErr`, the corrected result is `Aggregate` and the as-written one `AggregateAsWritten` of the same run; every member's commands are a prefix of its plan, and a clean run sends every plan |

## Left out

- The source does not check that `fla_strp_params` is consistent (nonzero block size, chunk and object size; `obj_tnbytes == nobjs * member bytes`). The model assumes the nonzero divisors (`Divisors`); `ObjSlbaRoundRobin` also takes the size relation as a hypothesis.
- StripeEngine.StrpSeqX: requires the geometry `Sane` for a nonempty stripe. That means block-aligned chunks of at most 2^16 blocks, and a buffer cursor that cannot wrap 2^64. The source does not check this. Outside it the cursor arithmetic wraps, and the model does not say which commands are then issued.
- StripeEngine.StrpSeqX: requires `nobjs <= 512`, the size of `cb_args`. A larger stripe width overflows the array in the source and is not modelled.
- StripeEngine.StrpSeqX: requires that every member's first submission is eventually answered with something other than -EBUSY or -EAGAIN (`Settles`). Endless backpressure would loop forever in the source.
- The callback's `submitted`, `completed` and `ecount` counters are `uint32_t`; the model counts with unbounded naturals, so their wrap-around after 2^32 commands is not modelled.
- The queue depth (`nobjs * 2`) and the ordering of completions are not modelled beyond "any member in flight may complete next".
- The return value of `xnvme_queue_wait` is an independent input (`Env.waitRet`), and so is that of `xnvme_queue_put_cmd_ctx`, whose error only prints.
- ChunkedIo.SyncSeq: requires `mdts_naddrs >= 1` and `elba + mdts_naddrs < 2^64` (`Chunkable`). With `mdts_naddrs == 0` the source loops forever, and with a wrapping `slba` it restarts at block 0; neither is modelled.
- The xNVMe range helpers (`fla_xne_lba_range_from_slba_naddrs`, `fla_xne_lba_range_from_offset_nbytes`) are foreign code; their result is an input (`LbaRange`), assumed well-formed where `PlanShape` needs it.
- The `FLA_XNVME_IGNORE_MDTS` build variant, which sends a whole range as one command, is not modelled.
- Messages printed by `FLA_ERR`, `FLA_ERR_ERRNO`, `xnvmec_perr` and `xnvme_cmd_ctx_pr` are left out; only return values are modelled.
- Buffer contents are not modelled; commands carry the buffer offset they would read or write.
- The widths of the `fla_strp_params` fields are not part of this model's sources (`struct fla_strp_params` is declared elsewhere). The model takes every field as `uint64_t` except `strp_nobjs`, a `uint32_t`. If `dev_lba_nbytes` were a `uint32_t`, the products at src/flexalloc_xnvme_env.c:240 and :379 would wrap at 2^32. The model computes them with the 64-bit `Mul64` in `NextSbufNbytes` and `AfterFirst`.
- StripePlan.PlanSlbaRoundRobin: takes `RoundRobinGeometry` as a hypothesis (members side by side, a chunk inside one member, no wrap of the translated bytes). The source does not check this layout, and outside it the statement is not made.
- StripePlan.SbufSlbaRoundRobin: takes `RoundRobinGeometry` as a hypothesis, for the same reason.
- StripeEngine.Engine.StartMember: uses the corrected first block count (`FirstNlbsIntended`, bounded by the bytes left after the member's offset), not the count as written at src/flexalloc_xnvme_env.c:225-232; `StripeLayout.FirstNlbsAsWrittenAtPiece` proves the two agree exactly for member 0 and for members whose piece is a whole chunk, and `StripeLayout.FirstNlbsOverrun` shows the overrun where they differ.
- StripePlan.PlanFirst: uses the corrected first block count, as `StartMember` does; the count as written is `StripeTranslate.FirstNlbs`.
- StripeEngine.Engine.FirstEcount: the corrected loop, which reads each member's record. The loop as written, which reads member 0's record every round, is `StripeEngine.Engine.FirstEcountAsWritten`.
- StripeEngine.StrpSeqX: its `err` is the corrected error report (`Aggregate`), and `errAsWritten` is the one src/flexalloc_xnvme_env.c:382-399 computes; the commands it issues are those of the corrected first block count.

## Findings

| source | as written | input that shows it | evidently intended | confidence | as-written member | corrected member |
|---|---|---|---|---|---|---|
| src/flexalloc_xnvme_env.c:225-232 | `calc_strp_obj_first_nlbs` bounds a member's first command by `xfer_nbytes`, the whole transfer length | nobjs 2, chunk 8 blocks, transfer 12 blocks from offset 0: member 1 starts at block 8 with 8 blocks, past the 12-block buffer | bound by the bytes remaining after the member's offset, `xfer_nbytes - sbuf_nbytes` | not executed | StripeLayout.FirstNlbsOverrun | StripeLayout.FirstNlbsIntendedAtPiece |
| src/flexalloc_xnvme_env.c:394-399 | the error-count loop reads `cb_args->cb_args.ecount`, member 0's, on every iteration | two members, member 1's command completes with an error: the result is 0 | check `cb_arg->cb_args.ecount` of each member | not executed | StripeEngine.AsWrittenMissesOtherMembers | StripeEngine.Aggregate |
| src/flexalloc_xnvme_env.c:340-385 | after `goto close_queue` the error of the initial loop is overwritten by `err = FLA_ERR(ret < 0, ...)` | a first submission answered with -EIO and a successful wait: the result is 0 | keep the initial loop's error | not executed | StripeEngine.AsWrittenLosesEarlyError | StripeEngine.Aggregate |
