/**
 * The reply of one synchronous NVMe command as flexalloc_xnvme_env.c reads
 * it: the submission's return value and the completion status. A command
 * failed when either is nonzero; the caller then reports the submission
 * error, or -EIO when only the status was bad.
 */
module SyncReply {
  import opened Util

  datatype Reply = Reply(submitErr: i32, status: int)

  /** The test `err || xnvme_cmd_ctx_cpl_status(&ctx)`. */
  predicate Fails(rep: Reply) {
    rep.submitErr != 0 || rep.status != 0
  }

  /** The error a failed command yields, `err ? err : -EIO`, and 0 for a command that succeeded. */
  function ReplyErr(rep: Reply): (r: int)
    ensures r == 0 <==> !Fails(rep)
    ensures rep.submitErr != 0 ==> r == rep.submitErr
    ensures rep.submitErr == 0 && rep.status != 0 ==> r == -EIO
  {
    if Fails(rep) then (if rep.submitErr != 0 then rep.submitErr else -EIO) else 0
  }
}
