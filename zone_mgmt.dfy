/**
 * Zone management of flexalloc_xnvme_env.c: fla_xne_dev_znd_send_mgmt
 * sends one Zone Management Send command, and only to a zoned namespace.
 * The device's reply is a parameter.
 */
module ZoneMgmt {
  import opened Util
  import opened SyncReply

  /** The namespace kinds of the device geometry. */
  datatype GeoType = Unknown | Conventional | Zoned | KeyValue

  /** A Zone Management Send command: start block, the select-all flag and the action code. */
  datatype MgmtCmd = MgmtCmd(slba: u64, all: bool, act: nat)

  /** The return value and the commands the device received. */
  datatype MgmtResult = MgmtResult(err: int, issued: seq<MgmtCmd>)

  /**
   * fla_xne_dev_znd_send_mgmt: -EINVAL without a command when the namespace
   * is not zoned; otherwise one command whose failure is reported as the
   * submission error, or -EIO for a bad completion status.
   */
  function ZndSendMgmt(geoType: GeoType, slba: u64, act: nat, all: bool, rep: Reply): (r: MgmtResult)
    ensures geoType != Zoned ==> r.err == -EINVAL && r.issued == []
    ensures geoType == Zoned ==> r.issued == [MgmtCmd(slba, all, act)]
    ensures geoType == Zoned && rep.submitErr != 0 ==> r.err == rep.submitErr
    ensures geoType == Zoned && rep.submitErr == 0 && rep.status != 0 ==> r.err == -EIO
    ensures r.err == 0 <==> geoType == Zoned && !Fails(rep)
  {
    if geoType != Zoned then MgmtResult(-EINVAL, [])
    else MgmtResult(ReplyErr(rep), [MgmtCmd(slba, all, act)])
  }
}
