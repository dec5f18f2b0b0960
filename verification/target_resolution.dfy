/**
  AFSRetrieveTargetFID: follows the target identifiers of symbolic links and
  mount points, asking the file server to evaluate each hop, until it reaches
  a directory. The source loop has no bound; the model gives it a hop budget
  (fuel) and reports when the budget runs out.
*/
module TargetResolution {
  import opened Types

  datatype Resolution =
    | Resolved(fileId: FileId, status: NtStatus)   // a directory was reached
    | EvalFailed(status: NtStatus)                 // an evaluation failed; its status is returned
    | OutOfHops                                    // the budget ran out before either happened

  /** The first identifier evaluated: the entry's target when its hash is set, else the entry itself. */
  function StartFid(info: ObjectInfo): (fid: FileId)
    ensures info.targetFileId.hash != 0 ==> fid == info.targetFileId
    ensures info.targetFileId.hash == 0 ==> fid == info.fileId
  {
    if info.targetFileId.hash != 0 then info.targetFileId else info.fileId
  }

  /** The outcome of at most `fuel` evaluations starting from fid. */
  function Resolve(eval: Evaluator, fid: FileId, fuel: nat): Resolution
    decreases fuel
  {
    if fuel == 0 then OutOfHops
    else
      var r := eval(fid);
      if !NtSuccess(r.status) then EvalFailed(r.status)
      else if r.info.fileType == FileTypeDirectory then Resolved(r.info.fileId, r.status)
      else Resolve(eval, r.info.targetFileId, fuel - 1)
  }

  /**
    The loop of AFSRetrieveTargetFID. fileId is the caller's out-parameter:
    it is written only when a directory is reached.
  */
  method RetrieveTargetFid(info: ObjectInfo, fileIdIn: FileId, eval: Evaluator, fuel: nat)
    returns (status: NtStatus, fileId: FileId, exhausted: bool)
    ensures Resolve(eval, StartFid(info), fuel).Resolved? ==>
              !exhausted && fileId == Resolve(eval, StartFid(info), fuel).fileId &&
              status == Resolve(eval, StartFid(info), fuel).status
    ensures Resolve(eval, StartFid(info), fuel).EvalFailed? ==>
              !exhausted && fileId == fileIdIn && status == Resolve(eval, StartFid(info), fuel).status
    ensures Resolve(eval, StartFid(info), fuel).OutOfHops? <==> exhausted
  {
    var target := if info.targetFileId.hash != 0 then info.targetFileId else info.fileId;
    status := StatusSuccess;
    fileId := fileIdIn;
    exhausted := false;
    var hops: nat := fuel;
    while true
      invariant hops <= fuel
      invariant fileId == fileIdIn
      invariant Resolve(eval, target, hops) == Resolve(eval, StartFid(info), fuel)
      decreases hops
    {
      if hops == 0 {
        exhausted := true;
        return;
      }
      var r := eval(target);
      status := r.status;
      if !NtSuccess(status) {
        return;
      }
      if r.info.fileType == FileTypeDirectory {
        fileId := r.info.fileId;
        return;
      }
      target := r.info.targetFileId;
      hops := hops - 1;
    }
  }

  /** Once the walk ends within a budget, a larger budget ends it the same way. */
  lemma {:induction false} ResolveStable(eval: Evaluator, fid: FileId, fuel: nat, more: nat)
    requires !Resolve(eval, fid, fuel).OutOfHops?
    requires fuel <= more
    ensures Resolve(eval, fid, more) == Resolve(eval, fid, fuel)
    decreases fuel
  {
    var r := eval(fid);
    if NtSuccess(r.status) && r.info.fileType != FileTypeDirectory {
      ResolveStable(eval, r.info.targetFileId, fuel - 1, more - 1);
    }
  }

  /** A successful walk ends on an identifier the server evaluated, with a success status, as a directory. */
  lemma {:induction false} ResolvedIsEvaluatedDirectory(eval: Evaluator, fid: FileId, fuel: nat)
    requires Resolve(eval, fid, fuel).Resolved?
    ensures NtSuccess(Resolve(eval, fid, fuel).status)
    ensures exists hop :: eval(hop).info.fileType == FileTypeDirectory &&
                          eval(hop).info.fileId == Resolve(eval, fid, fuel).fileId
    decreases fuel
  {
    var r := eval(fid);
    if r.info.fileType == FileTypeDirectory {
      assert eval(fid).info.fileId == Resolve(eval, fid, fuel).fileId;
    } else {
      ResolvedIsEvaluatedDirectory(eval, r.info.targetFileId, fuel - 1);
    }
  }

  /**
    An object whose evaluation succeeds, is not a directory and names itself as
    target is never resolved, whatever the budget: the source loop spins forever.
  */
  lemma {:induction false} SelfTargetNeverResolves(eval: Evaluator, fid: FileId, fuel: nat)
    requires NtSuccess(eval(fid).status)
    requires eval(fid).info.fileType != FileTypeDirectory
    requires eval(fid).info.targetFileId == fid
    ensures Resolve(eval, fid, fuel) == OutOfHops
    decreases fuel
  {
    if fuel > 0 {
      SelfTargetNeverResolves(eval, fid, fuel - 1);
    }
  }
}
