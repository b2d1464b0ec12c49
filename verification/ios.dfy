/**
 The IOS inquiry (`vtp_info_ios`): the structured reply to `show vtp status`
 is indexed as `reply["vtp"]["operating_mode"]`; a non-null value is the
 mode as it stands, `None` becomes a fixed sentence, and a failed index is a
 fault. There is no fallback command on this path.
 */
module Ios {
  import opened Wrappers
  import opened Replies

  const UnableMode := "Unable to retrieve VTP mode."

  /** The key path the mode is read from. */
  const ModePath: seq<string> := ["vtp", "operating_mode"]

  function Classify(reply: Value): (r: Result<Value, Fault>)
    ensures r.Success? ==> r.value != Null
    ensures r.Failure? ==> r.error in {NotSubscriptable, MissingKey("vtp"), MissingKey("operating_mode")}
    ensures r == Failure(MissingKey("vtp")) <==> reply.Dict? && "vtp" !in reply.entries
    ensures r == Failure(MissingKey("operating_mode")) <==>
      reply.Dict? && "vtp" in reply.entries && reply.entries["vtp"].Dict? && "operating_mode" !in reply.entries["vtp"].entries
    ensures r == Failure(NotSubscriptable) <==>
      !reply.Dict? || ("vtp" in reply.entries && !reply.entries["vtp"].Dict?)
  {
    match Lookup(reply, "vtp")
    case Failure(e) => Failure(e)
    case Success(vtp) =>
      match Lookup(vtp, "operating_mode")
      case Failure(e) => Failure(e)
      case Success(mode) => Success(if mode == Null then Str(UnableMode) else mode)
  }

  /**
   Against the reference path lookup: the mode is defined exactly when the
   path `vtp.operating_mode` is, a non-null value passes through verbatim and
   a null one becomes the fixed sentence.
   */
  lemma ClassifyFollowsPath(reply: Value)
    ensures Classify(reply).Success? <==> Get(reply, ModePath).Some?
    ensures Get(reply, ModePath) == Some(Null) ==> Classify(reply) == Success(Str(UnableMode))
    ensures Get(reply, ModePath).Some? && Get(reply, ModePath).value != Null ==>
      Classify(reply) == Success(Get(reply, ModePath).value)
  {
  }

  /** A reply whose `vtp.operating_mode` is `transparent` is classified `transparent`. */
  lemma TransparentExample()
    ensures Classify(Dict(map["vtp" := Dict(map["operating_mode" := Str("transparent")])])) == Success(Str("transparent"))
  {
  }
}
