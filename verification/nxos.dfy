/**
 The NXOS inquiry (`vtp_info_nx`): classify `show vtp status`, and only when
 the status pattern matches nowhere, fall back to `show feature | grep vtp`.
 The second reply is a parameter; it is consulted only on the fallback path,
 and `commands` records which commands were issued, in order.
 */
module Nxos {
  import opened Wrappers
  import opened Replies
  import opened Patterns

  const FeatureCommand := "show feature | grep vtp"

  const FeatureDisabled := "NXOS - VTP feature is disabled."
  const FeatureEnabled := "VTP feature is enabled, but unable to retrieve VTP Operating Mode."

  /** Mode for the word captured by the status pattern; case-sensitive, `""` when unrecognised. */
  function StatusMode(w: string): string {
    if w == "Transparent" then "transparent"
    else if w == "Client" then "client"
    else if w == "Server" then "server"
    else if w == "Off" then "off"
    else ""
  }

  /** Mode for the word captured by the feature pattern, `""` when unrecognised. */
  function FeatureMode(w: string): string {
    if w == "disabled" then FeatureDisabled
    else if w == "enabled" then FeatureEnabled
    else ""
  }

  /** The commands issued and the mode string, or the fault that ended the task. */
  datatype Inquiry = Inquiry(commands: seq<string>, outcome: Result<string, Fault>)

  function Classify(status: Value, feature: string): (r: Inquiry)
    ensures r.commands == [StatusCommand] || r.commands == [StatusCommand, FeatureCommand]
    ensures |r.commands| == 2 <==> status.Str? && Search(StatusPattern, status.text).None?
    ensures r.outcome == Failure(NotText) <==> !status.Str?
    ensures r.outcome == Failure(NoFeatureMatch) <==> |r.commands| == 2 && Search(FeaturePattern, feature).None?
    ensures r.outcome.Failure? ==> r.outcome.error in {NotText, NoFeatureMatch}
  {
    if !status.Str? then Inquiry([StatusCommand], Failure(NotText))
    else
      match Search(StatusPattern, status.text)
      case Some(hit) => Inquiry([StatusCommand], Success(StatusMode(hit.word)))
      case None =>
        match Search(FeaturePattern, feature)
        case Some(hit) => Inquiry([StatusCommand, FeatureCommand], Success(FeatureMode(hit.word)))
        case None => Inquiry([StatusCommand, FeatureCommand], Failure(NoFeatureMatch))
  }

  /**
   When the status text matches, the leftmost match decides: `Transparent`,
   `Client`, `Server` and `Off` give their lower-case names, any other word
   gives `""`, and the feature command is never issued.
   */
  lemma StatusDecides(s: string, feature: string, i: nat, w: string)
    requires Leftmost(StatusPattern, s, i, w)
    ensures Classify(Str(s), feature).commands == [StatusCommand]
    ensures w == "Transparent" ==> Classify(Str(s), feature).outcome == Success("transparent")
    ensures w == "Client" ==> Classify(Str(s), feature).outcome == Success("client")
    ensures w == "Server" ==> Classify(Str(s), feature).outcome == Success("server")
    ensures w == "Off" ==> Classify(Str(s), feature).outcome == Success("off")
    ensures w !in {"Transparent", "Client", "Server", "Off"} ==> Classify(Str(s), feature).outcome == Success("")
  {
    SearchSomeIff(StatusPattern, s, i, w);
  }

  /**
   When the status pattern matches nowhere, both commands are issued; the
   leftmost feature word decides the mode, and no feature match is a fault.
   */
  lemma FallbackDecides(s: string, feature: string)
    requires forall t: nat :: !MatchesAt(StatusPattern, s, t)
    ensures Classify(Str(s), feature).commands == [StatusCommand, FeatureCommand]
    ensures (forall t: nat :: !MatchesAt(FeaturePattern, feature, t)) ==> Classify(Str(s), feature).outcome == Failure(NoFeatureMatch)
    ensures forall i: nat, w :: Leftmost(FeaturePattern, feature, i, w) ==>
      Classify(Str(s), feature).outcome == Success(if w == "disabled" then FeatureDisabled else if w == "enabled" then FeatureEnabled else "")
  {
    SearchNoneIff(StatusPattern, s);
    SearchNoneIff(FeaturePattern, feature);
    forall i: nat, w | Leftmost(FeaturePattern, feature, i, w)
      ensures Classify(Str(s), feature).outcome == Success(FeatureMode(w))
    {
      FeatureDecides(s, feature, i, w);
    }
  }

  /** With no status match, the leftmost feature match with word `w` decides the mode. */
  lemma FeatureDecides(s: string, feature: string, i: nat, w: string)
    requires forall t: nat :: !MatchesAt(StatusPattern, s, t)
    requires Leftmost(FeaturePattern, feature, i, w)
    ensures Classify(Str(s), feature) == Inquiry([StatusCommand, FeatureCommand], Success(FeatureMode(w)))
  {
    SearchNoneIff(StatusPattern, s);
    SearchSomeIff(FeaturePattern, feature, i, w);
  }

  /** If the status reply matches (or is not text), the feature reply is irrelevant. */
  lemma FeatureNotConsulted(status: Value, f1: string, f2: string)
    requires status.Str? ==> exists t: nat :: MatchesAt(StatusPattern, status.text, t)
    ensures Classify(status, f1) == Classify(status, f2)
  {
    if status.Str? {
      SearchNoneIff(StatusPattern, status.text);
    }
  }

  /** `VTP Operating Mode : Server` on its own is classified `server`. */
  lemma ServerExample(feature: string)
    ensures Classify(Str("VTP Operating Mode : Server"), feature) == Inquiry([StatusCommand], Success("server"))
  {
    LineMatches(StatusPattern, ':', "Server");
    assert Head(StatusPattern) + [' ', ':', ' '] + "Server" == "VTP Operating Mode : Server";
    StatusDecides("VTP Operating Mode : Server", feature, 0, "Server");
  }

  /** An unrecognised status word gives `""` without the feature command. */
  lemma UnknownWordExample(feature: string)
    ensures Classify(Str("VTP Operating Mode : Foo"), feature) == Inquiry([StatusCommand], Success(""))
  {
    LineMatches(StatusPattern, ':', "Foo");
    assert Head(StatusPattern) + [' ', ':', ' '] + "Foo" == "VTP Operating Mode : Foo";
    StatusDecides("VTP Operating Mode : Foo", feature, 0, "Foo");
  }

  /**
   What the two searches find in status text too short to hold the head
   and in `vtp 1 disabled`. The feature line is a parameter equal to the
   literal, not the literal itself, so that the verifier does not try to
   evaluate the searches on a literal argument.
   */
  lemma DisabledSearches(s: string, f: string)
    requires |s| < |Head(StatusPattern)| && f == "vtp 1 disabled"
    ensures Search(StatusPattern, s).None?
    ensures Search(FeaturePattern, f) == Some(Hit(0, "disabled"))
  {
    TooShort(StatusPattern, s);
    SearchNoneIff(StatusPattern, s);
    LineMatches(FeaturePattern, '1', "disabled");
    assert Head(FeaturePattern) + [' ', '1', ' '] + "disabled" == f;
    SearchSomeIff(FeaturePattern, f, 0, "disabled");
  }

  /**
   Status text too short to hold the head (such as `% Invalid command`)
   and `vtp 1 disabled` give the feature-disabled sentence after two commands.
   */
  lemma DisabledExample(s: string, f: string)
    requires |s| < |Head(StatusPattern)| && f == "vtp 1 disabled"
    ensures Classify(Str(s), f) == Inquiry([StatusCommand, FeatureCommand], Success(FeatureDisabled))
  {
    DisabledSearches(s, f);
  }
}
