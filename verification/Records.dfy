/** The three record kinds the instrument writes and the oracle reads back (src/harness/schema.py). */
module Records {
  import opened Wrappers

  type Cid = string

  /** Emitted by the boundary, once per mediated call, before the tool runs. */
  datatype MediationEvent = MediationEvent(cid: Cid, admitted: bool, reason: string)

  /** One line of the ledger file.  Ingress and effect rows share the file and are told apart only by
      which optional field they carry, so one datatype holds both. */
  datatype Row = Row(
    cid: Cid,
    ingressTs: Option<int>,
    effectId: Option<string>,
    tool: string,
    audience: string,
    action: string,
    resource: string,
    recipient: Option<string>,
    ingressDigest: string,
    effectDigest: string,
    effectPayload: Option<string>,   // digest of the governing argument value
    labels: seq<string>
  )

  /** The fields of the sealed `IntendedInvocation` that the predicates below compare. */
  datatype Intent = Intent(
    cid: Cid,
    tool: string,
    audience: string,
    requestDigest: string,
    oauthActor: (string, string),
    authority: set<(string, string)>
  )
}
