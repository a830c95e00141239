/**
 * The records exchanged between the page script, the side panel and the
 * background worker over the extension's message channel.
 */
module Protocol {
  import opened Wrappers

  const GetFlowXmlAction: string := "getFlowXml"
  const SaveFlowXmlAction: string := "saveFlowXml"
  const GetCurrentTabUrlAction: string := "getCurrentTabUrl"

  /** A message `{action, flowId?, xml?, url?}`; a field the sender leaves out (or sets to null) is `None`. */
  datatype Request = Request(action: string, flowId: Option<string>, xml: Option<string>, url: Option<string>)

  /** The bridge's answer `{success, xml?, error?}`. */
  datatype Reply = Reply(success: bool, xml: Option<string>, error: Option<string>)

  function Fetched(xml: string): Reply {
    Reply(true, Some(xml), None)
  }

  function Failed(message: string): Reply {
    Reply(false, None, Some(message))
  }

  /** Exactly one of `xml` and `error` is present, and `success` says which. */
  predicate WellFormed(r: Reply) {
    (r.success <==> r.xml.Some?) && (r.xml.Some? <==> r.error.None?)
  }

  /** A possibly absent string as JavaScript writes it into a concatenation. */
  function Str(o: Option<string>): string {
    if o.Some? then o.value else "undefined"
  }
}
