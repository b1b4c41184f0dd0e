/** What entries, elements and params hold, as values. */
module Records {
  import opened Bytes

  const MAX_PARAM_NAME_LENGTH := 32
  const MAX_ELEMENT_NAME_LENGTH := 32
  const MAX_PROCID_LENGTH := 128
  const MAX_HOSTNAME_LENGTH := 255
  const MAX_APP_NAME_LENGTH := 48
  const MAX_MSGID_LENGTH := 32

  datatype ParamRec = ParamRec(name: Str, value: Str)

  datatype ElementRec = ElementRec(name: Str, params: seq<ParamRec>)

  /** An empty hostname or procid stands for the default one. */
  datatype EntryRec = EntryRec(
    prival: int,
    hostname: Str,
    appName: Str,
    procid: Str,
    msgid: Str,
    elements: seq<ElementRec>,
    message: Str)
}
