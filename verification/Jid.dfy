/** User identifiers: types/jid.go. */
module Jid {
  import opened Bytes

  type uint16 = x: int | 0 <= x < 0x1_0000

  // s.whatsapp.net
  const DEFAULT_USER_SERVER: Bytes := [115, 46, 119, 104, 97, 116, 115, 97, 112, 112, 46, 110, 101, 116]
  const HIDDEN_USER_SERVER: Bytes := [108, 105, 100]                                     // lid
  const MESSENGER_SERVER: Bytes := [109, 115, 103, 114]                                  // msgr
  const INTEROP_SERVER: Bytes := [105, 110, 116, 101, 114, 111, 112]                     // interop
  const HOSTED_SERVER: Bytes := [104, 111, 115, 116, 101, 100]                           // hosted
  const HOSTED_LID_SERVER: Bytes := [104, 111, 115, 116, 101, 100, 46, 108, 105, 100]    // hosted.lid

  const WHATSAPP_DOMAIN: byte := 0
  const LID_DOMAIN: byte := 1
  const HOSTED_DOMAIN: byte := 128
  const HOSTED_LID_DOMAIN: byte := 129

  datatype JID = JID(user: Bytes, rawAgent: byte, device: uint16, integrator: uint16, server: Bytes) {

    function ActualAgent(): byte
    {
      if server == DEFAULT_USER_SERVER then WHATSAPP_DOMAIN
      else if server == HIDDEN_USER_SERVER then LID_DOMAIN
      else if server == HOSTED_SERVER then HOSTED_DOMAIN
      else if server == HOSTED_LID_SERVER then HOSTED_LID_DOMAIN
      else rawAgent
    }
  }

  function NewJID(user: Bytes, server: Bytes): JID
  {
    JID(user, 0, 0, 0, server)
  }

  /** An agent that names no domain leaves the server empty, as the code's empty default case does. */
  function NewADJID(user: Bytes, agent: byte, device: byte): JID
  {
    if agent == LID_DOMAIN then JID(user, 0, device, 0, HIDDEN_USER_SERVER)
    else if agent == HOSTED_DOMAIN then JID(user, 0, device, 0, HOSTED_SERVER)
    else if agent == HOSTED_LID_DOMAIN then JID(user, 0, device, 0, HOSTED_LID_SERVER)
    else if agent == WHATSAPP_DOMAIN then JID(user, 0, device, 0, DEFAULT_USER_SERVER)
    else JID(user, agent, device, 0, [])
  }
}
