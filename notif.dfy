/** Messages on the monitor's control channel (sptt/notif.go). */
module Notif {

  const NOTIF_USER_LIST_UPDATE_ID: int := 1

  /** A message payload: Go's `interface{}`, of which only `nil` is ever sent. */
  datatype Payload = Nil | Text(text: string) | Number(n: int)

  datatype Notif = Notif(messageType: int, payload: Payload)

  /** The "the list of tracked accounts changed" message. */
  function NotifUserListUpdate(): (n: Notif)
    ensures n.messageType == NOTIF_USER_LIST_UPDATE_ID
    ensures n.payload == Nil
  {
    Notif(NOTIF_USER_LIST_UPDATE_ID, Nil)
  }

  /** Whether a message asks the monitor to re-read the account list. */
  predicate IsUserListUpdate(n: Notif) {
    n.messageType == NOTIF_USER_LIST_UPDATE_ID
  }

  /** The classifier recognises the constructor's message, whatever payload
      travels with that type, and nothing of another type. */
  lemma ClassifyUserListUpdate(n: Notif)
    ensures IsUserListUpdate(NotifUserListUpdate())
    ensures IsUserListUpdate(n) <==> n.messageType == 1
    ensures forall p :: IsUserListUpdate(n.(payload := p)) == IsUserListUpdate(n)
  {
  }
}
