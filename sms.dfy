/**
 * What `handleIncomingSms` (App.js lines 71-85) computes from an incoming
 * message: the record it would forward, built only when at least one
 * destination is listed. The handler only logs this record; nothing is sent.
 */
module Sms {
  import opened Wrappers

  /** The fields of the platform's message object that the handler reads.
      A field the platform did not set is `None`. */
  datatype Message = Message(originatingAddress: Option<string>, body: Option<string>)

  /** The `smsDetails` record; `timestamp` is the clock's ISO-8601 text. */
  datatype Details = Details(from: string, body: string, timestamp: string)

  /** The record together with the addresses it would go to. */
  datatype Forward = Forward(recipients: seq<string>, details: Details)

  /** JavaScript's `v || fallback` on a string that may be missing: a
      missing value and the empty string are both falsy. */
  function OrElse(v: Option<string>, fallback: string): (r: string)
    ensures v.Some? && v.value != "" ==> r == v.value
    ensures v.None? || v.value == "" ==> r == fallback
    ensures r == "" ==> fallback == ""
  {
    if v.Some? && v.value != "" then v.value else fallback
  }

  /** The `smsDetails` record for message `m` received at `timestamp`. */
  function DetailsOf(m: Message, timestamp: string): (d: Details)
    ensures d.from != ""
    ensures m.originatingAddress.Some? && m.originatingAddress.value != ""
            ==> d.from == m.originatingAddress.value
    ensures m.originatingAddress.None? || m.originatingAddress.value == ""
            ==> d.from == "Unknown"
    ensures d.body == m.body.GetOr("")
    ensures d.timestamp == timestamp
  {
    Details(OrElse(m.originatingAddress, "Unknown"), OrElse(m.body, ""), timestamp)
  }

  /** What the handler would forward when the list is `emails`: nothing for
      an empty list, otherwise the message's record to every listed
      address. */
  function Forwarding(emails: seq<string>, m: Message, timestamp: string): (f: Option<Forward>)
    ensures f.Some? <==> |emails| > 0
    ensures f.Some? ==> f.value.recipients == emails && f.value.details == DetailsOf(m, timestamp)
  {
    if |emails| > 0 then Some(Forward(emails, DetailsOf(m, timestamp))) else None
  }
}
