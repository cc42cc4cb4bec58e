/** Close codes (section 7.4 of RFC 6455). */
module CloseCodes {
  import opened Bytes

  type Code = c: nat | c < 0x1_0000 witness 1000

  /** Codes an endpoint may put in a CLOSE frame: defined by the protocol, registered or private use. */
  ghost predicate MayBeSent(code: Code)
  {
    code in {1000, 1001, 1002, 1003, 1007, 1008, 1009, 1010, 1011} || 3000 <= code < 5000
  }

  /** `is_valid_close_code`, by ranges. */
  function IsValid(code: Code): (ok: bool)
    ensures ok <==> MayBeSent(code)
  {
    if code < 1000 then false
    else if 1000 <= code <= 1003 then true
    else if 1004 <= code <= 1006 then false
    else if 1007 <= code <= 1011 then true
    else if 1012 <= code <= 2999 then false
    else code <= 4999
  }

  /** `sanitize_close_code`: a code that may be sent is kept, any other becomes 1002. */
  function Sanitize(code: Code): (r: Code)
    ensures MayBeSent(r) && r == if MayBeSent(code) then code else 1002
  {
    if IsValid(code) then code else 1002
  }

  /** Code of `parse_close_payload`: 1000 without a code, 1002 for one that may not be sent. */
  function ReceivedCode(payload: seq<byte>): (code: Code)
    ensures MayBeSent(code) && (|payload| < 2 ==> code == 1000)
    ensures forall sent: Code | |payload| >= 2 && payload[0] == sent / 256 && payload[1] == sent % 256 ::
              code == if MayBeSent(sent) then sent else 1002
  {
    if |payload| < 2 then 1000 else Sanitize(payload[0] as nat * 256 + payload[1])
  }

  /** Reason of `parse_close_payload`, as bytes. */
  function ReceivedReason(payload: seq<byte>): (reason: seq<byte>)
    ensures |reason| == (if |payload| < 2 then 0 else |payload| - 2) && reason <= payload[|payload| - |reason|..]
  {
    if |payload| < 2 then [] else payload[2..]
  }
}
