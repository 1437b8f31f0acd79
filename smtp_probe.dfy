/**
 * The classification in `verify_email_smtp` of DNS.py. The SMTP session
 * (connect, HELO, MAIL FROM, RCPT TO, QUIT) is not modelled: its outcome is
 * given, either the code and text of the server's reply to RCPT TO, or one of
 * the caught transport failures (SMTPConnectError, SMTPServerDisconnected,
 * SMTPResponseException, socket.error) with the text `str(e)` gives.
 */
module SmtpProbe {
  import opened Wrappers
  import opened Decimal

  /** The reply text is the reply as Python's `str()` renders it inside an f-string. */
  datatype RcptResult =
    | Reply(code: int, text: string)
    | TransportFailure(diagnostic: string)

  /** The first element of the pair `verify_email_smtp` returns. */
  datatype ProbeStatus = Deliverable | Undeliverable | Error

  const DeliverableMessage := "Mailbox exists and is deliverable"
  const CodeLabel := "SMTP response code: "
  const TextLabel := ", message: "

  /** The reply codes taken as acceptance of the recipient. */
  predicate IsAccepted(code: int) {
    code == 250 || code == 251
  }

  /** The message for a refused recipient: the code in decimal, then the reply text. */
  function RefusalMessage(code: int, text: string): string {
    CodeLabel + IntToString(code) + TextLabel + text
  }

  /** The text of `s` before its first occurrence of `c` (all of `s` if there is none). */
  function TakeUntil(s: string, c: char): (t: string)
    ensures |t| <= |s| && t == s[..|t|]
    ensures forall k :: 0 <= k < |t| ==> t[k] != c
    ensures |t| < |s| ==> s[|t|] == c
  {
    if s == [] || s[0] == c then [] else [s[0]] + TakeUntil(s[1..], c)
  }

  /** Reads the reply code back out of a refusal message. */
  function CodeOf(message: string): Option<int> {
    if |message| >= |CodeLabel| && message[..|CodeLabel|] == CodeLabel
    then ParseInt(TakeUntil(message[|CodeLabel|..], ','))
    else None
  }

  /** The code of a refusal message is the one it was written from, whatever the reply text. */
  lemma RefusalMessageCarriesCode(code: int, text: string)
    ensures CodeOf(RefusalMessage(code, text)) == Some(code)
  {
    var digits := IntToString(code);
    var m := RefusalMessage(code, text);
    var after := m[|CodeLabel|..];
    assert m[..|CodeLabel|] == CodeLabel;
    assert after == digits + TextLabel + text;
    IntToStringAlphabet(code);
    var t := TakeUntil(after, ',');
    assert forall k :: 0 <= k < |digits| ==> after[k] != ',' by {
      forall k | 0 <= k < |digits| ensures after[k] != ',' {
        assert after[k] == digits[k];
      }
    }
    assert after[|digits|] == ',';
    assert |t| == |digits|;
    assert t == digits;
    IntToStringRoundTrip(code);
  }

  /** `verify_email_smtp`, given what the session produced. */
  function VerifyEmailSmtp(result: RcptResult): (r: (ProbeStatus, string))
    ensures r.0 == Deliverable <==> result.Reply? && IsAccepted(result.code)
    ensures r.0 == Error <==> result.TransportFailure?
    ensures r.0 == Deliverable ==> r.1 == DeliverableMessage
    ensures r.0 == Undeliverable ==> result.Reply? && CodeOf(r.1) == Some(result.code)
    ensures r.0 == Undeliverable ==>
              result.Reply? && |r.1| >= |result.text| && r.1[|r.1| - |result.text|..] == result.text
    ensures r.0 == Error ==> r.1 == result.diagnostic
  {
    match result
    case Reply(code, text) =>
      if IsAccepted(code) then (Deliverable, DeliverableMessage)
      else
        RefusalMessageCarriesCode(code, text);
        (Undeliverable, RefusalMessage(code, text))
    case TransportFailure(text) => (Error, text)
  }
}
