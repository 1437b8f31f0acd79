/**
 * The `/verify-email` handler of DNS.py as a pipeline: it builds a response
 * record, fills it in stage by stage (syntax, MX lookup, SMTP probe) and stops
 * at the first stage that fails. The resolver and the SMTP session are given
 * as functions; the pipeline reports which of them it consulted, in order.
 */
module Verification {
  import opened Wrappers
  import opened EmailSyntax
  import opened MxLookup
  import SmtpProbe

  /** `response['status']`. */
  datatype Status = Valid | Undeliverable | Error

  /** `response['details']`; `None` is JSON null. */
  datatype Details = Details(
    syntaxValid: bool,
    mxRecordFound: bool,
    mxRecord: Option<string>,
    smtpStatus: Option<SmtpProbe.ProbeStatus>,
    smtpMessage: Option<string>)

  /** The response dictionary; `message` is None while the key is not set yet. */
  datatype Response = Response(email: Option<string>, status: Status, message: Option<string>, details: Details)

  /** What the handler gives back: a JSON reply with its HTTP status, or an exception that escapes it. */
  datatype Outcome = Reply(httpStatus: int, body: Response) | Unhandled

  /** A consultation of the outside world. */
  datatype Call = LookupMx(domain: string) | ProbeMailbox(recipient: string, host: string)

  const InitialDetails := Details(false, false, None, None, None)

  const EmailRequired := "Email is required"
  const InvalidSyntax := "Invalid email syntax"
  const NoMxRecord := "Domain does not have an MX record"
  const ValidMessage := "Email is valid and deliverable"
  const UndeliverableMessage := "Mailbox does not exist or cannot be verified"
  const SmtpErrorMessage := "An error occurred during SMTP verification"

  /** Python's `not email` for the value of the `email` key: missing, null or empty. */
  predicate IsMissing(email: Option<string>) {
    email.None? || email.value == []
  }

  /** The details and the status agree with the order of the stages. */
  predicate StagesAgree(r: Response) {
    && (r.details.mxRecordFound ==> r.details.syntaxValid && r.details.mxRecord.Some?)
    && (r.details.smtpStatus.Some? ==> r.details.mxRecordFound)
    && (r.details.smtpStatus.Some? <==> r.details.smtpMessage.Some?)
    && (r.status == Valid <==> r.details.smtpStatus == Some(SmtpProbe.Deliverable))
    && (r.status == Error <==> r.details.smtpStatus == Some(SmtpProbe.Error))
  }

  /** `verify_email`, with the request's `email` value and the two outside services given. */
  method VerifyEmail(
    email: Option<string>,
    resolve: string -> MxAnswer,
    rcpt: (string, string) -> SmtpProbe.RcptResult)
    returns (outcome: Outcome, calls: seq<Call>)
    // Every reply echoes the input, carries a message and is 400 exactly when the email is missing.
    ensures outcome.Reply? ==>
              && outcome.body.email == email
              && outcome.body.message.Some?
              && (outcome.httpStatus == 400 <==> IsMissing(email))
              && (outcome.httpStatus == 400 || outcome.httpStatus == 200)
              && StagesAgree(outcome.body)
    // The verdict is valid exactly when the address is present and well formed, its domain has
    // records and the first exchange accepts the recipient with 250 or 251.
    ensures outcome.Reply? && outcome.body.status == Valid <==>
              && !IsMissing(email) && IsValidEmailSyntax(email.value)
              && resolve(DomainOf(email.value)).Records? && resolve(DomainOf(email.value)).records != []
              && var reply := rcpt(email.value, resolve(DomainOf(email.value)).records[0].exchange);
                 reply.Reply? && SmtpProbe.IsAccepted(reply.code)
    // It is an error exactly when that probe failed in transport.
    ensures outcome.Reply? && outcome.body.status == Error <==>
              && !IsMissing(email) && IsValidEmailSyntax(email.value)
              && resolve(DomainOf(email.value)).Records? && resolve(DomainOf(email.value)).records != []
              && rcpt(email.value, resolve(DomainOf(email.value)).records[0].exchange).TransportFailure?
    // Missing email: nothing consulted, status stays at its initial value, details at their defaults.
    ensures IsMissing(email) ==>
              && calls == []
              && outcome == Reply(400, Response(email, Undeliverable, Some(EmailRequired), InitialDetails))
    // Bad syntax: nothing consulted.
    ensures !IsMissing(email) && !IsValidEmailSyntax(email.value) ==>
              && calls == []
              && outcome == Reply(200, Response(email, Undeliverable, Some(InvalidSyntax), InitialDetails))
    // Good syntax: the domain after the last '@' is looked up first.
    ensures !IsMissing(email) && IsValidEmailSyntax(email.value) ==>
              |calls| > 0 && calls[0] == LookupMx(DomainOf(email.value))
    // Lookup failure: the diagnostic lands in mx_record and the probe is not reached.
    ensures !IsMissing(email) && IsValidEmailSyntax(email.value)
            && resolve(DomainOf(email.value)).LookupFailure? ==>
              && calls == [LookupMx(DomainOf(email.value))]
              && outcome == Reply(200, Response(email, Undeliverable, Some(NoMxRecord),
                   Details(true, false, Some(resolve(DomainOf(email.value)).diagnostic), None, None)))
    // An answer without records: `mx_records[0]` raises and nothing is returned.
    ensures !IsMissing(email) && IsValidEmailSyntax(email.value)
            && resolve(DomainOf(email.value)) == Records([]) ==>
              calls == [LookupMx(DomainOf(email.value))] && outcome.Unhandled?
    // Records found: the first one returned is probed and the probe's pair is copied verbatim.
    ensures !IsMissing(email) && IsValidEmailSyntax(email.value)
            && resolve(DomainOf(email.value)).Records? && resolve(DomainOf(email.value)).records != [] ==>
              var host := resolve(DomainOf(email.value)).records[0].exchange;
              var probe := SmtpProbe.VerifyEmailSmtp(rcpt(email.value, host));
              && calls == [LookupMx(DomainOf(email.value)), ProbeMailbox(email.value, host)]
              && outcome.Reply? && outcome.httpStatus == 200
              && outcome.body.details == Details(true, true, Some(host), Some(probe.0), Some(probe.1))
              && (probe.0 == SmtpProbe.Deliverable ==>
                    outcome.body.status == Valid && outcome.body.message == Some(ValidMessage))
              && (probe.0 == SmtpProbe.Undeliverable ==>
                    outcome.body.status == Undeliverable && outcome.body.message == Some(UndeliverableMessage))
              && (probe.0 == SmtpProbe.Error ==>
                    outcome.body.status == Error && outcome.body.message == Some(SmtpErrorMessage))
  {
    calls := [];
    var response := Response(email, Undeliverable, None, InitialDetails);

    if IsMissing(email) {
      response := response.(message := Some(EmailRequired));
      return Reply(400, response), calls;
    }
    var address := email.value;

    response := response.(details := response.details.(syntaxValid := IsValidEmailSyntax(address)));
    if !response.details.syntaxValid {
      response := response.(message := Some(InvalidSyntax));
      return Reply(200, response), calls;
    }

    var domain := DomainOf(address);
    calls := calls + [LookupMx(domain)];
    var check := HasMxRecord(resolve(domain));
    if check.None? {
      return Unhandled, calls;
    }
    var found, record := check.value.found, check.value.record;
    response := response.(details := response.details.(mxRecordFound := found, mxRecord := Some(record)));
    if !found {
      response := response.(message := Some(NoMxRecord));
      return Reply(200, response), calls;
    }

    calls := calls + [ProbeMailbox(address, record)];
    var probe := SmtpProbe.VerifyEmailSmtp(rcpt(address, record));
    var smtpStatus, smtpMessage := probe.0, probe.1;
    response := response.(details := response.details.(smtpStatus := Some(smtpStatus), smtpMessage := Some(smtpMessage)));

    if smtpStatus == SmtpProbe.Deliverable {
      response := response.(status := Valid, message := Some(ValidMessage));
    } else if smtpStatus == SmtpProbe.Undeliverable {
      response := response.(status := Undeliverable, message := Some(UndeliverableMessage));
    } else {
      response := response.(status := Error, message := Some(SmtpErrorMessage));
    }
    return Reply(200, response), calls;
  }

  /** Two runs against the same services give the same reply and the same consultations. */
  method VerifyEmailTwice(
    email: Option<string>,
    resolve: string -> MxAnswer,
    rcpt: (string, string) -> SmtpProbe.RcptResult)
    returns (same: bool)
    ensures same
  {
    var first, firstCalls := VerifyEmail(email, resolve, rcpt);
    var second, secondCalls := VerifyEmail(email, resolve, rcpt);
    same := first == second && firstCalls == secondCalls;
  }
}
