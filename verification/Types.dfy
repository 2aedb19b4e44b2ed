/** Addresses, envelopes and emails. */
module Types {
  import opened Text
  import opened Errors

  /** Not ASCII, a control character, whitespace, or an angle bracket. */
  predicate IsForbidden(c: char) {
    c as int >= 128 || c as int < 32 || c as int == 127 || c == ' ' || c == '<' || c == '>'
  }

  predicate IsAddress(s: string) {
    forall k :: 0 <= k < |s| ==> !IsForbidden(s[k])
  }

  type EmailAddress = s: string | IsAddress(s)

  function NewEmailAddress(address: string): (r: Result<EmailAddress>)
    ensures r.Success? <==> forall c :: c in address ==> '!' <= c <= '~' && c != '<' && c != '>'
    ensures r == if r.Success? then Success(address) else Failure(InvalidAddress("invalid email address"))
  {
    assert (exists k :: 0 <= k < |address| && IsForbidden(address[k])) <==> exists c :: c in address && IsForbidden(c);
    if exists k :: 0 <= k < |address| && IsForbidden(address[k])
    then Failure(InvalidAddress("invalid email address"))
    else Success(address)
  }

  datatype EnvelopeFields = EnvelopeFields(forwardPath: seq<EmailAddress>, reversePath: Option<EmailAddress>)

  type Envelope = e: EnvelopeFields | |e.forwardPath| > 0 witness EnvelopeFields([""], None)

  function NewEnvelope(from: Option<EmailAddress>, to: seq<EmailAddress>): (r: Result<Envelope>)
    ensures r.Success? <==> to != []
    ensures r.Success? ==> r.value.forwardPath == to && r.value.reversePath == from
    ensures r.Failure? ==> r.error == InvalidAddress("missing destination address")
  {
    if to == [] then Failure(InvalidAddress("missing destination address"))
    else Success(EnvelopeFields(to, from))
  }

  datatype SendableEmail = SendableEmail(envelope: Envelope, message: string)
}
