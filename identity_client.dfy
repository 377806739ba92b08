/** The identity-service client: the Feign error decoder that turns an
    upstream status into an exception, and the facade that turns the one
    lookup call into "exists", "does not exist" or a propagated error. */
module IdentityClient {
  import opened Common

  /** The resident record returned by the identity service; only its
      presence matters here. */
  datatype WargaMinimal = WargaMinimal(id: Option<string>, nama: Option<string>, nik: Option<string>, noHp: Option<string>)

  /** The response wrapper of the identity service. */
  datatype IdentityEnvelope = IdentityEnvelope(responseCode: Option<string>, responseDesc: Option<string>, data: Option<WargaMinimal>)

  /** What the single GET /warga/by-nik/{nik} request produced. */
  datatype Upstream =
    | Delivered(envelope: Option<IdentityEnvelope>)  // a 2xx response; its decoded body, null when empty
    | ErrorStatus(status: int)                       // any other status: handed to the error decoder
    | TransportFailure                               // connection failure, timeout or undecodable body

  /** The exceptions that can leave the Feign client. */
  datatype UpstreamException =
    | DataNotFoundException
    | ConflictException
    | IllegalStateException(gateway: bool, status: int)  // "Upstream unavailable" when gateway, "Upstream error" otherwise
    | FeignException                                     // raised by the client itself, never by the decoder

  /** The Feign call as the facade sees it: a value, or a thrown exception. */
  datatype Call = Returned(envelope: Option<IdentityEnvelope>) | Threw(exception: UpstreamException)

  /** The error decoder: 404 is not-found, 409 is a conflict, every other
      status an IllegalStateException that says "unavailable" for the three
      gateway statuses and "error" for the rest. */
  function DecodeError(status: int): (e: UpstreamException)
    ensures e == DataNotFoundException <==> status == 404
    ensures e == ConflictException <==> status == 409
    ensures e.IllegalStateException? <==> status != 404 && status != 409
    ensures e.IllegalStateException? ==> e.status == status && (e.gateway <==> status in {502, 503, 504})
  {
    match status
    case 404 => DataNotFoundException
    case 409 => ConflictException
    case 502 => IllegalStateException(true, status)
    case 503 => IllegalStateException(true, status)
    case 504 => IllegalStateException(true, status)
    case _ => IllegalStateException(false, status)
  }

  /** getWargaByNik: a 2xx body is returned, any other status raises what
      the decoder makes of it, and a transport failure raises a
      FeignException. */
  function Invoke(lookup: Upstream): Call {
    match lookup
    case Delivered(env) => Returned(env)
    case ErrorStatus(status) => Threw(DecodeError(status))
    case TransportFailure => Threw(FeignException)
  }

  /** The errors existsWargaByNik lets propagate: the ConflictException it
      re-raises, and the IllegalStateException it wraps everything else in. */
  datatype LookupError = Conflict | Unavailable

  /** existsWargaByNik: true when a body with a resident came back; false
      for an empty body, an absent resident or a 404; a 409 propagates as a
      conflict and every other failure as unavailable. */
  function ExistsWargaByNik(lookup: Upstream): (r: Result<bool, LookupError>)
    ensures r == Success(true) <==>
      lookup.Delivered? && lookup.envelope.Some? && lookup.envelope.value.data.Some?
    ensures r == Success(false) <==>
      (lookup.Delivered? && (lookup.envelope.None? || lookup.envelope.value.data.None?))
      || lookup == ErrorStatus(404)
    ensures r == Failure(Conflict) <==> lookup == ErrorStatus(409)
    ensures r == Failure(Unavailable) <==>
      lookup == TransportFailure || (lookup.ErrorStatus? && lookup.status != 404 && lookup.status != 409)
  {
    match Invoke(lookup)
    case Returned(env) => Success(env != None && env.value.data != None)
    case Threw(DataNotFoundException) => Success(false)
    case Threw(ConflictException) => Failure(Conflict)
    case Threw(_) => Failure(Unavailable)
  }
}
