/**
 * The error object the client hands back when the service answers with an
 * error code, or when an envelope fails its local checks: it keeps the code
 * and, for the codes it knows, a fixed English description.
 */
module ServiceErrors {
  import opened Text

  /** The descriptions the constructor can assign: one per class constant,
      and one per literal text it assigns to the envelope's own codes. */
  datatype Description =
    | ConfigurationSetDoesNotExist
    | IncompleteSignature
    | InternalFailure
    | InvalidAction
    | InvalidClientTokenId
    | InvalidParameterCombination
    | InvalidParameterValue
    | InvalidQueryParameter
    | MailFromDomainNotVerified
    | MalformedQueryString
    | MessageRejected
    | MissingAction
    | MissingAuthenticationToken
    | MissingParameter
    | OptInRequired
    | RequestExpired
    | ServiceUnavailable
    | Throttling
    | ValidationError
    | AccessDeniedException
    | DestinationRequired
    | EmailSourceRequired
    | EmailSubjectRequired
    | EmailBodyRequired

  /** The English text of each description. Several span two lines. The
      texts are only shown to the caller, never sent, and stay plain
      strings. */
  function Wording(d: Description): string {
    match d
    case ConfigurationSetDoesNotExist => "The specified configuration set does not exist.\nA configuration set is an optional parameter that you use to publish email sending events."
    case IncompleteSignature => "The request signature does not conform to AWS standards."
    case InternalFailure => "The request processing has failed because of an unknown error, exception, or failure."
    case InvalidAction => "The requested action or operation is invalid.\n Verify that the action is typed correctly."
    case InvalidClientTokenId => "The X.509 certificate or AWS access key ID provided does not exist in our records."
    case InvalidParameterCombination => "Parameters that must not be used together were used together."
    case InvalidParameterValue => "An invalid or out-of-range value was supplied for the input parameter."
    case InvalidQueryParameter => "The AWS query string is malformed, does not adhere to AWS standards."
    case MailFromDomainNotVerified => "The message could not be sent because Amazon SES could not read the MX record required to use the specified MAIL FROM domain."
    case MalformedQueryString => "The query string contains a syntax error."
    case MessageRejected => "Indicates that the action failed, and the message could not be sent.\nCheck the error stack for a description of what caused the error."
    case MissingAction => "The request is missing an action or a required parameter."
    case MissingAuthenticationToken => "The request must contain either a valid (registered) AWS access key ID or X.509 certificate."
    case MissingParameter => "A required parameter for the specified action is not supplied."
    case OptInRequired => "The AWS access key ID needs a subscription for the service."
    case RequestExpired => "The request reached the service more than 15 minutes after the date stamp on the request or more than 15 minutes after the request expiration date (such as for pre-signed URLs), or the date stamp on the request is more than 15 minutes in the future."
    case ServiceUnavailable => "The request failed due to a temporary failure of the server."
    case Throttling => "The request was denied due to request throttling."
    case ValidationError => "1 validation error detected: Value null at 'identities' failed to satisfy constraint: Member must notbe null"
    case AccessDeniedException => "You do not have sufficient access to perform this action."
    case DestinationRequired => "The destination composed To: or CC:, Bcc: is required."
    case EmailSourceRequired => "The email From: is required."
    case EmailSubjectRequired => "The email Subject: is required."
    case EmailBodyRequired => "The email Body: is required."
  }

  /** The error object: the code as given, and a description when the code is known. */
  datatype ServiceError = ServiceError(code: Bytes, description: Option<Description>)

  /** The switch on the code: the description it assigns, or None for a code
      it does not list, since it has no default branch. Codes are compared as
      whole strings: none of the listed codes is numeric, so PHP's loose
      comparison agrees with string equality here. */
  function Describe(code: Bytes): Option<Description>
  {
    match code
    case "AccessDeniedException" => Some(AccessDeniedException)
    case "ConfigurationSetDoesNotExist" => Some(ConfigurationSetDoesNotExist)
    case "SignatureDoesNotMatch" => Some(IncompleteSignature)
    case "InternalFailure" => Some(InternalFailure)
    case "InvalidAction" => Some(InvalidAction)
    case "InvalidClientTokenId" => Some(InvalidClientTokenId)
    case "InvalidParameterCombination" => Some(InvalidParameterCombination)
    case "InvalidParameterValue" => Some(InvalidParameterValue)
    case "InvalidQueryParameter" => Some(InvalidQueryParameter)
    case "MailFromDomainNotVerified" => Some(MailFromDomainNotVerified)
    case "MalformedQueryString" => Some(MalformedQueryString)
    case "MessageRejected" => Some(MessageRejected)
    case "MissingAction" => Some(MissingAction)
    case "MissingAuthenticationToken" => Some(MissingAuthenticationToken)
    case "MissingParameter" => Some(MissingParameter)
    case "OptInRequired" => Some(OptInRequired)
    case "RequestExpired" => Some(RequestExpired)
    case "ServiceUnavailable" => Some(ServiceUnavailable)
    case "Throttling" => Some(Throttling)
    case "ValidationError" => Some(ValidationError)
    case "Destination" => Some(DestinationRequired)
    case "EmailSource" => Some(EmailSourceRequired)
    case "EmailSubject" => Some(EmailSubjectRequired)
    case "EmailBody" => Some(EmailBodyRequired)
    case _ => None
  }

  /** The codes the switch lists. */
  const KnownCodes: set<Bytes> := {
    "AccessDeniedException",
    "ConfigurationSetDoesNotExist",
    "SignatureDoesNotMatch",
    "InternalFailure",
    "InvalidAction",
    "InvalidClientTokenId",
    "InvalidParameterCombination",
    "InvalidParameterValue",
    "InvalidQueryParameter",
    "MailFromDomainNotVerified",
    "MalformedQueryString",
    "MessageRejected",
    "MissingAction",
    "MissingAuthenticationToken",
    "MissingParameter",
    "OptInRequired",
    "RequestExpired",
    "ServiceUnavailable",
    "Throttling",
    "ValidationError",
    "Destination",
    "EmailSource",
    "EmailSubject",
    "EmailBody"
  }

  /** The constructor: the code is kept as given, and a description is
      assigned exactly when the switch lists the code. */
  function NewServiceError(code: Bytes): (e: ServiceError)
    ensures e.code == code
    ensures e.description.Some? <==> code in KnownCodes
  {
    ServiceError(code, Describe(code))
  }

  /** The four codes the envelope's own checks raise have their own texts. */
  lemma LocalCodes()
    ensures NewServiceError("Destination").description == Some(DestinationRequired)
    ensures NewServiceError("EmailSource").description == Some(EmailSourceRequired)
    ensures NewServiceError("EmailSubject").description == Some(EmailSubjectRequired)
    ensures NewServiceError("EmailBody").description == Some(EmailBodyRequired)
  {
  }

  /** A signature mismatch is described with the text for an incomplete
      signature; there is no case for an incomplete-signature code itself. */
  lemma SignatureMismatch()
    ensures NewServiceError("SignatureDoesNotMatch").description == Some(IncompleteSignature)
    ensures NewServiceError("IncompleteSignature").description == None
  {
  }

  /** The error code each description belongs to: the name of its class
      constant written as the service spells codes, or the envelope's own
      code for the four local texts. */
  function CodeOf(d: Description): Bytes {
    match d
    case ConfigurationSetDoesNotExist => "ConfigurationSetDoesNotExist"
    case IncompleteSignature => "IncompleteSignature"
    case InternalFailure => "InternalFailure"
    case InvalidAction => "InvalidAction"
    case InvalidClientTokenId => "InvalidClientTokenId"
    case InvalidParameterCombination => "InvalidParameterCombination"
    case InvalidParameterValue => "InvalidParameterValue"
    case InvalidQueryParameter => "InvalidQueryParameter"
    case MailFromDomainNotVerified => "MailFromDomainNotVerified"
    case MalformedQueryString => "MalformedQueryString"
    case MessageRejected => "MessageRejected"
    case MissingAction => "MissingAction"
    case MissingAuthenticationToken => "MissingAuthenticationToken"
    case MissingParameter => "MissingParameter"
    case OptInRequired => "OptInRequired"
    case RequestExpired => "RequestExpired"
    case ServiceUnavailable => "ServiceUnavailable"
    case Throttling => "Throttling"
    case ValidationError => "ValidationError"
    case AccessDeniedException => "AccessDeniedException"
    case DestinationRequired => "Destination"
    case EmailSourceRequired => "EmailSource"
    case EmailSubjectRequired => "EmailSubject"
    case EmailBodyRequired => "EmailBody"
  }

  /** Every description but the incomplete-signature one is what its own
      code is described with; that one belongs to the signature-mismatch
      code instead. */
  lemma DescribedByOwnCode(d: Description)
    ensures d != IncompleteSignature ==> NewServiceError(CodeOf(d)).description == Some(d)
    ensures d == IncompleteSignature ==> NewServiceError("SignatureDoesNotMatch").description == Some(d)
  {
  }
}
