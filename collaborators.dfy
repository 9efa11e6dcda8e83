/** The library collaborators the service is wired with. Their behaviour is not
    visible, so each is an arbitrary function value fixed at construction time. */
module Collaborators {

  /** The BCrypt password encoder: `encode(raw)` and `matches(raw, encoded)`. */
  datatype PasswordEncoder = PasswordEncoder(encode: string -> string, matches: (string, string) -> bool)

  /** The JWT service: the token is a function of the subject's username
      (the clock and the signing key are fixed inside it). */
  datatype JwtService = JwtService(generateToken: string -> string)

  /** What the Kafka template's send does on one call: hands the record over,
      or throws synchronously with a message. */
  datatype SendOutcome = Sent | Threw(message: string)

  /** A record handed to the Kafka template. */
  datatype AuditEvent = AuditEvent(topic: string, payload: string)

  /** A line written to the service's logger. */
  datatype LogEntry = LogInfo(text: string) | LogError(text: string)
}
