/** The request and response records the service exchanges with its callers. */
module Dto {
  import opened Domain

  datatype RegisterRequest = RegisterRequest(email: string, password: string, role: Role)

  datatype LoginRequest = LoginRequest(email: string, password: string)

  /** The public view of a user: no password field at all. */
  datatype UserResponse = UserResponse(id: Uuid, email: string, role: Role)

  datatype LoginResponse = LoginResponse(token: string)
}
