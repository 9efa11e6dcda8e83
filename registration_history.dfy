/** Many registrations in a row, one after another on the same table: the first
    registration of an email decides its record for good, and every record it
    adds holds an encoded password rather than the plaintext. */
module RegistrationHistory {
  import opened Domain
  import opened Dto
  import opened Collaborators
  import opened UserServiceSpec

  /** One registerUser call: the id UUID.randomUUID() gave it and its request. */
  datatype Registration = Registration(id: Uuid, request: RegisterRequest)

  /** The table after running `regs` in order, each on the table the previous one left. */
  function Replay(users: UserTable, encoder: PasswordEncoder, regs: seq<Registration>): UserTable
    decreases |regs|
  {
    if regs == [] then users
    else Replay(Register(users, encoder, regs[0].id, regs[0].request).1, encoder, regs[1..])
  }

  /** The first registration in `regs` for `email`, if any. */
  function FirstFor(regs: seq<Registration>, email: string): Option<Registration>
    decreases |regs|
  {
    if regs == [] then None
    else if regs[0].request.email == email then Some(regs[0])
    else FirstFor(regs[1..], email)
  }

  /** Records already present are never altered; an email not present ends up
      registered exactly when some registration asked for it, with the record
      the first such registration built. */
  lemma {:induction false} FirstRegistrationWins(users: UserTable, encoder: PasswordEncoder, regs: seq<Registration>)
    ensures forall email :: email in users ==>
              email in Replay(users, encoder, regs) && Replay(users, encoder, regs)[email] == users[email]
    ensures forall email :: email !in users ==>
              (email in Replay(users, encoder, regs) <==> FirstFor(regs, email).Some?)
    ensures forall email :: email !in users && FirstFor(regs, email).Some? ==>
              Replay(users, encoder, regs)[email] == NewUser(FirstFor(regs, email).value.id, FirstFor(regs, email).value.request, encoder)
    decreases |regs|
  {
    if regs != [] {
      var next := Register(users, encoder, regs[0].id, regs[0].request).1;
      FirstRegistrationWins(next, encoder, regs[1..]);
      assert Replay(users, encoder, regs) == Replay(next, encoder, regs[1..]);
      forall email | email !in users
        ensures email in Replay(users, encoder, regs) <==> FirstFor(regs, email).Some?
        ensures FirstFor(regs, email).Some? ==>
                  Replay(users, encoder, regs)[email] == NewUser(FirstFor(regs, email).value.id, FirstFor(regs, email).value.request, encoder)
      {
        if email != regs[0].request.email {
          assert FirstFor(regs, email) == FirstFor(regs[1..], email);
        }
      }
    }
  }

  /** Starting from a well-keyed table, any run of registrations keeps every
      record under its own email and stores, for every email it added, the
      encoding of the password of the first request for that email. */
  lemma StoredPasswordsAreEncoded(users: UserTable, encoder: PasswordEncoder, regs: seq<Registration>)
    requires WellKeyed(users)
    ensures WellKeyed(Replay(users, encoder, regs))
    ensures forall email :: email in Replay(users, encoder, regs) && email !in users ==>
              FirstFor(regs, email).Some?
              && Replay(users, encoder, regs)[email].password == encoder.encode(FirstFor(regs, email).value.request.password)
  {
    FirstRegistrationWins(users, encoder, regs);
    var after := Replay(users, encoder, regs);
    forall email | email in after
      ensures after[email].email == email
    {
      if email !in users {
        var first := FirstFor(regs, email).value;
        FirstIsForEmail(regs, email);
        assert after[email] == NewUser(first.id, first.request, encoder);
      }
    }
  }

  /** The registration FirstFor picks asks for that email. */
  lemma {:induction false} FirstIsForEmail(regs: seq<Registration>, email: string)
    ensures FirstFor(regs, email).Some? ==> FirstFor(regs, email).value.request.email == email
    decreases |regs|
  {
    if regs != [] && regs[0].request.email != email {
      FirstIsForEmail(regs[1..], email);
    }
  }
}
