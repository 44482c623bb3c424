/** Account registration. */
module UserController {
  import opened Api
  import opened Models

  const InvalidRequestMessage := "Invalid request"
  /** Spelled with two spaces, as the handler sends it. */
  const EmailTakenMessage := "User with this email already  exists"

  /** `findOne({ email })` finds an account. */
  predicate EmailTaken(users: map<UserId, Account>, email: string) {
    exists k | k in users :: users[k].email == email
  }

  /** Creates an account under the store-assigned id `newId`. The save hook
      computes a hash and drops it, so the password is stored as given. */
  function RegisterUser(st: State, fullName: string, email: string, password: string, newId: UserId)
    : (r: Result<Outcome<Account>>)
    ensures r == Err(ApiError(400, InvalidRequestMessage)) <==> fullName == "" || email == "" || password == ""
    ensures fullName != "" && email != "" && password != "" ==>
      (r == Err(ApiError(400, EmailTakenMessage)) <==> EmailTaken(st.users, email))
    ensures r.Err? ==> r.error.code in {400, 500}
    ensures (fullName != "" && email != "" && password != "" && !EmailTaken(st.users, email) && newId !in st.users)
      ==> r.Ok?
    ensures r.Ok? ==>
      && newId !in st.users
      && !EmailTaken(st.users, email)
      && r.value.out == Account(newId, fullName, email, password, DefaultRole, None, [])
      && r.value.out.role in SchemaRoles
      && r.value.state == st.(users := st.users[newId := r.value.out])
  {
    if fullName == "" || email == "" || password == "" then Err(ApiError(400, InvalidRequestMessage))
    else if EmailTaken(st.users, email) then Err(ApiError(400, EmailTakenMessage))
    else if newId in st.users then Err(ApiError(500, DuplicateKeyMessage))
    else
      var account := Account(newId, fullName, email, password, DefaultRole, None, []);
      Ok(Outcome(account, st.(users := st.users[newId := account])))
  }

  /** Registration keeps e-mail addresses unique, and so the invariants. */
  lemma RegisterPreservesValid(st: State, fullName: string, email: string, password: string, newId: UserId)
    requires Valid(st)
    requires RegisterUser(st, fullName, email, password, newId).Ok?
    ensures Valid(RegisterUser(st, fullName, email, password, newId).value.state)
  {
  }

  /** Once registered, an address cannot be registered again, whatever the
      other fields and the next id. */
  lemma RegisterTwiceFails(st: State, fullName: string, email: string, password: string, newId: UserId,
                           fullName2: string, password2: string, newId2: UserId)
    requires RegisterUser(st, fullName, email, password, newId).Ok?
    requires fullName2 != "" && password2 != ""
    ensures var after := RegisterUser(st, fullName, email, password, newId).value.state;
      RegisterUser(after, fullName2, email, password2, newId2) == Err(ApiError(400, EmailTakenMessage))
  {
    var after := RegisterUser(st, fullName, email, password, newId).value.state;
    assert after.users[newId].email == email;
  }
}
