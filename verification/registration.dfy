/** The validation and the inserts of `register`, with the password hash left
    out: which response a registration form gets, and what it stores. */
module Registration {
  import opened Text
  import opened Records

  /** The JSON body's fields; `None` is a missing key or a JSON null. */
  datatype Form = Form(
    name: Option<string>, email: Option<string>, password: Option<string>, age: Option<string>,
    userContact: Option<string>, ccName: Option<string>, ccContact: Option<string>)

  datatype Decision =
    | MissingField     // 400, "All fields are required"
    | InvalidAge       // 400, "Age must be a valid number."
    | AlreadyExists    // 409, "Username or email already exists"
    | StorageFailure   // 500 after the transaction is rolled back (a NUL in a value, a value the column cannot hold)
    | Accept(user: User, contactName: string, contactNumber: string)  // 201

  predicate AllFieldsPresent(f: Form)
  {
    && Truthy(f.name) && Truthy(f.email) && Truthy(f.password) && Truthy(f.age)
    && Truthy(f.userContact) && Truthy(f.ccName) && Truthy(f.ccContact)
  }

  /** `SELECT id FROM users WHERE name = name OR email = email` finds a row. */
  predicate NameOrEmailTaken(users: map<int, User>, name: string, email: string)
  {
    exists id :: id in users && (users[id].name == name || users[id].email == email)
  }

  /** No two users share a name or an e-mail address (the two UNIQUE columns). */
  predicate UniqueNamesAndEmails(users: map<int, User>)
  {
    forall a, b :: a in users && b in users && a != b ==>
      users[a].name != users[b].name && users[a].email != users[b].email
  }

  /** The outcome of one registration, the checks in the source's order. The
      duplicate check's SELECT already hands the name and the e-mail to the
      driver, so a NUL in either fails there, before the 409 can be given. */
  function Decide(f: Form, users: map<int, User>): Decision
  {
    if !AllFieldsPresent(f) then MissingField
    else
      var age := ParseInt(f.age.value);
      if age.None? then InvalidAge
      else if !NulFree(f.name.value) || !NulFree(f.email.value) then StorageFailure
      else if NameOrEmailTaken(users, f.name.value, f.email.value) then AlreadyExists
      else Insert(f, age.value, users)
  }

  /** Every string the two INSERTs hand to the driver is free of NUL. */
  predicate InsertableStrings(f: Form)
    requires AllFieldsPresent(f)
  {
    && NulFree(f.name.value) && NulFree(f.email.value) && NulFree(f.userContact.value)
    && NulFree(f.ccName.value) && NulFree(f.ccContact.value)
  }

  /** The two INSERTs: both succeed, or, on a string the driver refuses, a
      column that cannot hold its value or a UNIQUE violation, the transaction
      is rolled back. */
  function Insert(f: Form, age: int, users: map<int, User>): (r: Decision)
    requires AllFieldsPresent(f)
    ensures r.Accept? || r == StorageFailure
  {
    var name := StoreVarchar(f.name.value, 100);
    var email := StoreVarchar(f.email.value, 255);
    var contact := StoreVarchar(f.userContact.value, 50);
    var ccName := StoreVarchar(f.ccName.value, 100);
    var ccContact := StoreVarchar(f.ccContact.value, 50);
    if !InsertableStrings(f) || name.None? || email.None? || contact.None? || !FitsInt32(age)
       || NameOrEmailTaken(users, name.value, email.value)
       || ccName.None? || ccContact.None?
    then StorageFailure
    else Accept(User(name.value, email.value, age, contact.value), ccName.value, ccContact.value)
  }

  lemma InsertValues(f: Form, age: int, users: map<int, User>)
    requires AllFieldsPresent(f)
    requires Insert(f, age, users).Accept?
    ensures var a := Insert(f, age, users);
            && a.user.age == age
            && a.user.name <= f.name.value && a.user.email <= f.email.value
            && a.user.contact <= f.userContact.value
            && a.contactName <= f.ccName.value && a.contactNumber <= f.ccContact.value
            && a.user.name != "" && a.user.email != "" && a.user.contact != ""
            && a.contactName != "" && a.contactNumber != ""
            && !NameOrEmailTaken(users, a.user.name, a.user.email)
            && InsertableStrings(f)
  {
  }

  /** Which response a form gets, each condition in both directions. */
  lemma DecideResponses(f: Form, users: map<int, User>)
    ensures Decide(f, users) == MissingField <==> !AllFieldsPresent(f)
    ensures Decide(f, users) == InvalidAge <==> AllFieldsPresent(f) && ParseInt(f.age.value).None?
    ensures Decide(f, users) == AlreadyExists <==>
              && AllFieldsPresent(f) && ParseInt(f.age.value).Some?
              && NulFree(f.name.value) && NulFree(f.email.value)
              && NameOrEmailTaken(users, f.name.value, f.email.value)
    ensures AllFieldsPresent(f) && ParseInt(f.age.value).Some? && !(NulFree(f.name.value) && NulFree(f.email.value)) ==>
              Decide(f, users) == StorageFailure
    ensures AllFieldsPresent(f) && ParseInt(f.age.value).Some? && !InsertableStrings(f)
            && !NameOrEmailTaken(users, f.name.value, f.email.value) ==>
              Decide(f, users) == StorageFailure
  {
    if AllFieldsPresent(f) {
      var age := ParseInt(f.age.value);
      if age.Some? && NulFree(f.name.value) && NulFree(f.email.value)
         && !NameOrEmailTaken(users, f.name.value, f.email.value) {
        assert Decide(f, users) == Insert(f, age.value, users);
        assert !InsertableStrings(f) ==> Insert(f, age.value, users) == StorageFailure;
      }
    }
  }

  /** A complete form with a valid age, NUL-free values that fit their columns
      and a fresh name and e-mail is accepted, with the values exactly as
      submitted. */
  lemma DecideAccepts(f: Form, users: map<int, User>)
    requires AllFieldsPresent(f) && ParseInt(f.age.value).Some? && FitsInt32(ParseInt(f.age.value).value)
    requires InsertableStrings(f)
    requires |f.name.value| <= 100 && |f.email.value| <= 255 && |f.userContact.value| <= 50
    requires |f.ccName.value| <= 100 && |f.ccContact.value| <= 50
    requires !NameOrEmailTaken(users, f.name.value, f.email.value)
    ensures Decide(f, users)
            == Accept(User(f.name.value, f.email.value, ParseInt(f.age.value).value, f.userContact.value),
                      f.ccName.value, f.ccContact.value)
  {
  }

  /** An accepted form stores the parsed age and non-empty values that are the
      submitted ones, cut only by trailing spaces past the column width. */
  lemma AcceptedValues(f: Form, users: map<int, User>)
    requires Decide(f, users).Accept?
    ensures var a := Decide(f, users);
            && Some(a.user.age) == ParseInt(f.age.value)
            && a.user.name <= f.name.value && a.user.email <= f.email.value
            && a.user.contact <= f.userContact.value
            && a.contactName <= f.ccName.value && a.contactNumber <= f.ccContact.value
            && a.user.name != "" && a.user.email != "" && a.user.contact != ""
            && a.contactName != "" && a.contactNumber != ""
            && InsertableStrings(f)
  {
    InsertValues(f, ParseInt(f.age.value).value, users);
  }

  /** A user whose name and e-mail are both new keeps the table unique. */
  lemma AddFreshUserKeepsUnique(users: map<int, User>, id: int, user: User)
    requires UniqueNamesAndEmails(users)
    requires id !in users
    requires !NameOrEmailTaken(users, user.name, user.email)
    ensures UniqueNamesAndEmails(users[id := user])
  {
    forall a | a in users ensures users[a].name != user.name && users[a].email != user.email {
      assert !(users[a].name == user.name || users[a].email == user.email);
    }
  }

  /** An accepted user keeps names and e-mail addresses unique. */
  lemma AcceptKeepsUnique(f: Form, users: map<int, User>, id: int)
    requires UniqueNamesAndEmails(users)
    requires id !in users
    requires Decide(f, users).Accept?
    ensures UniqueNamesAndEmails(users[id := Decide(f, users).user])
  {
    var age := ParseInt(f.age.value).value;
    assert Decide(f, users) == Insert(f, age, users);
    InsertValues(f, age, users);
    AddFreshUserKeepsUnique(users, id, Decide(f, users).user);
  }

  /** Submitting the same form again never registers a second account: it gets
      409, or, when the stored name or e-mail was cut, a failed insert. */
  lemma SameFormTwice(f: Form, users: map<int, User>, id: int)
    requires id !in users
    requires Decide(f, users).Accept?
    ensures var again := Decide(f, users[id := Decide(f, users).user]);
            && !again.Accept?
            && (|f.name.value| <= 100 ==> again == AlreadyExists)
  {
    var age := ParseInt(f.age.value).value;
    var user := Decide(f, users).user;
    InsertValues(f, age, users);
    var users' := users[id := user];
    assert users'[id] == user;
    assert NameOrEmailTaken(users', user.name, user.email);
    assert user.name == StoreVarchar(f.name.value, 100).value;
    assert user.email == StoreVarchar(f.email.value, 255).value;
    assert Insert(f, age, users') == StorageFailure;
    if |f.name.value| <= 100 {
      assert users'[id].name == f.name.value;
      assert NameOrEmailTaken(users', f.name.value, f.email.value);
    }
  }
}
