/** The user store (users.service.ts): the `users` table as a map from id to row, the
    lookups the service makes through the repository, and the writes it performs.
    Hashing is done by the caller: each write that stores a password receives the hash. */
module Users {
  import opened Wrappers
  import opened JsText
  import opened Exceptions
  import opened UserEntity

  /** The table: rows by id, and the id the next insert is given by the generated key. */
  datatype Store = Store(users: map<int, User>, nextId: int)

  /** The unique constraint on `email`. */
  predicate EmailsUnique(users: map<int, User>) {
    forall a, b :: a in users && b in users && users[a].email == users[b].email ==> a == b
  }

  /** Every row sits under its own positive id, below the next id to be generated, and no
      two rows share an email. */
  predicate ValidStore(s: Store) {
    && s.nextId >= 1
    && (forall id :: id in s.users ==> 0 < id < s.nextId && s.users[id].id == id)
    && EmailsUnique(s.users)
  }

  predicate EmailTaken(s: Store, email: string) {
    exists id :: id in s.users && s.users[id].email == email
  }

  /** Some row other than `id` holds the email. */
  predicate EmailHeldByOther(s: Store, email: string, id: int) {
    exists other :: other in s.users && other != id && s.users[other].email == email
  }

  /** The `where` of a repository `findOne`. A null column matches no token. */
  datatype Criterion =
    | ById(id: int)
    | ByEmail(email: string)
    | ByResetToken(token: string)
    | ByVerificationToken(token: string)

  predicate Meets(u: User, c: Criterion) {
    match c
    case ById(id) => u.id == id
    case ByEmail(email) => u.email == email
    case ByResetToken(token) => u.resetPasswordToken == Some(token)
    case ByVerificationToken(token) => u.verificationToken == Some(token)
  }

  /** The first row at or above `from`, in id order, that meets the criterion. */
  function FindFrom(s: Store, c: Criterion, from: int): (r: Option<User>)
    requires ValidStore(s)
    ensures r.Some? ==> from <= r.value.id && r.value.id in s.users && s.users[r.value.id] == r.value
    ensures r.Some? ==> Meets(r.value, c)
    ensures r.Some? ==> forall id :: id in s.users && from <= id < r.value.id ==> !Meets(s.users[id], c)
    ensures r.None? ==> forall id :: id in s.users && from <= id ==> !Meets(s.users[id], c)
    decreases s.nextId - from
  {
    if from >= s.nextId then None
    else if from in s.users && Meets(s.users[from], c) then Some(s.users[from])
    else FindFrom(s, c, from + 1)
  }

  /** repository.findOne: a row that meets the criterion, the one with the smallest id when
      several do, or nothing when none does. */
  function FindOneBy(s: Store, c: Criterion): (r: Option<User>)
    requires ValidStore(s)
    ensures r.Some? ==> r.value.id in s.users && s.users[r.value.id] == r.value && Meets(r.value, c)
    ensures r.Some? ==> forall id :: id in s.users && id < r.value.id ==> !Meets(s.users[id], c)
    ensures r.None? <==> forall id :: id in s.users ==> !Meets(s.users[id], c)
  {
    FindFrom(s, c, 1)
  }

  /** The store with one existing row replaced. */
  function Put(s: Store, u: User): Store {
    Store(s.users[u.id := u], s.nextId)
  }

  /** Replacing a row by one with the same id and an email no other row holds keeps the
      store valid. */
  lemma PutKeepsStoreValid(s: Store, u: User)
    requires ValidStore(s) && u.id in s.users && !EmailHeldByOther(s, u.email, u.id)
    ensures ValidStore(Put(s, u))
  {
  }

  const EmailExistsMessage: string := "User with this email already exists"
  const InvalidUserId: string := "Invalid user ID"

  function NotFoundMessage(idText: string): string {
    "User with ID " + idText + " not found"
  }

  /** What createUser receives. */
  datatype UserCreateInput = UserCreateInput(
    email: string, password: string, role: Option<UserRole>,
    isVerified: Option<bool>, verificationToken: Option<string>)

  /** createUser. `hashed` is the bcrypt hash of `input.password`. The role comes from
      the input when it carries one, else from the `role` argument, else it is USER. */
  function CreateUser(s: Store, input: UserCreateInput, role: Option<UserRole>, hashed: string)
    : (r: Result<(Store, User), HttpException>)
    requires ValidStore(s)
    ensures r.Err? <==> EmailTaken(s, input.email)
    ensures r.Err? ==> r.error == Conflict(EmailExistsMessage)
    ensures r.Ok? ==>
      var (s', u) := r.value;
      && u.id !in s.users && s'.users == s.users[u.id := u] && ValidStore(s')
      && u.email == input.email && u.password == hashed
      && (input.role.Some? ==> u.role == input.role.value)
      && (input.role.None? && role.Some? ==> u.role == role.value)
      && (input.role.None? && role.None? ==> u.role == USER)
      && (u.isVerified <==> input.isVerified == Some(true))
      && u.verificationToken == input.verificationToken
      && u.resetPasswordToken.None? && u.resetPasswordExpires.None?
  {
    var userRole := if input.role.Some? then input.role.value else role.GetOr(USER);
    if FindOneBy(s, ByEmail(input.email)).Some? then Err(Conflict(EmailExistsMessage))
    else
      var u := User(s.nextId, input.email, hashed, userRole, input.isVerified.GetOr(false),
                    input.verificationToken, None, None);
      Ok((Store(s.users[u.id := u], s.nextId + 1), u))
  }

  /** `!id || isNaN(parseInt(id, 10)) || parseInt(id, 10) <= 0` fails. */
  predicate WellFormedId(idText: string) {
    idText != "" && ParseInt(idText).Some? && ParseInt(idText).value > 0
  }

  /** findOne(id: string). A malformed id and an unknown one are both NotFound, with
      different messages; the second quotes the id text as given. */
  function FindOne(s: Store, idText: string): (r: Result<User, HttpException>)
    requires ValidStore(s)
    ensures !WellFormedId(idText) ==> r == Err(NotFound(InvalidUserId))
    ensures WellFormedId(idText) ==> (r.Ok? <==> ParseInt(idText).value in s.users)
    ensures WellFormedId(idText) && r.Err? ==> r.error == NotFound(NotFoundMessage(idText))
    ensures r.Ok? ==> WellFormedId(idText) && r.value == s.users[ParseInt(idText).value]
  {
    var n := ParseInt(idText);
    if idText == "" || n.None? || n.value <= 0 then Err(NotFound(InvalidUserId))
    else
      match FindOneBy(s, ById(n.value))
      case None => Err(NotFound(NotFoundMessage(idText)))
      case Some(u) => Ok(u)
  }

  /** The `Partial<User>` of updateUser(id, data): a field is present or absent. A present
      nullable field may hold null. */
  datatype UserPatch = UserPatch(
    email: Option<string>, password: Option<string>, role: Option<UserRole>,
    isVerified: Option<bool>, verificationToken: Option<Option<string>>,
    resetPasswordToken: Option<Option<string>>, resetPasswordExpires: Option<Option<int>>)

  /** Each present field of the patch is copied, each absent one keeps its value. */
  predicate Patched(before: User, after: User, p: UserPatch) {
    && after.id == before.id
    && after.email == (if p.email.Some? then p.email.value else before.email)
    && after.password == (if p.password.Some? then p.password.value else before.password)
    && after.role == (if p.role.Some? then p.role.value else before.role)
    && after.isVerified == (if p.isVerified.Some? then p.isVerified.value else before.isVerified)
    && after.verificationToken == (if p.verificationToken.Some? then p.verificationToken.value else before.verificationToken)
    && after.resetPasswordToken == (if p.resetPasswordToken.Some? then p.resetPasswordToken.value else before.resetPasswordToken)
    && after.resetPasswordExpires == (if p.resetPasswordExpires.Some? then p.resetPasswordExpires.value else before.resetPasswordExpires)
  }

  /** `Object.assign(user, data)`. */
  function Overlay(u: User, p: UserPatch): User {
    u.(email := p.email.GetOr(u.email), password := p.password.GetOr(u.password),
       role := p.role.GetOr(u.role), isVerified := p.isVerified.GetOr(u.isVerified),
       verificationToken := p.verificationToken.GetOr(u.verificationToken),
       resetPasswordToken := p.resetPasswordToken.GetOr(u.resetPasswordToken),
       resetPasswordExpires := p.resetPasswordExpires.GetOr(u.resetPasswordExpires))
  }

  /** updateUser(id, data): NotFound for an unknown id; otherwise the row with the patch
      laid over it. Saving an email another row holds breaks the unique constraint. */
  function UpdateUserById(s: Store, id: int, data: UserPatch): (r: Result<(Store, User), HttpException>)
    requires ValidStore(s)
    ensures id !in s.users ==> r == Err(NotFound(NotFoundMessage(NumberToString(id))))
    ensures id in s.users && data.email.Some? && EmailHeldByOther(s, data.email.value, id) ==>
      r == Err(UniqueViolation)
    ensures r.Ok? ==>
      var (s', u) := r.value;
      && id in s.users && Patched(s.users[id], u, data)
      && s'.users == s.users[id := u] && s'.nextId == s.nextId && ValidStore(s')
    ensures r.Err? ==> id !in s.users || (data.email.Some? && EmailHeldByOther(s, data.email.value, id))
  {
    match FindOneBy(s, ById(id))
    case None => Err(NotFound(NotFoundMessage(NumberToString(id))))
    case Some(user) =>
      var u := Overlay(user, data);
      if EmailHeldByOther(s, u.email, id) then Err(UniqueViolation)
      else
        PutKeepsStoreValid(s, u);
        Ok((Put(s, u), u))
  }

  /** A value JavaScript treats as true in `if (email)` / `if (password)`. */
  predicate Given(text: Option<string>) {
    text.Some? && text.value != ""
  }

  /** What updateUser(input) receives. `id` is the record's id as text. */
  datatype UserUpdateInput = UserUpdateInput(
    id: string, email: Option<string>, password: Option<string>, role: Option<UserRole>,
    isVerified: Option<bool>, verificationToken: Option<Option<string>>,
    resetPasswordToken: Option<Option<string>>, resetPasswordExpires: Option<Option<int>>)

  /** The fields updateUser(input) writes: a non-empty email or password, a role, a
      boolean `isVerified`, and any token or expiry that is not undefined (null clears
      it). `hashed` is the hash of the new password. Nothing else changes. */
  predicate InputApplied(before: User, after: User, input: UserUpdateInput, hashed: string) {
    && after.id == before.id
    && after.email == (if Given(input.email) then input.email.value else before.email)
    && after.password == (if Given(input.password) then hashed else before.password)
    && after.role == (if input.role.Some? then input.role.value else before.role)
    && after.isVerified == (if input.isVerified.Some? then input.isVerified.value else before.isVerified)
    && after.verificationToken == (if input.verificationToken.Some? then input.verificationToken.value else before.verificationToken)
    && after.resetPasswordToken == (if input.resetPasswordToken.Some? then input.resetPasswordToken.value else before.resetPasswordToken)
    && after.resetPasswordExpires == (if input.resetPasswordExpires.Some? then input.resetPasswordExpires.value else before.resetPasswordExpires)
  }

  /** updateUser(input): findOne's errors first; then Conflict when a non-empty email is
      held by a row other than the one being updated; otherwise the updated row is saved. */
  function UpdateUser(s: Store, input: UserUpdateInput, hashed: string): (r: Result<(Store, User), HttpException>)
    requires ValidStore(s)
    ensures FindOne(s, input.id).Err? ==> r == Err(FindOne(s, input.id).error)
    ensures r == Err(Conflict(EmailExistsMessage)) <==>
      && FindOne(s, input.id).Ok? && Given(input.email)
      && EmailHeldByOther(s, input.email.value, FindOne(s, input.id).value.id)
    ensures FindOne(s, input.id).Ok?
            && !(Given(input.email) && EmailHeldByOther(s, input.email.value, FindOne(s, input.id).value.id))
            ==> r.Ok?
    ensures r.Ok? ==>
      var (s', u) := r.value;
      && FindOne(s, input.id).Ok? && InputApplied(FindOne(s, input.id).value, u, input, hashed)
      && s'.users == s.users[u.id := u] && s'.nextId == s.nextId && ValidStore(s')
  {
    var user :- FindOne(s, input.id);
    var existing := if Given(input.email) then FindOneBy(s, ByEmail(input.email.value)) else None;
    if existing.Some? && existing.value.id != ParseInt(input.id).value then Err(Conflict(EmailExistsMessage))
    else
      var u := user.(
        email := if Given(input.email) then input.email.value else user.email,
        password := if Given(input.password) then hashed else user.password,
        role := input.role.GetOr(user.role),
        isVerified := input.isVerified.GetOr(user.isVerified),
        verificationToken := input.verificationToken.GetOr(user.verificationToken),
        resetPasswordToken := input.resetPasswordToken.GetOr(user.resetPasswordToken),
        resetPasswordExpires := input.resetPasswordExpires.GetOr(user.resetPasswordExpires));
      PutKeepsStoreValid(s, u);
      Ok((Put(s, u), u))
  }

  /** destroy(input): removes exactly the row findOne returns and returns it; findOne's
      errors pass through. */
  function Destroy(s: Store, idText: string): (r: Result<(Store, User), HttpException>)
    requires ValidStore(s)
    ensures r.Ok? <==> FindOne(s, idText).Ok?
    ensures r.Err? ==> r.error == FindOne(s, idText).error
    ensures r.Ok? ==>
      var (s', u) := r.value;
      && u == FindOne(s, idText).value
      && s'.users == s.users - {u.id} && s'.nextId == s.nextId && ValidStore(s')
  {
    var user :- FindOne(s, idText);
    Ok((Store(s.users - {user.id}, s.nextId), user))
  }

  /** A created user is found again, by its email and by the text of its id. */
  lemma CreatedUserFound(s: Store, input: UserCreateInput, role: Option<UserRole>, hashed: string)
    requires ValidStore(s) && CreateUser(s, input, role, hashed).Ok?
    ensures var (s', u) := CreateUser(s, input, role, hashed).value;
      && FindOneBy(s', ByEmail(input.email)) == Some(u)
      && FindOne(s', NumberToString(u.id)) == Ok(u)
  {
    var (s', u) := CreateUser(s, input, role, hashed).value;
    var found := FindOneBy(s', ByEmail(input.email));
    assert found.Some? by {
      assert Meets(s'.users[u.id], ByEmail(input.email));
    }
    var text := NumberToString(u.id);
    ParseIntNumberToString(u.id);
    assert WellFormedId(text);
  }

  /** Once destroyed, a user is no longer found under the same id text. */
  lemma DestroyedUserGone(s: Store, idText: string)
    requires ValidStore(s) && Destroy(s, idText).Ok?
    ensures FindOne(Destroy(s, idText).value.0, idText) == Err(NotFound(NotFoundMessage(idText)))
  {
  }
}
