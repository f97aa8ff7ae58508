/**
 * The user document of models/user.model.js: the stored shape, what the schema's
 * setters, required checks, defaults and enum do to a draft, the password hook, and the
 * uniqueness the indexes enforce, stated as an invariant of the user collection.
 */
module UserModel {
  import opened Wrappers
  import opened Ids
  import opened Text

  /** The `role` enum. */
  datatype Role = UserRole | AdminRole

  function RoleName(r: Role): string {
    match r
    case UserRole => "USER"
    case AdminRole => "ADMIN"
  }

  /** The enum check on `role`: accepted exactly when the string is one of the two names. */
  function ParseRole(s: string): (r: Option<Role>)
    ensures r.Some? <==> s == "USER" || s == "ADMIN"
    ensures r.Some? ==> RoleName(r.value) == s
  {
    if s == "USER" then Some(UserRole) else if s == "ADMIN" then Some(AdminRole) else None
  }

  lemma RoleRoundTrip(r: Role)
    ensures ParseRole(RoleName(r)) == Some(r)
  {
  }

  datatype DeviceInfo = DeviceInfo(deviceModel: Option<string>, deviceManufacture: Option<string>)

  datatype Leaves = Leaves(privilegeLeave: Option<int>, otherLeave: Option<int>)

  /** A stored user document. `password` holds whatever the save hook produced. */
  datatype User = User(
    id: UserId,
    username: Option<string>,
    email: string,
    mobileNo: string,
    fullName: string,
    avatar: string,
    designation: string,
    password: string,
    deviceInfo: DeviceInfo,
    isVerified: bool,
    leaves: Leaves,
    role: Role,
    organization: OrgId,
    refreshToken: Option<string>)

  /** The document handed to `User.create`: any path may be missing. */
  datatype Draft = Draft(
    username: Option<string>,
    email: Option<string>,
    mobileNo: Option<string>,
    fullName: Option<string>,
    avatar: Option<string>,
    designation: Option<string>,
    password: Option<string>,
    deviceInfo: Option<DeviceInfo>,
    isVerified: Option<bool>,
    leaves: Leaves,
    role: Option<string>,
    organization: Option<OrgId>)

  /** A path validation can reject. */
  datatype Path =
    EmailPath | MobileNoPath | FullNamePath | AvatarPath | DesignationPath
    | PasswordPath | DeviceInfoPath | RolePath | OrganizationPath

  /**
   * A required string path with a `trim` setter fails when it is missing or trims to "":
   * mongoose's required check rejects the empty string.
   */
  predicate MissingTrimmed(v: Option<string>) {
    v.None? || AllSpace(v.value)
  }

  /** A required string path without setters fails when it is missing or empty. */
  predicate MissingRaw(v: Option<string>) {
    v.None? || v.value == ""
  }

  const AllPaths: set<Path> := {
    EmailPath, MobileNoPath, FullNamePath, AvatarPath, DesignationPath,
    PasswordPath, DeviceInfoPath, RolePath, OrganizationPath
  }

  /** Whether path `p` of draft `d` fails validation. */
  predicate Fails(d: Draft, p: Path) {
    match p
    case EmailPath => MissingTrimmed(d.email)
    case MobileNoPath => MissingTrimmed(d.mobileNo)
    case FullNamePath => MissingTrimmed(d.fullName)
    case DesignationPath => MissingTrimmed(d.designation)
    case AvatarPath => MissingRaw(d.avatar)
    case PasswordPath => MissingRaw(d.password)
    case DeviceInfoPath => d.deviceInfo.None?
    case OrganizationPath => d.organization.None?
    case RolePath => d.role.Some? && ParseRole(d.role.value).None?
  }

  /** The paths of a draft that fail validation, all of them (mongoose reports every failing path). */
  function Failures(d: Draft): (f: set<Path>)
    ensures forall p :: p in f <==> Fails(d, p)
  {
    set p | p in AllPaths && Fails(d, p)
  }

  function Validate(d: Draft, id: UserId): (r: Result<User, set<Path>>)
    ensures r.Ok? <==>
      && !MissingTrimmed(d.email) && !MissingTrimmed(d.mobileNo)
      && !MissingTrimmed(d.fullName) && !MissingTrimmed(d.designation)
      && !MissingRaw(d.avatar) && !MissingRaw(d.password)
      && d.deviceInfo.Some? && d.organization.Some?
      && (d.role.None? || ParseRole(d.role.value).Some?)
    ensures r.Err? ==> r.error == Failures(d)
    ensures r.Ok? ==> r.value.id == id && r.value.organization == d.organization.value
    ensures r.Ok? ==> r.value.email == TrimLower(d.email.value) && r.value.email != ""
    ensures r.Ok? ==> r.value.mobileNo == Trim(d.mobileNo.value) && r.value.mobileNo != ""
    ensures r.Ok? ==> r.value.fullName == Trim(d.fullName.value) && r.value.designation == Trim(d.designation.value)
    ensures r.Ok? ==> r.value.username == (if d.username.Some? then Some(TrimLower(d.username.value)) else None)
    ensures r.Ok? ==> r.value.avatar == d.avatar.value && r.value.password == d.password.value
    ensures r.Ok? ==> r.value.isVerified == (d.isVerified == Some(true))
    ensures r.Ok? ==> (d.role.None? ==> r.value.role == UserRole)
    ensures r.Ok? ==> (d.role.Some? ==> ParseRole(d.role.value) == Some(r.value.role))
    ensures r.Ok? ==> r.value.deviceInfo == d.deviceInfo.value && r.value.leaves == d.leaves
    ensures r.Ok? ==> r.value.refreshToken.None?
  {
    var failing := Failures(d);
    if failing != {} then Err(failing)
    else
      assert !Fails(d, EmailPath) && !Fails(d, MobileNoPath) && !Fails(d, FullNamePath);
      assert !Fails(d, DesignationPath) && !Fails(d, AvatarPath) && !Fails(d, PasswordPath);
      assert !Fails(d, DeviceInfoPath) && !Fails(d, OrganizationPath) && !Fails(d, RolePath);
      var role := if d.role.None? then UserRole else ParseRole(d.role.value).value;
      Ok(User(id,
              if d.username.Some? then Some(TrimLower(d.username.value)) else None,
              TrimLower(d.email.value), Trim(d.mobileNo.value), Trim(d.fullName.value),
              d.avatar.value, Trim(d.designation.value), d.password.value,
              d.deviceInfo.value, d.isVerified == Some(true), d.leaves, role,
              d.organization.value, None))
  }

  /**
   * The pre-save hook: the password is replaced by its hash only when it was modified;
   * every other path is left as it is.
   */
  function PreSave(u: User, passwordModified: bool, hash: string -> string): (v: User)
    ensures passwordModified ==> v.password == hash(u.password)
    ensures !passwordModified ==> v == u
    ensures v.(password := u.password) == u
  {
    if passwordModified then u.(password := hash(u.password)) else u
  }

  /** `matchPassword`: the entered value is compared against the stored hash. */
  function MatchPassword(u: User, entered: string, compare: (string, string) -> bool): bool {
    compare(entered, u.password)
  }

  /** The stored form of one user: what the setters and required checks guarantee. */
  predicate IsStored(u: User) {
    && u.email == TrimLower(u.email) && u.email != ""
    && u.mobileNo == Trim(u.mobileNo) && u.mobileNo != ""
    && u.fullName == Trim(u.fullName) && u.fullName != ""
    && u.designation == Trim(u.designation) && u.designation != ""
    && (u.username.Some? ==> u.username.value == TrimLower(u.username.value))
    && u.avatar != ""
  }

  /**
   * The collection invariant: ids are distinct, each document is in stored form, and the
   * unique indexes on `username`, `email` and `mobileNo` hold (a missing username counts
   * as a value, as it does in a non-sparse unique index).
   */
  predicate WellFormed(users: seq<User>) {
    AllStored(users) && DistinctKeys(users)
  }

  predicate AllStored(users: seq<User>) {
    forall i | 0 <= i < |users| :: IsStored(users[i])
  }

  predicate DistinctKeys(users: seq<User>) {
    forall i, j | 0 <= i < j < |users| ::
      && users[i].id != users[j].id
      && users[i].email != users[j].email
      && users[i].mobileNo != users[j].mobileNo
      && users[i].username != users[j].username
  }

  /** A document that `Validate` produced is in stored form. */
  lemma ValidatedIsStored(d: Draft, id: UserId)
    requires Validate(d, id).Ok?
    ensures IsStored(Validate(d, id).value)
  {
    var u := Validate(d, id).value;
    TrimLowerIdempotent(d.email.value);
    TrimIdempotent(d.mobileNo.value);
    TrimIdempotent(d.fullName.value);
    TrimIdempotent(d.designation.value);
    if d.username.Some? {
      TrimLowerIdempotent(d.username.value);
    }
  }

  /** The position of the first user `matches` accepts, in collection order, as `findOne` answers. */
  function FindFirst(users: seq<User>, matches: User -> bool): (r: Option<nat>)
    ensures r.Some? ==> r.value < |users| && matches(users[r.value])
    ensures r.Some? ==> forall i | 0 <= i < r.value :: !matches(users[i])
    ensures r.None? ==> forall i | 0 <= i < |users| :: !matches(users[i])
  {
    if users == [] then None
    else if matches(users[0]) then Some(0)
    else match FindFirst(users[1..], matches)
      case None => None
      case Some(k) => Some(k + 1)
  }

  /** Two lists the predicate cannot tell apart position by position give the same first match. */
  lemma {:induction false} FindFirstAgrees(users: seq<User>, next: seq<User>, matches: User -> bool)
    requires |next| == |users|
    requires forall i | 0 <= i < |users| :: matches(next[i]) == matches(users[i])
    ensures FindFirst(next, matches) == FindFirst(users, matches)
    decreases |users|
  {
    if users != [] && !matches(users[0]) {
      assert forall i | 0 <= i < |users| - 1 :: users[1..][i] == users[i + 1] && next[1..][i] == next[i + 1];
      FindFirstAgrees(users[1..], next[1..], matches);
    }
  }

  /** An id no stored user has, standing in for a freshly generated ObjectId. */
  function NewUserId(users: seq<User>): UserId {
    FreshId(users, (u: User) => u.id)
  }
}
