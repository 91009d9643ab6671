/** The profile handlers: read a profile, list its connections, and let
    its owner update it. */
module UsersController {
  import opened Results
  import opened Seqs
  import PostStore

  /** User ids are the same strings posts carry as their author. */
  type UserId = PostStore.UserId

  /** A stored user, password included. */
  datatype User = User(
    id: UserId,
    name: string,
    email: string,
    password: string,
    avatar: string,
    bio: string,
    location: string,
    company: string,
    connections: seq<UserId>)

  /** What `select('-password')` returns: the user without the password. */
  datatype Profile = Profile(
    id: UserId,
    name: string,
    email: string,
    avatar: string,
    bio: string,
    location: string,
    company: string,
    connections: seq<UserId>)

  /** A populated connection: `_id`, `name`, `email`, `avatar`. */
  datatype Summary = Summary(id: UserId, name: string, email: string, avatar: string)

  /** The reply of `getUserConnections`: `count` and `data`. */
  datatype Connections = Connections(count: nat, data: seq<Summary>)

  /** The users collection. */
  type Directory = seq<User>

  const UserIdRequired := "User ID is required"
  const InvalidUserId := "Invalid user ID format"
  const UserNotFound := "User not found"
  const NotYourProfile := "Not authorized to update this profile"

  function PublicProfile(u: User): Profile {
    Profile(u.id, u.name, u.email, u.avatar, u.bio, u.location, u.company, u.connections)
  }

  /** Two users show the same profile exactly when they differ at most
      in their passwords: the profile hides the password and nothing else. */
  lemma ProfileHidesOnlyPassword(u: User, v: User)
    ensures PublicProfile(u) == PublicProfile(v) <==> u.(password := v.password) == v
  {
  }

  function SummaryOf(u: User): Summary {
    Summary(u.id, u.name, u.email, u.avatar)
  }

  function UserHasId(id: UserId): User -> bool {
    (u: User) => u.id == id
  }

  /** `User.findById`: the position of the first user with that id. */
  function FindUser(dir: Directory, id: UserId): (r: Option<nat>)
    ensures r.Some? ==> r.value < |dir| && dir[r.value].id == id
    ensures r.None? <==> forall i :: 0 <= i < |dir| ==> dir[i].id != id
  {
    FirstIndex(dir, UserHasId(id))
  }

  /** The two checks both read handlers make on the path id, in order:
      missing (empty or the text "undefined"), then malformed according
      to the store's id format `isValid`. */
  function CheckUserId(userId: string, isValid: string -> bool): (r: Option<Failure>)
    ensures r == Some(ErrorResponse(BadRequest, UserIdRequired)) <==> userId == "" || userId == "undefined"
    ensures r == Some(ErrorResponse(BadRequest, InvalidUserId)) <==> userId != "" && userId != "undefined" && !isValid(userId)
    ensures r.None? <==> userId != "" && userId != "undefined" && isValid(userId)
  {
    if userId == "" || userId == "undefined" then Some(ErrorResponse(BadRequest, UserIdRequired))
    else if !isValid(userId) then Some(ErrorResponse(BadRequest, InvalidUserId))
    else None
  }

  /** `getUserById`. */
  function GetUserById(dir: Directory, userId: string, isValid: string -> bool): (r: Result<Profile, Failure>)
    ensures r.Ok? <==> CheckUserId(userId, isValid).None? && FindUser(dir, userId).Some?
    ensures CheckUserId(userId, isValid).Some? ==> r == Fail(CheckUserId(userId, isValid).value)
    ensures CheckUserId(userId, isValid).None? && FindUser(dir, userId).None? ==>
              r == Fail(ErrorResponse(NotFound, UserNotFound))
    ensures r.Ok? ==> exists i :: 0 <= i < |dir| && dir[i].id == userId && r.value == PublicProfile(dir[i])
  {
    match CheckUserId(userId, isValid)
    case Some(f) => Fail(f)
    case None =>
      match FindUser(dir, userId)
      case None => Fail(ErrorResponse(NotFound, UserNotFound))
      case Some(i) => Ok(PublicProfile(dir[i]))
  }

  /** The id checks come before any lookup: a missing or malformed id gets
      the same answer whatever the directory holds. */
  lemma ValidationPrecedesLookup(dir1: Directory, dir2: Directory, userId: string, isValid: string -> bool)
    requires userId == "" || userId == "undefined" || !isValid(userId)
    ensures GetUserById(dir1, userId, isValid) == GetUserById(dir2, userId, isValid)
    ensures GetUserConnections(dir1, userId, isValid) == GetUserConnections(dir2, userId, isValid)
    ensures GetUserById(dir1, userId, isValid).Fail?
  {
  }

  /** Directories with the same ids at the same positions find a user at
      the same position. */
  lemma SameIdsSameFind(dir1: Directory, dir2: Directory, userId: string)
    requires |dir1| == |dir2| && forall i :: 0 <= i < |dir1| ==> dir1[i].id == dir2[i].id
    ensures FindUser(dir1, userId) == FindUser(dir2, userId)
  {
    var f1, f2 := FindUser(dir1, userId), FindUser(dir2, userId);
    assert f1.Some? <==> f2.Some?;
  }

  /** Passwords never reach the reply: directories that differ only in
      passwords give the same answer. */
  lemma PasswordNotDisclosed(dir1: Directory, dir2: Directory, userId: string, isValid: string -> bool)
    requires |dir1| == |dir2|
    requires forall i :: 0 <= i < |dir1| ==> dir1[i].(password := "") == dir2[i].(password := "")
    ensures GetUserById(dir1, userId, isValid) == GetUserById(dir2, userId, isValid)
  {
    forall i | 0 <= i < |dir1|
      ensures dir1[i].id == dir2[i].id && PublicProfile(dir1[i]) == PublicProfile(dir2[i])
    {
      assert dir1[i].(password := "").id == dir2[i].(password := "").id;
    }
    SameIdsSameFind(dir1, dir2, userId);
  }

  function Known(dir: Directory): UserId -> bool {
    (id: UserId) => FindUser(dir, id).Some?
  }

  function IdsOf(s: seq<Summary>): seq<UserId> {
    seq(|s|, k requires 0 <= k < |s| => s[k].id)
  }

  /** `populate('connections', 'name email avatar')`: each referenced user
      in stored order, references to users that no longer exist dropped. */
  function Populate(dir: Directory, ids: seq<UserId>): (r: seq<Summary>)
    ensures IdsOf(r) == Filter(ids, Known(dir))
    ensures forall k :: 0 <= k < |r| ==> FindUser(dir, r[k].id).Some? && r[k] == SummaryOf(dir[FindUser(dir, r[k].id).value])
  {
    if ids == [] then []
    else
      var rest := Populate(dir, ids[1..]);
      match FindUser(dir, ids[0])
      case None => rest
      case Some(i) =>
        var r := [SummaryOf(dir[i])] + rest;
        assert IdsOf(r) == [ids[0]] + IdsOf(rest);
        r
  }

  /** When every connection still exists, all of them are listed, in the
      stored order. */
  lemma PopulateAllKnown(dir: Directory, ids: seq<UserId>)
    requires forall k :: 0 <= k < |ids| ==> FindUser(dir, ids[k]).Some?
    ensures |Populate(dir, ids)| == |ids|
    ensures forall k :: 0 <= k < |ids| ==> Populate(dir, ids)[k].id == ids[k]
  {
    FilterKeepsAll(ids, Known(dir));
    var r := Populate(dir, ids);
    assert |IdsOf(r)| == |r|;
    forall k | 0 <= k < |ids|
      ensures r[k].id == ids[k]
    {
      assert IdsOf(r)[k] == r[k].id;
    }
  }

  /** `getUserConnections`: the same id checks, then the owner's
      connections. */
  function GetUserConnections(dir: Directory, userId: string, isValid: string -> bool): (r: Result<Connections, Failure>)
    ensures r.Ok? <==> CheckUserId(userId, isValid).None? && FindUser(dir, userId).Some?
    ensures CheckUserId(userId, isValid).Some? ==> r == Fail(CheckUserId(userId, isValid).value)
    ensures CheckUserId(userId, isValid).None? && FindUser(dir, userId).None? ==>
              r == Fail(ErrorResponse(NotFound, UserNotFound))
    ensures r.Ok? ==> r.value.count == |r.value.data|
    ensures r.Ok? ==> FindUser(dir, userId).Some?
                      && IdsOf(r.value.data) == Filter(dir[FindUser(dir, userId).value].connections, Known(dir))
    ensures r.Ok? ==> forall k :: 0 <= k < |r.value.data| ==>
                        FindUser(dir, r.value.data[k].id).Some?
                        && r.value.data[k] == SummaryOf(dir[FindUser(dir, r.value.data[k].id).value])
  {
    match CheckUserId(userId, isValid)
    case Some(f) => Fail(f)
    case None =>
      match FindUser(dir, userId)
      case None => Fail(ErrorResponse(NotFound, UserNotFound))
      case Some(i) =>
        var data := Populate(dir, dir[i].connections);
        Ok(Connections(|data|, data))
  }

  /** The body keys `updateUserProfile` reads. */
  const UpdatableFields: seq<string> := ["name", "email", "bio", "location", "company", "avatar"]

  function Field(body: map<string, string>, key: string, current: string): string {
    if key in body then body[key] else current
  }

  /** The update `findByIdAndUpdate` applies: each of the six fields the
      body carries is set, every other field is kept, and an absent key
      changes nothing. */
  function ApplyUpdate(u: User, body: map<string, string>): (r: User)
    ensures r.id == u.id && r.password == u.password && r.connections == u.connections
  {
    u.(name := Field(body, "name", u.name),
       email := Field(body, "email", u.email),
       bio := Field(body, "bio", u.bio),
       location := Field(body, "location", u.location),
       company := Field(body, "company", u.company),
       avatar := Field(body, "avatar", u.avatar))
  }

  /** `updateUserProfile`: only the owner may update, and that is checked
      before the directory is read. */
  function UpdateUserProfile(dir: Directory, id: UserId, requester: UserId, body: map<string, string>): (r: Step<Directory, Profile>)
    ensures r.reply.Ok? <==> id == requester && FindUser(dir, id).Some?
    ensures id != requester ==> r == Step(dir, Fail(ErrorResponse(Forbidden, NotYourProfile)))
    ensures id == requester && FindUser(dir, id).None? ==> r == Step(dir, Fail(ErrorResponse(NotFound, UserNotFound)))
    ensures r.reply.Ok? ==>
      var i := FindUser(dir, id).value;
      && id == requester
      && |r.state| == |dir|
      && (forall j :: 0 <= j < |dir| && j != i ==> r.state[j] == dir[j])
      && r.reply.value == PublicProfile(r.state[i])
      && r.state[i].id == dir[i].id && r.state[i].password == dir[i].password
      && r.state[i].connections == dir[i].connections
      && (forall k :: 0 <= k < |UpdatableFields| && UpdatableFields[k] !in body ==>
            FieldValue(r.state[i], UpdatableFields[k]) == FieldValue(dir[i], UpdatableFields[k]))
      && (forall k :: 0 <= k < |UpdatableFields| && UpdatableFields[k] in body ==>
            FieldValue(r.state[i], UpdatableFields[k]) == body[UpdatableFields[k]])
  {
    if id != requester then Step(dir, Fail(ErrorResponse(Forbidden, NotYourProfile)))
    else
      match FindUser(dir, id)
      case None => Step(dir, Fail(ErrorResponse(NotFound, UserNotFound)))
      case Some(i) =>
        var u := ApplyUpdate(dir[i], body);
        Step(dir[i := u], Ok(PublicProfile(u)))
  }

  /** The value of one of the six updatable fields of a user. */
  function FieldValue(u: User, key: string): string {
    if key == "name" then u.name
    else if key == "email" then u.email
    else if key == "bio" then u.bio
    else if key == "location" then u.location
    else if key == "company" then u.company
    else if key == "avatar" then u.avatar
    else ""
  }

  /** Bodies that agree on the six updatable keys have the same effect:
      any other key is ignored. */
  lemma OnlyUpdatableFieldsMatter(dir: Directory, id: UserId, requester: UserId, b1: map<string, string>, b2: map<string, string>)
    requires forall k :: 0 <= k < |UpdatableFields| ==>
               (UpdatableFields[k] in b1 <==> UpdatableFields[k] in b2)
               && (UpdatableFields[k] in b1 ==> b1[UpdatableFields[k]] == b2[UpdatableFields[k]])
    ensures UpdateUserProfile(dir, id, requester, b1) == UpdateUserProfile(dir, id, requester, b2)
  {
    if id == requester && FindUser(dir, id).Some? {
      var u := dir[FindUser(dir, id).value];
      forall k | 0 <= k < |UpdatableFields|
        ensures Field(b1, UpdatableFields[k], "") == Field(b2, UpdatableFields[k], "")
      {
      }
      assert ApplyUpdate(u, b1) == ApplyUpdate(u, b2) by {
        assert UpdatableFields[0] == "name" && UpdatableFields[1] == "email" && UpdatableFields[2] == "bio";
        assert UpdatableFields[3] == "location" && UpdatableFields[4] == "company" && UpdatableFields[5] == "avatar";
      }
    }
  }

  /** A successful update is what a later read of the profile returns. */
  lemma ReadAfterUpdate(dir: Directory, id: UserId, body: map<string, string>, isValid: string -> bool)
    requires UpdateUserProfile(dir, id, id, body).reply.Ok?
    requires CheckUserId(id, isValid).None?
    ensures GetUserById(UpdateUserProfile(dir, id, id, body).state, id, isValid)
            == UpdateUserProfile(dir, id, id, body).reply
  {
    var i := FindUser(dir, id).value;
    var after := UpdateUserProfile(dir, id, id, body).state;
    assert forall j :: 0 <= j < i ==> after[j] == dir[j];
    assert FindUser(after, id) == Some(i);
  }

  /** Sending the same update twice leaves the directory as sending it
      once. */
  lemma UpdateIdempotent(dir: Directory, id: UserId, body: map<string, string>)
    ensures var once := UpdateUserProfile(dir, id, id, body);
            UpdateUserProfile(once.state, id, id, body).state == once.state
  {
    var once := UpdateUserProfile(dir, id, id, body);
    if FindUser(dir, id).Some? {
      var i := FindUser(dir, id).value;
      assert once.state[i].id == id;
      assert forall j :: 0 <= j < i ==> once.state[j] == dir[j];
      assert FindUser(once.state, id) == Some(i);
    }
  }
}
