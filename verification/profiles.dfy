/** UserService.updateUserProfile: a null-means-unchanged merge of one request
    into the user row and the user's profile row, creating the profile when
    the user has none. Timestamps are not modelled. */
module Profiles {
  import opened Base
  import opened Users

  /** A `user_profile` row; `user` is the owning user's id (unique). `birth`
      is an instant, in milliseconds. */
  datatype Profile = Profile(
    id: int, user: int,
    lastName: Option<string>, firstName: Option<string>, phoneNumber: Option<string>,
    country: int, address1: Option<string>, address2: Option<string>,
    birth: Option<int>, bgImage: Option<string>)

  /** Rows get country 1 unless told otherwise. */
  const DefaultCountry: int := 1

  /** The user table and the profile table, the latter keyed by user id. */
  datatype ProfileStore = ProfileStore(users: seq<User>, profiles: map<int, Profile>)

  /** Every field optional; `None` is a field the caller left null. */
  datatype UpdateRequest = UpdateRequest(
    name: Option<string>, profileImage: Option<string>,
    lastName: Option<string>, firstName: Option<string>, phoneNumber: Option<string>,
    country: Option<int>, address1: Option<string>, address2: Option<string>,
    birth: Option<int>, bgImage: Option<string>)

  const EmptyRequest: UpdateRequest :=
    UpdateRequest(None, None, None, None, None, None, None, None, None, None)

  datatype UpdateResponse = UpdateResponse(
    userId: int, email: string, name: string, profileImage: Option<string>, provider: Option<string>,
    profileId: int, lastName: Option<string>, firstName: Option<string>, phoneNumber: Option<string>,
    country: int, address1: Option<string>, address2: Option<string>,
    birth: Option<int>, bgImage: Option<string>)

  datatype ProfileError = UserNotFound

  /** The profile the builder makes for a user who has none. */
  function NewProfile(userId: int, profileId: int): (p: Profile)
    ensures p.id == profileId && p.user == userId && p.country == DefaultCountry
    ensures p.lastName.None? && p.firstName.None? && p.phoneNumber.None?
    ensures p.address1.None? && p.address2.None? && p.birth.None? && p.bgImage.None?
  {
    Profile(profileId, userId, None, None, None, DefaultCountry, None, None, None, None)
  }

  /** `findByUser(...).orElseGet(...)`: the stored profile, or a new one with
      the identity `profileId` would receive on insert. */
  function ProfileOrNew(st: ProfileStore, userId: int, profileId: int): (p: Profile)
    ensures userId in st.profiles ==> p == st.profiles[userId]
    ensures userId !in st.profiles ==> p == NewProfile(userId, profileId)
  {
    if userId in st.profiles then st.profiles[userId] else NewProfile(userId, profileId)
  }

  /** Steps 2 of the update: name and profile image. */
  function MergeUser(u: User, req: UpdateRequest): (r: User)
    ensures r.id == u.id && r.email == u.email && r.provider == u.provider
    ensures r.passwordHash == u.passwordHash && r.role == u.role
    ensures r.status == u.status && r.isActive == u.isActive
    ensures r.name == (if req.name.Some? then req.name.value else u.name)
    ensures r.profileImage == (if req.profileImage.Some? then req.profileImage else u.profileImage)
  {
    u.(name := Patch(req.name, u.name),
       profileImage := PatchNullable(req.profileImage, u.profileImage))
  }

  /** Step 4: the eight profile fields. */
  function MergeProfile(p: Profile, req: UpdateRequest): (r: Profile)
    ensures r.id == p.id && r.user == p.user
    ensures r.lastName == (if req.lastName.Some? then req.lastName else p.lastName)
    ensures r.firstName == (if req.firstName.Some? then req.firstName else p.firstName)
    ensures r.phoneNumber == (if req.phoneNumber.Some? then req.phoneNumber else p.phoneNumber)
    ensures r.country == (if req.country.Some? then req.country.value else p.country)
    ensures r.address1 == (if req.address1.Some? then req.address1 else p.address1)
    ensures r.address2 == (if req.address2.Some? then req.address2 else p.address2)
    ensures r.birth == (if req.birth.Some? then req.birth else p.birth)
    ensures r.bgImage == (if req.bgImage.Some? then req.bgImage else p.bgImage)
  {
    p.(lastName := PatchNullable(req.lastName, p.lastName),
       firstName := PatchNullable(req.firstName, p.firstName),
       phoneNumber := PatchNullable(req.phoneNumber, p.phoneNumber),
       country := Patch(req.country, p.country),
       address1 := PatchNullable(req.address1, p.address1),
       address2 := PatchNullable(req.address2, p.address2),
       birth := PatchNullable(req.birth, p.birth),
       bgImage := PatchNullable(req.bgImage, p.bgImage))
  }

  /** The user table with every row carrying `u.id` replaced by `u`. */
  function ReplaceUser(users: seq<User>, u: User): (r: seq<User>)
    ensures |r| == |users|
    ensures forall i :: 0 <= i < |users| ==> r[i] == if users[i].id == u.id then u else users[i]
  {
    seq(|users|, i requires 0 <= i < |users| => if users[i].id == u.id then u else users[i])
  }

  function Respond(u: User, p: Profile): UpdateResponse {
    UpdateResponse(u.id, u.email, u.name, u.profileImage, u.provider,
      p.id, p.lastName, p.firstName, p.phoneNumber, p.country, p.address1, p.address2, p.birth, p.bgImage)
  }

  /** `updateUserProfile`. `profileId` is the identity a newly inserted profile
      would get; it is unused when the profile exists. */
  function UpdateUserProfile(st: ProfileStore, userId: int, req: UpdateRequest, profileId: int): (r: Result<(UpdateResponse, ProfileStore), ProfileError>)
    ensures r.Err? <==> FindById(st.users, userId).None?
    ensures r.Ok? ==>
      var u := FindById(st.users, userId).value;
      var resp := r.value.0;
      var st' := r.value.1;
      && resp.userId == userId && resp.email == u.email && resp.provider == u.provider
      && resp.name == (if req.name.Some? then req.name.value else u.name)
      && resp.profileImage == (if req.profileImage.Some? then req.profileImage else u.profileImage)
      && resp.country == (if req.country.Some? then req.country.value
                          else if userId in st.profiles then st.profiles[userId].country
                          else DefaultCountry)
      && st'.profiles.Keys == st.profiles.Keys + {userId}
      && st'.profiles[userId] == MergeProfile(ProfileOrNew(st, userId, profileId), req)
      && (userId in st.profiles ==> st'.profiles[userId].id == st.profiles[userId].id)
      && (userId !in st.profiles ==> st'.profiles[userId].id == profileId && st'.profiles[userId].user == userId)
      && (forall k :: k in st.profiles && k != userId ==> st'.profiles[k] == st.profiles[k])
      && |st'.users| == |st.users|
      && (forall i :: 0 <= i < |st.users| && st.users[i].id != userId ==> st'.users[i] == st.users[i])
      && (forall i :: 0 <= i < |st.users| && st.users[i].id == userId ==> st'.users[i] == MergeUser(u, req))
      && FindById(st'.users, userId) == Some(MergeUser(u, req))
      && resp == Respond(MergeUser(u, req), st'.profiles[userId])
  {
    match FindById(st.users, userId)
    case None => Err(UserNotFound)
    case Some(u) =>
      var u' := MergeUser(u, req);
      var p' := MergeProfile(ProfileOrNew(st, userId, profileId), req);
      var users' := ReplaceUser(st.users, u');
      FindByIdAfterReplace(st.users, u, u');
      Ok((Respond(u', p'), ProfileStore(users', st.profiles[userId := p'])))
  }

  /** After replacing the rows of a found id, the lookup returns the replacement. */
  lemma FindByIdAfterReplace(users: seq<User>, u: User, u': User)
    requires FindById(users, u.id) == Some(u) && u'.id == u.id
    ensures FindById(ReplaceUser(users, u'), u.id) == Some(u')
  {
  }

  /** The update keeps the user table's unique ids and emails. */
  lemma UpdateKeepsWellFormed(st: ProfileStore, userId: int, req: UpdateRequest, profileId: int)
    requires WellFormed(st.users)
    requires UpdateUserProfile(st, userId, req, profileId).Ok?
    ensures WellFormed(UpdateUserProfile(st, userId, req, profileId).value.1.users)
  {
  }

  /** No update touches any account's email or provider. */
  lemma UpdateKeepsEmailAndProvider(st: ProfileStore, userId: int, req: UpdateRequest, profileId: int)
    requires UniqueIds(st.users)
    requires UpdateUserProfile(st, userId, req, profileId).Ok?
    ensures var users' := UpdateUserProfile(st, userId, req, profileId).value.1.users;
      forall i :: 0 <= i < |st.users| ==>
        users'[i].email == st.users[i].email && users'[i].provider == st.users[i].provider
  {
  }

  /** Sending the same request again changes nothing further. */
  lemma UpdateIsIdempotent(st: ProfileStore, userId: int, req: UpdateRequest, profileId: int, profileId2: int)
    requires WellFormed(st.users)
    requires UpdateUserProfile(st, userId, req, profileId).Ok?
    ensures var once := UpdateUserProfile(st, userId, req, profileId).value;
      var twice := UpdateUserProfile(once.1, userId, req, profileId2);
      twice.Ok? && twice.value == once
  {
    var u := FindById(st.users, userId).value;
    var once := UpdateUserProfile(st, userId, req, profileId).value;
    var u' := MergeUser(u, req);
    assert MergeUser(u', req) == u';
    var p' := once.1.profiles[userId];
    assert MergeProfile(p', req) == p';
    assert once.1.profiles[userId := p'] == once.1.profiles;
    var users2 := ReplaceUser(once.1.users, u');
    assert users2 == once.1.users;
  }

  /** A request with every field null leaves an existing profile and the user
      row as they were; the answer just echoes the stored values. */
  lemma EmptyRequestChangesNothing(st: ProfileStore, userId: int, profileId: int)
    requires WellFormed(st.users)
    requires FindById(st.users, userId).Some? && userId in st.profiles
    ensures var r := UpdateUserProfile(st, userId, EmptyRequest, profileId);
      r.Ok? && r.value.1 == st
      && r.value.0 == Respond(FindById(st.users, userId).value, st.profiles[userId])
  {
    var u := FindById(st.users, userId).value;
    var p := st.profiles[userId];
    assert MergeUser(u, EmptyRequest) == u;
    assert MergeProfile(ProfileOrNew(st, userId, profileId), EmptyRequest) == p;
    forall i | 0 <= i < |st.users| && st.users[i].id == u.id
      ensures st.users[i] == u
    {
      FindByIdUnique(st.users, u, i);
    }
    assert ReplaceUser(st.users, u) == st.users;
    assert st.profiles[userId := p] == st.profiles;
  }

  /** With unique ids, the row holding an id is the one the lookup returns. */
  lemma FindByIdUnique(users: seq<User>, u: User, i: int)
    requires UniqueIds(users) && FindById(users, u.id) == Some(u)
    requires 0 <= i < |users| && users[i].id == u.id
    ensures users[i] == u
  {
  }

  /** A user without a profile gets one with country 1 unless the request names a country. */
  lemma MissingProfileIsCreated(st: ProfileStore, userId: int, req: UpdateRequest, profileId: int)
    requires FindById(st.users, userId).Some? && userId !in st.profiles
    ensures var r := UpdateUserProfile(st, userId, req, profileId);
      && r.Ok? && r.value.0.profileId == profileId
      && r.value.0.country == req.country.GetOr(DefaultCountry)
      && r.value.0.lastName == req.lastName && r.value.0.bgImage == req.bgImage
  {
  }
}
