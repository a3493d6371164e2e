/**
 The chirp store of db/db.go, with the JSON file replaced by the in-memory
 document it holds. Every Go operation loads the whole document; the write
 operations change its maps and write it back. Here the three maps are the
 fields of a `DB` object, and the write methods change them in place.

 Foreign calls are parameters: the bcrypt hash of a new password arrives as
 `Option<Hash>` (None when hashing failed), the bcrypt comparison is a
 `matches` function, and `time.Now` is a `now` argument.
 */
module Db {
  import opened Results
  import Sorting

  /** A bcrypt hash, opaque to the store. */
  type Hash = seq<bv8>

  /** A revocation timestamp. */
  type Time = int

  datatype Chirp = Chirp(id: int, authorId: int, body: string)

  datatype User = User(id: int, email: string, hashedPassword: Hash)

  /** The public view of a user: everything but the password hash. */
  datatype UserDTO = UserDTO(id: int, email: string)

  /** The whole persisted document (Go's DBStruct). */
  datatype Document = Document(chirps: map<int, Chirp>, users: map<int, User>, revokedTokens: map<string, Time>)

  /** The store's error values. */
  datatype Error =
    | UnregisteredEmail
    | EmailTaken
    | WrongPassword
    | UnknownUserId(id: int)  // UpdateUser's "missing id" error
    | TokenRevoked
    | ChirpNotFound
    | HashFailed              // bcrypt.GenerateFromPassword returned an error

  function NewUserDTO(u: User): UserDTO
  {
    UserDTO(u.id, u.email)
  }

  function ChirpKey(c: Chirp): int { c.id }
  function UserKey(u: User): int { u.id }
  function DtoKey(u: UserDTO): int { u.id }

  /** Every map key equals the Id stored in its value. */
  ghost predicate KeyedBy<T>(m: map<int, T>, key: T -> int)
  {
    forall id :: id in m ==> key(m[id]) == id
  }

  ghost predicate DocumentValid(d: Document)
  {
    KeyedBy(d.chirps, ChirpKey) && KeyedBy(d.users, UserKey)
  }

  ghost predicate EmailInUse(users: map<int, User>, email: string)
  {
    exists id :: id in users && users[id].email == email
  }

  ghost predicate EmailsUnique(users: map<int, User>)
  {
    forall i, j :: i in users && j in users && users[i].email == users[j].email ==> i == j
  }

  /** A non-empty set of ids has a member to pick. */
  lemma HasElement(s: set<int>)
    requires s != {}
    ensures exists k :: k in s
  {
    if forall k :: k !in s {
      assert false;
    }
  }

  /** The largest key, or 0 when there is none (or none is positive). */
  ghost function MaxOrZero(keys: set<int>): (m: int)
    ensures 0 <= m
    ensures forall k :: k in keys ==> k <= m
    ensures m == 0 || m in keys
  {
    if keys == {} then 0
    else
      HasElement(keys);
      var k :| k in keys;
      var rest := MaxOrZero(keys - {k});
      assert forall x :: x in keys ==> x == k || x in keys - {k};
      if k > rest then k else rest
  }

  /** The id a create operation assigns: one more than the largest key, or 1 when no key is positive. */
  ghost function NextId(keys: set<int>): int
  {
    MaxOrZero(keys) + 1
  }

  /** The `maxID` scan of CreateChirp and CreateUser. */
  method MaxKey(keys: set<int>) returns (maxId: int)
    ensures maxId == MaxOrZero(keys)
  {
    maxId := 0;
    var rest := keys;
    while rest != {}
      invariant rest <= keys
      invariant 0 <= maxId
      invariant forall k :: k in keys - rest ==> k <= maxId
      invariant maxId == 0 || maxId in keys - rest
      decreases rest
    {
      HasElement(rest);
      var id :| id in rest;
      if id > maxId {
        maxId := id;
      }
      assert keys - (rest - {id}) == (keys - rest) + {id};
      rest := rest - {id};
    }
    assert keys - rest == keys;
    ghost var m := MaxOrZero(keys);
    assert m <= maxId by {
      if m != 0 { assert m in keys; }
    }
    assert maxId <= m by {
      if maxId != 0 { assert maxId in keys; }
    }
  }

  /** The map built by inserting each element under its key, left to right (later ones overwrite). */
  ghost function IndexBy<T>(s: seq<T>, key: T -> int): (m: map<int, T>)
    ensures KeyedBy(m, key)
    ensures forall x :: x in s ==> key(x) in m
    ensures forall id :: id in m ==> m[id] in s
    ensures s != [] ==> m[key(s[|s| - 1])] == s[|s| - 1]
  {
    if s == [] then map[]
    else
      var last := s[|s| - 1];
      var m := IndexBy(s[..|s| - 1], key);
      assert forall x :: x in s ==> x in s[..|s| - 1] || x == last;
      m[key(last) := last]
  }

  /** An element that no later element shares an id with is the one stored under that id. */
  lemma {:induction false} IndexByLastWins<T>(s: seq<T>, key: T -> int, i: nat)
    requires i < |s|
    requires forall j :: i < j < |s| ==> key(s[j]) != key(s[i])
    ensures IndexBy(s, key)[key(s[i])] == s[i]
  {
    if i < |s| - 1 {
      var init := s[..|s| - 1];
      assert init[i] == s[i];
      assert forall j :: i < j < |init| ==> init[j] == s[j];
      IndexByLastWins(init, key, i);
      assert key(s[|s| - 1]) != key(s[i]);
    }
  }

  lemma IndexStep<T>(s: seq<T>, i: nat, key: T -> int)
    requires i < |s|
    ensures IndexBy(s[..i + 1], key) == IndexBy(s[..i], key)[key(s[i]) := s[i]]
  {
    var t := s[..i + 1];
    assert t[|t| - 1] == s[i] && t[..|t| - 1] == s[..i];
  }

  /** NewDBStruct: a document holding the given chirps and users, each under its own id. */
  method NewDocument(chirps: seq<Chirp>, users: seq<User>) returns (d: Document)
    ensures d == Document(IndexBy(chirps, ChirpKey), IndexBy(users, UserKey), map[])
    ensures DocumentValid(d)
  {
    var cm: map<int, Chirp> := map[];
    for i := 0 to |chirps|
      invariant cm == IndexBy(chirps[..i], ChirpKey)
    {
      IndexStep(chirps, i, ChirpKey);
      cm := cm[chirps[i].id := chirps[i]];
    }
    var um: map<int, User> := map[];
    for i := 0 to |users|
      invariant um == IndexBy(users[..i], UserKey)
    {
      IndexStep(users, i, UserKey);
      um := um[users[i].id := users[i]];
    }
    assert chirps[..|chirps|] == chirps;
    assert users[..|users|] == users;
    d := Document(cm, um, map[]);
  }

  /** A store with its document held in memory. */
  class DB {
    var chirps: map<int, Chirp>
    var users: map<int, User>
    var revokedTokens: map<string, Time>

    /** Every chirp and user is stored under its own id. */
    ghost predicate Valid()
      reads this
    {
      DocumentValid(Document(chirps, users, revokedTokens))
    }

    /** New on a path where no file exists: the empty document. */
    constructor ()
      ensures Valid()
      ensures chirps == map[] && users == map[] && revokedTokens == map[]
    {
      chirps, users, revokedTokens := map[], map[], map[];
    }

    /** New on an existing file holding a document these operations wrote. */
    constructor Open(d: Document)
      requires DocumentValid(d)
      ensures Valid()
      ensures chirps == d.chirps && users == d.users && revokedTokens == d.revokedTokens
    {
      chirps, users, revokedTokens := d.chirps, d.users, d.revokedTokens;
    }

    /** All chirps, ascending by id. */
    method GetChirps() returns (r: seq<Chirp>)
      requires Valid()
      ensures Sorting.StrictlySorted(r, ChirpKey)
      ensures |r| == |chirps|
      ensures forall id :: id in chirps ==> chirps[id] in r
      ensures forall c :: c in r ==> c.id in chirps && chirps[c.id] == c
    {
      var list: seq<Chirp> := [];
      var rest := chirps.Keys;
      while rest != {}
        invariant rest <= chirps.Keys
        invariant |list| + |rest| == |chirps|
        invariant forall id :: id in chirps && id !in rest ==> chirps[id] in list
        invariant forall c :: c in list ==> c.id in chirps && c.id !in rest && chirps[c.id] == c
        invariant Sorting.DistinctKeys(list, ChirpKey)
        decreases rest
      {
        HasElement(rest);
        var id :| id in rest;
        list := list + [chirps[id]];
        rest := rest - {id};
      }
      r := Sorting.SortByKey(list, ChirpKey);
      assert forall c :: c in r <==> c in multiset(list);
    }

    /** The chirp stored under id, or ChirpNotFound. */
    method GetChirp(id: int) returns (r: Result<Chirp, Error>)
      requires Valid()
      ensures id in chirps ==> r == Ok(chirps[id]) && r.value.id == id
      ensures id !in chirps ==> r == Err(ChirpNotFound)
    {
      if id !in chirps {
        return Err(ChirpNotFound);
      }
      r := Ok(chirps[id]);
    }

    /** The public view of every user, ascending by id. */
    method GetUsers() returns (r: seq<UserDTO>)
      requires Valid()
      ensures Sorting.StrictlySorted(r, DtoKey)
      ensures |r| == |users|
      ensures forall id :: id in users ==> NewUserDTO(users[id]) in r
      ensures forall u :: u in r ==> u.id in users && NewUserDTO(users[u.id]) == u
    {
      var list: seq<UserDTO> := [];
      var rest := users.Keys;
      while rest != {}
        invariant rest <= users.Keys
        invariant |list| + |rest| == |users|
        invariant forall id :: id in users && id !in rest ==> NewUserDTO(users[id]) in list
        invariant forall u :: u in list ==> u.id in users && u.id !in rest && NewUserDTO(users[u.id]) == u
        invariant Sorting.DistinctKeys(list, DtoKey)
        decreases rest
      {
        HasElement(rest);
        var id :| id in rest;
        list := list + [NewUserDTO(users[id])];
        rest := rest - {id};
      }
      r := Sorting.SortByKey(list, DtoKey);
      assert forall u :: u in r <==> u in multiset(list);
    }

    /** Stores a new chirp under the next free chirp id and returns it. */
    method CreateChirp(userId: int, body: string) returns (c: Chirp)
      requires Valid()
      modifies this
      ensures Valid()
      ensures c == Chirp(NextId(old(chirps).Keys), userId, body)
      ensures 1 <= c.id && forall id :: id in old(chirps) ==> id < c.id
      ensures chirps == old(chirps)[c.id := c]
      ensures users == old(users) && revokedTokens == old(revokedTokens)
    {
      var maxId := MaxKey(chirps.Keys);
      c := Chirp(maxId + 1, userId, body);
      chirps := chirps[c.id := c];
    }

    /**
     Registers a user, unless hashing failed or the email is already held by
     some user; on those paths nothing changes.
     */
    method CreateUser(email: string, hashed: Option<Hash>) returns (r: Result<UserDTO, Error>)
      requires Valid()
      modifies this
      ensures Valid()
      ensures hashed.None? ==> r == Err(HashFailed) && unchanged(this)
      ensures hashed.Some? && EmailInUse(old(users), email) ==> r == Err(EmailTaken) && unchanged(this)
      ensures hashed.Some? && !EmailInUse(old(users), email) ==>
                var id := NextId(old(users).Keys);
                && r == Ok(UserDTO(id, email))
                && id !in old(users)
                && users == old(users)[id := User(id, email, hashed.value)]
      ensures chirps == old(chirps) && revokedTokens == old(revokedTokens)
      ensures old(EmailsUnique(users)) ==> EmailsUnique(users)
    {
      if hashed.None? {
        return Err(HashFailed);
      }
      var rest := users.Keys;
      while rest != {}
        invariant rest <= users.Keys
        invariant forall id :: id in users && id !in rest ==> users[id].email != email
        invariant unchanged(this)
        decreases rest
      {
        HasElement(rest);
        var id :| id in rest;
        if users[id].email == email {
          return Err(EmailTaken);
        }
        rest := rest - {id};
      }
      var maxId := MaxKey(users.Keys);
      var u := User(maxId + 1, email, hashed.value);
      users := users[u.id := u];
      r := Ok(NewUserDTO(u));
    }

    /** Deletes the chirp stored under id, or reports ChirpNotFound and changes nothing. */
    method DeleteChirp(id: int) returns (r: Outcome<Error>)
      requires Valid()
      modifies this
      ensures Valid()
      ensures old(id in chirps) ==> r == Pass && chirps == old(chirps) - {id}
      ensures old(id !in chirps) ==> r == Fail(ChirpNotFound) && chirps == old(chirps)
      ensures users == old(users) && revokedTokens == old(revokedTokens)
    {
      if id !in chirps {
        return Fail(ChirpNotFound);
      }
      chirps := chirps - {id};
      r := Pass;
    }

    /**
     Replaces the email and password hash of the user stored under id. The
     new email is not checked against other users.
     */
    method UpdateUser(id: int, newEmail: string, hashed: Option<Hash>) returns (r: Result<UserDTO, Error>)
      requires Valid()
      modifies this
      ensures Valid()
      ensures old(id !in users) ==> r == Err(UnknownUserId(id)) && unchanged(this)
      ensures old(id in users) && hashed.None? ==> r == Err(HashFailed) && unchanged(this)
      ensures old(id in users) && hashed.Some? ==>
                && r == Ok(UserDTO(id, newEmail))
                && users == old(users)[id := User(id, newEmail, hashed.value)]
      ensures chirps == old(chirps) && revokedTokens == old(revokedTokens)
    {
      if id !in users {
        return Err(UnknownUserId(id));
      }
      if hashed.None? {
        return Err(HashFailed);
      }
      var updated := User(id, newEmail, hashed.value);
      users := users[id := updated];
      r := Ok(NewUserDTO(updated));
    }

    /**
     Looks for a user with this email (in no particular order) and checks the
     password against that user's hash.
     */
    method ValidateUser(email: string, password: string, matches: (Hash, string) -> bool)
      returns (r: Result<UserDTO, Error>)
      requires Valid()
      ensures r.Err? ==> r.error == UnregisteredEmail || r.error == WrongPassword
      ensures r == Err(UnregisteredEmail) <==> !EmailInUse(users, email)
      ensures r == Err(WrongPassword) ==>
                exists id :: id in users && users[id].email == email && !matches(users[id].hashedPassword, password)
      ensures r.Ok? ==>
                var id := r.value.id;
                && id in users
                && users[id].email == email
                && matches(users[id].hashedPassword, password)
                && r.value == NewUserDTO(users[id])
      ensures EmailsUnique(users) ==>
                forall id :: id in users && users[id].email == email ==>
                  r == if matches(users[id].hashedPassword, password) then Ok(NewUserDTO(users[id])) else Err(WrongPassword)
    {
      var rest := users.Keys;
      while rest != {}
        invariant rest <= users.Keys
        invariant forall id :: id in users && id !in rest ==> users[id].email != email
        decreases rest
      {
        HasElement(rest);
        var id :| id in rest;
        var user := users[id];
        if user.email == email {
          if !matches(user.hashedPassword, password) {
            return Err(WrongPassword);
          }
          return Ok(NewUserDTO(user));
        }
        rest := rest - {id};
      }
      r := Err(UnregisteredEmail);
    }

    /** TokenRevoked exactly when the token has been revoked. */
    method CheckTokenRevocation(token: string) returns (r: Outcome<Error>)
      ensures r.Pass? <==> token !in revokedTokens
      ensures r.Fail? ==> r.error == TokenRevoked
    {
      if token in revokedTokens {
        return Fail(TokenRevoked);
      }
      r := Pass;
    }

    /** Records the token as revoked at time now, overwriting an earlier revocation. */
    method AddTokenRevocation(token: string, now: Time)
      requires Valid()
      modifies this
      ensures Valid()
      ensures revokedTokens == old(revokedTokens)[token := now]
      ensures chirps == old(chirps) && users == old(users)
    {
      revokedTokens := revokedTokens[token := now];
    }
  }

  /** The first id assigned in an empty namespace is 1. */
  lemma FirstIdIsOne()
    ensures NextId({}) == 1
  {
  }

  /** When the ids in use are exactly 1..n, the next id is n + 1. */
  lemma NextIdAfterRange(keys: set<int>, n: nat)
    requires forall k :: k in keys <==> 1 <= k <= n
    ensures NextId(keys) == n + 1
  {
    if n > 0 {
      assert n in keys;
    }
  }

  /** The public view hides the password hash. */
  lemma DtoHidesHash(u: User, h: Hash)
    ensures NewUserDTO(u.(hashedPassword := h)) == NewUserDTO(u)
    ensures NewUserDTO(u).id == u.id && NewUserDTO(u).email == u.email
  {
  }

  /**
   UpdateUser's new state can hold the same email twice: another user's email
   is accepted without a check.
   */
  lemma UpdateCanDuplicateEmail(users: map<int, User>, id: int, other: int, h: Hash)
    requires id in users && other in users && id != other
    ensures !EmailsUnique(users[id := User(id, users[other].email, h)])
  {
    var updated := users[id := User(id, users[other].email, h)];
    assert id in updated && other in updated && updated[id].email == updated[other].email;
  }
}
