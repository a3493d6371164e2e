/**
 Client runs of the store, each on a fresh empty document: the store test's
 call sequences and further client runs, with the results they must give.
 Password hashes are parameters; `matches` plays the part of
 bcrypt.CompareHashAndPassword.
 */
module DbScenarios {
  import opened Results
  import opened Db
  import Sorting

  /** Two strictly sorted elements drawn from {a, b} with key(a) < key(b) are [a, b]. */
  lemma PairInOrder<T>(r: seq<T>, a: T, b: T, key: T -> int)
    requires Sorting.StrictlySorted(r, key) && |r| == 2 && key(a) < key(b)
    requires forall c :: c in r ==> c == a || c == b
    ensures r == [a, b]
  {
    assert r[0] in r && r[1] in r;
  }

  /** An empty store lists nothing; two chirps get ids 1 and 2 and are listed in that order. */
  method ChirpScenario() returns (empty: seq<Chirp>, first: Chirp, second: Chirp, all: seq<Chirp>)
    ensures empty == []
    ensures first == Chirp(1, 0, "first chirp!") && second == Chirp(2, 0, "second chirp")
    ensures all == [first, second]
  {
    var store := new DB();
    empty := store.GetChirps();
    first := store.CreateChirp(0, "first chirp!");
    FirstIdIsOne();
    NextIdAfterRange(store.chirps.Keys, 1);
    second := store.CreateChirp(0, "second chirp");
    all := store.GetChirps();
    PairInOrder(all, first, second, ChirpKey);
  }

  /** Registers the store test's two users on a fresh store: they get ids 1 and 2. */
  method RegisterTwo(h1: Hash, h2: Hash) returns (store: DB, u1: Result<UserDTO, Error>, u2: Result<UserDTO, Error>)
    ensures fresh(store) && store.Valid()
    ensures u1 == Ok(UserDTO(1, "x@ymail.com")) && u2 == Ok(UserDTO(2, "abc@dmail.com"))
    ensures store.users == map[1 := User(1, "x@ymail.com", h1), 2 := User(2, "abc@dmail.com", h2)]
    ensures store.chirps == map[] && store.revokedTokens == map[]
  {
    store := new DB();
    u1 := store.CreateUser("x@ymail.com", Some(h1));
    FirstIdIsOne();
    NextIdAfterRange(store.users.Keys, 1);
    assert store.users[1].email != "abc@dmail.com";
    u2 := store.CreateUser("abc@dmail.com", Some(h2));
  }

  /** A second registration of an email is refused; the two users are listed by id. */
  method UserScenario(h1: Hash, h2: Hash, h3: Hash)
    returns (u1: Result<UserDTO, Error>, u2: Result<UserDTO, Error>, dup: Result<UserDTO, Error>, listed: seq<UserDTO>)
    ensures u1 == Ok(UserDTO(1, "x@ymail.com")) && u2 == Ok(UserDTO(2, "abc@dmail.com"))
    ensures dup == Err(EmailTaken)
    ensures listed == [UserDTO(1, "x@ymail.com"), UserDTO(2, "abc@dmail.com")]
  {
    var store;
    store, u1, u2 := RegisterTwo(h1, h2);
    assert store.users[1].email == "x@ymail.com";
    dup := store.CreateUser("x@ymail.com", Some(h3));
    listed := store.GetUsers();
    PairInOrder(listed, UserDTO(1, "x@ymail.com"), UserDTO(2, "abc@dmail.com"), DtoKey);
  }

  /** Each user logs in with their own password; a wrong password is refused. */
  method LoginScenario(matches: (Hash, string) -> bool, h1: Hash, h2: Hash)
    returns (v1: Result<UserDTO, Error>, v2: Result<UserDTO, Error>, bad: Result<UserDTO, Error>)
    requires matches(h1, "U@*#PFOcj mp") && matches(h2, "10f9j") && !matches(h1, "wrong password")
    ensures v1 == Ok(UserDTO(1, "x@ymail.com")) && v2 == Ok(UserDTO(2, "abc@dmail.com"))
    ensures bad == Err(WrongPassword)
  {
    var store, _, _ := RegisterTwo(h1, h2);
    assert EmailsUnique(store.users);
    assert store.users[1].email == "x@ymail.com" && store.users[2].email == "abc@dmail.com";
    v1 := store.ValidateUser("x@ymail.com", "U@*#PFOcj mp", matches);
    v2 := store.ValidateUser("abc@dmail.com", "10f9j", matches);
    bad := store.ValidateUser("x@ymail.com", "wrong password", matches);
  }

  /**
   Deleting a chirp makes it unreachable and a second delete fails; the
   next chirp takes the largest remaining id plus one, so the id of a deleted
   last chirp is handed out again.
   */
  method DeleteScenario() returns (deleted: Outcome<Error>, lookup: Result<Chirp, Error>,
                                   again: Outcome<Error>, kept: Result<Chirp, Error>, next: Chirp)
    ensures deleted == Pass
    ensures lookup == Err(ChirpNotFound) && again == Fail(ChirpNotFound)
    ensures kept == Ok(Chirp(1, 5, "kept"))
    ensures next.id == 2
  {
    var store := new DB();
    var c1 := store.CreateChirp(5, "kept");
    FirstIdIsOne();
    NextIdAfterRange(store.chirps.Keys, 1);
    var c2 := store.CreateChirp(5, "removed");
    deleted := store.DeleteChirp(2);
    lookup := store.GetChirp(2);
    again := store.DeleteChirp(2);
    kept := store.GetChirp(1);
    NextIdAfterRange(store.chirps.Keys, 1);
    next := store.CreateChirp(5, "reuses an id");
  }

  /** A revoked token is reported as revoked at once; other tokens are not. */
  method RevocationScenario(now: Time) returns (before: Outcome<Error>, after: Outcome<Error>, other: Outcome<Error>)
    ensures before == Pass
    ensures after == Fail(TokenRevoked)
    ensures other == Pass
  {
    var store := new DB();
    before := store.CheckTokenRevocation("refresh-1");
    store.AddTokenRevocation("refresh-1", now);
    after := store.CheckTokenRevocation("refresh-1");
    other := store.CheckTokenRevocation("refresh-2");
  }
  /**
   Chirps created one after another on a fresh store, with no deletions in
   between, get the ids 1, 2, ..., n in order and are listed in that order.
   */
  method CreateMany(authorId: int, bodies: seq<string>) returns (created: seq<Chirp>, listed: seq<Chirp>)
    ensures |created| == |bodies|
    ensures forall i :: 0 <= i < |bodies| ==> created[i] == Chirp(i + 1, authorId, bodies[i])
    ensures listed == created
  {
    var store := new DB();
    created := CreateAll(store, authorId, bodies);
    listed := store.GetChirps();
    ListedInOrder(listed, created);
  }

  /** The creation loop of CreateMany, on a store that starts empty. */
  method CreateAll(store: DB, authorId: int, bodies: seq<string>) returns (created: seq<Chirp>)
    requires store.Valid() && store.chirps == map[]
    modifies store
    ensures store.Valid()
    ensures |created| == |bodies| == |store.chirps|
    ensures forall i :: 0 <= i < |bodies| ==> created[i] == Chirp(i + 1, authorId, bodies[i])
    ensures forall id :: id in store.chirps <==> 1 <= id <= |created|
    ensures forall id :: id in store.chirps ==> store.chirps[id] == created[id - 1]
    ensures store.users == old(store.users) && store.revokedTokens == old(store.revokedTokens)
  {
    created := [];
    for i := 0 to |bodies|
      invariant store.Valid()
      invariant |created| == i == |store.chirps|
      invariant forall k :: k in store.chirps <==> 1 <= k <= i
      invariant forall j :: 0 <= j < i ==> store.chirps[j + 1] == created[j] == Chirp(j + 1, authorId, bodies[j])
      invariant store.users == old(store.users) && store.revokedTokens == old(store.revokedTokens)
    {
      NextIdAfterRange(store.chirps.Keys, i);
      ghost var before := store.chirps;
      var c := store.CreateChirp(authorId, bodies[i]);
      CreateStep(before, created, i, authorId, bodies, c, store.chirps, created + [c]);
      created := created + [c];
    }
  }

  /** One creation extends the ids 1..i to 1..i + 1 and the created sequence by the new chirp. */
  lemma CreateStep(chirps: map<int, Chirp>, created: seq<Chirp>, i: nat, authorId: int, bodies: seq<string>,
                   c: Chirp, next: map<int, Chirp>, grown: seq<Chirp>)
    requires |created| == i < |bodies|
    requires forall k :: k in chirps <==> 1 <= k <= i
    requires forall j :: 0 <= j < i ==> chirps[j + 1] == created[j] == Chirp(j + 1, authorId, bodies[j])
    requires c == Chirp(i + 1, authorId, bodies[i])
    requires next == chirps[i + 1 := c] && grown == created + [c]
    ensures forall k :: k in next <==> 1 <= k <= i + 1
    ensures forall j :: 0 <= j < i + 1 ==> next[j + 1] == grown[j] == Chirp(j + 1, authorId, bodies[j])
  {
  }

  /** A strictly sorted listing of chirps whose ids are 1..n is the sequence ordered by id. */
  lemma ListedInOrder(listed: seq<Chirp>, created: seq<Chirp>)
    requires Sorting.StrictlySorted(listed, ChirpKey) && |listed| == |created|
    requires forall j :: 0 <= j < |created| ==> created[j].id == j + 1
    requires forall c :: c in listed ==> 1 <= c.id <= |created| && c == created[c.id - 1]
    ensures listed == created
  {
    forall i | 0 <= i < |listed| ensures listed[i] == created[i] {
      IdAtPosition(listed, |created|, i);
    }
  }

  /** In a strictly sorted listing of n chirps with ids in 1..n, position i holds id i + 1. */
  lemma {:induction false} IdAtPosition(listed: seq<Chirp>, n: nat, i: nat)
    requires Sorting.StrictlySorted(listed, ChirpKey) && |listed| == n
    requires forall c :: c in listed ==> 1 <= c.id <= n
    requires i < n
    ensures listed[i].id == i + 1
  {
    LowerBound(listed, i);
    LowerBound(listed, n - 1);
    assert listed[n - 1] in listed;
    var j := n - 1;
    // ids grow by at least one per position and end at most at n
    assert listed[j].id - listed[i].id >= j - i by {
      GapAtLeast(listed, i, j);
    }
    assert listed[i] in listed;
  }

  /** Ids are strictly increasing integers, so position i holds at least the first id plus i. */
  lemma {:induction false} LowerBound(listed: seq<Chirp>, i: nat)
    requires Sorting.StrictlySorted(listed, ChirpKey) && i < |listed|
    requires forall c :: c in listed ==> 1 <= c.id
    ensures listed[i].id >= i + 1
  {
    assert listed[0] in listed;
    if i > 0 {
      GapAtLeast(listed, 0, i);
    }
  }

  lemma {:induction false} GapAtLeast(listed: seq<Chirp>, i: nat, j: nat)
    requires Sorting.StrictlySorted(listed, ChirpKey) && i <= j < |listed|
    ensures listed[j].id - listed[i].id >= j - i
    decreases j - i
  {
    if i < j {
      GapAtLeast(listed, i + 1, j);
      assert ChirpKey(listed[i]) < ChirpKey(listed[i + 1]);
    }
  }
}
