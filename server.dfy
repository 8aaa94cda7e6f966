/**
 * The request-handling logic of server.py over its in-memory user map:
 * loading records, listing names, case-insensitive lookup by name and
 * creating a user after ordered validation. The module-level dictionary
 * becomes the state of a Registry object; HTTP responses become Response values.
 */
module Server {
  import opened Wrappers
  import opened Users
  import opened Validator

  /**
   * A Python dictionary from ID strings to users: its keys in insertion order
   * (the order in which values() iterates) and its entries.
   */
  datatype UserMap = UserMap(keys: seq<string>, users: map<string, User>)

  const Empty: UserMap := UserMap([], map[])

  predicate Distinct(s: seq<string>)
  {
    forall i, j :: 0 <= i < j < |s| ==> s[i] != s[j]
  }

  /** The key order lists every entry exactly once. */
  ghost predicate WellFormed(m: UserMap)
  {
    Distinct(m.keys) && forall k :: k in m.users <==> k in m.keys
  }

  /** The registry invariant: every user is stored under its own ID, and its ID and phone are valid. */
  ghost predicate Consistent(m: UserMap)
  {
    forall k :: k in m.users ==> m.users[k].id == k && ValidId(k) && IsValidPhone(m.users[k].phone)
  }

  /** Python's assignment m[k] = u: a present key keeps its place, a new key goes last. */
  function Put(m: UserMap, k: string, u: User): (r: UserMap)
    requires WellFormed(m)
    ensures WellFormed(r)
    ensures r.users.Keys == m.users.Keys + {k} && r.users[k] == u
    ensures forall j :: j in m.users && j != k ==> r.users[j] == m.users[j]
    ensures |r.keys| == if k in m.users then |m.keys| else |m.keys| + 1
    ensures r.keys[..|m.keys|] == m.keys
  {
    UserMap(if k in m.users then m.keys else m.keys + [k], m.users[k := u])
  }

  /** The users in iteration order, as Python's values(). */
  function Values(m: UserMap): (vs: seq<User>)
    requires WellFormed(m)
    ensures |vs| == |m.keys| == |m.users|
    ensures forall u :: u in vs <==> u in m.users.Values
    ensures forall i :: 0 <= i < |vs| ==> vs[i] == m.users[m.keys[i]]
  {
    KeyCount(m);
    var vs := seq(|m.keys|, i requires 0 <= i < |m.keys| => m.users[m.keys[i]]);
    assert forall u :: u in m.users.Values ==> u in vs by {
      forall u | u in m.users.Values
        ensures u in vs
      {
        var k :| k in m.users && m.users[k] == u;
        var i :| 0 <= i < |m.keys| && m.keys[i] == k;
        assert vs[i] == u;
      }
    }
    vs
  }

  /** A sequence without repetitions has as many distinct elements as it has positions. */
  lemma {:induction false} DistinctCardinality(s: seq<string>)
    requires Distinct(s)
    ensures |set x | x in s| == |s|
  {
    if s != [] {
      var n := |s| - 1;
      var prefix := s[..n];
      assert Distinct(prefix);
      DistinctCardinality(prefix);
      assert (set x | x in s) == (set x | x in prefix) + {s[n]};
      assert s[n] !in (set x | x in prefix);
    }
  }

  /** A well-formed map has one key in its order per entry. */
  lemma KeyCount(m: UserMap)
    requires WellFormed(m)
    ensures |m.users| == |m.keys|
  {
    DistinctCardinality(m.keys);
    assert m.users.Keys == set x | x in m.keys;
  }

  // ----- Loading (load_users_from_file) -----

  /** A complete record is admitted when its ID and phone are valid. */
  predicate Admissible(rec: map<string, string>)
    requires HasUserFields(rec)
  {
    ValidId(rec["id"]) && IsValidPhone(rec["phone"])
  }

  /** One pass of the load loop: insert an admissible record under its ID, skip any other. */
  function Admit(m: UserMap, rec: map<string, string>): (r: UserMap)
    requires WellFormed(m) && HasUserFields(rec)
    ensures WellFormed(r)
  {
    if Admissible(rec) then Put(m, rec["id"], FromDict(rec).value) else m
  }

  predicate AllComplete(recs: seq<map<string, string>>)
  {
    forall j :: 0 <= j < |recs| ==> HasUserFields(recs[j])
  }

  /** The map after the load loop has run over all of recs, in order. */
  function Ingest(m: UserMap, recs: seq<map<string, string>>): (r: UserMap)
    requires WellFormed(m) && AllComplete(recs)
    ensures WellFormed(r)
    decreases |recs|
  {
    if recs == [] then m
    else Admit(Ingest(m, recs[..|recs| - 1]), recs[|recs| - 1])
  }

  /** The position of the first record lacking a field (where the loop raises KeyError), or |recs|. */
  function FirstIncomplete(recs: seq<map<string, string>>): (n: nat)
    ensures n <= |recs|
    ensures AllComplete(recs[..n])
    ensures n < |recs| ==> !HasUserFields(recs[n])
  {
    if recs == [] then 0
    else if !HasUserFields(recs[0]) then 0
    else
      var n := 1 + FirstIncomplete(recs[1..]);
      assert forall j :: 1 <= j < n ==> recs[..n][j] == recs[1..][..n - 1][j - 1];
      n
  }

  /** A record the load loop inserts under key k. */
  predicate AdmittedAs(rec: map<string, string>, k: string)
  {
    HasUserFields(rec) && Admissible(rec) && rec["id"] == k
  }

  /** Position j holds the last record the load loop inserts under key k. */
  predicate LastAdmittedAt(recs: seq<map<string, string>>, k: string, j: int)
  {
    && 0 <= j < |recs| && AdmittedAs(recs[j], k)
    && forall l :: j < l < |recs| ==> !AdmittedAs(recs[l], k)
  }

  /**
   * Appending a record not admitted under k keeps the last admitted position
   * last, and adds no admitted position.
   */
  lemma LastAdmittedAtExtend(recs: seq<map<string, string>>, prefix: seq<map<string, string>>, k: string)
    requires |recs| > 0 && prefix == recs[..|recs| - 1] && !AdmittedAs(recs[|recs| - 1], k)
    ensures forall j :: LastAdmittedAt(prefix, k, j) ==> LastAdmittedAt(recs, k, j)
    ensures (forall j :: 0 <= j < |prefix| ==> !AdmittedAs(prefix[j], k)) ==>
              forall j :: 0 <= j < |recs| ==> !AdmittedAs(recs[j], k)
  {
    assert forall j :: 0 <= j < |prefix| ==> prefix[j] == recs[j];
    forall j | LastAdmittedAt(prefix, k, j)
      ensures LastAdmittedAt(recs, k, j)
    {
      forall l | j < l < |recs|
        ensures !AdmittedAs(recs[l], k)
      {
        if l < |prefix| {
          assert prefix[l] == recs[l];
        }
      }
    }
  }

  /** The user of the last admissible record with ID k, if any: the one a load leaves under k. */
  function LastAdmitted(recs: seq<map<string, string>>, k: string): (r: Option<User>)
    requires AllComplete(recs)
    ensures r.None? <==> forall j :: 0 <= j < |recs| ==> !AdmittedAs(recs[j], k)
    ensures r.Some? ==> exists j :: LastAdmittedAt(recs, k, j) && r == FromDict(recs[j])
    ensures r.Some? ==> r.value.id == k && ValidId(k) && IsValidPhone(r.value.phone)
  {
    if recs == [] then None
    else
      var n := |recs| - 1;
      if AdmittedAs(recs[n], k) then
        assert LastAdmittedAt(recs, k, n) && FromDict(recs[n]).value.id == k;
        FromDict(recs[n])
      else
        LastAdmittedAtExtend(recs, recs[..n], k);
        LastAdmitted(recs[..n], k)
  }

  /**
   * Loading skips invalid records and inserts every other one by its ID, with no
   * duplicate check: the last admissible record with a given ID wins, and a key no
   * admissible record names keeps its earlier entry.
   */
  lemma {:induction false} IngestLookup(m: UserMap, recs: seq<map<string, string>>, k: string)
    requires WellFormed(m) && AllComplete(recs)
    ensures k in Ingest(m, recs).users <==> LastAdmitted(recs, k).Some? || k in m.users
    ensures LastAdmitted(recs, k).Some? ==> Ingest(m, recs).users[k] == LastAdmitted(recs, k).value
    ensures LastAdmitted(recs, k).None? && k in m.users ==> Ingest(m, recs).users[k] == m.users[k]
  {
    if recs != [] {
      IngestLookup(m, recs[..|recs| - 1], k);
    }
  }

  /** Both load paths, skip and insert, keep the registry invariant. */
  lemma {:induction false} IngestKeepsConsistent(m: UserMap, recs: seq<map<string, string>>)
    requires WellFormed(m) && Consistent(m) && AllComplete(recs)
    ensures Consistent(Ingest(m, recs))
  {
    if recs != [] {
      IngestKeepsConsistent(m, recs[..|recs| - 1]);
    }
  }

  /** The records save_users_to_file writes: each user's dictionary, in iteration order. */
  function Snapshot(m: UserMap): (recs: seq<map<string, string>>)
    requires WellFormed(m)
    ensures |recs| == |m.keys| && AllComplete(recs)
  {
    seq(|m.keys|, i requires 0 <= i < |m.keys| => ToDict(m.users[m.keys[i]]))
  }

  /** The first n entries of a map in iteration order. */
  function Prefix(m: UserMap, n: nat): (r: UserMap)
    requires WellFormed(m) && n <= |m.keys|
    ensures WellFormed(r)
  {
    UserMap(m.keys[..n], map k | k in m.keys[..n] :: m.users[k])
  }

  /** Extending a prefix by one key is the dictionary assignment of that key. */
  lemma PrefixStep(m: UserMap, n: nat)
    requires WellFormed(m) && 0 < n <= |m.keys|
    ensures Prefix(m, n) == Put(Prefix(m, n - 1), m.keys[n - 1], m.users[m.keys[n - 1]])
  {
    var k := m.keys[n - 1];
    assert m.keys[..n] == m.keys[..n - 1] + [k];
    assert k !in m.keys[..n - 1];
    assert Prefix(m, n).users == Prefix(m, n - 1).users[k := m.users[k]];
  }

  /** Loading one more record is one more pass of the loop. */
  lemma IngestSnoc(m: UserMap, recs: seq<map<string, string>>, rec: map<string, string>)
    requires WellFormed(m) && AllComplete(recs) && HasUserFields(rec)
    ensures AllComplete(recs + [rec])
    ensures Ingest(m, recs + [rec]) == Admit(Ingest(m, recs), rec)
  {
  }

  /** The first n saved records are the first n - 1 followed by the dictionary of the n-th user. */
  lemma SnapshotPrefixSnoc(m: UserMap, n: nat)
    requires WellFormed(m) && 0 < n <= |m.keys|
    ensures Snapshot(m)[..n] == Snapshot(m)[..n - 1] + [ToDict(m.users[m.keys[n - 1]])]
  {
  }

  /** Loading one more valid user's dictionary assigns that user under its ID. */
  lemma LoadOneMore(p: UserMap, prev: seq<map<string, string>>, u: User)
    requires WellFormed(p) && AllComplete(prev) && Ingest(Empty, prev) == p
    requires ValidId(u.id) && IsValidPhone(u.phone)
    ensures AllComplete(prev + [ToDict(u)])
    ensures Ingest(Empty, prev + [ToDict(u)]) == Put(p, u.id, u)
  {
    FromDictToDict(u);
    IngestSnoc(Empty, prev, ToDict(u));
  }

  /** Loading one more saved record extends the rebuilt prefix by that record's entry. */
  lemma SnapshotStep(m: UserMap, n: nat)
    requires WellFormed(m) && Consistent(m) && 0 < n <= |m.keys|
    requires AllComplete(Snapshot(m)[..n - 1]) && Ingest(Empty, Snapshot(m)[..n - 1]) == Prefix(m, n - 1)
    ensures AllComplete(Snapshot(m)[..n])
    ensures Ingest(Empty, Snapshot(m)[..n]) == Prefix(m, n)
  {
    var k := m.keys[n - 1];
    assert k in m.users;
    SnapshotPrefixSnoc(m, n);
    LoadOneMore(Prefix(m, n - 1), Snapshot(m)[..n - 1], m.users[k]);
    PrefixStep(m, n);
  }

  /** The load loop after i + 1 records is one more pass after i records. */
  lemma IngestStep(m: UserMap, recs: seq<map<string, string>>, i: nat)
    requires WellFormed(m) && i < |recs| && AllComplete(recs[..i]) && HasUserFields(recs[i])
    ensures AllComplete(recs[..i + 1])
    ensures Ingest(m, recs[..i + 1]) == Admit(Ingest(m, recs[..i]), recs[i])
  {
    assert recs[..i + 1] == recs[..i] + [recs[i]];
    IngestSnoc(m, recs[..i], recs[i]);
  }

  lemma {:induction false} SnapshotPrefixLoads(m: UserMap, n: nat)
    requires WellFormed(m) && Consistent(m) && n <= |m.keys|
    ensures AllComplete(Snapshot(m)[..n])
    ensures Ingest(Empty, Snapshot(m)[..n]) == Prefix(m, n)
  {
    if n == 0 {
      assert Snapshot(m)[..0] == [];
      assert Prefix(m, 0).users == map[];
    } else {
      SnapshotPrefixLoads(m, n - 1);
      SnapshotStep(m, n);
    }
  }

  /** The prefix of all keys is the whole map. */
  lemma PrefixAll(m: UserMap)
    requires WellFormed(m)
    ensures Prefix(m, |m.keys|) == m
  {
  }

  /** Loading what save_users_to_file writes rebuilds the same map, in the same order. */
  lemma SaveLoadRoundTrip(m: UserMap)
    requires WellFormed(m) && Consistent(m)
    ensures Ingest(Empty, Snapshot(m)) == m
  {
    var n := |m.keys|;
    SnapshotPrefixLoads(m, n);
    assert Snapshot(m)[..n] == Snapshot(m);
    PrefixAll(m);
  }

  // ----- Lookup (get_user_by_name) -----

  /** ASCII lower-casing of one character. */
  function LowerChar(c: char): char
  {
    if 'A' <= c <= 'Z' then (c as int - 'A' as int + 'a' as int) as char else c
  }

  /** The other case of an ASCII letter; any other character is its own partner. */
  function CasePartner(c: char): char
  {
    if 'A' <= c <= 'Z' then (c as int + 32) as char
    else if 'a' <= c <= 'z' then (c as int - 32) as char
    else c
  }

  /** Two strings that differ at most in the case of ASCII letters, position by position. */
  predicate SameUpToCase(a: string, b: string)
  {
    |a| == |b| && forall i :: 0 <= i < |a| ==> a[i] == b[i] || a[i] == CasePartner(b[i])
  }

  /** ASCII lower-casing, as str.lower on ASCII text: the same letters, none of them a capital. */
  function Lower(s: string): (r: string)
    ensures SameUpToCase(r, s)
    ensures forall i :: 0 <= i < |r| ==> !('A' <= r[i] <= 'Z')
  {
    seq(|s|, i requires 0 <= i < |s| => LowerChar(s[i]))
  }

  /** Two characters lower-case alike exactly when they are equal or case partners. */
  lemma LowerCharSame(x: char, y: char)
    ensures LowerChar(x) == LowerChar(y) <==> x == y || x == CasePartner(y)
  {
  }

  /** Comparing lower-cased strings is comparing them up to case. */
  lemma LowerEqualIff(a: string, b: string)
    ensures Lower(a) == Lower(b) <==> SameUpToCase(a, b)
  {
    if SameUpToCase(a, b) {
      forall i | 0 <= i < |a|
        ensures Lower(a)[i] == Lower(b)[i]
      {
        LowerCharSame(a[i], b[i]);
      }
    }
    if Lower(a) == Lower(b) {
      forall i | 0 <= i < |a|
        ensures a[i] == b[i] || a[i] == CasePartner(b[i])
      {
        assert Lower(a)[i] == Lower(b)[i];
        LowerCharSame(a[i], b[i]);
      }
    }
  }

  /** A user whose name equals the query up to case. */
  predicate NameMatches(u: User, query: string)
  {
    Lower(u.name) == Lower(query)
  }

  /** The position of the first user whose name matches the query. */
  function FirstMatch(vs: seq<User>, query: string): (r: Option<nat>)
    ensures r.Some? ==> r.value < |vs| && NameMatches(vs[r.value], query)
    ensures r.Some? ==> forall j :: 0 <= j < r.value ==> !NameMatches(vs[j], query)
    ensures r.None? <==> forall j :: 0 <= j < |vs| ==> !NameMatches(vs[j], query)
  {
    if vs == [] then None
    else if NameMatches(vs[0], query) then Some(0)
    else match FirstMatch(vs[1..], query)
      case None => None
      case Some(i) => Some(i + 1)
  }

  /** A match with no match before it is the first match. */
  lemma FirstMatchAt(vs: seq<User>, query: string, i: nat)
    requires i < |vs| && NameMatches(vs[i], query)
    requires forall j :: 0 <= j < i ==> !NameMatches(vs[j], query)
    ensures FirstMatch(vs, query) == Some(i)
  {
  }

  /** The outcome of one request: a user (200 or 201), an error message (400) or not found (404). */
  datatype Response = Ok(user: User) | Error(message: string) | NotFound

  /** What get_user_by_name answers for a query against the map. */
  function Lookup(m: UserMap, query: string): (r: Response)
    requires WellFormed(m)
    ensures !r.Error?
    ensures r.Ok? ==> r.user in m.users.Values && NameMatches(r.user, query)
    ensures r.Ok? ==>
      exists i :: 0 <= i < |m.keys| && m.users[m.keys[i]] == r.user
        && forall j :: 0 <= j < i ==> !NameMatches(m.users[m.keys[j]], query)
    ensures r.NotFound? <==> forall k :: k in m.users ==> !NameMatches(m.users[k], query)
  {
    match FirstMatch(Values(m), query)
    case Some(i) => Ok(Values(m)[i])
    case None => NotFound
  }

  /** The first match depends on the query only through its lower-cased form. */
  lemma {:induction false} FirstMatchSameLower(vs: seq<User>, q1: string, q2: string)
    requires Lower(q1) == Lower(q2)
    ensures FirstMatch(vs, q1) == FirstMatch(vs, q2)
  {
    if vs != [] {
      FirstMatchSameLower(vs[1..], q1, q2);
    }
  }

  /** Lookup ignores the case of the query: two queries equal up to case get the same answer. */
  lemma LookupCaseInsensitive(m: UserMap, q1: string, q2: string)
    requires WellFormed(m) && SameUpToCase(q1, q2)
    ensures Lookup(m, q1) == Lookup(m, q2)
  {
    LowerEqualIff(q1, q2);
    FirstMatchSameLower(Values(m), q1, q2);
  }

  /** Every stored user is found under any casing of its name, possibly as an earlier user of the same name. */
  lemma StoredNameFound(m: UserMap, k: string, query: string)
    requires WellFormed(m) && k in m.users && SameUpToCase(query, m.users[k].name)
    ensures Lookup(m, query).Ok?
    ensures NameMatches(Lookup(m, query).user, query)
  {
    LowerEqualIff(query, m.users[k].name);
  }

  // ----- Creation (create_user) -----

  /** The fields create_user requires, in the order it checks them. */
  const RequiredFields: seq<string> := ["id", "name", "phone", "address"]

  /** A field counts as given when it is present and not empty. */
  predicate Present(data: map<string, string>, field: string)
  {
    field in data && data[field] != ""
  }

  /** The first of fields that data lacks, if any. */
  function MissingField(data: map<string, string>, fields: seq<string>): (r: Option<string>)
    ensures r.None? <==> forall j :: 0 <= j < |fields| ==> Present(data, fields[j])
    ensures r.Some? ==> exists j :: 0 <= j < |fields| && r.value == fields[j] && !Present(data, fields[j])
                                    && forall l :: 0 <= l < j ==> Present(data, fields[l])
  {
    if fields == [] then None
    else if !Present(data, fields[0]) then Some(fields[0])
    else
      var r := MissingField(data, fields[1..]);
      assert r.Some? ==> exists j :: 0 <= j < |fields[1..]| && r.value == fields[1..][j] && !Present(data, fields[1..][j])
                                     && forall l :: 0 <= l < j ==> Present(data, fields[1..][l]);
      r
  }

  /** The required-field loop of create_user. */
  method FindMissingField(data: map<string, string>) returns (missing: Option<string>)
    ensures missing == MissingField(data, RequiredFields)
  {
    for i := 0 to |RequiredFields|
      invariant forall j :: 0 <= j < i ==> Present(data, RequiredFields[j])
    {
      var field := RequiredFields[i];
      if !Present(data, field) {
        return Some(field);
      }
    }
    return None;
  }

  /** All four required fields are given. */
  predicate AllPresent(data: map<string, string>)
  {
    Present(data, "id") && Present(data, "name") && Present(data, "phone") && Present(data, "address")
  }

  /** No field is reported missing exactly when all four are given. */
  lemma NoneMissingIff(data: map<string, string>)
    ensures MissingField(data, RequiredFields).None? <==> AllPresent(data)
  {
    assert RequiredFields[0] == "id" && RequiredFields[1] == "name";
    assert RequiredFields[2] == "phone" && RequiredFields[3] == "address";
  }

  /** What create_user answers for a request body; None is a body that is not JSON. */
  function CreateResponse(m: UserMap, body: Option<map<string, string>>): (r: Response)
    ensures !r.NotFound?
    ensures body.None? ==> r == Error("Invalid JSON input")
    ensures r.Ok? ==>
      && body.Some? && FromDict(body.value) == Some(r.user)
      && r.user.id !in m.users && ValidId(r.user.id) && IsValidPhone(r.user.phone)
  {
    match body
    case None => Error("Invalid JSON input")
    case Some(data) =>
      match MissingField(data, RequiredFields)
      case Some(field) => Error("Missing field: " + field)
      case None =>
        NoneMissingIff(data);
        if !ValidId(data["id"]) then Error("Invalid ID")
        else if !IsValidPhone(data["phone"]) then Error("Invalid phone number")
        else if data["id"] in m.users then Error("User already exists")
        else Ok(User(data["id"], data["name"], data["phone"], data["address"]))
  }

  /** The map after create_user: the new user inserted on success, unchanged otherwise. */
  function AfterCreate(m: UserMap, body: Option<map<string, string>>): (r: UserMap)
    requires WellFormed(m)
    ensures WellFormed(r)
  {
    var response := CreateResponse(m, body);
    if response.Ok? then Put(m, response.user.id, response.user) else m
  }

  /** Every rejected request leaves the map as it was. */
  lemma RejectedCreateKeepsMap(m: UserMap, body: Option<map<string, string>>)
    requires WellFormed(m) && !CreateResponse(m, body).Ok?
    ensures AfterCreate(m, body) == m
  {
  }

  /** The checks run in a fixed order: the first missing field, then the ID, then the phone, then uniqueness. */
  lemma CreateCheckOrder(m: UserMap, data: map<string, string>, j: nat)
    requires j < |RequiredFields| && !Present(data, RequiredFields[j])
    requires forall l :: 0 <= l < j ==> Present(data, RequiredFields[l])
    ensures CreateResponse(m, Some(data)) == Error("Missing field: " + RequiredFields[j])
  {
  }

  /** A create succeeds exactly when all fields are given, ID and phone are valid and the ID is new. */
  lemma CreateSucceedsIff(m: UserMap, data: map<string, string>)
    ensures CreateResponse(m, Some(data)).Ok? <==>
      && AllPresent(data)
      && ValidId(data["id"]) && IsValidPhone(data["phone"]) && data["id"] !in m.users
  {
    NoneMissingIff(data);
  }

  /** With all fields given, an invalid ID is reported whatever the phone and the map hold. */
  lemma InvalidIdReportedFirst(m: UserMap, data: map<string, string>)
    requires AllPresent(data)
    ensures !ValidId(data["id"]) ==> CreateResponse(m, Some(data)) == Error("Invalid ID")
    ensures ValidId(data["id"]) && !IsValidPhone(data["phone"]) ==>
              CreateResponse(m, Some(data)) == Error("Invalid phone number")
  {
    NoneMissingIff(data);
  }

  /** A valid request whose ID is already stored is refused, and the stored user is kept. */
  lemma DuplicateRejected(m: UserMap, data: map<string, string>)
    requires WellFormed(m)
    requires AllPresent(data)
    requires ValidId(data["id"]) && IsValidPhone(data["phone"]) && data["id"] in m.users
    ensures CreateResponse(m, Some(data)) == Error("User already exists")
    ensures AfterCreate(m, Some(data)).users[data["id"]] == m.users[data["id"]]
  {
    NoneMissingIff(data);
  }

  /**
   * A successful create stores exactly one new user, built from the request's
   * four fields, under a new key placed last; every other entry is unchanged.
   */
  lemma CreateAddsOne(m: UserMap, data: map<string, string>)
    requires WellFormed(m) && CreateResponse(m, Some(data)).Ok?
    ensures var u := CreateResponse(m, Some(data)).user;
      && HasUserFields(data) && Some(u) == FromDict(data)
      && u.id !in m.users
      && AfterCreate(m, Some(data)).keys == m.keys + [u.id]
      && AfterCreate(m, Some(data)).users == m.users[u.id := u]
      && |AfterCreate(m, Some(data)).users| == |m.users| + 1
  {
    NoneMissingIff(data);
    var u := CreateResponse(m, Some(data)).user;
    var r := AfterCreate(m, Some(data));
    KeyCount(m);
    KeyCount(r);
  }

  /** Create keeps the registry invariant. */
  lemma CreateKeepsConsistent(m: UserMap, body: Option<map<string, string>>)
    requires WellFormed(m) && Consistent(m)
    ensures Consistent(AfterCreate(m, body))
  {
  }

  /** The test payload without a phone is refused for that field. */
  lemma MissingPhoneExample()
    ensures CreateResponse(Empty, Some(map["id" := "123456782", "name" := "NoPhone", "address" := "MissingPhone"]))
            == Error("Missing field: phone")
  {
    var data := map["id" := "123456782", "name" := "NoPhone", "address" := "MissingPhone"];
    CreateCheckOrder(Empty, data, 2);
  }

  /** The test payload with the five-digit ID "12345" is refused as an invalid ID. */
  lemma InvalidIdExample()
    ensures CreateResponse(Empty, Some(map["id" := "12345", "name" := "BadID", "phone" := "0501234567", "address" := "ShortTown"]))
            == Error("Invalid ID")
  {
    var data := map["id" := "12345", "name" := "BadID", "phone" := "0501234567", "address" := "ShortTown"];
    assert data["id"] == "12345";
    ShortIdExample();
    NoneMissingIff(data);
  }

  /** The test payload with the phone "0591234567" is refused as an invalid phone. */
  lemma InvalidPhoneExample()
    ensures CreateResponse(Empty, Some(map["id" := "123456782", "name" := "BadPhone", "phone" := "0591234567", "address" := "NoReception"]))
            == Error("Invalid phone number")
  {
    var data := map["id" := "123456782", "name" := "BadPhone", "phone" := "0591234567", "address" := "NoReception"];
    assert AllPresent(data) && data["id"] == "123456782" && data["phone"] == "0591234567";
    ValidIdExample();
    PhoneExamples();
    InvalidIdReportedFirst(Empty, data);
  }

  /** The valid test payload creates its user. */
  lemma ValidCreateExample()
    ensures CreateResponse(Empty, Some(map["id" := "123456782", "name" := "Tester123", "phone" := "0531234567", "address" := "TestCity"]))
            == Ok(User("123456782", "Tester123", "0531234567", "TestCity"))
  {
    var data := map["id" := "123456782", "name" := "Tester123", "phone" := "0531234567", "address" := "TestCity"];
    assert AllPresent(data) && data["id"] == "123456782" && data["phone"] == "0531234567";
    ValidIdExample();
    PhoneExamples();
    CreateSucceedsIff(Empty, data);
  }

  /** The duplicate-ID test: a second user with a stored ID is refused. */
  lemma DuplicateExample()
    ensures var original := User("123456782", "Original", "0501234567", "Tel Aviv");
            CreateResponse(UserMap(["123456782"], map["123456782" := original]),
                           Some(map["id" := "123456782", "name" := "Duplicate", "phone" := "0539876543", "address" := "ClashCity"]))
            == Error("User already exists")
  {
    var data := map["id" := "123456782", "name" := "Duplicate", "phone" := "0539876543", "address" := "ClashCity"];
    assert AllPresent(data) && data["id"] == "123456782" && data["phone"] == "0539876543";
    ValidIdExample();
    PhoneExamples();
    var m := UserMap(["123456782"], map["123456782" := User("123456782", "Original", "0501234567", "Tel Aviv")]);
    assert WellFormed(m);
    DuplicateRejected(m, data);
  }

  /** The lookup test: a user stored as "Roei" is found by the query "ROEI". */
  lemma LookupExample()
    ensures var roei := User("123456782", "Roei", "0501234567", "Tel Aviv");
            Lookup(UserMap(["123456782"], map["123456782" := roei]), "ROEI") == Ok(roei)
  {
  }

  /** How a load ends: the whole list read, the file unreadable, or a KeyError at a record. */
  datatype LoadOutcome = Loaded | Unreadable | MissingKey(index: nat)

  /** The server state: the user map that server.py keeps in a module-level dictionary. */
  class Registry {
    var keys: seq<string>
    var users: map<string, User>

    ghost function View(): UserMap
      reads this
    {
      UserMap(keys, users)
    }

    ghost predicate Valid()
      reads this
    {
      WellFormed(View())
    }

    constructor ()
      ensures Valid() && View() == Empty
    {
      keys := [];
      users := map[];
    }

    /** users_map[id] = user */
    method Store(id: string, user: User)
      requires Valid()
      modifies this
      ensures Valid() && View() == Put(old(View()), id, user)
    {
      if id !in users {
        keys := keys + [id];
      }
      users := users[id := user];
    }

    /** One pass of the load loop over a record that has all four fields. */
    method LoadRecord(rec: map<string, string>)
      requires Valid() && HasUserFields(rec)
      modifies this
      ensures Valid() && View() == Admit(old(View()), rec)
    {
      var id, name, phone, address := rec["id"], rec["name"], rec["phone"], rec["address"];
      var idOk := IsValidIsraeliId(id);
      if idOk && IsValidPhone(phone) {
        Store(id, User(id, name, phone, address));
      }
    }

    /**
     * load_users_from_file over the decoded file: None when the file is missing
     * or not JSON (the map is left as it was). A record lacking a field raises
     * KeyError, which the source does not catch: the load stops there, keeping
     * the records inserted before it.
     */
    method Load(contents: Option<seq<map<string, string>>>) returns (outcome: LoadOutcome)
      requires Valid()
      modifies this
      ensures Valid()
      ensures contents.None? ==> outcome == Unreadable && View() == old(View())
      ensures contents.Some? ==>
        var recs := contents.value;
        var n := FirstIncomplete(recs);
        && outcome == (if n == |recs| then Loaded else MissingKey(n))
        && View() == Ingest(old(View()), recs[..n])
    {
      if contents.None? {
        return Unreadable;
      }
      var recs := contents.value;
      ghost var start := View();
      ghost var n := FirstIncomplete(recs);
      var i := 0;
      while i < |recs|
        invariant 0 <= i <= n
        invariant AllComplete(recs[..i])
        invariant Valid() && View() == Ingest(start, recs[..i])
      {
        var rec := recs[i];
        if !HasUserFields(rec) {
          return MissingKey(i);
        }
        IngestStep(start, recs, i);
        LoadRecord(rec);
        i := i + 1;
      }
      assert recs[..i] == recs;
      return Loaded;
    }

    /** get_users: one name per stored user, in iteration order. */
    method Names() returns (names: seq<string>)
      requires Valid()
      ensures |names| == |keys| == |users|
      ensures forall i :: 0 <= i < |names| ==> names[i] == users[keys[i]].name
      ensures forall k :: k in users ==> users[k].name in names
    {
      var values := Values(UserMap(keys, users));
      names := seq(|values|, i requires 0 <= i < |values| => values[i].name);
      KeyCount(View());
      forall k | k in users
        ensures users[k].name in names
      {
        var i :| 0 <= i < |keys| && keys[i] == k;
        assert names[i] == users[k].name;
      }
    }

    /** get_user_by_name: the first user in iteration order whose name matches the query up to case. */
    method FindByName(name: string) returns (r: Response)
      requires Valid()
      ensures r == Lookup(View(), name)
      ensures r.NotFound? <==> forall k :: k in users ==> !NameMatches(users[k], name)
    {
      var query := Lower(name);
      var values := Values(UserMap(keys, users));
      for i := 0 to |values|
        invariant forall j :: 0 <= j < i ==> !NameMatches(values[j], name)
      {
        var user := values[i];
        if Lower(user.name) == query {
          FirstMatchAt(values, name, i);
          return Ok(user);
        }
      }
      return NotFound;
    }

    /** create_user on a request body; None stands for a body that is not JSON. */
    method Create(body: Option<map<string, string>>) returns (r: Response)
      requires Valid()
      modifies this
      ensures Valid()
      ensures r == CreateResponse(old(View()), body)
      ensures View() == AfterCreate(old(View()), body)
    {
      if body.None? {
        return Error("Invalid JSON input");
      }
      var data := body.value;
      var missing := FindMissingField(data);
      if missing.Some? {
        return Error("Missing field: " + missing.value);
      }
      NoneMissingIff(data);
      var id, name, phone, address := data["id"], data["name"], data["phone"], data["address"];
      var idOk := IsValidIsraeliId(id);
      if !idOk {
        return Error("Invalid ID");
      }
      if !IsValidPhone(phone) {
        return Error("Invalid phone number");
      }
      if id in users {
        return Error("User already exists");
      }
      var user := User(id, name, phone, address);
      Store(id, user);
      return Ok(user);
    }
  }
}
