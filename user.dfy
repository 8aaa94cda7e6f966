/**
 * The user record of user.py: four string fields set once by the constructor
 * and never changed, and its projection to a dictionary.
 */
module Users {
  import opened Wrappers

  /** A user: Israeli ID, full name, mobile phone number and address. */
  datatype User = User(id: string, name: string, phone: string, address: string)

  /** The dictionary form of a user, as returned to clients and written to the JSON file. */
  function ToDict(u: User): (d: map<string, string>)
    ensures d.Keys == {"id", "name", "phone", "address"}
    ensures d["id"] == u.id && d["name"] == u.name
    ensures d["phone"] == u.phone && d["address"] == u.address
  {
    map["id" := u.id, "name" := u.name, "phone" := u.phone, "address" := u.address]
  }

  /** True when a record carries all four fields a user is built from. */
  predicate HasUserFields(d: map<string, string>)
  {
    "id" in d && "name" in d && "phone" in d && "address" in d
  }

  /**
   * The user that the loader builds from one record, reading its four fields by key;
   * None where one of those reads would raise KeyError.
   */
  function FromDict(d: map<string, string>): (r: Option<User>)
    ensures r.Some? <==> HasUserFields(d)
    ensures r.Some? ==> ToDict(r.value) == map f | f in d && f in {"id", "name", "phone", "address"} :: d[f]
  {
    if HasUserFields(d) then Some(User(d["id"], d["name"], d["phone"], d["address"])) else None
  }

  /** Building a user from the four values of its own dictionary gives the same user back. */
  lemma FromDictToDict(u: User)
    ensures FromDict(ToDict(u)) == Some(u)
  {
  }

  /** Two users with the same dictionary are the same user. */
  lemma ToDictInjective(u: User, v: User)
    requires ToDict(u) == ToDict(v)
    ensures u == v
  {
  }
}
