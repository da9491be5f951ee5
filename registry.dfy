/** The object registry the resolvers read: per object kind, a dictionary
    from canonical name to record and a lookup table from the lower-cased
    name to the canonical name, and the case-insensitive lookup over them
    (smart_obj_lookup). */
module Registry {
  import opened Text

  datatype Option<T> = None | Some(value: T)

  /** A parsed address, VIP or service: a Python dict of string fields
      ("name", "type", "ip", "fqdn", "extip", "mappedip", "protocol", ...). */
  type Record = map<string, string>

  /** obj.get(field) read as text: a missing field reads as "". */
  function Field(r: Record, field: string): string {
    if field in r then r[field] else ""
  }

  /** An address group or a service group: its name and its member names
      in declaration order. */
  datatype GroupRecord = GroupRecord(name: string, members: seq<string>)

  /** One kind's collection: the dict keyed by canonical name and the
      lookup table from lower-cased name to canonical name. */
  datatype Table<R> = Table(dict: map<string, R>, lookup: map<string, string>) {
    /** Every lookup entry names a record of the dict, and is filed under
        the key of that name (the parsers store lookup[name.lower()] = name
        for a stripped name). */
    ghost predicate Valid() {
      forall k :: k in lookup ==> lookup[k] in dict && Key(lookup[k]) == k
    }
  }

  /** The four collections one rendering or one undefined-object scan works
      over; in the report path VIPs are merged into `addresses`. */
  datatype Registry = Registry(
    addresses: Table<Record>,
    addrGroups: Table<GroupRecord>,
    services: Table<Record>,
    svcGroups: Table<GroupRecord>)
  {
    ghost predicate Valid() {
      addresses.Valid() && addrGroups.Valid() && services.Valid() && svcGroups.Valid()
    }
  }

  /** smart_obj_lookup: an empty name finds nothing; otherwise the stripped,
      lower-cased name is looked up and the canonical record returned. */
  function Lookup<R>(name: string, t: Table<R>): (r: Option<R>)
    ensures r.Some? <==> name != "" && Key(name) in t.lookup && t.lookup[Key(name)] in t.dict
    ensures r.Some? ==> r.value == t.dict[t.lookup[Key(name)]]
  {
    if name == "" then None
    else
      var key := Key(name);
      if key in t.lookup && t.lookup[key] in t.dict then Some(t.dict[t.lookup[key]]) else None
  }

  /** Two spellings with the same key ("Web" and " web") hit the same
      record. */
  lemma LookupCaseInsensitive<R>(a: string, b: string, t: Table<R>)
    requires a != "" && b != "" && Key(a) == Key(b)
    ensures Lookup(a, t) == Lookup(b, t)
  {
  }

  /** In a valid table a non-empty name is found exactly when its key is
      in the lookup table, and then the record found is filed under a
      name with the same key. */
  lemma LookupValid<R>(name: string, t: Table<R>)
    requires t.Valid()
    ensures Lookup(name, t).Some? <==> name != "" && Key(name) in t.lookup
    ensures Lookup(name, t).Some? ==> Key(t.lookup[Key(name)]) == Key(name)
  {
  }

  /** A canonical name is found again from any spelling of its key. */
  lemma LookupFindsCanonical<R>(canonical: string, spelling: string, t: Table<R>)
    requires t.Valid()
    requires Key(canonical) in t.lookup && t.lookup[Key(canonical)] == canonical
    requires spelling != "" && Key(spelling) == Key(canonical)
    ensures Lookup(spelling, t) == Some(t.dict[canonical])
  {
  }

  /** Adds one parsed record the way the parsers do:
      results[name] = obj; lookup[name.lower()] = name, with the name
      already stripped. Building a table this way keeps it valid. */
  function Insert<R>(t: Table<R>, name: string, r: R): (u: Table<R>)
    requires Strip(name) == name
    requires t.Valid()
    ensures u.Valid()
    ensures Lookup(name, u) == if name == "" then None else Some(r)
  {
    var u := Table(t.dict[name := r], t.lookup[Lower(name) := name]);
    assert Key(name) == Lower(name);
    u
  }

  /** One scope of the per-VDOM registry built by collect_all_objects:
      address and service names (the source stores `True` for each, so the
      key set is all there is), and group name to member list. Names are
      compared exactly, without normalisation. */
  datatype ScopeObjects = ScopeObjects(
    address: set<string>,
    addrgrp: map<string, seq<string>>,
    service: set<string>,
    servicegrp: map<string, seq<string>>)

  /** Scope name ("global", a VDOM name, "root") to its objects. */
  type AllObjects = map<string, ScopeObjects>
}
