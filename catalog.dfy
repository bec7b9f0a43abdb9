/** `srs_get_seat_roles` (the role catalog fetched from `/roles`) and
    `srs_register_seat_roles` (the admin-init pass that creates a site role
    for every catalog title). */
module Catalog {
  import opened Php
  import opened WordPress
  import opened SeatApi
  import opened Slugs

  /** The catalog as PHP builds it: role id (as an array key) to title, in
      insertion order. */
  type Roles = seq<(Key, Value)>

  /** Every record's `$role->id` can be used as an array key. */
  predicate IdsAreKeys(records: seq<Value>) {
    forall i | 0 <= i < |records| :: IsScalar(Prop(records[i], "id"))
  }

  /** The assignments `$roles[ $role->id ] = $role->title`, in record order. */
  function IdTitlePairs(records: seq<Value>): seq<(Key, Value)>
    requires IdsAreKeys(records)
  {
    seq(|records|, i requires 0 <= i < |records| => (ToKey(Prop(records[i], "id")), Prop(records[i], "title")))
  }

  /** The titles of a catalog, in its order. */
  function Titles(roles: Roles): (ts: seq<Value>)
    ensures |ts| == |roles| && forall i | 0 <= i < |roles| :: ts[i] == roles[i].1
  {
    seq(|roles|, i requires 0 <= i < |roles| => roles[i].1)
  }

  /** What `srs_get_seat_roles` makes of the `/roles` response: nothing for
      a falsy response, nothing when the loop never runs (`$roles` is then
      undefined), an aborted request when an id is an array or an object,
      and otherwise the array the loop built. */
  function CatalogOf(response: Value): (c: Completion<Option<Roles>>)
    ensures !Truthy(response) ==> c == Returned(None)
    ensures c == Aborted <==> Truthy(response) && !IdsAreKeys(Elements(response))
    ensures c == Returned(None) <==> !Truthy(response) || (IdsAreKeys(Elements(response)) && Elements(response) == [])
    ensures c.Returned? && c.value.Some? ==> |c.value.value| > 0 && UniqueKeys(c.value.value)
  {
    if !Truthy(response) then Returned(None)
    else
      var records := Elements(response);
      if !IdsAreKeys(records) then Aborted
      else if records == [] then Returned(None)
      else
        var pairs := IdTitlePairs(records);
        var roles := AssignEach([], pairs);
        assert Find(roles, pairs[|pairs| - 1].0).Some?;
        Returned(Some(roles))
  }

  /** A catalog has a key for exactly the ids of the response's records, and
      each id maps to the title of the last record carrying it. */
  lemma CatalogContents(response: Value)
    requires CatalogOf(response).Returned? && CatalogOf(response).value.Some?
    ensures var records := Elements(response);
      var roles := CatalogOf(response).value.value;
      && IdsAreKeys(records)
      && (forall k :: Find(roles, k) == LastValue(IdTitlePairs(records), k))
      && (forall k :: Find(roles, k).Some? <==> exists i | 0 <= i < |records| :: ToKey(Prop(records[i], "id")) == k)
  {
    var records := Elements(response);
    var pairs := IdTitlePairs(records);
    forall k
      ensures Find(CatalogOf(response).value.value, k).Some? <==> exists i | 0 <= i < |records| :: ToKey(Prop(records[i], "id")) == k
    {
      LastValueFound(pairs, k);
      if exists i | 0 <= i < |records| :: ToKey(Prop(records[i], "id")) == k {
        var i :| 0 <= i < |records| && ToKey(Prop(records[i], "id")) == k;
        assert pairs[i].0 == k;
      }
    }
  }

  /** One record of the loop: its id becomes a key holding its title. */
  lemma CatalogStep(records: seq<Value>, i: nat)
    requires i < |records| && IdsAreKeys(records[..i]) && IsScalar(Prop(records[i], "id"))
    ensures IdsAreKeys(records[..i + 1])
    ensures AssignEach([], IdTitlePairs(records[..i + 1]))
         == Assign(AssignEach([], IdTitlePairs(records[..i])), ToKey(Prop(records[i], "id")), Prop(records[i], "title"))
  {
    assert records[..i + 1][..i] == records[..i];
    assert IdTitlePairs(records[..i + 1])[..i] == IdTitlePairs(records[..i]);
  }

  /** The loop of `srs_get_seat_roles` over the decoded response. */
  method CatalogFromResponse(response: Value) returns (c: Completion<Option<Roles>>)
    ensures c == CatalogOf(response)
  {
    if !Truthy(response) {
      return Returned(None);
    }
    var records := Elements(response);
    var roles: Roles := [];
    for i := 0 to |records|
      invariant IdsAreKeys(records[..i])
      invariant roles == AssignEach([], IdTitlePairs(records[..i]))
    {
      var id := Prop(records[i], "id");
      if !IsScalar(id) {
        assert !IdsAreKeys(records);
        return Aborted;
      }
      CatalogStep(records, i);
      roles := Assign(roles, ToKey(id), Prop(records[i], "title"));
    }
    assert records[..|records|] == records;
    if |records| == 0 {
      return Returned(None);
    }
    assert roles == AssignEach([], IdTitlePairs(records));
    return Returned(Some(roles));
  }

  /** The `/roles` request. */
  function FetchRoles(f: Foreign, site: Site, entries: map<string, Entry>, server: (string, Options) -> Response): Outcome {
    Request(f, site, entries, server, "/roles", [])
  }

  /** `srs_get_seat_roles`. */
  method GetSeatRoles(f: Foreign, site: Site, cache: TransientStore, http: Http) returns (c: Completion<Option<Roles>>)
    modifies cache, http
    ensures var o := FetchRoles(f, site, old(cache.entries), old(http.server));
      && c == CatalogOf(o.body)
      && cache.entries == o.entries
      && http.calls == old(http.calls) + o.calls
      && cache.lookups == old(cache.lookups) + o.lookups
      && cache.stores == old(cache.stores) + o.stores
    ensures http.server == old(http.server)
  {
    var response := SeatApiRequest(f, site, cache, http, "/roles", []);
    c := CatalogFromResponse(response);
  }

  // ---------------------------------------------------------------------
  // Registration.

  /** The slug of a scalar title. */
  function SlugOf(f: Foreign, title: Value): string
    requires IsScalar(title)
  {
    SanitizeSeatRole(f, ToStr(title))
  }

  /** `title` is a scalar whose slug is `slug`. */
  predicate GivesSlug(f: Foreign, title: Value, slug: string) {
    IsScalar(title) && SlugOf(f, title) == slug
  }

  /** The first of `titles` whose slug is `slug`. */
  function FirstWithSlug(f: Foreign, titles: seq<Value>, slug: string): Option<Value>
    decreases |titles|
  {
    if titles == [] then None
    else
      var n := |titles| - 1;
      var earlier := FirstWithSlug(f, titles[..n], slug);
      if earlier.Some? then earlier
      else if GivesSlug(f, titles[n], slug) then Some(titles[n])
      else None
  }

  /** The registry after `add_role( $slug, $role )` for each title in order,
      and whether a title aborted the pass (`sanitize_html_class` and
      `strtolower` fail on an array or an object, after the titles before it
      were registered). */
  function Registered(f: Foreign, registry: map<string, Value>, titles: seq<Value>): (r: (map<string, Value>, bool))
    decreases |titles|
  {
    if titles == [] then (registry, false)
    else
      var n := |titles| - 1;
      var prev := Registered(f, registry, titles[..n]);
      if prev.1 then prev
      else if !IsScalar(titles[n]) then (prev.0, true)
      else
        var slug := SlugOf(f, titles[n]);
        (if slug in prev.0 then prev.0 else prev.0[slug := titles[n]], false)
  }

  /** Without an aborting title, registration adds the slug of every title,
      leaves every existing role as it was, and names each new role after the
      first title that produced its slug. */
  lemma {:induction false} RegisteredContents(f: Foreign, registry: map<string, Value>, titles: seq<Value>)
    requires forall i | 0 <= i < |titles| :: IsScalar(titles[i])
    ensures var r := Registered(f, registry, titles);
      && !r.1
      && (forall s :: s in r.0 <==> s in registry || FirstWithSlug(f, titles, s).Some?)
      && (forall s | s in r.0 :: r.0[s] == if s in registry then registry[s] else FirstWithSlug(f, titles, s).value)
  {
    if titles != [] {
      var n := |titles| - 1;
      RegisteredContents(f, registry, titles[..n]);
    }
  }

  /** Some title produces `slug` exactly when the first such title exists. */
  lemma {:induction false} FirstWithSlugFound(f: Foreign, titles: seq<Value>, slug: string)
    ensures FirstWithSlug(f, titles, slug).Some? <==>
      exists i | 0 <= i < |titles| :: GivesSlug(f, titles[i], slug)
  {
    if titles != [] {
      var n := |titles| - 1;
      var prefix := titles[..n];
      FirstWithSlugFound(f, prefix, slug);
      if FirstWithSlug(f, prefix, slug).Some? {
        var i :| 0 <= i < n && GivesSlug(f, prefix[i], slug);
        assert titles[i] == prefix[i];
      } else if GivesSlug(f, titles[n], slug) {
        assert FirstWithSlug(f, titles, slug).Some?;
      } else {
        forall i | 0 <= i < |titles| ensures !GivesSlug(f, titles[i], slug) {
          if i < n {
            assert titles[i] == prefix[i];
          }
        }
      }
    }
  }

  /** After registration the slug of every title is a role. */
  lemma EverySlugRegistered(f: Foreign, registry: map<string, Value>, titles: seq<Value>, i: nat)
    requires forall j | 0 <= j < |titles| :: IsScalar(titles[j])
    requires i < |titles|
    ensures SlugOf(f, titles[i]) in Registered(f, registry, titles).0
  {
    RegisteredContents(f, registry, titles);
    FirstWithSlugFound(f, titles, SlugOf(f, titles[i]));
  }

  /** Registering the same catalog twice gives the registry of registering
      it once: no role is created or renamed by the second pass. */
  lemma RegisterTwice(f: Foreign, registry: map<string, Value>, titles: seq<Value>)
    requires forall i | 0 <= i < |titles| :: IsScalar(titles[i])
    ensures var once := Registered(f, registry, titles).0;
      Registered(f, once, titles) == (once, false)
  {
    var once := Registered(f, registry, titles).0;
    RegisteredContents(f, registry, titles);
    RegisteredContents(f, once, titles);
    var twice := Registered(f, once, titles).0;
    assert forall s :: s in twice <==> s in once;
    assert twice == once;
  }

  /** A pass aborts exactly when some title is an array or an object. */
  lemma {:induction false} RegisterAborts(f: Foreign, registry: map<string, Value>, titles: seq<Value>)
    ensures Registered(f, registry, titles).1 <==> exists i | 0 <= i < |titles| :: !IsScalar(titles[i])
  {
    if titles != [] {
      var n := |titles| - 1;
      var prefix := titles[..n];
      RegisterAborts(f, registry, prefix);
      if Registered(f, registry, prefix).1 {
        var i :| 0 <= i < n && !IsScalar(prefix[i]);
        assert titles[i] == prefix[i];
      } else if IsScalar(titles[n]) {
        forall i | 0 <= i < |titles| ensures IsScalar(titles[i]) {
          if i < n {
            assert titles[i] == prefix[i];
          }
        }
      }
    }
  }

  /** The titles before the first array or object title are registered, and
      nothing after it. */
  lemma {:induction false} RegisterStopsAtAbort(f: Foreign, registry: map<string, Value>, titles: seq<Value>, j: nat)
    requires j < |titles| && !IsScalar(titles[j])
    requires forall i | 0 <= i < j :: IsScalar(titles[i])
    ensures Registered(f, registry, titles) == (Registered(f, registry, titles[..j]).0, true)
    decreases |titles|
  {
    var n := |titles| - 1;
    var prefix := titles[..n];
    if n == j {
      assert forall i | 0 <= i < j :: prefix[i] == titles[i];
      RegisterAborts(f, registry, prefix);
      assert !Registered(f, registry, prefix).1;
    } else {
      assert prefix[j] == titles[j];
      assert forall i | 0 <= i < j :: prefix[i] == titles[i];
      RegisterStopsAtAbort(f, registry, prefix, j);
      assert prefix[..j] == titles[..j];
      assert Registered(f, registry, prefix).1;
      assert Registered(f, registry, titles) == Registered(f, registry, prefix);
    }
  }

  /** One step of the pass: a scalar title adds its slug unless present. */
  lemma RegisteredStep(f: Foreign, registry: map<string, Value>, titles: seq<Value>, i: nat)
    requires i < |titles| && IsScalar(titles[i])
    requires !Registered(f, registry, titles[..i]).1
    ensures var prev := Registered(f, registry, titles[..i]).0;
      var slug := SlugOf(f, titles[i]);
      Registered(f, registry, titles[..i + 1]) == (if slug in prev then prev else prev[slug := titles[i]], false)
  {
    assert titles[..i + 1][..i] == titles[..i];
  }

  /** The loop of `srs_register_seat_roles` over a fetched catalog. */
  method AddCatalogRoles(f: Foreign, registry: RoleRegistry, roles: Roles)
    modifies registry
    ensures registry.roles == Registered(f, old(registry.roles), Titles(roles)).0
  {
    var titles := Titles(roles);
    ghost var before := registry.roles;
    for i := 0 to |roles|
      invariant registry.roles == Registered(f, before, titles[..i]).0
      invariant !Registered(f, before, titles[..i]).1
      invariant forall j | 0 <= j < i :: IsScalar(titles[j])
    {
      var role := roles[i].1;
      assert titles[i] == role;
      if !IsScalar(role) {
        RegisterStopsAtAbort(f, before, titles, i);
        return;
      }
      var slug := SanitizeSeatRole(f, ToStr(role));
      registry.AddRole(slug, role);
      RegisteredStep(f, before, titles, i);
    }
    assert titles[..|roles|] == titles;
  }

  /** `srs_register_seat_roles`, run on `admin_init`. */
  method RegisterSeatRoles(f: Foreign, site: Site, cache: TransientStore, http: Http, registry: RoleRegistry)
    modifies cache, http, registry
    ensures var o := FetchRoles(f, site, old(cache.entries), old(http.server));
      var c := CatalogOf(o.body);
      && cache.entries == o.entries
      && http.calls == old(http.calls) + o.calls
      && cache.lookups == old(cache.lookups) + o.lookups
      && cache.stores == old(cache.stores) + o.stores
      && registry.roles == if c.Returned? && c.value.Some?
                           then Registered(f, old(registry.roles), Titles(c.value.value)).0
                           else old(registry.roles)
    ensures http.server == old(http.server)
  {
    var c := GetSeatRoles(f, site, cache, http);
    if c.Returned? && c.value.Some? && Truthy(Arr(c.value.value)) {
      AddCatalogRoles(f, registry, c.value.value);
    }
  }
}
