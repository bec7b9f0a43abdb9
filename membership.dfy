/** `srs_get_character_roles`: for the user's character, one SeAT
    role-check request per catalog title, collected as title => held. */
module Membership {
  import opened Decimal
  import opened Php
  import opened WordPress
  import opened SeatApi
  import opened Catalog
  import opened Character

  /** `"/roles/query/role-check/{$character_id}/{$role_name}"`. */
  function RoleCheckEndpoint(characterId: nat, name: string): (endpoint: string)
    ensures |endpoint| > 24 && endpoint[..24] == "/roles/query/role-check/"
  {
    "/roles/query/role-check/" + NatToString(characterId) + "/" + name
  }

  /** Distinct checks use distinct endpoints, so they never share a cache
      entry unless the hash collides: the endpoint determines both the
      character id and the title. */
  lemma {:induction false} EndpointIdentifiesCheck(c1: nat, n1: string, c2: nat, n2: string)
    requires RoleCheckEndpoint(c1, n1) == RoleCheckEndpoint(c2, n2)
    ensures c1 == c2 && n1 == n2
  {
    var d1, d2 := NatToString(c1), NatToString(c2);
    var e := RoleCheckEndpoint(c1, n1);
    assert e[24..] == d1 + "/" + n1 == d2 + "/" + n2;
    var t := e[24..];
    assert forall i | 0 <= i < |d1| :: t[i] == d1[i] && t[i] != '/';
    assert forall i | 0 <= i < |d2| :: t[i] == d2[i] && t[i] != '/';
    assert t[|d1|] == '/' && t[|d2|] == '/';
    assert |d1| == |d2|;
    assert d1 == t[..|d1|] == d2;
    assert n1 == t[|d1| + 1..] == n2;
    NatToStringRoundTrip(c1);
    NatToStringRoundTrip(c2);
  }

  /** `is_bool( $result ) && $result`: only the boolean `true` counts as
      holding a role; `1`, `"true"` or an object do not. */
  predicate Holds(answer: Value) {
    answer.Bool? && answer.b
  }

  /** The checks run so far: the array built (or an abort), the answer of
      every request sent, the cache afterwards, and the HTTP requests, cache
      reads and cache writes made. */
  datatype Checks = Checks(
    result: Completion<seq<(Key, Value)>>,
    answers: seq<Value>,
    entries: map<string, Entry>,
    calls: nat,
    lookups: nat,
    stores: nat)

  /** The assignments `$roles[ $role_name ] = TRUE/FALSE` the loop makes. */
  function CheckPairs(titles: seq<Value>, answers: seq<Value>): (pairs: seq<(Key, Value)>)
    requires |answers| == |titles| && forall i | 0 <= i < |titles| :: IsScalar(titles[i])
    ensures |pairs| == |titles|
  {
    seq(|titles|, i requires 0 <= i < |titles| => (ToKey(titles[i]), Bool(Holds(answers[i]))))
  }

  /** The array after one more check: the last title's key is assigned its
      answer. */
  lemma ChecksStep(titles: seq<Value>, answers: seq<Value>)
    requires |answers| == |titles| > 0 && forall i | 0 <= i < |titles| :: IsScalar(titles[i])
    ensures var n := |titles| - 1;
      AssignEach([], CheckPairs(titles, answers))
      == Assign(AssignEach([], CheckPairs(titles[..n], answers[..n])), ToKey(titles[n]), Bool(Holds(answers[n])))
  {
    var n := |titles| - 1;
    assert CheckPairs(titles, answers)[..n] == CheckPairs(titles[..n], answers[..n]);
  }

  /** One pass of the loop body: the request for `title` and the assignment
      of its answer, after the checks `prev`. */
  function CheckTitle(f: Foreign, site: Site, characterId: nat, prev: Checks, title: Value,
                      server: (string, Options) -> Response): (next: Checks)
    requires prev.result.Returned?
    ensures |next.answers| <= |prev.answers| + 1
    ensures next.calls - prev.calls <= next.lookups - prev.lookups <= |next.answers| - |prev.answers|
    ensures next.stores - prev.stores <= next.calls - prev.calls && next.stores >= prev.stores
    ensures next.result.Returned? <==> IsScalar(title)
    ensures next.result.Returned? ==> |next.answers| == |prev.answers| + 1
    // An object title sends no request; any other title records one answer.
    ensures |next.answers| == if title.Obj? then |prev.answers| else |prev.answers| + 1
  {
    match Interpolate(title)
    case None => prev.(result := Aborted)
    case Some(name) =>
      var o := Request(f, site, prev.entries, server, RoleCheckEndpoint(characterId, name), []);
      Checks(if IsScalar(title) then Returned(Assign(prev.result.value, ToKey(title), Bool(Holds(o.body)))) else Aborted,
             prev.answers + [o.body], o.entries,
             prev.calls + o.calls, prev.lookups + o.lookups, prev.stores + o.stores)
  }

  /** One completed check keeps the answers so far, records the reply to the
      role check for the title, and assigns the title's key its answer. */
  lemma CheckTitleAssigns(f: Foreign, site: Site, characterId: nat, prev: Checks, title: Value,
                          server: (string, Options) -> Response)
    requires prev.result.Returned?
    requires CheckTitle(f, site, characterId, prev, title, server).result.Returned?
    ensures var next := CheckTitle(f, site, characterId, prev, title, server);
      && next.answers[..|prev.answers|] == prev.answers
      && IsScalar(title)
      && next.answers[|prev.answers|]
         == Request(f, site, prev.entries, server, RoleCheckEndpoint(characterId, ToStr(title)), []).body
      && next.result.value == Assign(prev.result.value, ToKey(title), Bool(Holds(next.answers[|prev.answers|])))
  {
    var next := CheckTitle(f, site, characterId, prev, title, server);
    assert next.answers[..|prev.answers|] == prev.answers;
  }

  /** The loop of `srs_get_character_roles` over `titles`, in order, from the
      cache `entries`. An object title cannot be put into the endpoint and
      aborts before its request; an array title is sent as "Array" and then
      aborts as an array offset. */
  function RoleChecks(f: Foreign, site: Site, characterId: nat, titles: seq<Value>,
                      entries: map<string, Entry>, server: (string, Options) -> Response): (c: Checks)
    ensures |c.answers| <= |titles|
    ensures c.calls <= c.lookups <= |c.answers| && c.stores <= c.calls
    ensures c.result.Returned? ==>
      && (forall i | 0 <= i < |titles| :: IsScalar(titles[i]))
      && |c.answers| == |titles|
    decreases |titles|
  {
    if titles == [] then Checks(Returned([]), [], entries, 0, 0, 0)
    else
      var n := |titles| - 1;
      var prefix := titles[..n];
      var prev := RoleChecks(f, site, characterId, prefix, entries, server);
      if prev.result.Aborted? then prev
      else
        assert forall i | 0 <= i < n :: IsScalar(titles[i]) by {
          forall i | 0 <= i < n ensures IsScalar(titles[i]) {
            assert prefix[i] == titles[i];
          }
        }
        CheckTitle(f, site, characterId, prev, titles[n], server)
  }

  /** The last title of a completed pass: the answers before it are those of
      the pass over the titles before it, and its answer is the reply to its
      role check. */
  lemma LastCheck(f: Foreign, site: Site, characterId: nat, titles: seq<Value>,
                  entries: map<string, Entry>, server: (string, Options) -> Response)
    requires RoleChecks(f, site, characterId, titles, entries, server).result.Returned?
    requires |titles| > 0
    ensures var n := |titles| - 1;
      var prev := RoleChecks(f, site, characterId, titles[..n], entries, server);
      var c := RoleChecks(f, site, characterId, titles, entries, server);
      && prev.result.Returned? && |prev.answers| == n
      && c.answers[..n] == prev.answers
      && IsScalar(titles[n])
      && c.answers[n] == Request(f, site, prev.entries, server, RoleCheckEndpoint(characterId, ToStr(titles[n])), []).body
  {
    var n := |titles| - 1;
    var prev := RoleChecks(f, site, characterId, titles[..n], entries, server);
    assert RoleChecks(f, site, characterId, titles, entries, server) == CheckTitle(f, site, characterId, prev, titles[n], server);
    CheckTitleAssigns(f, site, characterId, prev, titles[n], server);
  }

  /** In a completed pass, the answer recorded for title `i` is the reply to
      the role check for that title, `/roles/query/role-check/{id}/{title}`,
      sent against the cache the checks before it left. */
  lemma {:induction false} RoleChecksAnswers(f: Foreign, site: Site, characterId: nat, titles: seq<Value>,
                                             entries: map<string, Entry>, server: (string, Options) -> Response, i: nat)
    requires RoleChecks(f, site, characterId, titles, entries, server).result.Returned?
    requires i < |titles|
    ensures IsScalar(titles[i])
    ensures RoleChecks(f, site, characterId, titles, entries, server).answers[i]
         == Request(f, site, RoleChecks(f, site, characterId, titles[..i], entries, server).entries, server,
                    RoleCheckEndpoint(characterId, ToStr(titles[i])), []).body
    decreases |titles|
  {
    var n := |titles| - 1;
    var prefix := titles[..n];
    var prev := RoleChecks(f, site, characterId, prefix, entries, server);
    var c := RoleChecks(f, site, characterId, titles, entries, server);
    LastCheck(f, site, characterId, titles, entries, server);
    if i < n {
      assert prefix[..i] == titles[..i] && prefix[i] == titles[i];
      RoleChecksAnswers(f, site, characterId, prefix, entries, server, i);
      assert c.answers[i] == c.answers[..n][i] == prev.answers[i];
    } else {
      assert prefix == titles[..i];
    }
  }

  /** A pass aborts exactly when some title is an array or an object. */
  lemma {:induction false} ChecksAbort(f: Foreign, site: Site, characterId: nat, titles: seq<Value>,
                                       entries: map<string, Entry>, server: (string, Options) -> Response)
    ensures RoleChecks(f, site, characterId, titles, entries, server).result.Aborted? <==>
      exists i | 0 <= i < |titles| :: !IsScalar(titles[i])
    decreases |titles|
  {
    if titles != [] {
      var n := |titles| - 1;
      ChecksAbort(f, site, characterId, titles[..n], entries, server);
      if exists i | 0 <= i < n :: !IsScalar(titles[..n][i]) {
        var i :| 0 <= i < n && !IsScalar(titles[..n][i]);
        assert titles[i] == titles[..n][i];
      }
      if exists i | 0 <= i < |titles| :: !IsScalar(titles[i]) {
        var i :| 0 <= i < |titles| && !IsScalar(titles[i]);
        if i < n {
          assert titles[..n][i] == titles[i];
        }
      }
    }
  }

  /** A title after an abort is skipped. */
  lemma AbortedStep(f: Foreign, site: Site, characterId: nat, titles: seq<Value>,
                    entries: map<string, Entry>, server: (string, Options) -> Response)
    requires |titles| > 0
    requires RoleChecks(f, site, characterId, titles[..|titles| - 1], entries, server).result.Aborted?
    ensures RoleChecks(f, site, characterId, titles, entries, server)
         == RoleChecks(f, site, characterId, titles[..|titles| - 1], entries, server)
  {
  }

  /** Once a pass has aborted, the titles after the abort send nothing and
      change nothing. */
  lemma {:induction false} ChecksStopAtAbort(f: Foreign, site: Site, characterId: nat, titles: seq<Value>,
                                             entries: map<string, Entry>, server: (string, Options) -> Response, j: nat)
    requires j <= |titles|
    requires RoleChecks(f, site, characterId, titles[..j], entries, server).result.Aborted?
    ensures RoleChecks(f, site, characterId, titles, entries, server)
         == RoleChecks(f, site, characterId, titles[..j], entries, server)
    decreases |titles|
  {
    if j < |titles| {
      var n := |titles| - 1;
      var prefix := titles[..n];
      assert prefix[..j] == titles[..j];
      ChecksStopAtAbort(f, site, characterId, prefix, entries, server, j);
      var prev := RoleChecks(f, site, characterId, prefix, entries, server);
      assert prev.result.Aborted?;
      AbortedStep(f, site, characterId, titles, entries, server);
    } else {
      assert titles[..j] == titles;
    }
  }

  /** An object title aborts the pass before its request is sent; an array
      title aborts it after its request, whose answer is recorded. */
  lemma AbortPoint(f: Foreign, site: Site, characterId: nat, titles: seq<Value>,
                   entries: map<string, Entry>, server: (string, Options) -> Response, j: nat)
    requires j < |titles| && !IsScalar(titles[j])
    requires forall i | 0 <= i < j :: IsScalar(titles[i])
    ensures var c := RoleChecks(f, site, characterId, titles, entries, server);
      && c.result.Aborted?
      && |c.answers| == (if titles[j].Obj? then j else j + 1)
  {
    var prefix := titles[..j];
    assert forall i | 0 <= i < j :: IsScalar(prefix[i]) by {
      forall i | 0 <= i < j ensures IsScalar(prefix[i]) {
        assert prefix[i] == titles[i];
      }
    }
    ChecksAbort(f, site, characterId, prefix, entries, server);
    var c0 := RoleChecks(f, site, characterId, prefix, entries, server);
    assert c0.result.Returned? && |c0.answers| == j;
    CheckStep(f, site, characterId, titles, entries, server, j);
    var c1 := RoleChecks(f, site, characterId, titles[..j + 1], entries, server);
    assert c1 == CheckTitle(f, site, characterId, c0, titles[j], server);
    assert c1.result.Aborted?;
    ChecksStopAtAbort(f, site, characterId, titles, entries, server, j + 1);
  }

  /** A completed pass builds the array of the assignments
      `$roles[ $role_name ] = TRUE/FALSE`, one per title, in order. */
  lemma {:induction false} ChecksBuildArray(f: Foreign, site: Site, characterId: nat, titles: seq<Value>,
                                            entries: map<string, Entry>, server: (string, Options) -> Response)
    requires RoleChecks(f, site, characterId, titles, entries, server).result.Returned?
    ensures var c := RoleChecks(f, site, characterId, titles, entries, server);
      c.result.value == AssignEach([], CheckPairs(titles, c.answers))
    decreases |titles|
  {
    if titles != [] {
      var n := |titles| - 1;
      var c := RoleChecks(f, site, characterId, titles, entries, server);
      var prev := RoleChecks(f, site, characterId, titles[..n], entries, server);
      ChecksBuildArray(f, site, characterId, titles[..n], entries, server);
      assert c == CheckTitle(f, site, characterId, prev, titles[n], server);
      CheckTitleAssigns(f, site, characterId, prev, titles[n], server);
      assert c.result.value == Assign(prev.result.value, ToKey(titles[n]), Bool(Holds(c.answers[n])));
      ChecksStep(titles, c.answers);
    }
  }

  /** A completed pass has exactly one key per title and says `TRUE` for a
      key exactly when the last check of a title stored under it answered
      the boolean `true`. */
  lemma CheckedKeys(f: Foreign, site: Site, characterId: nat, titles: seq<Value>,
                    entries: map<string, Entry>, server: (string, Options) -> Response, k: Key)
    requires RoleChecks(f, site, characterId, titles, entries, server).result.Returned?
    ensures var c := RoleChecks(f, site, characterId, titles, entries, server);
      var pairs := CheckPairs(titles, c.answers);
      && UniqueKeys(c.result.value)
      && (Find(c.result.value, k).Some? <==> exists i | 0 <= i < |titles| :: ToKey(titles[i]) == k)
      && (Find(c.result.value, k) == Some(Bool(true)) <==> exists i :: LastWith(pairs, k, i) && Holds(c.answers[i]))
  {
    var c := RoleChecks(f, site, characterId, titles, entries, server);
    var pairs := CheckPairs(titles, c.answers);
    ChecksBuildArray(f, site, characterId, titles, entries, server);
    LastValueFound(pairs, k);
    if exists i | 0 <= i < |titles| :: ToKey(titles[i]) == k {
      var i :| 0 <= i < |titles| && ToKey(titles[i]) == k;
      assert pairs[i].0 == k;
    }
    if Find(c.result.value, k) == Some(Bool(true)) {
      LastPairExists(pairs, k);
    }
    if exists i :: LastWith(pairs, k, i) && Holds(c.answers[i]) {
      var i :| LastWith(pairs, k, i) && Holds(c.answers[i]);
      LastValueAt(pairs, k, i);
    }
  }

  /** One title of the loop, seen from the prefix before it. */
  lemma CheckStep(f: Foreign, site: Site, characterId: nat, titles: seq<Value>,
                  entries: map<string, Entry>, server: (string, Options) -> Response, i: nat)
    requires i < |titles|
    requires RoleChecks(f, site, characterId, titles[..i], entries, server).result.Returned?
    ensures RoleChecks(f, site, characterId, titles[..i + 1], entries, server)
         == CheckTitle(f, site, characterId, RoleChecks(f, site, characterId, titles[..i], entries, server), titles[i], server)
  {
    assert titles[..i + 1][..i] == titles[..i];
  }

  /** The loop of `srs_get_character_roles` over a fetched catalog. */
  method CheckCatalog(f: Foreign, site: Site, cache: TransientStore, http: Http, characterId: nat, roles: Roles)
    returns (result: Completion<seq<(Key, Value)>>)
    modifies cache, http
    ensures var c := RoleChecks(f, site, characterId, Titles(roles), old(cache.entries), old(http.server));
      && result == c.result
      && cache.entries == c.entries
      && http.calls == old(http.calls) + c.calls
      && cache.lookups == old(cache.lookups) + c.lookups
      && cache.stores == old(cache.stores) + c.stores
    ensures http.server == old(http.server)
  {
    var titles := Titles(roles);
    ghost var entries, server := cache.entries, http.server;
    ghost var calls, lookups, stores := http.calls, cache.lookups, cache.stores;
    var a: seq<(Key, Value)> := [];
    for i := 0 to |roles|
      invariant var c := RoleChecks(f, site, characterId, titles[..i], entries, server);
        && c.result == Returned(a)
        && cache.entries == c.entries
        && http.calls == calls + c.calls
        && cache.lookups == lookups + c.lookups
        && cache.stores == stores + c.stores
      invariant http.server == server
    {
      var title := roles[i].1;
      CheckStep(f, site, characterId, titles, entries, server, i);
      var name := Interpolate(title);
      if name.None? {
        ChecksStopAtAbort(f, site, characterId, titles, entries, server, i + 1);
        return Aborted;
      }
      var answer := SeatApiRequest(f, site, cache, http, RoleCheckEndpoint(characterId, name.value), []);
      if !IsScalar(title) {
        ChecksStopAtAbort(f, site, characterId, titles, entries, server, i + 1);
        return Aborted;
      }
      a := Assign(a, ToKey(title), Bool(Holds(answer)));
    }
    assert titles[..|roles|] == titles;
    return Returned(a);
  }

  /** Checking a non-empty list of titles builds a non-empty array of
      booleans. */
  lemma ChecksAreBooleans(pairs: seq<(Key, Value)>)
    requires |pairs| > 0 && forall i | 0 <= i < |pairs| :: pairs[i].1.Bool?
    ensures var a := AssignEach([], pairs);
      |a| > 0 && forall k | Find(a, k).Some? :: Find(a, k).value.Bool?
  {
    var a := AssignEach([], pairs);
    assert Find(a, pairs[|pairs| - 1].0).Some?;
    forall k | Find(a, k).Some? ensures Find(a, k).value.Bool? {
      LastPairExists(pairs, k);
    }
  }

  /** A completed pass over a non-empty catalog builds a non-empty array of
      booleans. */
  lemma CompletedChecks(f: Foreign, site: Site, characterId: nat, titles: seq<Value>,
                        entries: map<string, Entry>, server: (string, Options) -> Response)
    requires |titles| > 0
    requires RoleChecks(f, site, characterId, titles, entries, server).result.Returned?
    ensures var a := RoleChecks(f, site, characterId, titles, entries, server).result.value;
      |a| > 0 && forall k | Find(a, k).Some? :: Find(a, k).value.Bool?
  {
    var c := RoleChecks(f, site, characterId, titles, entries, server);
    ChecksBuildArray(f, site, characterId, titles, entries, server);
    ChecksAreBooleans(CheckPairs(titles, c.answers));
  }

  /** What one call of `srs_get_character_roles` does: the value returned
      (`null` when `$roles` was never assigned), the cache afterwards, and
      the requests, cache reads and cache writes, the catalog fetch included. */
  datatype RolesOutcome = RolesOutcome(
    result: Completion<Value>,
    entries: map<string, Entry>,
    calls: nat,
    lookups: nat,
    stores: nat)

  /** `srs_get_character_roles( $user_id )`. */
  function CharacterRoles(f: Foreign, site: Site, entries: map<string, Entry>,
                          server: (string, Options) -> Response, userId: Option<int>): (o: RolesOutcome)
    // A user without a character id costs nothing and gets `null`.
    ensures CharacterId(site, userId) == 0 ==> o == RolesOutcome(Returned(Null), entries, 0, 0, 0)
    // A returned array is never empty and holds TRUE/FALSE values only.
    ensures o.result.Returned? && o.result.value.Arr? ==>
      && Truthy(o.result.value)
      && forall k | Find(o.result.value.entries, k).Some? :: Find(o.result.value.entries, k).value.Bool?
  {
    var characterId := CharacterId(site, userId);
    if characterId == 0 then RolesOutcome(Returned(Null), entries, 0, 0, 0)
    else
      var fetch := FetchRoles(f, site, entries, server);
      match CatalogOf(fetch.body)
      case Aborted => RolesOutcome(Aborted, fetch.entries, fetch.calls, fetch.lookups, fetch.stores)
      case Returned(None) => RolesOutcome(Returned(Null), fetch.entries, fetch.calls, fetch.lookups, fetch.stores)
      case Returned(Some(roles)) =>
        var c := RoleChecks(f, site, characterId, Titles(roles), fetch.entries, server);
        var result := match c.result case Aborted => Aborted case Returned(a) => Returned(Arr(a));
        var o := RolesOutcome(result, c.entries, fetch.calls + c.calls, fetch.lookups + c.lookups, fetch.stores + c.stores);
        if c.result.Returned? then
          CompletedChecks(f, site, characterId, Titles(roles), fetch.entries, server);
          o
        else o
  }

  /** With a character but no catalog, the call returns `null` after the one
      catalog request and sends no role check. */
  lemma NoCatalogNoChecks(f: Foreign, site: Site, entries: map<string, Entry>,
                          server: (string, Options) -> Response, userId: Option<int>)
    requires CharacterId(site, userId) != 0
    requires CatalogOf(FetchRoles(f, site, entries, server).body) == Returned(None)
    ensures var o := CharacterRoles(f, site, entries, server, userId);
      o.result == Returned(Null) && o.calls <= 1 && o.entries == FetchRoles(f, site, entries, server).entries
  {
  }

  /** `srs_get_character_roles`, against the cache and the HTTP client. */
  method GetCharacterRoles(f: Foreign, site: Site, cache: TransientStore, http: Http, userId: Option<int>)
    returns (roles: Completion<Value>)
    modifies cache, http
    ensures var o := CharacterRoles(f, site, old(cache.entries), old(http.server), userId);
      && roles == o.result
      && cache.entries == o.entries
      && http.calls == old(http.calls) + o.calls
      && cache.lookups == old(cache.lookups) + o.lookups
      && cache.stores == old(cache.stores) + o.stores
    ensures http.server == old(http.server)
  {
    var characterId := CharacterId(site, userId);
    if characterId == 0 {
      return Returned(Null);
    }
    var catalog := GetSeatRoles(f, site, cache, http);
    if catalog.Aborted? {
      return Aborted;
    }
    if catalog.value.None? {
      return Returned(Null);
    }
    var checked := CheckCatalog(f, site, cache, http, characterId, catalog.value.value);
    if checked.Aborted? {
      return Aborted;
    }
    return Returned(Arr(checked.value));
  }

  /** A returned array comes from the `/roles` catalog: its keys are exactly
      the keys of the catalog's titles, and a key is `TRUE` exactly when the
      last check of a title stored under it answered the boolean `true`. */
  lemma CharacterRolesContents(f: Foreign, site: Site, entries: map<string, Entry>,
                               server: (string, Options) -> Response, userId: Option<int>, k: Key)
    requires CharacterRoles(f, site, entries, server, userId).result.Returned?
    requires CharacterRoles(f, site, entries, server, userId).result.value.Arr?
    ensures var fetch := FetchRoles(f, site, entries, server);
      var catalog := CatalogOf(fetch.body);
      && CharacterId(site, userId) != 0
      && catalog.Returned? && catalog.value.Some?
      && var titles := Titles(catalog.value.value);
         var c := RoleChecks(f, site, CharacterId(site, userId), titles, fetch.entries, server);
         var a := CharacterRoles(f, site, entries, server, userId).result.value.entries;
         && c.result == Returned(a)
         && (Find(a, k).Some? <==> exists i | 0 <= i < |titles| :: ToKey(titles[i]) == k)
         && (Find(a, k) == Some(Bool(true)) <==>
               exists i :: LastWith(CheckPairs(titles, c.answers), k, i) && Holds(c.answers[i]))
  {
    var fetch := FetchRoles(f, site, entries, server);
    var roles := CatalogOf(fetch.body).value.value;
    CheckedKeys(f, site, CharacterId(site, userId), Titles(roles), fetch.entries, server, k);
  }
}
