/** `srs_sync_seat_roles`: the current user gains the slug of every SeAT
    role the character holds and loses the slug of every role it does not. */
module Sync {
  import opened Php
  import opened WordPress
  import opened Slugs
  import opened Membership

  /** The slug of a role name as the loop hands it back (an integer key
      becomes its decimal string). */
  function KeySlug(f: Foreign, k: Key): string {
    SanitizeSeatRole(f, KeyToStr(k))
  }

  /** For each entry of the roles array: its slug and whether it is held. */
  function SlugVerdicts(f: Foreign, roles: seq<(Key, Value)>): seq<(string, bool)> {
    seq(|roles|, i requires 0 <= i < |roles| => (KeySlug(f, roles[i].0), Truthy(roles[i].1)))
  }

  /** The user's roles after `add_role`/`remove_role` for each entry of
      `roles`, in order, starting from `held`. */
  function Synced(f: Foreign, roles: seq<(Key, Value)>, held: set<string>): set<string>
    decreases |roles|
  {
    if roles == [] then held
    else
      var n := |roles| - 1;
      var prev := Synced(f, roles[..n], held);
      var slug := KeySlug(f, roles[n].0);
      if Truthy(roles[n].1) then prev + {slug} else prev - {slug}
  }

  /** A slug is held afterwards exactly when the last entry producing it
      says so; a slug no entry produces keeps its old membership. */
  lemma {:induction false} SyncedContents(f: Foreign, roles: seq<(Key, Value)>, held: set<string>, slug: string)
    ensures slug in Synced(f, roles, held) <==>
      match LastValue(SlugVerdicts(f, roles), slug)
      case Some(b) => b
      case None => slug in held
  {
    if roles != [] {
      var n := |roles| - 1;
      assert SlugVerdicts(f, roles)[..n] == SlugVerdicts(f, roles[..n]);
      SyncedContents(f, roles[..n], held, slug);
    }
  }

  /** Syncing the same answers twice changes nothing the second time. */
  lemma SyncIdempotent(f: Foreign, roles: seq<(Key, Value)>, held: set<string>)
    ensures Synced(f, roles, Synced(f, roles, held)) == Synced(f, roles, held)
  {
    var once := Synced(f, roles, held);
    forall slug ensures slug in Synced(f, roles, once) <==> slug in once {
      SyncedContents(f, roles, held, slug);
      SyncedContents(f, roles, once, slug);
    }
  }

  /** Roles whose slug no entry produces (the site's own roles, say) are
      neither added nor removed. */
  lemma SyncKeepsOtherRoles(f: Foreign, roles: seq<(Key, Value)>, held: set<string>, slug: string)
    requires forall i | 0 <= i < |roles| :: KeySlug(f, roles[i].0) != slug
    ensures slug in Synced(f, roles, held) <==> slug in held
  {
    SyncedContents(f, roles, held, slug);
    LastValueFound(SlugVerdicts(f, roles), slug);
  }

  /** When no other role name shares its slug, the user holds a role's slug
      exactly when the array says the role is held. */
  lemma SyncFollowsAnswer(f: Foreign, roles: seq<(Key, Value)>, held: set<string>, k: Key)
    requires UniqueKeys(roles) && Find(roles, k).Some?
    requires forall j | 0 <= j < |roles| && roles[j].0 != k :: KeySlug(f, roles[j].0) != KeySlug(f, k)
    ensures KeySlug(f, k) in Synced(f, roles, held) <==> Truthy(Find(roles, k).value)
  {
    FindIndex(roles, k);
    var i :| 0 <= i < |roles| && roles[i] == (k, Find(roles, k).value);
    forall j | i < j < |roles| ensures SlugVerdicts(f, roles)[j].0 != KeySlug(f, k) {
      if roles[j].0 == k {
        UniqueKeysIndex(roles, i, j);
      }
    }
    LastValueAt(SlugVerdicts(f, roles), KeySlug(f, k), i);
    SyncedContents(f, roles, held, KeySlug(f, k));
  }

  /** Every role a sync adds is a lower-case slug. */
  lemma SyncAddsLowerCaseSlugs(f: Foreign, roles: seq<(Key, Value)>, held: set<string>, slug: string)
    requires slug in Synced(f, roles, held) && slug !in held
    ensures IsLowerCase(slug)
    ensures exists i | 0 <= i < |roles| :: KeySlug(f, roles[i].0) == slug && Truthy(roles[i].1)
  {
    var pairs := SlugVerdicts(f, roles);
    SyncedContents(f, roles, held, slug);
    LastPairExists(pairs, slug);
    var i :| LastWith(pairs, slug, i) && pairs[i].1 == LastValue(pairs, slug).value;
    assert pairs[i] == (KeySlug(f, roles[i].0), Truthy(roles[i].1));
  }

  /** A two-role scenario: a character in "Fleet Commander" but not in
      "Recruit" gains the first slug, loses the second and keeps every other
      role; when "Recruit" later flips to `true`, the next sync adds it and
      keeps "Fleet Commander". */
  lemma FleetCommanderScenario(f: Foreign, held: set<string>)
    requires KeySlug(f, StrKey("Fleet Commander")) != KeySlug(f, StrKey("Recruit"))
    ensures var commander, recruit := KeySlug(f, StrKey("Fleet Commander")), KeySlug(f, StrKey("Recruit"));
      var first := Synced(f, [(StrKey("Fleet Commander"), Bool(true)), (StrKey("Recruit"), Bool(false))], held);
      var second := Synced(f, [(StrKey("Fleet Commander"), Bool(true)), (StrKey("Recruit"), Bool(true))], first);
      && first == held - {recruit} + {commander}
      && second == held + {commander, recruit}
  {
    var before := [(StrKey("Fleet Commander"), Bool(true)), (StrKey("Recruit"), Bool(false))];
    var after := [(StrKey("Fleet Commander"), Bool(true)), (StrKey("Recruit"), Bool(true))];
    assert before[..1] == after[..1] == [before[0]];
    assert before[..1][..0] == [];
  }

  /** The loop of `srs_sync_seat_roles` over the roles array. The value read
      back as `$roles[ $role_name ]` is the entry's own value, as keys are
      unique. */
  method ApplyRoles(f: Foreign, user: User, roles: seq<(Key, Value)>)
    modifies user
    ensures user.roles == Synced(f, roles, old(user.roles))
  {
    ghost var held := user.roles;
    for i := 0 to |roles|
      invariant user.roles == Synced(f, roles[..i], held)
    {
      assert roles[..i + 1][..i] == roles[..i];
      var slug := SanitizeSeatRole(f, KeyToStr(roles[i].0));
      if Truthy(roles[i].1) {
        user.AddRole(slug);
      } else {
        user.RemoveRole(slug);
      }
    }
    assert roles[..|roles|] == roles;
  }

  /** `srs_sync_seat_roles()` for the current user. `wp_get_current_user()`
      always returns a `WP_User` object, so the guard always passes. The
      result says whether the call completed. */
  method SyncSeatRoles(f: Foreign, site: Site, cache: TransientStore, http: Http, user: User)
    returns (completed: bool)
    modifies cache, http, user
    ensures var o := CharacterRoles(f, site, old(cache.entries), old(http.server), None);
      && completed == o.result.Returned?
      && cache.entries == o.entries
      && http.calls == old(http.calls) + o.calls
      && cache.lookups == old(cache.lookups) + o.lookups
      && cache.stores == old(cache.stores) + o.stores
      && user.roles == if o.result.Returned? && o.result.value.Arr?
                       then Synced(f, o.result.value.entries, old(user.roles))
                       else old(user.roles)
    ensures http.server == old(http.server)
  {
    var roles := GetCharacterRoles(f, site, cache, http, None);
    if roles.Aborted? {
      return false;
    }
    if roles.value.Arr? {
      ApplyRoles(f, user, roles.value.entries);
    }
    return true;
  }
}
