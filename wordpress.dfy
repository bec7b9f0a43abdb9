/** The host primitives the plugin calls, kept abstract: the transient
    cache, the outbound HTTP client, the role registry and a user's role set,
    plus the foreign functions whose internals lie outside the plugin. */
module WordPress {
  import opened Php

  /** Deterministic functions the plugin calls but does not define:
      `hash('sha512', ...)`, `serialize`, `json_decode` and
      `sanitize_html_class`. They stay uninterpreted. */
  datatype Foreign = Foreign(
    hash: string -> string,
    serialize: Options -> string,
    jsonDecode: string -> Value,
    sanitizeHtmlClass: string -> string)

  /** What `wp_remote_request` gives back: a `WP_Error`, or a response array
      whose body is kept (the status code is never inspected). */
  datatype Response = WpError | Reply(body: string)

  /** The site's persistent state that the plugin only reads: saved settings
      (the settings form stores strings), the current user, each user's
      `wsl_current_user_image` metadata, and the current time in seconds. */
  datatype Site = Site(
    settings: map<string, string>,
    currentUserId: int,
    userImages: map<int, string>,
    now: int)

  /** `get_option( $name, $default )`. */
  function GetOption(settings: map<string, string>, name: string, default: Value): Value {
    if name in settings then Str(settings[name]) else default
  }

  /** A stored transient and the time after which it has expired
      (None: it never expires). */
  datatype Entry = Entry(value: Value, expires: Option<int>)

  /** `set_transient` with a time-to-live of 0 stores a transient that never
      expires; any other time-to-live counts from `now`. */
  function Expiry(now: int, ttl: int): Option<int> {
    if ttl == 0 then None else Some(now + ttl)
  }

  /** `get_transient`: the stored value while it has not expired, `false`
      otherwise. */
  function Transient(entries: map<string, Entry>, key: string, now: int): Value {
    if key in entries && (entries[key].expires.None? || now <= entries[key].expires.value)
    then entries[key].value
    else Bool(false)
  }

  /** `set_transient` followed by `get_transient` at a later time `t`: the
      value comes back until `ttl` seconds have passed (for ever when `ttl`
      is 0), `false` afterwards; other keys read as before. */
  lemma TransientRoundTrip(entries: map<string, Entry>, key: string, value: Value, now: int, ttl: int, t: int, other: string)
    requires ttl >= 0 && now <= t && other != key
    ensures var stored := entries[key := Entry(value, Expiry(now, ttl))];
      && Transient(stored, key, t) == (if ttl == 0 || t <= now + ttl then value else Bool(false))
      && Transient(stored, other, t) == Transient(entries, other, t)
  {
  }

  /** The transient cache. `lookups` and `stores` count `get_transient` and
      `set_transient` calls. */
  class TransientStore {
    var entries: map<string, Entry>
    ghost var lookups: nat
    ghost var stores: nat

    constructor (entries: map<string, Entry>)
      ensures this.entries == entries && lookups == 0 && stores == 0
    {
      this.entries := entries;
      lookups, stores := 0, 0;
    }

    method Get(key: string, now: int) returns (v: Value)
      modifies this`lookups
      ensures v == Transient(entries, key, now)
      ensures lookups == old(lookups) + 1
    {
      v := Transient(entries, key, now);
      lookups := lookups + 1;
    }

    method Set(key: string, value: Value, ttl: int, now: int)
      modifies this`entries, this`stores
      ensures entries == old(entries)[key := Entry(value, Expiry(now, ttl))]
      ensures stores == old(stores) + 1
    {
      entries := entries[key := Entry(value, Expiry(now, ttl))];
      stores := stores + 1;
    }
  }

  /** The remote server as seen through `wp_remote_request`: an oracle from
      (url, options) to a response; `calls` counts the requests sent. */
  class Http {
    var server: (string, Options) -> Response
    ghost var calls: nat

    constructor (server: (string, Options) -> Response)
      ensures this.server == server && calls == 0
    {
      this.server := server;
      calls := 0;
    }

    method Request(url: string, query: Options) returns (r: Response)
      modifies this`calls
      ensures r == server(url, query)
      ensures calls == old(calls) + 1
    {
      r := server(url, query);
      calls := calls + 1;
    }
  }

  /** The site's role registry: role slug to display name. */
  class RoleRegistry {
    var roles: map<string, Value>

    constructor (roles: map<string, Value>)
      ensures this.roles == roles
    {
      this.roles := roles;
    }

    /** `add_role( $slug, $name )`: creates the role unless the slug exists. */
    method AddRole(slug: string, name: Value)
      modifies this
      ensures roles == if slug in old(roles) then old(roles) else old(roles)[slug := name]
    {
      if slug !in roles {
        roles := roles[slug := name];
      }
    }
  }

  /** A `WP_User` and the role slugs it holds. */
  class User {
    var roles: set<string>

    constructor (roles: set<string>)
      ensures this.roles == roles
    {
      this.roles := roles;
    }

    /** `$user->add_role( $slug )`. */
    method AddRole(slug: string)
      modifies this
      ensures roles == old(roles) + {slug}
    {
      roles := roles + {slug};
    }

    /** `$user->remove_role( $slug )`. */
    method RemoveRole(slug: string)
      modifies this
      ensures roles == old(roles) - {slug}
    {
      roles := roles - {slug};
    }
  }
}
