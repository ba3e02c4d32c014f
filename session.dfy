/**
  The Session class (src/Session.php): a handle on one namespaced slice of the
  host's shared session table, updated in place.
 */
module Sessions {
  import opened SessionInterface
  import opened SessionState

  /**
    The host's session: the superglobal table every handle reads and writes,
    whether a session is currently active, and how often its id was
    regenerated.
   */
  class Host {
    var data: Store
    var active: bool
    ghost var regenerations: nat

    constructor (data: Store, active: bool)
      ensures this.data == data && this.active == active && regenerations == 0
    {
      this.data := data;
      this.active := active;
      regenerations := 0;
    }
  }

  class Session {
    const host: Host
    const index: string

    /** The handle's slice exists and is an array. */
    ghost predicate Valid()
      reads host
    {
      HasSlice(host.data, index)
    }

    /** Attaches to host under index and repairs the slice if needed. */
    constructor (host: Host, index: string)
      modifies host
      ensures this.host == host && this.index == index
      ensures host.data == Normalise(old(host.data), index)
      ensures host.active == old(host.active) && host.regenerations == old(host.regenerations)
      ensures Valid()
    {
      this.host := host;
      this.index := index;
      new;
      host.data := Normalise(host.data, index);
    }

    /**
      PHP's `new Session($index)`: resolve the namespace key, make sure a host
      session is active (starting one if needed, whose outcome is startSucceeds),
      then repair the slice. Failures leave the table untouched.
     */
    static method Open(host: Host, startSucceeds: bool, freshId: string, index: string := DEFAULT_INDEX)
      returns (r: Result<Session>)
      modifies host
      ensures var resolved := ResolveIndex(old(host.data), index, freshId);
        && (r.Ok? <==> resolved.Ok? && (old(host.active) || startSucceeds))
        && (resolved.Err? ==> r == Err(resolved.error))
        && (resolved.Ok? && !old(host.active) && !startSucceeds ==> r == Err(CannotStart))
        && (r.Err? ==> host.data == old(host.data) && host.active == old(host.active))
        && (r.Ok? ==> fresh(r.value) && r.value.host == host && r.value.index == resolved.value
                      && host.data == Normalise(old(host.data), resolved.value)
                      && host.active && r.value.Valid())
      ensures host.regenerations == old(host.regenerations)
    {
      var resolved := ResolveIndex(host.data, index, freshId);
      if resolved.Err? {
        return Err(resolved.error);
      }
      if !host.active {
        if !startSucceeds {
          return Err(CannotStart);
        }
        host.active := true;
      }
      var s := new Session(host, resolved.value);
      return Ok(s);
    }

    /** getSession: exactly the array stored under this handle's index. */
    function GetSession(): (s: Slice)
      reads host
      requires Valid()
      ensures host.data[index] == Arr(s)
    {
      SliceOf(host.data, index)
    }

    /** PHP isset semantics: present and not null. */
    function Exists(k: string): (b: bool)
      reads host
      requires Valid()
      ensures b <==> k in GetSession() && GetSession()[k] != Null
    {
      IsSet(GetSession(), k)
    }

    function Get(k: string, fallback: Value := Null): (r: Value)
      reads host
      requires Valid()
      ensures Exists(k) ==> r == GetSession()[k] && r != Null
      ensures !Exists(k) ==> r == fallback
    {
      Lookup(GetSession(), k, fallback)
    }

    function IsAuthenticated(): (b: bool)
      reads host
      requires Valid()
      ensures b <==> Exists(AUTHENTICATED)
    {
      Authenticated(GetSession())
    }

    function GetUsername(): (r: Value)
      reads host
      requires Valid()
      ensures !IsAuthenticated() ==> r == Null
      ensures IsAuthenticated() ==> r == Get(USERNAME, Null)
    {
      Username(GetSession())
    }

    method Set(k: string, v: Value)
      requires Valid()
      modifies host
      ensures Valid()
      ensures host.data == old(host.data)[index := Arr(old(GetSession())[k := v])]
      ensures host.active == old(host.active) && host.regenerations == old(host.regenerations)
      ensures Exists(k) <==> v != Null
      ensures v != Null ==> Get(k) == v
    {
      host.data := host.data[index := Arr(GetSession()[k := v])];
    }

    method Remove(k: string)
      requires Valid()
      modifies host
      ensures Valid()
      ensures host.data == old(host.data)[index := Arr(old(GetSession()) - {k})]
      ensures host.active == old(host.active) && host.regenerations == old(host.regenerations)
      ensures !Exists(k)
      ensures k !in old(GetSession()) ==> host.data == old(host.data)
    {
      var s := GetSession();
      if k !in s {
        assert s - {k} == s;
      }
      host.data := host.data[index := Arr(s - {k})];
    }

    /**
      Regenerates the session id, writes every parameter in order, then the
      username and the authenticated flag, so the identity always wins.
     */
    method Login(username: string, params: Pairs)
      requires Valid()
      modifies host
      ensures Valid()
      ensures host.data == old(host.data)[index := Arr(LoggedIn(old(GetSession()), username, params))]
      ensures host.active == old(host.active)
      ensures host.regenerations == old(host.regenerations) + 1
      ensures IsAuthenticated() && GetUsername() == Str(username)
    {
      host.regenerations := host.regenerations + 1;
      var i := 0;
      while i < |params|
        invariant 0 <= i <= |params|
        invariant Valid()
        invariant host.data == old(host.data)[index := Arr(AssignAll(old(GetSession()), params[..i]))]
        invariant host.active == old(host.active)
        invariant host.regenerations == old(host.regenerations) + 1
      {
        assert params[..i + 1][..i] == params[..i];
        Set(params[i].0, params[i].1);
        i := i + 1;
      }
      assert params[..i] == params;
      Set(USERNAME, Str(username));
      Set(AUTHENTICATED, Bool(true));
    }

    /** Replaces the whole slice with the empty array. */
    method Logout()
      requires Valid()
      modifies host
      ensures Valid()
      ensures host.data == old(host.data)[index := Arr(map[])]
      ensures host.active == old(host.active) && host.regenerations == old(host.regenerations)
      ensures GetSession() == map[] && !IsAuthenticated() && GetUsername() == Null
      ensures old(GetSession()) == map[] ==> host.data == old(host.data)
    {
      host.data := host.data[index := Arr(map[])];
    }

    /**
      Logs out, then ends the host session, so the next handle has to start a
      session again. The in-memory table keeps the emptied slice; the cookie
      and the host's storage teardown are not modelled.
     */
    method Destroy()
      requires Valid()
      modifies host
      ensures Valid()
      ensures host.data == old(host.data)[index := Arr(map[])]
      ensures !host.active && host.regenerations == old(host.regenerations)
      ensures GetSession() == map[] && !IsAuthenticated() && GetUsername() == Null
    {
      Logout();
      host.active := false;
    }
  }

  /**
    After destroy no session is active, so building the next handle fails with
    CannotStart when starting a session fails, and the table is left as destroy
    left it.
   */
  method DestroyThenOpen(s: Session, freshId: string, index: string) returns (r: Result<Session>)
    requires s.Valid() && !PhpEmpty(index)
    modifies s.host
    ensures r == Err(CannotStart)
    ensures s.host.data == old(s.host.data)[s.index := Arr(map[])]
  {
    s.Destroy();
    r := Session.Open(s.host, false, freshId, index);
  }

  /**
    Two handles on the same host under different keys: a write through one is
    invisible through the other.
   */
  method Isolation(mine: Session, other: Session, k: string, v: Value)
    requires mine.host == other.host && mine.index != other.index
    requires mine.Valid() && other.Valid()
    modifies mine.host
    ensures other.Valid() && other.GetSession() == old(other.GetSession())
  {
    mine.Set(k, v);
  }
}
