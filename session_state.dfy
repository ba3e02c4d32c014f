/**
  The values kept in the host session and the pure semantics of one namespaced
  slice of it: PHP's isset and lookup, the writes of set/remove/login, the
  normalisation done at construction and the choice of the namespace key.
  The class in module Sessions applies these to the shared table in place.
 */
module SessionState {
  import opened SessionInterface

  /** A PHP value, as far as the session needs to tell values apart. */
  datatype Value =
    | Null
    | Bool(b: bool)
    | Int(i: int)
    | Str(s: string)
    | Arr(entries: map<string, Value>)

  /** One namespace of the session: the array stored under a handle's index. */
  type Slice = map<string, Value>

  /** The whole host session table ($_SESSION): namespace key to value. */
  type Store = map<string, Value>

  /** The two ways construction of a handle can fail. */
  datatype SessionError =
    | CannotStart     // no active session and starting one failed
    | IndexTypeError  // the value stored under DEFAULT_INDEX cannot be returned as a string

  datatype Result<T> = Ok(value: T) | Err(error: SessionError)

  /** The key/value pairs of a PHP array, in the order a foreach visits them. */
  type Pairs = seq<(string, Value)>

  // ---------------------------------------------------------------------------
  // Reading a slice

  /** PHP's isset on an entry: the key is present and its value is not null. */
  predicate IsSet(s: Slice, k: string) {
    k in s && s[k] != Null
  }

  /** The stored value when it is set, the caller's fallback otherwise. */
  function Lookup(s: Slice, k: string, fallback: Value): (r: Value)
    ensures IsSet(s, k) ==> r == s[k] && r != Null
    ensures !IsSet(s, k) ==> r == fallback
  {
    if IsSet(s, k) then s[k] else fallback
  }

  /** Authentication is the presence of AUTHENTICATED, whatever value it holds. */
  predicate Authenticated(s: Slice) {
    IsSet(s, AUTHENTICATED)
  }

  /** The username is only ever reported for an authenticated slice. */
  function Username(s: Slice): (r: Value)
    ensures !Authenticated(s) ==> r == Null
    ensures r != Null ==> Authenticated(s) && USERNAME in s && s[USERNAME] == r
    ensures Authenticated(s) && USERNAME in s ==> r == s[USERNAME]
    ensures Authenticated(s) && USERNAME !in s ==> r == Null
  {
    if Authenticated(s) then Lookup(s, USERNAME, Null) else Null
  }

  // ---------------------------------------------------------------------------
  // Writing a slice

  /** The keys a list of pairs mentions. */
  function KeysOf(ps: Pairs): (keys: set<string>) {
    set i | 0 <= i < |ps| :: ps[i].0
  }

  /** No later pair of ps writes the key of pair i again. */
  predicate LastOccurrence(ps: Pairs, i: int)
    requires 0 <= i < |ps|
  {
    forall j :: i < j < |ps| ==> ps[j].0 != ps[i].0
  }

  /** Every key of ps appears exactly once, as in a PHP array. */
  predicate DistinctKeys(ps: Pairs) {
    forall i, j :: 0 <= i < j < |ps| ==> ps[i].0 != ps[j].0
  }

  lemma KeysOfPrefix(ps: Pairs)
    requires ps != []
    ensures KeysOf(ps) == KeysOf(ps[..|ps| - 1]) + {ps[|ps| - 1].0}
  {
  }

  /** The slice after writing every pair of ps in order, one set() per pair. */
  function AssignAll(s: Slice, ps: Pairs): (r: Slice)
    decreases |ps|
  {
    if ps == [] then s
    else
      var last := ps[|ps| - 1];
      AssignAll(s, ps[..|ps| - 1])[last.0 := last.1]
  }

  /** Writing the pairs in order adds exactly their keys to the slice. */
  lemma {:induction false} AssignAllKeys(s: Slice, ps: Pairs)
    ensures AssignAll(s, ps).Keys == s.Keys + KeysOf(ps)
    decreases |ps|
  {
    if ps != [] {
      AssignAllKeys(s, ps[..|ps| - 1]);
      KeysOfPrefix(ps);
    }
  }

  /** A key none of the pairs mentions keeps its value. */
  lemma {:induction false} AssignAllKeeps(s: Slice, ps: Pairs, k: string)
    requires k in s && k !in KeysOf(ps)
    ensures k in AssignAll(s, ps) && AssignAll(s, ps)[k] == s[k]
    decreases |ps|
  {
    if ps != [] {
      KeysOfPrefix(ps);
      AssignAllKeeps(s, ps[..|ps| - 1], k);
    }
  }

  /** Each key ends up with the value of its last pair. */
  lemma {:induction false} AssignAllLastWins(s: Slice, ps: Pairs, i: nat)
    requires i < |ps| && LastOccurrence(ps, i)
    ensures ps[i].0 in AssignAll(s, ps) && AssignAll(s, ps)[ps[i].0] == ps[i].1
    decreases |ps|
  {
    var front := ps[..|ps| - 1];
    if i < |front| {
      assert front[i] == ps[i];
      assert LastOccurrence(front, i) by {
        forall j | i < j < |front| ensures front[j].0 != front[i].0 {
          assert front[j] == ps[j];
        }
      }
      AssignAllLastWins(s, front, i);
    }
  }

  /** What login leaves in the slice: the parameters first, then the two identity entries. */
  function LoggedIn(s: Slice, username: string, ps: Pairs): (r: Slice)
    ensures Authenticated(r) && Username(r) == Str(username)
    ensures r.Keys == s.Keys + KeysOf(ps) + {USERNAME, AUTHENTICATED}
    ensures forall i :: 0 <= i < |ps| && LastOccurrence(ps, i) && ps[i].0 != USERNAME && ps[i].0 != AUTHENTICATED
              ==> r[ps[i].0] == ps[i].1
    ensures forall k :: k in s && k !in KeysOf(ps) && k != USERNAME && k != AUTHENTICATED ==> r[k] == s[k]
  {
    KeysDistinct();
    AssignAllKeys(s, ps);
    forall k | k in s && k !in KeysOf(ps) ensures AssignAll(s, ps)[k] == s[k] {
      AssignAllKeeps(s, ps, k);
    }
    forall i | 0 <= i < |ps| && LastOccurrence(ps, i) ensures AssignAll(s, ps)[ps[i].0] == ps[i].1 {
      AssignAllLastWins(s, ps, i);
    }
    AssignAll(s, ps)[USERNAME := Str(username)][AUTHENTICATED := Bool(true)]
  }

  // ---------------------------------------------------------------------------
  // The whole table

  /** The table holds an array under index. */
  predicate HasSlice(store: Store, index: string) {
    index in store && store[index].Arr?
  }

  function SliceOf(store: Store, index: string): (s: Slice)
    requires HasSlice(store, index)
  {
    store[index].entries
  }

  /**
    Construction's repair of the slice: an absent, null or non-array value under
    index becomes the empty array; an existing array and every other namespace
    stay as they are.
   */
  function Normalise(store: Store, index: string): (r: Store)
    ensures HasSlice(r, index)
    ensures r.Keys == store.Keys + {index}
    ensures forall k :: k in store && k != index ==> r[k] == store[k]
    ensures HasSlice(store, index) ==> r == store
    ensures !HasSlice(store, index) ==> SliceOf(r, index) == map[]
  {
    if !(index in store && store[index] != Null) || !store[index].Arr? then
      store[index := Arr(map[])]
    else
      store
  }

  function DigitChar(d: nat): (c: char)
    requires d < 10
  {
    "0123456789"[d]
  }

  function Digits(n: nat): (r: string)
    decreases n
  {
    if n < 10 then [DigitChar(n)] else Digits(n / 10) + [DigitChar(n % 10)]
  }

  /** PHP's decimal rendering of an integer. */
  function DecimalString(i: int): (r: string) {
    if i < 0 then "-" + Digits(-i) else Digits(i)
  }

  /**
    getIndex: the value stored under DEFAULT_INDEX, returned as a string in
    PHP's coercive mode, or the fresh id when nothing (or null) is stored there.
   */
  function StoredIndex(store: Store, freshId: string): (r: Result<string>)
    ensures DEFAULT_INDEX !in store || store[DEFAULT_INDEX] == Null ==> r == Ok(freshId)
    ensures DEFAULT_INDEX in store && store[DEFAULT_INDEX].Str? ==> r == Ok(store[DEFAULT_INDEX].s)
    ensures DEFAULT_INDEX in store && store[DEFAULT_INDEX].Int? ==> r == Ok(DecimalString(store[DEFAULT_INDEX].i))
    ensures DEFAULT_INDEX in store && store[DEFAULT_INDEX].Bool? ==> r == Ok(if store[DEFAULT_INDEX].b then "1" else "")
    ensures r.Err? <==> DEFAULT_INDEX in store && store[DEFAULT_INDEX].Arr?
    ensures r.Err? ==> r.error == IndexTypeError
  {
    if DEFAULT_INDEX !in store then Ok(freshId)
    else
      match store[DEFAULT_INDEX]
      case Null => Ok(freshId)
      case Str(s) => Ok(s)
      case Int(i) => Ok(DecimalString(i))
      case Bool(b) => Ok(if b then "1" else "")
      case Arr(_) => Err(IndexTypeError)
  }

  /** PHP's empty() on a string: true for "" and for "0". */
  predicate PhpEmpty(s: string) {
    s == "" || s == "0"
  }

  /** The namespace key a handle ends up with, given the constructor argument. */
  function ResolveIndex(store: Store, index: string, freshId: string): (r: Result<string>)
    ensures !PhpEmpty(index) ==> r == Ok(index)
    ensures PhpEmpty(index) ==> r == StoredIndex(store, freshId)
  {
    if PhpEmpty(index) then StoredIndex(store, freshId) else Ok(index)
  }
}

/** Properties of the slice semantics that relate several operations. */
module SessionLaws {
  import opened SessionInterface
  import opened SessionState

  /**
    set(k, v) followed by a read: a non-null v is set and read back, a null v
    reads as absent; every other key reads as before.
   */
  lemma SetThenRead(s: Slice, k: string, v: Value, fallback: Value)
    ensures IsSet(s[k := v], k) <==> v != Null
    ensures Lookup(s[k := v], k, fallback) == if v != Null then v else fallback
    ensures forall k' :: k' != k ==> IsSet(s[k := v], k') == IsSet(s, k')
    ensures forall k' :: k' != k ==> Lookup(s[k := v], k', fallback) == Lookup(s, k', fallback)
  {
  }

  /** A key nobody set, or one set to null, reads as the fallback. */
  lemma UnsetReadsFallback(s: Slice, k: string, fallback: Value)
    requires k !in s || s[k] == Null
    ensures !IsSet(s, k) && Lookup(s, k, fallback) == fallback
  {
  }

  /**
    remove(k): k reads as absent afterwards, nothing else changes, removing an
    absent key changes nothing, and removing twice is removing once.
   */
  lemma RemoveThenRead(s: Slice, k: string, fallback: Value)
    ensures !IsSet(s - {k}, k) && Lookup(s - {k}, k, fallback) == fallback
    ensures forall k' :: k' != k ==> (k' in s - {k} <==> k' in s)
    ensures forall k' :: k' != k && k' in s ==> (s - {k})[k'] == s[k']
    ensures k !in s ==> s - {k} == s
    ensures (s - {k}) - {k} == s - {k}
  {
  }

  /** The slice logout leaves behind reads as logged out and empty. */
  lemma LoggedOut(k: string, fallback: Value)
    ensures !Authenticated(map[])
    ensures Username(map[]) == Null
    ensures Lookup(map[], k, fallback) == fallback
  {
  }

  /** Authentication is presence, not truth: storing false under AUTHENTICATED still authenticates. */
  lemma PresenceNotTruth(s: Slice)
    ensures Authenticated(s[AUTHENTICATED := Bool(false)])
  {
  }

  /** For a PHP array of parameters (distinct keys) login stores every non-identity parameter. */
  lemma LoginStoresParameters(s: Slice, username: string, ps: Pairs, fallback: Value)
    requires DistinctKeys(ps)
    ensures forall i :: 0 <= i < |ps| && ps[i].0 != USERNAME && ps[i].0 != AUTHENTICATED
              ==> Lookup(LoggedIn(s, username, ps), ps[i].0, fallback) == if ps[i].1 != Null then ps[i].1 else fallback
  {
  }

  /** Identity entries win over parameters that carry the same keys. */
  lemma IdentityWinsOverParameters(s: Slice, username: string, ps: Pairs)
    ensures Username(LoggedIn(s, username, ps)) == Str(username)
    ensures LoggedIn(s, username, ps)[AUTHENTICATED] == Bool(true)
  {
  }

  /** Writing one namespace leaves every other namespace of the table as it was. */
  lemma NamespacesIsolated(store: Store, mine: string, other: string, s: Slice)
    requires mine != other && HasSlice(store, other)
    ensures HasSlice(store[mine := Arr(s)], other)
    ensures SliceOf(store[mine := Arr(s)], other) == SliceOf(store, other)
  {
  }

  /** The default constructor argument is used verbatim, without consulting the table. */
  lemma DefaultArgumentUsedVerbatim(store: Store, freshId: string)
    ensures ResolveIndex(store, DEFAULT_INDEX, freshId) == Ok(DEFAULT_INDEX)
  {
  }

  /** Besides "", the argument "0" also falls back to the stored index (PHP's empty()). */
  lemma ZeroArgumentIsEmpty(store: Store, freshId: string)
    ensures ResolveIndex(store, "0", freshId) == StoredIndex(store, freshId)
  {
  }

  /**
    With no stored index the fresh id is used, and construction does not write
    it back under DEFAULT_INDEX, so the next empty-argument handle cannot find it.
   */
  lemma FreshIdNotRecorded(store: Store, freshId: string, nextId: string)
    requires (DEFAULT_INDEX !in store || store[DEFAULT_INDEX] == Null) && freshId != DEFAULT_INDEX
    ensures ResolveIndex(store, "", freshId) == Ok(freshId)
    ensures DEFAULT_INDEX in Normalise(store, freshId) <==> DEFAULT_INDEX in store
    ensures DEFAULT_INDEX in store ==> Normalise(store, freshId)[DEFAULT_INDEX] == Null
    ensures ResolveIndex(Normalise(store, freshId), "", nextId) == Ok(nextId)
  {
  }

  /**
    A handle built with the default argument keeps its slice, an array, under
    DEFAULT_INDEX itself; a later handle built with an empty argument then
    finds an array where it expects an index and fails.
   */
  lemma DefaultSliceBlocksResume(store: Store, freshId: string)
    ensures ResolveIndex(Normalise(store, DEFAULT_INDEX), "", freshId) == Err(IndexTypeError)
  {
  }
}
