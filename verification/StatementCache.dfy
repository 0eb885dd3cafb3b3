/** The capacity-bounded cache of prepared statements, least recently used first. */
module StatementCache {
  import opened Wrappers

  /** A prepared statement runs the text it was prepared from. */
  datatype Prepared = Prepared(sql: string)

  datatype Entry = Entry(key: string, prepared: Prepared)

  datatype Cache = Cache(capacity: nat, entries: seq<Entry>)

  /** Size within capacity, keys distinct, and every entry prepared from its key. */
  ghost predicate Coherent(c: Cache) {
    && |c.entries| <= c.capacity
    && (forall i, j :: 0 <= i < j < |c.entries| ==> c.entries[i].key != c.entries[j].key)
    && (forall i :: 0 <= i < |c.entries| ==> c.entries[i].prepared.sql == c.entries[i].key)
  }

  function IndexOf(entries: seq<Entry>, key: string): (r: int)
    ensures -1 <= r < |entries|
    ensures r >= 0 ==> entries[r].key == key
    ensures r == -1 ==> forall i :: 0 <= i < |entries| ==> entries[i].key != key
  {
    if entries == [] then -1
    else if entries[|entries| - 1].key == key then |entries| - 1
    else IndexOf(entries[..|entries| - 1], key)
  }

  predicate Cached(c: Cache, key: string) {
    IndexOf(c.entries, key) >= 0
  }

  function Without(entries: seq<Entry>, i: nat): seq<Entry>
    requires i < |entries|
  {
    entries[..i] + entries[i + 1..]
  }

  /** The entry becomes the most recently used one. */
  function Touch(c: Cache, key: string): Cache
    requires Cached(c, key)
  {
    var i := IndexOf(c.entries, key);
    c.(entries := Without(c.entries, i) + [c.entries[i]])
  }

  /** What stays when `key` is about to be added: a present key goes, else the oldest entry if the cache is full. */
  function Kept(c: Cache, key: string): seq<Entry> {
    var i := IndexOf(c.entries, key);
    if i >= 0 then Without(c.entries, i)
    else if |c.entries| == c.capacity && c.entries != [] then Without(c.entries, 0)
    else c.entries
  }

  /** Without capacity nothing stays. */
  function Insert(c: Cache, key: string, prepared: Prepared): Cache {
    var all := Kept(c, key) + [Entry(key, prepared)];
    c.(entries := if |all| > c.capacity then all[1..] else all)
  }

  lemma WithoutKeeps(c: Cache, i: nat)
    requires Coherent(c) && i < |c.entries|
    ensures var d := Cache(c.capacity, Without(c.entries, i));
            && Coherent(d) && |d.entries| == |c.entries| - 1
            && forall k :: Cached(d, k) <==> Cached(c, k) && k != c.entries[i].key
  {
    var d := Cache(c.capacity, Without(c.entries, i));
    EntriesWithout(c.entries, i);
    forall k
      ensures Cached(d, k) <==> Cached(c, k) && k != c.entries[i].key
    {
      CachedWithout(c, i, k);
    }
  }

  lemma EntriesWithout(entries: seq<Entry>, i: nat)
    requires i < |entries|
    ensures |Without(entries, i)| == |entries| - 1
    ensures forall j | 0 <= j < |entries| - 1 :: Without(entries, i)[j] == entries[if j < i then j else j + 1]
  {
  }

  lemma CachedWithout(c: Cache, i: nat, k: string)
    requires Coherent(c) && i < |c.entries|
    ensures Cached(Cache(c.capacity, Without(c.entries, i)), k) <==> Cached(c, k) && k != c.entries[i].key
  {
    var rest := Without(c.entries, i);
    var a, b := IndexOf(c.entries, k), IndexOf(rest, k);
    EntriesWithout(c.entries, i);
    if a >= 0 && a != i {
      assert rest[if a < i then a else a - 1].key == k;
    }
    if b >= 0 {
      assert c.entries[if b < i then b else b + 1].key == k;
    }
  }

  lemma AppendKeeps(c: Cache, key: string)
    requires Coherent(c) && !Cached(c, key) && |c.entries| < c.capacity
    ensures var d := c.(entries := c.entries + [Entry(key, Prepared(key))]);
            Coherent(d) && forall k :: Cached(d, k) <==> Cached(c, k) || k == key
  {
    var d := c.(entries := c.entries + [Entry(key, Prepared(key))]);
    assert d.entries[..|c.entries|] == c.entries;
  }

  /** A hit changes only the order of the entries. */
  lemma TouchKeeps(c: Cache, key: string)
    requires Coherent(c) && Cached(c, key)
    ensures Coherent(Touch(c, key))
    ensures forall k :: Cached(Touch(c, key), k) <==> Cached(c, k)
  {
    var i := IndexOf(c.entries, key);
    WithoutKeeps(c, i);
    AppendKeeps(c.(entries := Without(c.entries, i)), key);
  }

  /** The one key that adding `key` drops: the oldest, when a new key meets a full cache. */
  predicate Evicted(c: Cache, key: string, k: string) {
    !Cached(c, key) && |c.entries| == c.capacity && c.entries != [] && k == c.entries[0].key
  }

  lemma KeptExactly(c: Cache, key: string)
    requires Coherent(c)
    ensures Coherent(Cache(c.capacity, Kept(c, key)))
    ensures |Kept(c, key)| < c.capacity || c.capacity == 0
    ensures forall k :: Cached(Cache(c.capacity, Kept(c, key)), k) <==> Cached(c, k) && k != key && !Evicted(c, key, k)
  {
    var i := IndexOf(c.entries, key);
    if i >= 0 {
      WithoutKeeps(c, i);
    } else if |c.entries| == c.capacity && c.entries != [] {
      WithoutKeeps(c, 0);
    }
  }

  /**
   * For any capacity an insertion keeps the cache coherent.  The new key is
   * there unless there is no room at all; every other key stays, except the
   * oldest one of a full cache that did not have the new key.
   */
  lemma InsertKeepsExactly(c: Cache, key: string)
    requires Coherent(c)
    ensures Coherent(Insert(c, key, Prepared(key)))
    ensures forall k :: Cached(Insert(c, key, Prepared(key)), k) <==>
              if k == key then c.capacity > 0 else Cached(c, k) && !Evicted(c, key, k)
  {
    KeptExactly(c, key);
    if c.capacity > 0 {
      AppendKeeps(c.(entries := Kept(c, key)), key);
    }
  }

  // ------------------------------------------------------------ least recently used

  /** What is done to the cache: a lookup, or storing a newly prepared text. */
  datatype Use = Hit(key: string) | Store(key: string)

  function UseOne(c: Cache, u: Use): Cache {
    match u
    case Hit(key) => if Cached(c, key) then Touch(c, key) else c
    case Store(key) => Insert(c, key, Prepared(key))
  }

  function UseAll(c: Cache, uses: seq<Use>): Cache {
    if uses == [] then c else UseOne(UseAll(c, uses[..|uses| - 1]), uses[|uses| - 1])
  }

  /** When a key was last used, or -1. */
  function LastUse(uses: seq<Use>, key: string): (r: int)
    ensures -1 <= r < |uses|
  {
    if uses == [] then -1
    else if uses[|uses| - 1].key == key then |uses| - 1
    else LastUse(uses[..|uses| - 1], key)
  }

  /** The entries stand in the order of their last use, oldest first. */
  ghost predicate OrderedByUse(c: Cache, uses: seq<Use>) {
    && Coherent(c)
    && forall i, j :: 0 <= i < j < |c.entries| ==> LastUse(uses, c.entries[i].key) < LastUse(uses, c.entries[j].key)
  }

  /** Dropping an entry, and adding the key just used at the end, keeps the order. */
  lemma NewestAtTheEnd(rest: seq<Entry>, uses: seq<Use>, u: Use, capacity: nat)
    requires OrderedByUse(Cache(capacity, rest), uses) && !Cached(Cache(capacity, rest), u.key) && |rest| < capacity
    ensures OrderedByUse(Cache(capacity, rest + [Entry(u.key, Prepared(u.key))]), uses + [u])
  {
    var all := rest + [Entry(u.key, Prepared(u.key))];
    AppendKeeps(Cache(capacity, rest), u.key);
    assert (uses + [u])[..|uses|] == uses;
    forall i | 0 <= i < |rest|
      ensures all[i] == rest[i] && rest[i].key != u.key && LastUse(uses + [u], rest[i].key) == LastUse(uses, rest[i].key)
    {
    }
  }

  lemma OrderedWithout(c: Cache, uses: seq<Use>, i: nat)
    requires OrderedByUse(c, uses) && i < |c.entries|
    ensures OrderedByUse(c.(entries := Without(c.entries, i)), uses)
  {
    WithoutKeeps(c, i);
    EntriesWithout(c.entries, i);
  }

  lemma MissKeepsOrder(c: Cache, uses: seq<Use>, u: Use)
    requires OrderedByUse(c, uses) && !Cached(c, u.key)
    ensures OrderedByUse(c, uses + [u])
  {
    assert (uses + [u])[..|uses|] == uses;
    forall i | 0 <= i < |c.entries|
      ensures LastUse(uses + [u], c.entries[i].key) == LastUse(uses, c.entries[i].key)
    {
    }
  }

  lemma OneUseKeepsOrder(c: Cache, uses: seq<Use>, u: Use)
    requires OrderedByUse(c, uses)
    ensures OrderedByUse(UseOne(c, u), uses + [u])
  {
    var i := IndexOf(c.entries, u.key);
    if i >= 0 {
      OrderedWithout(c, uses, i);
      WithoutKeeps(c, i);
      NewestAtTheEnd(Without(c.entries, i), uses, u, c.capacity);
    } else if u.Hit? || c.capacity == 0 {
      MissKeepsOrder(c, uses, u);
    } else {
      KeptExactly(c, u.key);
      if |c.entries| == c.capacity {
        OrderedWithout(c, uses, 0);
      }
      NewestAtTheEnd(Kept(c, u.key), uses, u, c.capacity);
    }
  }

  /** Over every sequence of uses, and for any capacity, the entries stand in the order of their last use. */
  lemma {:induction false} AlwaysOrderedByUse(capacity: nat, uses: seq<Use>)
    ensures OrderedByUse(UseAll(Cache(capacity, []), uses), uses)
    decreases |uses|
  {
    if uses != [] {
      var n := |uses| - 1;
      AlwaysOrderedByUse(capacity, uses[..n]);
      OneUseKeepsOrder(UseAll(Cache(capacity, []), uses[..n]), uses[..n], uses[n]);
      assert uses == uses[..n] + [uses[n]];
    }
  }

  /** So the key that gives way is the one whose last use is longest ago. */
  lemma EvictedIsLeastRecent(capacity: nat, uses: seq<Use>, key: string, evicted: string, other: string)
    requires var c := UseAll(Cache(capacity, []), uses);
             Evicted(c, key, evicted) && Cached(c, other) && other != evicted
    ensures LastUse(uses, evicted) < LastUse(uses, other)
  {
    var c := UseAll(Cache(capacity, []), uses);
    AlwaysOrderedByUse(capacity, uses);
    assert c.entries[IndexOf(c.entries, other)].key == other;
  }

  /** The cached keys, each once. */
  function Keys(entries: seq<Entry>): set<string> {
    set e <- entries :: e.key
  }

  lemma KeysAreCached(c: Cache)
    ensures forall k :: k in Keys(c.entries) <==> Cached(c, k)
  {
    forall k | Cached(c, k)
      ensures k in Keys(c.entries)
    {
      assert c.entries[IndexOf(c.entries, k)] in c.entries;
    }
    forall k | k in Keys(c.entries)
      ensures Cached(c, k)
    {
      var e :| e in c.entries && e.key == k;
    }
  }

  lemma {:induction false} KeysAreCounted(c: Cache)
    requires Coherent(c)
    ensures |Keys(c.entries)| == |c.entries|
    decreases |c.entries|
  {
    if c.entries != [] {
      var n := |c.entries| - 1;
      var rest, last := c.entries[..n], c.entries[n];
      KeysAreCounted(c.(entries := rest));
      assert c.entries == rest + [last];
      assert Keys(c.entries) == Keys(rest) + {last.key};
      assert last.key !in Keys(rest);
    }
  }

  /** The cache object the actor owns. */
  class LruCache {
    var value: Cache

    constructor (capacity: nat)
      ensures value == Cache(capacity, [])
    {
      value := Cache(capacity, []);
    }

    method GetMut(key: string) returns (found: Option<Prepared>)
      modifies this
      ensures old(Cached(value, key)) ==>
                value == Touch(old(value), key) && found == Some(old(value).entries[IndexOf(old(value).entries, key)].prepared)
      ensures !old(Cached(value, key)) ==> value == old(value) && found == None
      ensures old(Coherent(value)) ==>
                && Coherent(value) && (found.Some? ==> found.value == Prepared(key))
                && forall k :: Cached(value, k) <==> old(Cached(value, k))
    {
      if Coherent(value) && Cached(value, key) {
        TouchKeeps(value, key);
      }
      var i := IndexOf(value.entries, key);
      if i < 0 {
        return None;
      }
      found := Some(value.entries[i].prepared);
      value := Touch(value, key);
    }

    predicate IsEnabled()
      reads this
    {
      value.capacity > 0
    }

    /**
     * A present key makes way, or else the oldest entry of a full cache; the
     * new entry becomes the newest, and goes again if there is no capacity.
     */
    method Put(key: string, prepared: Prepared)
      modifies this
      ensures value == Insert(old(value), key, prepared)
      ensures old(Coherent(value)) && prepared == Prepared(key) ==>
                && Coherent(value)
                && (forall k :: Cached(value, k) <==>
                      if k == key then value.capacity > 0 else old(Cached(value, k)) && !Evicted(old(value), key, k))
    {
      ghost var before := value;
      var i := IndexOf(value.entries, key);
      if i >= 0 {
        value := value.(entries := Without(value.entries, i));
      } else if |value.entries| == value.capacity && value.entries != [] {
        value := value.(entries := value.entries[1..]);
        assert value.entries == Without(before.entries, 0);
      }
      value := value.(entries := value.entries + [Entry(key, prepared)]);
      if |value.entries| > value.capacity {
        value := value.(entries := value.entries[1..]);
      }
      if Coherent(before) {
        InsertKeepsExactly(before, key);
      }
    }

    method Clear()
      modifies this
      ensures value == old(value).(entries := [])
    {
      value := value.(entries := []);
    }
  }
}
