/** The block cache: a bounded list of live entries, a bounded list of evicted ones kept as
    history, and one hash table over both. */
module Cache {
  import opened Powers
  import opened Words

  datatype Option<T> = None | Some(value: T)

  // ------------------------------------------------ the cache as two bounded lists

  datatype Record = Record(key: Word, value: int, uses: Word)

  type Records = seq<Record>

  /** Live records, latest insertion first, and evicted ones, latest eviction first. */
  datatype Model = Model(live: Records, history: Records)

  function Keys(items: Records): (keys: seq<Word>)
    ensures |keys| == |items| && forall i :: 0 <= i < |items| ==> keys[i] == items[i].key
  {
    seq(|items|, i requires 0 <= i < |items| => items[i].key)
  }

  /** Where a key stands first, or the length if it is not there. */
  function IndexOf(keys: seq<Word>, key: Word): (i: nat)
    ensures i <= |keys|
    ensures i < |keys| ==> keys[i] == key
    ensures forall j :: 0 <= j < i ==> keys[j] != key
  {
    if keys == [] || keys[0] == key then 0 else 1 + IndexOf(keys[1..], key)
  }

  function First(items: Records, key: Word): Option<Record> {
    var i := IndexOf(Keys(items), key);
    if i < |items| then Some(items[i]) else None
  }

  function Lookup(items: Records, key: Word): Option<int> {
    var r := First(items, key);
    if r.Some? then Some(r.value.value) else None
  }

  /** The entry an insertion pushes out: the one with the same key, else the oldest one of
      a full list. */
  function Victim(live: seq<Word>, key: Word, capacity: nat): nat {
    var i := IndexOf(live, key);
    if i < |live| then i else if 0 < |live| == capacity then |live| - 1 else |live|
  }

  /** The piece of history a key inherits: its latest one, unless the key is live. */
  function Inherited(live: seq<Word>, history: seq<Word>, key: Word): nat {
    if IndexOf(live, key) < |live| then |history| else IndexOf(history, key)
  }

  function Dropped<T>(s: seq<T>, i: nat): seq<T> {
    if i < |s| then s[..i] + s[i + 1..] else s
  }

  function Evicted<T>(live: seq<T>, history: seq<T>, v: nat): seq<T> {
    if v < |live| then [live[v]] + history else history
  }

  function Bounded<T>(s: seq<T>, capacity: nat): seq<T> {
    if |s| > capacity then s[..|s| - 1] else s
  }

  /** The history after an insertion: the victim comes in front, what was inherited is used
      up, and the oldest goes if there is too much. */
  function NextHistory<T>(live: seq<T>, history: seq<T>, v: nat, g: nat, capacity: nat): seq<T> {
    Bounded(Evicted(live, Dropped(history, g), v), capacity)
  }

  function FirstUses(history: Records, g: nat): Word {
    if g < |history| then U32(history[g].uses + 1) else 1
  }

  function Stored(m: Model, key: Word, value: int, capacity: nat): Model {
    var v := Victim(Keys(m.live), key, capacity);
    var g := Inherited(Keys(m.live), Keys(m.history), key);
    Model([Record(key, value, FirstUses(m.history, g))] + Dropped(m.live, v),
          NextHistory(m.live, m.history, v, g, capacity))
  }

  /** An insertion that finds no memory moves the victim to the front. */
  function Refused(m: Model, key: Word, capacity: nat): Model {
    var v := Victim(Keys(m.live), key, capacity);
    if v < |m.live| then m.(live := [m.live[v]] + Dropped(m.live, v)) else m
  }

  function Used(m: Model, key: Word): Model {
    var i := IndexOf(Keys(m.live), key);
    if i < |m.live| then m.(live := m.live[i := m.live[i].(uses := U32(m.live[i].uses + 1))]) else m
  }

  // ------------------------------------------------ what the lists promise

  ghost predicate UniqueKeys(items: Records) {
    forall i, j :: 0 <= i < j < |items| ==> items[i].key != items[j].key
  }

  ghost predicate Sound(m: Model, capacity: nat) {
    UniqueKeys(m.live) && |m.live| <= capacity && |m.history| <= capacity
  }

  lemma FirstIs(items: Records, i: nat)
    requires i < |items| && forall j :: 0 <= j < i ==> items[j].key != items[i].key
    ensures First(items, items[i].key) == Some(items[i])
  {}

  lemma FirstNone(items: Records, key: Word)
    requires forall j :: 0 <= j < |items| ==> items[j].key != key
    ensures First(items, key) == None
  {}

  lemma FirstPrepend(r: Record, d: Records, k: Word)
    ensures First([r] + d, k) == if k == r.key then Some(r) else First(d, k)
  {
    assert Keys([r] + d)[1..] == Keys(d);
  }

  /** Dropping a record of another key does not matter to a key. */
  lemma FirstDropped(items: Records, v: nat, k: Word)
    requires v < |items| ==> items[v].key != k
    ensures First(Dropped(items, v), k) == First(items, k)
  {
    var r := Dropped(items, v);
    if v < |items| {
      assert forall a :: 0 <= a < |r| ==> r[a] == items[if a < v then a else a + 1];
      var i := IndexOf(Keys(items), k);
      if i < |items| {
        FirstIs(r, if i < v then i else i - 1);
      } else {
        FirstNone(r, k);
      }
    }
  }

  lemma DroppedUnique(items: Records, v: nat)
    requires UniqueKeys(items)
    ensures UniqueKeys(Dropped(items, v))
    ensures v < |items| ==> First(Dropped(items, v), items[v].key) == None
  {
    var r := Dropped(items, v);
    if v < |items| {
      assert forall a :: 0 <= a < |r| ==> r[a] == items[if a < v then a else a + 1];
      FirstNone(r, items[v].key);
    }
  }

  lemma PrependUnique(r: Record, d: Records)
    requires UniqueKeys(d) && First(d, r.key) == None
    ensures UniqueKeys([r] + d)
  {}

  lemma VictimIs(live: Records, key: Word, capacity: nat)
    requires |live| <= capacity && capacity > 0
    ensures var v := Victim(Keys(live), key, capacity);
            && ((v < |live| && live[v].key == key) || First(live, key) == None)
            && |Dropped(live, v)| < capacity
  {}

  /** What an insertion means for later look-ups: the new key is found, the one pushed out
      is not, all others are unaffected; keys stay distinct and the bounds are kept. */
  lemma StoredLookup(m: Model, key: Word, value: int, capacity: nat, k: Word)
    requires Sound(m, capacity) && capacity > 0
    ensures var r := Stored(m, key, value, capacity);
            var v := Victim(Keys(m.live), key, capacity);
            && Sound(r, capacity)
            && Lookup(r.live, k) == if k == key then Some(value)
                                    else if v < |m.live| && m.live[v].key == k then None else Lookup(m.live, k)
  {
    StoredLive(m, key, value, capacity, k);
    hide IndexOf, Victim, Dropped, First, UniqueKeys, NextHistory;
    var v, g := Victim(Keys(m.live), key, capacity), Inherited(Keys(m.live), Keys(m.history), key);
    HistoryBound(m.live, m.history, v, g, capacity);
  }

  lemma HistoryBound<T>(live: seq<T>, history: seq<T>, v: nat, g: nat, capacity: nat)
    requires |history| <= capacity
    ensures |NextHistory(live, history, v, g, capacity)| <= capacity
  {}

  lemma StoredLive(m: Model, key: Word, value: int, capacity: nat, k: Word)
    requires Sound(m, capacity) && capacity > 0
    ensures var r := Stored(m, key, value, capacity);
            var v := Victim(Keys(m.live), key, capacity);
            && UniqueKeys(r.live) && |r.live| <= capacity
            && (k == key ==> First(r.live, k) == Some(r.live[0]))
            && (k != key ==> First(r.live, k) == if v < |m.live| && m.live[v].key == k then None else First(m.live, k))
  {
    hide IndexOf, Victim, Dropped, First, UniqueKeys, NextHistory, FirstUses, Inherited;
    var v := Victim(Keys(m.live), key, capacity);
    var r := Stored(m, key, value, capacity).live[0];
    VictimIs(m.live, key, capacity);
    DroppedUnique(m.live, v);
    if !(v < |m.live| && m.live[v].key == k) { FirstDropped(m.live, v, k); }
    if !(v < |m.live| && m.live[v].key == key) { FirstDropped(m.live, v, key); }
    PrependUnique(r, Dropped(m.live, v));
    FirstPrepend(r, Dropped(m.live, v), k);
  }

  /** How often a key has been used, as far as is known. */
  function Count(m: Model, k: Word): nat {
    if First(m.live, k).Some? then First(m.live, k).value.uses
    else if First(m.history, k).Some? then First(m.history, k).value.uses
    else 0
  }

  /** Is the last piece of history about to be dropped all that is known of the key? */
  predicate Forgets(m: Model, key: Word, capacity: nat, k: Word) {
    var v := Victim(Keys(m.live), key, capacity);
    var g := Inherited(Keys(m.live), Keys(m.history), key);
    var h := Evicted(m.live, Dropped(m.history, g), v);
    |h| > capacity && First(m.live, k) == None && IndexOf(Keys(h), k) == |h| - 1
  }

  lemma FirstBounded(h: Records, capacity: nat, k: Word)
    ensures First(Bounded(h, capacity), k) ==
            if |h| > capacity && IndexOf(Keys(h), k) == |h| - 1 then None else First(h, k)
  {
    var r := Bounded(h, capacity);
    var i := IndexOf(Keys(h), k);
    if i < |r| { FirstIs(r, i); } else { FirstNone(r, k); }
  }

  lemma FirstHistory(m: Model, key: Word, capacity: nat, k: Word)
    requires k != key
    ensures var v := Victim(Keys(m.live), key, capacity);
            var g := Inherited(Keys(m.live), Keys(m.history), key);
            First(Evicted(m.live, Dropped(m.history, g), v), k) ==
            if v < |m.live| && m.live[v].key == k then Some(m.live[v]) else First(m.history, k)
  {
    var v := Victim(Keys(m.live), key, capacity);
    var g := Inherited(Keys(m.live), Keys(m.history), key);
    assert g < |m.history| ==> m.history[g].key == key;
    hide IndexOf, Victim, Dropped, First, Inherited;
    FirstDropped(m.history, g, k);
    if v < |m.live| { FirstPrepend(m.live[v], Dropped(m.history, g), k); }
  }

  /** Counts survive eviction: an insertion changes no other key's count, except that of a
      key whose last piece of history is dropped. A key that comes back goes on counting. */
  lemma CountsSurvive(m: Model, key: Word, value: int, capacity: nat, k: Word)
    requires Sound(m, capacity) && capacity > 0
    ensures var r := Stored(m, key, value, capacity);
            Count(r, k) == if k != key then (if Forgets(m, key, capacity, k) then 0 else Count(m, k))
                           else if First(m.live, key).Some? || First(m.history, key).None? then 1
                           else U32(Count(m, key) + 1)
  {
    StoredLive(m, key, value, capacity, k);
    if k != key {
      hide IndexOf, Victim, Dropped, First, Inherited, UniqueKeys, Evicted, Bounded;
      var v := Victim(Keys(m.live), key, capacity);
      var g := Inherited(Keys(m.live), Keys(m.history), key);
      var h := Evicted(m.live, Dropped(m.history, g), v);
      FirstBounded(h, capacity, k);
      FirstHistory(m, key, capacity, k);
      if v < |m.live| && m.live[v].key == k {
        VictimKept(m, key, capacity, v);
      }
    }
  }

  /** A counted look-up adds one to the count of a live key and changes no other count. */
  lemma UseCounts(m: Model, key: Word, k: Word)
    ensures Count(Used(m, key), k) ==
            if k == key && First(m.live, key).Some? then U32(Count(m, key) + 1) else Count(m, k)
  {
    var i, j := IndexOf(Keys(m.live), key), IndexOf(Keys(m.live), k);
    assert Keys(Used(m, key).live) == Keys(m.live);
  }

  /** The victim is the newest piece of history, so it is not dropped at once. */
  lemma VictimKept(m: Model, key: Word, capacity: nat, v: nat)
    requires Sound(m, capacity) && capacity > 0 && v < |m.live|
    ensures First(m.live, m.live[v].key) == Some(m.live[v])
    ensures forall d: Records :: IndexOf(Keys(Evicted(m.live, d, v)), m.live[v].key) == 0
  {
    FirstIs(m.live, v);
  }

  // ------------------------------------------------ lists of entries

  class Entry {
    const key: Word
    const value: int
    var alive: bool
    var freq: Word
    ghost const born: nat

    constructor (key: Word, value: int, freq: Word, ghost born: nat)
      ensures this.key == key && this.value == value && alive && this.freq == freq && this.born == born
    {
      this.key, this.value, this.alive, this.freq, this.born := key, value, true, freq, born;
    }
  }

  ghost predicate NoDup(s: seq<Entry>) {
    forall i, j :: 0 <= i < j < |s| ==> s[i] != s[j]
  }

  function KeysOf(s: seq<Entry>): (keys: seq<Word>)
    ensures |keys| == |s| && forall i :: 0 <= i < |s| ==> keys[i] == s[i].key
  {
    seq(|s|, i requires 0 <= i < |s| => s[i].key)
  }

  ghost function RecordsOf(s: seq<Entry>): (items: Records)
    reads s`freq
    ensures |items| == |s| && forall i :: 0 <= i < |s| ==> items[i] == Record(s[i].key, s[i].value, s[i].freq)
  {
    if s == [] then [] else [Record(s[0].key, s[0].value, s[0].freq)] + RecordsOf(s[1..])
  }

  lemma RecordsPrepend(e: Entry, s: seq<Entry>)
    ensures RecordsOf([e] + s) == [Record(e.key, e.value, e.freq)] + RecordsOf(s)
  {}

  lemma RecordsDropped(s: seq<Entry>, i: nat)
    ensures RecordsOf(Dropped(s, i)) == Dropped(RecordsOf(s), i)
  {}

  lemma RecordsEvicted(live: seq<Entry>, history: seq<Entry>, v: nat)
    ensures RecordsOf(Evicted(live, history, v)) == Evicted(RecordsOf(live), RecordsOf(history), v)
  {}

  lemma RecordsBounded(s: seq<Entry>, capacity: nat)
    ensures RecordsOf(Bounded(s, capacity)) == Bounded(RecordsOf(s), capacity)
  {}

  /** The victim goes in front, so what is dropped moves one place. */
  lemma EvictedDrop(live: seq<Entry>, history: seq<Entry>, v: nat, g: nat)
    requires v < |live|
    ensures Evicted(live, Dropped(history, g), v) == Dropped(Evicted(live, history, v), g + 1)
    ensures var h := Evicted(live, history, v);
            |h| == |history| + 1 && h[0] == live[v] && h[1..] == history && (g < |history| ==> h[g + 1] == history[g])
  {
    var h := [live[v]] + history;
    if g < |history| {
      assert h[..g + 1] == [live[v]] + history[..g];
      assert h[g + 2..] == history[g + 1..];
    }
  }

  lemma EvictedNone(live: seq<Entry>, history: seq<Entry>, v: nat, g: nat)
    requires v >= |live|
    ensures Dropped(live, v) == live && Evicted(live, history, v) == history
    ensures Evicted(live, Dropped(history, g), v) == Dropped(Evicted(live, history, v), g)
  {}

  lemma ForgetFacts(s: seq<Entry>, i: nat)
    requires NoDup(s) && YoungFirst(s) && i < |s|
    ensures var r := Without(s, s[i]); r == Dropped(s, i) && NoDup(r) && YoungFirst(r) && s[i] !in r && |r| == |s| - 1
  {
    WithoutFacts(s, i);
    YoungWithout(s, i);
  }

  /** The list without one of its entries. */
  function Without(s: seq<Entry>, e: Entry): (r: seq<Entry>)
    ensures forall x :: x in r ==> x in s
    ensures forall x :: x in s && x != e ==> x in r
    ensures |r| == |s| || (|r| == |s| - 1 && e in s)
  {
    if s == [] then [] else if s[0] == e then s[1..] else [s[0]] + Without(s[1..], e)
  }

  lemma {:induction false} WithoutIs(s: seq<Entry>, i: nat)
    requires NoDup(s) && i < |s|
    ensures Without(s, s[i]) == s[..i] + s[i + 1..]
  {
    if i > 0 {
      assert s[0] != s[i] && s[1..][i - 1] == s[i];
      WithoutIs(s[1..], i - 1);
    }
  }

  lemma {:induction false} WithoutNoDup(s: seq<Entry>, e: Entry)
    requires NoDup(s) && e in s
    ensures NoDup(Without(s, e)) && e !in Without(s, e) && |Without(s, e)| == |s| - 1
  {
    var i :| 0 <= i < |s| && s[i] == e;
    WithoutIs(s, i);
  }

  lemma WithoutFacts(s: seq<Entry>, i: nat)
    requires NoDup(s) && i < |s|
    ensures var r := Without(s, s[i]); r == Dropped(s, i) && NoDup(r) && s[i] !in r && |r| == |s| - 1
  {
    WithoutIs(s, i);
    WithoutNoDup(s, s[i]);
  }

  lemma NoDupPrepend(e: Entry, s: seq<Entry>)
    requires NoDup(s) && e !in s
    ensures NoDup([e] + s)
  {}

  /** Where the remaining entries come from. */
  function Origin(i: nat, k: nat): nat { if k < i then k else k + 1 }

  lemma WithoutAt(s: seq<Entry>, i: nat)
    requires NoDup(s) && i < |s|
    ensures |Without(s, s[i])| == |s| - 1
    ensures forall k :: 0 <= k < |s| - 1 ==> Without(s, s[i])[k] == s[Origin(i, k)]
  {
    WithoutIs(s, i);
  }

  /** Of two pieces of history of a key the younger one stands first. */
  ghost predicate YoungFirst(s: seq<Entry>) {
    forall i, j :: 0 <= i < j < |s| && s[i].key == s[j].key ==> s[i].born > s[j].born
  }

  lemma YoungPrepend(e: Entry, s: seq<Entry>)
    requires YoungFirst(s) && forall x :: x in s && x.key == e.key ==> x.born < e.born
    ensures YoungFirst([e] + s)
  {}

  lemma YoungWithout(s: seq<Entry>, i: nat)
    requires NoDup(s) && YoungFirst(s) && i < |s|
    ensures YoungFirst(Without(s, s[i]))
  {
    hide Without;
    WithoutAt(s, i);
    var r := Without(s, s[i]);
    forall a, b | 0 <= a < b < |r| && r[a].key == r[b].key ensures r[a].born > r[b].born {
      assert r[a] == s[Origin(i, a)] && r[b] == s[Origin(i, b)] && Origin(i, a) < Origin(i, b);
    }
  }

  // ------------------------------------------------ the cache itself

  class BlockCache {
    const capacity: nat
    const hash: Word -> nat
    var chains: seq<seq<Entry>>
    var live: seq<Entry>
    var ghosts: seq<Entry>
    var size: nat
    var ghostSize: nat
    ghost var clock: nat
    ghost var Repr: set<Entry>

    function Bucket(key: Word): nat
      requires capacity > 0
    {
      hash(key) % capacity
    }

    /** Each entry is in exactly one of the two lists and once in its chain. */
    ghost predicate Listed()
      reads this, Repr`alive
    {
      && size == |live| && ghostSize == |ghosts| && NoDup(live) && NoDup(ghosts)
      && (forall e :: e in live ==> e in Repr && e.alive)
      && (forall e :: e in ghosts ==> e in Repr && !e.alive)
      && (forall e :: e in Repr ==> e in live || e in ghosts)
    }

    /** Chains run from young to old; only the youngest entry of a key can be alive. */
    ghost predicate ChainOk(h: nat, chain: seq<Entry>)
      requires capacity > 0
      reads this`Repr, Repr`alive
    {
      && (forall i, j :: 0 <= i < j < |chain| ==> chain[i].born > chain[j].born)
      && (forall e :: e in chain ==> e in Repr && Bucket(e.key) == h)
      && (forall i, j :: 0 <= i < j < |chain| && chain[i] in Repr && chain[j] in Repr && chain[i].key == chain[j].key
            ==> !chain[j].alive)
    }

    ghost predicate Chained()
      reads this`chains, this`Repr, Repr`alive
    {
      && capacity > 0 && |chains| == capacity
      && (forall h :: 0 <= h < capacity ==> ChainOk(h, chains[h]))
      && (forall e :: e in Repr ==> e in chains[Bucket(e.key)])
    }

    ghost predicate Aged()
      reads this`ghosts, this`Repr, this`clock
    {
      YoungFirst(ghosts) && forall e :: e in Repr ==> e.born < clock
    }

    ghost predicate Kept()
      reads this, Repr`alive
    {
      Listed() && Chained() && Aged()
    }

    ghost predicate Valid()
      reads this, Repr`alive
    {
      Kept() && size <= capacity && ghostSize <= capacity
    }

    /** The cache as two lists of records. */
    ghost function View(): Model
      reads this, live`freq, ghosts`freq
    {
      Model(RecordsOf(live), RecordsOf(ghosts))
    }

    constructor (bits: nat, hash: Word -> nat)
      requires bits < 32
      ensures Valid() && View() == Model([], []) && Repr == {} && capacity == Pow2(bits) && this.hash == hash
    {
      var n := 1;
      for k := 0 to bits
        invariant n == Pow2(k)
      {
        n := 2 * n;
      }
      capacity, this.hash := n, hash;
      chains := seq(n, _ => []);
      live, ghosts, size, ghostSize, clock, Repr := [], [], 0, 0, 0, {};
    }

    /** `e` is the youngest entry of the key, or there is none. */
    ghost predicate Found(key: Word, e: Entry?)
      requires capacity > 0 && |chains| == capacity
      reads this, Repr`alive
    {
      if e == null then forall y :: y in chains[Bucket(key)] ==> y.key != key
      else e in Repr && e.key == key
           && forall y :: y in chains[Bucket(key)] && y.key == key && y != e ==>
                y.born < e.born && (y in Repr ==> !y.alive)
    }

    /** The first entry of a key in its chain. */
    method FindFirst(key: Word) returns (e: Entry?)
      requires Chained()
      ensures Found(key, e)
    {
      var chain := chains[Bucket(key)];
      for i := 0 to |chain|
        invariant forall j :: 0 <= j < i ==> chain[j].key != key
      {
        if chain[i].key == key {
          assert chain[i] in chain;
          return chain[i];
        }
      }
      return null;
    }

    /** In the lists the entry found stands where a search by key ends. */
    lemma FoundLive(key: Word, e: Entry?)
      requires Kept() && Found(key, e)
      ensures var i := IndexOf(KeysOf(live), key);
              if e != null && e.alive then i < |live| && live[i] == e else i == |live|
    {}

    lemma FoundHistory(key: Word, e: Entry?)
      requires Kept() && Found(key, e) && (e != null ==> !e.alive)
      ensures var g := IndexOf(KeysOf(ghosts), key);
              if e != null then g < |ghosts| && ghosts[g] == e else g == |ghosts|
    {
      var g := IndexOf(KeysOf(ghosts), key);
      if e != null {
        assert e in ghosts;
        var i :| 0 <= i < |ghosts| && ghosts[i] == e;
        assert g <= i && ghosts[g] in chains[Bucket(key)];
      }
    }

    lemma LiveKeysDiffer()
      requires Kept()
      ensures UniqueKeys(RecordsOf(live))
    {}

    lemma SameKeys()
      ensures Keys(View().live) == KeysOf(live) && Keys(View().history) == KeysOf(ghosts)
    {}

    /** A use of a live entry is counted. */
    method Use(e: Entry, ghost i: nat)
      requires Valid() && i < |live| && live[i] == e
      modifies e`freq
      ensures Valid()
      ensures View() == old(View()).(live := old(View()).live[i := Record(e.key, e.value, U32(old(e.freq) + 1))])
    {
      assert e !in ghosts && forall j :: 0 <= j < |live| && j != i ==> live[j] != e;
      hide BlockCache.Listed, BlockCache.Chained, BlockCache.Aged, RecordsOf;
      ghost var before := View();
      e.freq := U32(e.freq + 1);
      assert View().live == before.live[i := Record(e.key, e.value, e.freq)];
      assert View().history == before.history;
    }

    /** What the search means for the two lists. */
    lemma FoundView(key: Word, e: Entry?)
      requires Kept() && Found(key, e)
      ensures e != null ==> e in Repr
      ensures var i, live := IndexOf(KeysOf(live), key), View().live;
              if e != null && e.alive then
                && i < |live| && this.live[i] == e && Lookup(live, key) == Some(e.value)
                && Used(View(), key) == View().(live := live[i := Record(e.key, e.value, U32(e.freq + 1))])
              else
                Lookup(live, key) == None && Used(View(), key) == View()
    {
      FoundLive(key, e);
      FoundMeans(key, e);
      SameKeys();
    }

    /** cache_get: the value of a live entry, whose use is counted if asked for. */
    method Get(key: Word, update: bool) returns (r: Option<int>)
      requires Valid()
      modifies Repr`freq
      ensures Valid() && r == Lookup(old(View()).live, key)
      ensures View() == if update then Used(old(View()), key) else old(View())
    {
      var e := FindFirst(key);
      FoundView(key, e);
      hide IndexOf, KeysOf, Used, Lookup, RecordsOf, BlockCache.Listed, BlockCache.Chained, BlockCache.Aged;
      hide BlockCache.Found;
      if e == null || !e.alive { return None; }
      r := Some(e.value);
      if update {
        Use(e, IndexOf(KeysOf(live), key));
      }
    }

    /** cache_freq: the count of a live key, else zero. */
    method Freq(key: Word) returns (n: nat)
      requires Valid()
      ensures n == if First(View().live, key).Some? then First(View().live, key).value.uses else 0
    {
      hide First, RecordsOf, BlockCache.Aged, NoDup;
      var chain := chains[Bucket(key)];
      for i := 0 to |chain|
        invariant forall j :: 0 <= j < i ==> chain[j].key != key || !chain[j].alive
      {
        if chain[i].key == key && chain[i].alive {
          LiveOne(chain[i]);
          return chain[i].freq;
        }
      }
      NotLive(key);
      return 0;
    }

    /** No entry with the same key stands before `e` in its chain. */
    ghost predicate Newest(e: Entry)
      requires capacity > 0 && |chains| == capacity
      reads this`chains
    {
      var chain := chains[Bucket(e.key)];
      forall y :: y in chain && y.key == e.key && y != e ==> y.born < e.born
    }

    /** A live entry becomes history. */
    method Retire(e: Entry, ghost v: nat)
      requires Kept() && v < |live| && live[v] == e
      modifies this`live, this`ghosts, this`size, this`ghostSize, e`alive
      ensures Kept() && live == Dropped(old(live), v) && ghosts == [e] + old(ghosts) && Newest(e) && Dead(e.key)
    {
      hide Without, Dropped, NoDup, YoungFirst, BlockCache.Chained, BlockCache.Newest, BlockCache.Dead;
      RetireFacts(e, v);
      Sleep(e);
      live, size := Without(live, e), size - 1;
      ghosts, ghostSize := [e] + ghosts, ghostSize + 1;
    }

    method Sleep(e: Entry)
      requires Kept() && e in live
      modifies e`alive
      ensures Chained() && !e.alive && Dead(e.key)
    {
      OneAlive(e);
      hide Listed, Aged;
      e.alive := false;
    }

    lemma RetireFacts(e: Entry, v: nat)
      requires Kept() && v < |live| && live[v] == e
      ensures var r := Without(live, e); r == Dropped(live, v) && NoDup(r) && e !in r && |r| == |live| - 1
      ensures NoDup([e] + ghosts) && YoungFirst([e] + ghosts) && Newest(e)
    {
      WithoutFacts(live, v);
      NoDupPrepend(e, ghosts);
      YoungPrepend(e, ghosts);
    }

    lemma FoundMeans(key: Word, e: Entry?)
      requires Chained() && Found(key, e)
      ensures e != null ==> e in Repr && e.key == key
    {}

    /** No entry of the key is alive. */
    ghost predicate Dead(key: Word)
      reads this`Repr, Repr`alive
    {
      forall x :: x in Repr && x.key == key ==> !x.alive
    }

    /** Two live entries have different keys. */
    lemma OneAlive(e: Entry)
      requires Kept() && e in live
      ensures forall x :: x in Repr && x.key == e.key && x.alive ==> x == e
    {}

    lemma LiveOne(e: Entry)
      requires Kept() && e in Repr && e.alive
      ensures First(RecordsOf(live), e.key) == Some(Record(e.key, e.value, e.freq))
    {
      OneAlive(e);
      var i :| 0 <= i < |live| && live[i] == e;
      FirstIs(RecordsOf(live), i);
    }

    lemma NotLive(key: Word)
      requires Kept() && forall x :: x in chains[Bucket(key)] ==> x.key != key || !x.alive
      ensures First(RecordsOf(live), key) == None
    {
      FirstNone(RecordsOf(live), key);
    }

    method Wake(e: Entry)
      requires Chained() && e in Repr && Newest(e) && Dead(e.key)
      modifies e`alive
      ensures Chained() && e.alive
    {
      e.alive := true;
    }

    /** The entry just retired comes back, at the head of the list. */
    method Restore(e: Entry)
      requires Kept() && ghosts != [] && ghosts[0] == e && Newest(e) && Dead(e.key)
      modifies this`live, this`ghosts, this`size, this`ghostSize, e`alive
      ensures Kept() && live == [e] + old(live) && ghosts == old(ghosts)[1..]
    {
      hide BlockCache.Chained, BlockCache.Newest;
      Wake(e);
      ghosts, ghostSize := ghosts[1..], ghostSize - 1;
      live, size := [e] + live, size + 1;
    }

    lemma WithoutChain(h: nat, chain: seq<Entry>, i: nat)
      requires capacity > 0 && ChainOk(h, chain) && i < |chain|
      ensures ChainOk(h, Without(chain, chain[i])) && NoDup(chain)
    {
      hide Without;
      WithoutAt(chain, i);
      var r := Without(chain, chain[i]);
      forall a, b | 0 <= a < b < |r|
        ensures r[a].born > r[b].born
        ensures r[a] in Repr && r[b] in Repr && r[a].key == r[b].key ==> !r[b].alive
      {
        assert r[a] == chain[Origin(i, a)] && r[b] == chain[Origin(i, b)] && Origin(i, a) < Origin(i, b);
      }
    }

    /** An entry leaves its chain. */
    method Unchain(e: Entry)
      requires Chained() && e in Repr
      modifies this`chains, this`Repr
      ensures Chained() && Repr == old(Repr) - {e}
    {
      var h := Bucket(e.key);
      var chain := chains[h];
      ghost var i :| 0 <= i < |chain| && chain[i] == e;
      WithoutChain(h, chain, i);
      WithoutNoDup(chain, e);
      chains := chains[h := Without(chain, e)];
      Repr := Repr - {e};
    }

    /** All is listed as it should be, but `e` has still to leave the history. */
    ghost predicate ListedBut(e: Entry)
      reads this, Repr`alive
    {
      && size == |live| && ghostSize == |ghosts| && NoDup(live) && NoDup(ghosts)
      && (forall x :: x in live ==> x in Repr && x.alive)
      && (forall x :: x in ghosts && x != e ==> x in Repr && !x.alive)
      && (forall x :: x in Repr ==> x != e && (x in live || x in ghosts))
    }

    method Unlist(e: Entry, ghost g: nat)
      requires ListedBut(e) && Chained() && Aged() && g < |ghosts| && ghosts[g] == e
      modifies this`ghosts, this`ghostSize
      ensures Kept() && ghosts == Dropped(old(ghosts), g)
    {
      hide Without, Dropped, NoDup, YoungFirst, BlockCache.Chained;
      ForgetFacts(ghosts, g);
      ghosts, ghostSize := Without(ghosts, e), ghostSize - 1;
    }

    /** A piece of history is forgotten: it leaves its chain and its list. */
    method Erase(e: Entry, ghost g: nat)
      requires Kept() && g < |ghosts| && ghosts[g] == e
      modifies this`chains, this`ghosts, this`ghostSize, this`Repr
      ensures Kept() && ghosts == Dropped(old(ghosts), g) && Repr == old(Repr) - {e}
    {
      hide Dropped, NoDup, YoungFirst, BlockCache.Chained;
      Unchain(e);
      Unlist(e, g);
    }

    method Chain(e: Entry)
      requires Chained() && e !in Repr && Dead(e.key) && forall x :: x in Repr ==> x.born < e.born
      modifies this`chains, this`Repr
      ensures Chained() && Repr == old(Repr) + {e}
    {
      var h := Bucket(e.key);
      chains := chains[h := [e] + chains[h]];
      Repr := Repr + {e};
    }

    /** A new entry at the head of its chain and of the list. */
    method Add(e: Entry)
      requires Kept() && e !in Repr && e.alive && e.born == clock && Dead(e.key)
      modifies this`chains, this`live, this`size, this`clock, this`Repr
      ensures Kept() && live == [e] + old(live) && Repr == old(Repr) + {e}
    {
      hide BlockCache.Chained;
      Chain(e);
      live, size := [e] + live, size + 1;
      clock := clock + 1;
    }

    /** The live entry of the key, or its latest piece of history, if it has either. */
    lemma FoundPlaces(key: Word, found: Entry?)
      requires Kept() && Found(key, found)
      ensures found != null ==> found in Repr && found.key == key
      ensures var g := Inherited(KeysOf(live), KeysOf(ghosts), key);
              if found != null && !found.alive then g < |ghosts| && ghosts[g] == found else g == |ghosts|
    {
      FoundLive(key, found);
      if found != null ==> !found.alive { FoundHistory(key, found); }
    }

    /** The entry to be replaced, the live one of the key or the oldest one of a full list, and
        the piece of history that the key inherits. */
    method Choose(key: Word) returns (replaced: Entry?, revived: Entry?, ghost v: nat, ghost g: nat)
      requires Valid()
      ensures v == Victim(KeysOf(live), key, capacity) && g == Inherited(KeysOf(live), KeysOf(ghosts), key)
      ensures if v < |live| then replaced == live[v] && replaced in Repr else replaced == null && |live| < capacity
      ensures if g < |ghosts| then revived == ghosts[g] else revived == null
      ensures Dead(key) || (replaced != null && replaced.key == key)
    {
      var found := FindFirst(key);
      FoundPlaces(key, found);
      FoundLive(key, found);
      hide IndexOf, BlockCache.Chained, BlockCache.Found, BlockCache.Aged;
      v, g := Victim(KeysOf(live), key, capacity), Inherited(KeysOf(live), KeysOf(ghosts), key);
      if found != null && found.alive { return found, null, v, g; }
      NoneAlive(key, found);
      if size == capacity { return live[|live| - 1], found, v, g; }
      return null, found, v, g;
    }

    lemma NoneAlive(key: Word, found: Entry?)
      requires Kept() && Found(key, found) && (found == null || !found.alive)
      ensures Dead(key)
    {}

    /** cache_ghost_list_update: the oldest history is dropped when there is too much. */
    method Trim()
      requires Kept() && |ghosts| <= capacity + 1
      modifies this`chains, this`ghosts, this`ghostSize, this`Repr
      ensures Kept() && ghosts == Bounded(old(ghosts), capacity) && Repr <= old(Repr)
    {
      hide BlockCache.Chained, BlockCache.Aged;
      if ghostSize > capacity {
        Erase(ghosts[|ghosts| - 1], |ghosts| - 1);
      }
    }

    /** The new entry goes in; the history it inherits is used up. */
    method Enter(key: Word, value: int, revived: Entry?, ghost g: nat)
      requires Kept() && Dead(key) && |live| < capacity && |ghosts| <= capacity + 1
      requires if revived != null then g < |ghosts| && ghosts[g] == revived else g >= |ghosts|
      modifies this
      ensures Valid() && live != [] && live == [live[0]] + old(live) && fresh(live[0]) && Repr <= old(Repr) + {live[0]}
      ensures live[0].key == key && live[0].value == value
      ensures live[0].freq == if revived == null then 1 else U32(revived.freq + 1)
      ensures ghosts == Bounded(Dropped(old(ghosts), g), capacity)
    {
      hide BlockCache.Chained, BlockCache.Aged;
      var e := new Entry(key, value, if revived == null then 1 else U32(revived.freq + 1), clock);
      if revived != null {
        Erase(revived, g);
      }
      Add(e);
      Trim();
    }

    /** The victim, if there is one, leaves the list of live entries. */
    method Displace(key: Word, replaced: Entry?, ghost v: nat)
      requires Valid() && (Dead(key) || (replaced != null && replaced.key == key))
      requires if v < |live| then replaced == live[v] else replaced == null && |live| < capacity
      modifies this`live, this`ghosts, this`size, this`ghostSize, (if replaced == null then {} else {replaced})`alive
      ensures Kept() && Dead(key) && |live| < capacity && |ghosts| <= capacity + 1
      ensures live == Dropped(old(live), v) && ghosts == Evicted(old(live), old(ghosts), v)
      ensures replaced != null ==> Newest(replaced) && Dead(replaced.key)
    {
      hide BlockCache.Chained, BlockCache.Aged;
      if replaced != null {
        Retire(replaced, v);
      }
    }

    /** The victim makes room for the new entry. */
    method Replace(key: Word, value: int, replaced: Entry?, revived: Entry?, ghost v: nat, ghost g: nat)
      requires Valid() && (Dead(key) || (replaced != null && replaced.key == key))
      requires if v < |live| then replaced == live[v] else replaced == null && |live| < capacity
      requires if g < |ghosts| then revived == ghosts[g] else revived == null
      modifies this, (if replaced == null then {} else {replaced})`alive
      ensures Valid() && fresh(Repr - old(Repr))
      ensures live != [] && fresh(live[0]) && live == [live[0]] + Dropped(old(live), v)
      ensures live[0].key == key && live[0].value == value
      ensures live[0].freq == if revived == null then 1 else U32(revived.freq + 1)
      ensures ghosts == NextHistory(old(live), old(ghosts), v, g, capacity)
    {
      hide BlockCache.Kept, BlockCache.Dead, BlockCache.Newest, Dropped, Evicted, Bounded;
      if v < |live| { EvictedDrop(live, ghosts, v, g); } else { EvictedNone(live, ghosts, v, g); }
      Displace(key, replaced, v);
      Enter(key, value, revived, if replaced == null then g else g + 1);
    }

    /** Without memory the victim comes back, in front. */
    method Refuse(key: Word, replaced: Entry?, ghost v: nat)
      requires Valid() && (Dead(key) || (replaced != null && replaced.key == key))
      requires if v < |live| then replaced == live[v] else replaced == null && |live| < capacity
      modifies this`live, this`ghosts, this`size, this`ghostSize, (if replaced == null then {} else {replaced})`alive
      ensures Valid() && ghosts == old(ghosts)
      ensures live == if replaced == null then old(live) else [replaced] + Dropped(old(live), v)
    {
      hide BlockCache.Kept, BlockCache.Dead, BlockCache.Newest, Dropped, Evicted;
      Sizes();
      if v < |live| { EvictedDrop(live, ghosts, v, 0); } else { EvictedNone(live, ghosts, v, 0); }
      Displace(key, replaced, v);
      if replaced != null { Restore(replaced); }
      Sizes();
    }

    lemma Sizes()
      requires Kept()
      ensures size == |live| && ghostSize == |ghosts|
    {}

    /** cache_put: the live list and the history change as the bounded lists do, and the value
        pushed out is returned. A key that comes back from the history inherits its count.
        Without memory for the entry nothing is lost, but the victim moves to the front. */
    method Put(key: Word, value: int, memory: bool) returns (r: Option<int>)
      requires Valid() && Lookup(View().live, key) != Some(value)
      modifies this, Repr`alive
      ensures Valid() && fresh(Repr - old(Repr))
      ensures View() == if memory then Stored(old(View()), key, value, capacity)
              else Refused(old(View()), key, capacity)
      ensures var live, v := old(View()).live, Victim(Keys(old(View()).live), key, capacity);
              r == if memory && v < |live| then Some(live[v].value) else None
    {
      hide BlockCache.Valid, BlockCache.Dead, RecordsOf, KeysOf, Keys, Dropped, Evicted, Bounded, Victim, Inherited;
      SameKeys();
      ghost var was, history := live, ghosts;
      assert allocated(was) && allocated(history);
      var replaced, revived, v, g := Choose(key);
      if memory {
        r := if replaced == null then None else Some(replaced.value);
        Replace(key, value, replaced, revived, v, g);
        RecordsDropped(was, v);
        RecordsDropped(history, g);
        RecordsEvicted(was, Dropped(history, g), v);
        RecordsBounded(Evicted(was, Dropped(history, g), v), capacity);
        RecordsPrepend(live[0], Dropped(was, v));
      } else {
        r := None;
        Refuse(key, replaced, v);
        RecordsDropped(was, v);
        if replaced != null { RecordsPrepend(replaced, Dropped(was, v)); }
      }
    }
  }

  // ------------------------------------------------ whole runs

  /** `memory` says whether an insertion gets memory, `update` whether a look-up counts. */
  datatype Op = PutOp(key: Word, value: int, memory: bool) | GetOp(key: Word, update: bool) | FreqOp(key: Word)

  function Applied(m: Model, op: Op, capacity: nat): Model {
    match op
    case PutOp(key, value, memory) => if memory then Stored(m, key, value, capacity) else Refused(m, key, capacity)
    case GetOp(key, update) => if update then Used(m, key) else m
    case FreqOp(_) => m
  }

  /** A look-up answers with the value or the count, an insertion with what it pushed out. */
  function Answer(m: Model, op: Op, capacity: nat): Option<int> {
    match op
    case PutOp(key, _, memory) =>
      var v := Victim(Keys(m.live), key, capacity);
      if memory && v < |m.live| then Some(m.live[v].value) else None
    case GetOp(key, _) => Lookup(m.live, key)
    case FreqOp(key) => Some(if First(m.live, key).Some? then First(m.live, key).value.uses else 0)
  }

  function Final(m: Model, ops: seq<Op>, capacity: nat): Model
    decreases |ops|
  {
    if ops == [] then m else Final(Applied(m, ops[0], capacity), ops[1..], capacity)
  }

  function Answers(m: Model, ops: seq<Op>, capacity: nat): seq<Option<int>>
    decreases |ops|
  {
    if ops == [] then []
    else [Answer(m, ops[0], capacity)] + Answers(Applied(m, ops[0], capacity), ops[1..], capacity)
  }

  /** No live key is inserted again with its current value. */
  predicate Permitted(m: Model, ops: seq<Op>, capacity: nat)
    decreases |ops|
  {
    ops != [] ==>
      && (ops[0].PutOp? ==> Lookup(m.live, ops[0].key) != Some(ops[0].value))
      && Permitted(Applied(m, ops[0], capacity), ops[1..], capacity)
  }

  lemma UsedSound(m: Model, key: Word, capacity: nat)
    requires Sound(m, capacity)
    ensures Sound(Used(m, key), capacity)
  {}

  lemma RefusedSound(m: Model, key: Word, capacity: nat)
    requires Sound(m, capacity)
    ensures Sound(Refused(m, key, capacity), capacity)
  {
    var v := Victim(Keys(m.live), key, capacity);
    if v < |m.live| {
      DroppedUnique(m.live, v);
      PrependUnique(m.live[v], Dropped(m.live, v));
    }
  }

  /** In every run live keys stay distinct and both lists stay within the capacity. */
  lemma {:induction false} FinalSound(m: Model, ops: seq<Op>, capacity: nat)
    requires Sound(m, capacity) && capacity > 0
    ensures Sound(Final(m, ops, capacity), capacity)
    decreases |ops|
  {
    if ops != [] {
      match ops[0] {
        case PutOp(key, value, memory) => StoredLookup(m, key, value, capacity, key); RefusedSound(m, key, capacity);
        case GetOp(key, _) => UsedSound(m, key, capacity);
        case FreqOp(_) =>
      }
      hide Sound, Stored, Refused, Used;
      FinalSound(Applied(m, ops[0], capacity), ops[1..], capacity);
    }
  }

  // ------------------------------------------------ what is still there, by insertion times

  /** Every insertion gets its memory. */
  predicate Succeeds(ops: seq<Op>) {
    forall j :: 0 <= j < |ops| && ops[j].PutOp? ==> ops[j].memory
  }

  /** The value a key was given last, if it was inserted at all. */
  function LastValue(ops: seq<Op>, key: Word): Option<int> {
    if ops == [] then None
    else
      var op := ops[|ops| - 1];
      if op.PutOp? && op.key == key then Some(op.value) else LastValue(ops[..|ops| - 1], key)
  }

  /** The other keys inserted since then. */
  function Since(ops: seq<Op>, key: Word): set<Word> {
    if ops == [] then {}
    else
      var op, before := ops[|ops| - 1], Since(ops[..|ops| - 1], key);
      if !op.PutOp? then before else if op.key == key then {} else before + {op.key}
  }

  function Minus(keys: seq<Word>, key: Word): seq<Word> { Dropped(keys, IndexOf(keys, key)) }

  /** All keys ever inserted, by their last insertion, latest first. */
  function Recent(ops: seq<Op>): seq<Word> {
    if ops == [] then []
    else
      var op, before := ops[|ops| - 1], Recent(ops[..|ops| - 1]);
      if op.PutOp? then [op.key] + Minus(before, op.key) else before
  }

  function Taken(keys: seq<Word>, n: nat): seq<Word> { if |keys| <= n then keys else keys[..n] }

  ghost predicate Distinct(keys: seq<Word>) {
    forall i, j :: 0 <= i < j < |keys| ==> keys[i] != keys[j]
  }

  lemma {:induction false} FinalSnoc(m: Model, ops: seq<Op>, op: Op, capacity: nat)
    ensures Final(m, ops + [op], capacity) == Applied(Final(m, ops, capacity), op, capacity)
    decreases |ops|
  {
    hide Applied;
    var all := ops + [op];
    if ops == [] {
      assert all[0] == op && all[1..] == [];
    } else {
      assert all[0] == ops[0] && all[1..] == ops[1..] + [op];
      FinalSnoc(Applied(m, ops[0], capacity), ops[1..], op, capacity);
    }
  }

  lemma MinusIs(keys: seq<Word>, key: Word)
    requires Distinct(keys)
    ensures Distinct(Minus(keys, key)) && key !in Minus(keys, key)
    ensures forall k :: k in Minus(keys, key) <==> k in keys && k != key
  {
    var i, r := IndexOf(keys, key), Minus(keys, key);
    if i < |keys| {
      assert forall a :: 0 <= a < |r| ==> r[a] == keys[if a < i then a else a + 1];
      forall k | k in keys && k != key ensures k in r {
        var a :| 0 <= a < |keys| && keys[a] == k;
        assert r[if a < i then a else a - 1] == k;
      }
    }
  }

  lemma TakenPrepend(k: Word, keys: seq<Word>, n: nat)
    requires n > 0
    ensures Taken([k] + keys, n) == [k] + Taken(keys, n - 1)
  {}

  lemma TakenDrop(keys: seq<Word>, i: nat, n: nat)
    requires n > 0 && i < |Taken(keys, n)|
    ensures Dropped(Taken(keys, n), i) == Taken(Dropped(keys, i), n - 1)
  {
    var d, t := Dropped(keys, i), Dropped(Taken(keys, n), i);
    assert forall a :: 0 <= a < |d| ==> d[a] == keys[if a < i then a else a + 1];
    assert forall a :: 0 <= a < |t| ==> t[a] == keys[if a < i then a else a + 1];
  }

  lemma TakenFull(keys: seq<Word>, i: nat, n: nat)
    requires 0 < n <= |keys| && n <= i
    ensures Dropped(Taken(keys, n), n - 1) == Taken(Dropped(keys, i), n - 1)
  {
    assert Dropped(Taken(keys, n), n - 1) == keys[..n - 1];
    if i < |keys| { assert Dropped(keys, i)[..n - 1] == keys[..n - 1]; }
  }

  /** The bounded list after an insertion is again the beginning of all keys by last insertion. */
  lemma TakenNext(keys: seq<Word>, key: Word, capacity: nat)
    requires Distinct(keys) && capacity > 0
    ensures var live := Taken(keys, capacity);
            [key] + Dropped(live, Victim(live, key, capacity)) == Taken([key] + Minus(keys, key), capacity)
  {
    var live, i := Taken(keys, capacity), IndexOf(keys, key);
    TakenPrepend(key, Minus(keys, key), capacity);
    if i < |live| {
      IndexIs(live, key, i);
      TakenDrop(keys, i, capacity);
    } else {
      IndexMissing(live, key);
      if capacity <= |keys| { TakenFull(keys, i, capacity); }
    }
    hide IndexOf, Distinct;
  }

  lemma IndexIs(keys: seq<Word>, key: Word, i: nat)
    requires i < |keys| && keys[i] == key && forall j :: 0 <= j < i ==> keys[j] != key
    ensures IndexOf(keys, key) == i
  {}

  lemma IndexMissing(keys: seq<Word>, key: Word)
    requires forall j :: 0 <= j < |keys| ==> keys[j] != key
    ensures IndexOf(keys, key) == |keys|
  {}

  lemma KeysStored(m: Model, key: Word, value: int, capacity: nat)
    ensures Keys(Stored(m, key, value, capacity).live)
            == [key] + Dropped(Keys(m.live), Victim(Keys(m.live), key, capacity))
  {
    hide Victim;
  }

  lemma KeysUsed(m: Model, key: Word)
    ensures Keys(Used(m, key).live) == Keys(m.live)
  {}

  const Empty := Model([], [])

  /** The live keys are those inserted last, as many as fit, in that order. */
  lemma {:induction false} LiveIsRecent(ops: seq<Op>, capacity: nat)
    requires Succeeds(ops) && capacity > 0
    ensures Distinct(Recent(ops)) && Keys(Final(Empty, ops, capacity).live) == Taken(Recent(ops), capacity)
  {
    if ops != [] {
      var before, op := ops[..|ops| - 1], ops[|ops| - 1];
      LiveIsRecent(before, capacity);
      assert ops == before + [op];
      FinalSnoc(Empty, before, op, capacity);
      var m := Final(Empty, before, capacity);
      hide Final, Stored, Used, Victim, Keys, Taken, Minus;
      match op {
        case PutOp(key, value, _) =>
          MinusIs(Recent(before), key);
          TakenNext(Recent(before), key, capacity);
          KeysStored(m, key, value, capacity);
        case GetOp(key, _) => KeysUsed(m, key);
        case FreqOp(_) =>
      }
    }
  }

  lemma IndexPrepend(k: Word, keys: seq<Word>, key: Word)
    ensures IndexOf([k] + keys, key) == if k == key then 0 else 1 + IndexOf(keys, key)
  {
    assert ([k] + keys)[1..] == keys;
  }

  /** Leaving another key out does not change which keys stand before a key. */
  lemma BeforeMinus(keys: seq<Word>, other: Word, key: Word)
    requires Distinct(keys) && other != key && key in keys
    ensures key in Minus(keys, other)
    ensures forall k :: k in Minus(keys, other)[..IndexOf(Minus(keys, other), key)]
                        <==> k in keys[..IndexOf(keys, key)] && k != other
  {
    var o, i := IndexOf(keys, other), IndexOf(keys, key);
    if o < i { DropBefore(keys, o, i); } else { DropAfter(keys, o, i); }
    var r := Minus(keys, other);
    IndexIs(r, key, if o < i then i - 1 else i);
    hide IndexOf, Dropped;
  }

  lemma DropBefore(keys: seq<Word>, o: nat, i: nat)
    requires Distinct(keys) && o < i < |keys|
    ensures var r := Dropped(keys, o);
            && |r| == |keys| - 1 && r[i - 1] == keys[i] && (forall j :: 0 <= j < i - 1 ==> r[j] != keys[i])
            && forall k :: k in r[..i - 1] <==> k in keys[..i] && k != keys[o]
  {
    var r := Dropped(keys, o);
    assert forall a :: 0 <= a < |r| ==> r[a] == keys[if a < o then a else a + 1];
    assert r[..i - 1] == keys[..o] + keys[o + 1..i];
    assert keys[..i] == keys[..o] + [keys[o]] + keys[o + 1..i];
  }

  lemma DropAfter(keys: seq<Word>, o: nat, i: nat)
    requires Distinct(keys) && i < |keys| && i < o
    ensures var r := Dropped(keys, o);
            && i < |r| && r[i] == keys[i] && r[..i] == keys[..i] && forall j :: 0 <= j < i ==> r[j] != keys[i]
  {}

  /** The keys before `key`. */
  ghost predicate Precede(keys: seq<Word>, key: Word, others: set<Word>) {
    forall k :: k in keys[..IndexOf(keys, key)] <==> k in others
  }

  lemma PrecedePrepend(other: Word, keys: seq<Word>, key: Word, others: set<Word>)
    requires other != key && Precede(keys, key, others)
    ensures Precede([other] + keys, key, others + {other})
  {
    IndexPrepend(other, keys, key);
    hide IndexOf;
    var i := IndexOf(keys, key);
    assert ([other] + keys)[..1 + i] == [other] + keys[..i];
  }

  lemma PrecedeMinus(keys: seq<Word>, other: Word, key: Word, others: set<Word>)
    requires Distinct(keys) && other != key && key in keys && Precede(keys, key, others)
    ensures Precede(Minus(keys, other), key, others - {other})
  {
    BeforeMinus(keys, other, key);
    hide IndexOf, Minus, Distinct;
  }

  lemma PrecedeNext(keys: seq<Word>, other: Word, key: Word, others: set<Word>)
    requires Distinct(keys) && other != key && key in keys && Precede(keys, key, others)
    ensures Precede([other] + Minus(keys, other), key, others + {other})
  {
    hide Precede, Minus, Distinct;
    PrecedeMinus(keys, other, key, others);
    PrecedePrepend(other, Minus(keys, other), key, others - {other});
    assert others - {other} + {other} == others + {other};
  }

  lemma PrecedeFirst(keys: seq<Word>, key: Word)
    ensures Precede([key] + keys, key, {})
  {
    IndexPrepend(key, keys, key);
  }

  /** A key stands after exactly the keys inserted since. */
  lemma {:induction false} PlaceIsSince(ops: seq<Op>, key: Word)
    ensures Distinct(Recent(ops)) && (key in Recent(ops) <==> LastValue(ops, key).Some?)
    ensures key in Recent(ops) ==> Precede(Recent(ops), key, Since(ops, key))
  {
    if ops != [] {
      var before, op := ops[..|ops| - 1], ops[|ops| - 1];
      PlaceIsSince(before, key);
      if op.PutOp? {
        var keys := Recent(before);
        MinusIs(keys, op.key);
        DistinctPrepend(op.key, Minus(keys, op.key));
        hide IndexOf, Minus, Precede, Distinct;
        if op.key == key {
          PrecedeFirst(Minus(keys, key), key);
        } else if key in keys {
          PrecedeNext(keys, op.key, key, Since(before, key));
        }
      }
    }
  }

  lemma DistinctPrepend(k: Word, keys: seq<Word>)
    requires Distinct(keys) && k !in keys
    ensures Distinct([k] + keys)
  {}

  lemma {:induction false} CountDistinct(keys: seq<Word>, all: set<Word>)
    requires Distinct(keys) && forall k :: k in keys <==> k in all
    ensures |all| == |keys|
  {
    if keys == [] {
      assert all == {};
    } else {
      var last := keys[|keys| - 1];
      assert last in all;
      CountDistinct(keys[..|keys| - 1], all - {last});
    }
  }

  /** So its place is their number. */
  lemma PlaceIs(ops: seq<Op>, key: Word)
    requires LastValue(ops, key).Some?
    ensures key in Recent(ops) && IndexOf(Recent(ops), key) == |Since(ops, key)|
  {
    PlaceIsSince(ops, key);
    CountDistinct(Recent(ops)[..IndexOf(Recent(ops), key)], Since(ops, key));
  }

  /** Live records hold the value given last. */
  ghost predicate Current(live: Records, ops: seq<Op>) {
    forall i :: 0 <= i < |live| ==> LastValue(ops, live[i].key) == Some(live[i].value)
  }

  lemma {:induction false} LiveIsCurrent(ops: seq<Op>, capacity: nat)
    requires Succeeds(ops) && capacity > 0
    ensures Current(Final(Empty, ops, capacity).live, ops)
  {
    if ops != [] {
      var before, op := ops[..|ops| - 1], ops[|ops| - 1];
      LiveIsCurrent(before, capacity);
      assert ops == before + [op];
      FinalSnoc(Empty, before, op, capacity);
      FinalSound(Empty, before, capacity);
      var m := Final(Empty, before, capacity);
      hide Final;
      match op {
        case PutOp(key, value, _) => StoredCurrent(m, key, value, capacity, before, ops);
        case GetOp(key, _) => UsedCurrent(m, key, before, ops);
        case FreqOp(_) =>
      }
    }
  }

  lemma StoredCurrent(m: Model, key: Word, value: int, capacity: nat, before: seq<Op>, ops: seq<Op>)
    requires Current(m.live, before) && Sound(m, capacity) && capacity > 0
    requires |ops| > 0 && ops[..|ops| - 1] == before && ops[|ops| - 1] == PutOp(key, value, true)
    ensures Current(Stored(m, key, value, capacity).live, ops)
  {
    var v := Victim(Keys(m.live), key, capacity);
    VictimIs(m.live, key, capacity);
    DroppedUnique(m.live, v);
    var d := Dropped(m.live, v);
    assert forall a :: 0 <= a < |d| ==> d[a] in m.live;
    forall a | 0 <= a < |d| ensures d[a].key != key && LastValue(ops, d[a].key) == Some(d[a].value) {
      assert d[a] in m.live;
      NotFirst(m.live, d, v, key, a);
    }
  }

  lemma NotFirst(live: Records, d: Records, v: nat, key: Word, a: nat)
    requires UniqueKeys(live) && d == Dropped(live, v) && a < |d|
    requires (v < |live| && live[v].key == key) || First(live, key) == None
    ensures d[a].key != key
  {}

  lemma UsedCurrent(m: Model, key: Word, before: seq<Op>, ops: seq<Op>)
    requires Current(m.live, before)
    requires |ops| > 0 && ops[..|ops| - 1] == before && ops[|ops| - 1].GetOp?
    ensures Current(Used(m, key).live, ops) && Current(m.live, ops)
  {}

  /** In a run of successful insertions and look-ups from the empty cache, a key is found exactly
      if fewer other keys than fit were inserted since its last insertion; it then has the value
      it was given last. */
  lemma FoundIffRecent(ops: seq<Op>, capacity: nat, key: Word)
    requires Succeeds(ops) && capacity > 0
    ensures Lookup(Final(Empty, ops, capacity).live, key) ==
            if |Since(ops, key)| < capacity then LastValue(ops, key) else None
  {
    LiveIsRecent(ops, capacity);
    LiveIsCurrent(ops, capacity);
    PlaceIsSince(ops, key);
    if LastValue(ops, key).Some? { PlaceIs(ops, key); }
    var live := Final(Empty, ops, capacity).live;
    hide Final, Since, Recent, LastValue;
    if LastValue(ops, key).Some? && |Since(ops, key)| < capacity {
      IndexIs(Keys(live), key, |Since(ops, key)|);
    } else {
      IndexMissing(Keys(live), key);
    }
  }

  lemma NextOp(m: Model, ops: seq<Op>, i: nat, capacity: nat)
    requires i < |ops| && Permitted(m, ops[i..], capacity)
    ensures ops[i].PutOp? ==> Lookup(m.live, ops[i].key) != Some(ops[i].value)
    ensures var next := Applied(m, ops[i], capacity);
            && Permitted(next, ops[i + 1..], capacity)
            && Final(m, ops[i..], capacity) == Final(next, ops[i + 1..], capacity)
            && Answers(m, ops[i..], capacity) == [Answer(m, ops[i], capacity)] + Answers(next, ops[i + 1..], capacity)
  {
    assert ops[i..][0] == ops[i] && ops[i..][1..] == ops[i + 1..];
  }

  method Perform(c: BlockCache, op: Op) returns (r: Option<int>)
    requires c.Valid() && (op.PutOp? ==> Lookup(c.View().live, op.key) != Some(op.value))
    modifies c, c.Repr
    ensures c.Valid() && fresh(c.Repr - old(c.Repr))
    ensures c.View() == Applied(old(c.View()), op, c.capacity) && r == Answer(old(c.View()), op, c.capacity)
  {
    hide BlockCache.Valid, BlockCache.View, Stored, Refused, Used, Victim, Lookup, First;
    match op {
      case PutOp(key, value, memory) => r := c.Put(key, value, memory);
      case GetOp(key, update) => r := c.Get(key, update);
      case FreqOp(key) => var n := c.Freq(key); r := Some(n);
    }
  }

  /** Every run of insertions and look-ups answers as the two bounded lists do. */
  method Replay(c: BlockCache, ops: seq<Op>) returns (answers: seq<Option<int>>)
    requires c.Valid() && Permitted(c.View(), ops, c.capacity)
    modifies c, c.Repr
    ensures c.Valid() && c.View() == Final(old(c.View()), ops, c.capacity)
    ensures answers == Answers(old(c.View()), ops, c.capacity)
  {
    hide BlockCache.Valid, BlockCache.View, Applied, Answer, Lookup;
    answers := [];
    assert ops[0..] == ops;
    for i := 0 to |ops|
      invariant c.Valid() && fresh(c.Repr - old(c.Repr)) && Permitted(c.View(), ops[i..], c.capacity)
      invariant Final(c.View(), ops[i..], c.capacity) == Final(old(c.View()), ops, c.capacity)
      invariant answers + Answers(c.View(), ops[i..], c.capacity) == Answers(old(c.View()), ops, c.capacity)
    {
      NextOp(c.View(), ops, i, c.capacity);
      var r := Perform(c, ops[i]);
      answers := answers + [r];
    }
  }
}
