/** The registry keys a page write locks, and any number of writers locking them at once. */
module WriterLocks {
  import opened Wrappers
  import opened TextOrders
  import opened SyncDatabase
  import opened SyncWriter
  import P = Payload

  // ----- the key order

  predicate KeyBefore(a: Key, b: Key) {
    TextBefore(a.category, b.category) || (a.category == b.category && a.sourceId < b.sourceId)
  }

  lemma KeyOrder(a: Key, b: Key)
    ensures KeyBefore(a, b) ==> a != b && !KeyBefore(b, a)
    ensures a == b || KeyBefore(a, b) || KeyBefore(b, a)
  {
    TextOrder(a.category, b.category);
  }

  lemma KeyTransitive(a: Key, b: Key, c: Key)
    requires KeyBefore(a, b) && KeyBefore(b, c)
    ensures KeyBefore(a, c)
  {
    if TextBefore(a.category, b.category) && TextBefore(b.category, c.category) {
      TextTransitive(a.category, b.category, c.category);
    }
  }

  ghost predicate StrictlySorted(keys: seq<Key>) {
    forall i, j :: 0 <= i < j < |keys| ==> KeyBefore(keys[i], keys[j])
  }

  // ----- the keys of a page

  /** An ordered set holds a key once, in its place. */
  function InsertKey(keys: seq<Key>, key: Key): (r: seq<Key>)
    ensures forall k :: k in r <==> k in keys || k == key
    decreases |keys|
  {
    if keys == [] then [key]
    else if keys[0] == key then keys
    else if KeyBefore(key, keys[0]) then [key] + keys
    else [keys[0]] + InsertKey(keys[1..], key)
  }

  lemma {:induction false} InsertKeySorted(keys: seq<Key>, key: Key)
    requires StrictlySorted(keys)
    ensures StrictlySorted(InsertKey(keys, key))
    decreases |keys|
  {
    if keys != [] && keys[0] != key {
      KeyOrder(keys[0], key);
      if KeyBefore(key, keys[0]) {
        forall i | 1 <= i < |keys| ensures KeyBefore(key, keys[i]) { KeyTransitive(key, keys[0], keys[i]); }
      } else {
        InsertKeySorted(keys[1..], key);
        var rest := InsertKey(keys[1..], key);
        forall i | 0 <= i < |rest| ensures KeyBefore(keys[0], rest[i]) {
          assert rest[i] in rest;
        }
      }
    }
  }

  predicate EntityLocks(entity: P.ParsedEntity, key: Key) {
    key == EntityKey(entity) || exists r :: r in entity.relations && key == TargetKey(r)
  }

  predicate PageLocks(entities: seq<P.ParsedEntity>, key: Key) {
    exists e :: e in entities && EntityLocks(e, key)
  }

  method InsertEntityKeys(before: seq<Key>, entity: P.ParsedEntity) returns (keys: seq<Key>)
    requires StrictlySorted(before)
    ensures StrictlySorted(keys) && forall key :: key in keys <==> key in before || EntityLocks(entity, key)
  {
    InsertKeySorted(before, EntityKey(entity));
    keys := InsertKey(before, EntityKey(entity));
    var j := 0;
    while j < |entity.relations|
      invariant 0 <= j <= |entity.relations|
      invariant StrictlySorted(keys)
      invariant forall key :: key in keys <==>
        key in before || key == EntityKey(entity) || exists r :: r in entity.relations[..j] && key == TargetKey(r)
    {
      var target := TargetKey(entity.relations[j]);
      InsertKeySorted(keys, target);
      keys := InsertKey(keys, target);
      assert entity.relations[..j + 1] == entity.relations[..j] + [entity.relations[j]];
      j := j + 1;
    }
    assert entity.relations[..j] == entity.relations;
  }

  /** The keys to lock: strictly ascending, so without duplicates, and exactly those of the
      page's entities and relation targets. */
  method CollectSyncEntityKeys(page: Page, category: string) returns (r: Result<seq<Key>, WriteError>)
    ensures r.Err? <==> exists e :: e in page.entities && e.category != category
    ensures r.Err? ==> (
      && FirstMismatch(page.entities, category).Some?
      && r.error == CategoryMismatch(FirstMismatch(page.entities, category).value))
    ensures r.Ok? ==> StrictlySorted(r.value) && forall key :: key in r.value <==> PageLocks(page.entities, key)
    ensures r.Ok? ==> forall i, j :: 0 <= i < j < |r.value| ==>
      var a, b := r.value[i], r.value[j];
      TextBefore(a.category, b.category) || (a.category == b.category && a.sourceId < b.sourceId)
  {
    var keys: seq<Key> := [];
    var i := 0;
    while i < |page.entities|
      invariant 0 <= i <= |page.entities|
      invariant FirstMismatch(page.entities, category) == FirstMismatch(page.entities[i..], category)
      invariant StrictlySorted(keys)
      invariant forall key :: key in keys <==> PageLocks(page.entities[..i], key)
    {
      var entity := page.entities[i];
      assert page.entities[i..][1..] == page.entities[i + 1..];
      if entity.category != category {
        return Err(CategoryMismatch(entity.category));
      }
      keys := InsertEntityKeys(keys, entity);
      PageLocksGrow(page.entities[..i], entity);
      assert page.entities[..i + 1] == page.entities[..i] + [entity];
      i := i + 1;
    }
    assert page.entities[..i] == page.entities;
    return Ok(keys);
  }

  lemma PageLocksGrow(entities: seq<P.ParsedEntity>, entity: P.ParsedEntity)
    ensures forall key :: PageLocks(entities + [entity], key) <==> PageLocks(entities, key) || EntityLocks(entity, key)
  {
    forall key ensures PageLocks(entities + [entity], key) <==> PageLocks(entities, key) || EntityLocks(entity, key) {
      assert entity in entities + [entity];
      forall e | e in entities ensures e in entities + [entity] {}
    }
  }

  // ----- writers and the lock table

  /** A writer takes its keys in order; `taken` of them are locked. */
  datatype Writer = Writer(keys: seq<Key>, taken: nat, done: bool)

  /** The advisory locks are on hashes of keys: `locks` maps a hash to the writer holding it. */
  datatype System = System(writers: seq<Writer>, locks: map<int, nat>)

  type Hash = Key -> int

  predicate Unfinished(s: System, i: nat) {
    i < |s.writers| && !s.writers[i].done
  }

  predicate Wanting(s: System, i: nat) {
    Unfinished(s, i) && s.writers[i].taken < |s.writers[i].keys|
  }

  function Wanted(s: System, i: nat): Key
    requires Wanting(s, i)
  {
    s.writers[i].keys[s.writers[i].taken]
  }

  /** A session already holding a lock gets it again. */
  predicate CanAcquire(hash: Hash, s: System, i: nat) {
    Wanting(s, i) && (hash(Wanted(s, i)) in s.locks ==> s.locks[hash(Wanted(s, i))] == i)
  }

  function Acquire(hash: Hash, s: System, i: nat): System
    requires CanAcquire(hash, s, i)
  {
    s.(writers := s.writers[i := s.writers[i].(taken := s.writers[i].taken + 1)],
       locks := s.locks[hash(Wanted(s, i)) := i])
  }

  /** With every key locked the page is written and committed. */
  predicate CanCommit(s: System, i: nat) {
    Unfinished(s, i) && s.writers[i].taken == |s.writers[i].keys|
  }

  function HeldBy(s: System, i: nat): set<int> {
    set h | h in s.locks && s.locks[h] == i
  }

  /** The end of a transaction, committed or rolled back, releases its locks. */
  function Release(s: System, i: nat): System
    requires Unfinished(s, i)
  {
    s.(writers := s.writers[i := s.writers[i].(done := true)], locks := s.locks - HeldBy(s, i))
  }

  /** One step of one writer: take the next lock, commit, or fail at any point. */
  ghost predicate Step(hash: Hash, s: System, t: System) {
    exists i: nat :: StepBy(hash, s, t, i)
  }

  ghost predicate StepBy(hash: Hash, s: System, t: System, i: nat) {
    Unfinished(s, i) && (t == Release(s, i) || (CanAcquire(hash, s, i) && t == Acquire(hash, s, i)))
  }

  /** Some writer can go on without failing. */
  ghost predicate CanGoOn(hash: Hash, s: System) {
    exists i: nat :: CanAcquire(hash, s, i) || CanCommit(s, i)
  }

  ghost predicate AllDone(s: System) {
    forall i: nat :: !Unfinished(s, i)
  }

  ghost predicate Init(s: System) {
    && s.locks == map[]
    && forall i | 0 <= i < |s.writers| ::
         StrictlySorted(s.writers[i].keys) && s.writers[i].taken == 0 && !s.writers[i].done
  }

  ghost predicate IsRun(hash: Hash, run: seq<System>) {
    && |run| > 0 && Init(run[0])
    && forall k | 0 <= k < |run| - 1 :: Step(hash, run[k], run[k + 1])
  }

  // ----- what every step keeps

  predicate Took(hash: Hash, s: System, i: nat, h: int) {
    && Unfinished(s, i)
    && exists j :: 0 <= j < s.writers[i].taken <= |s.writers[i].keys| && hash(s.writers[i].keys[j]) == h
  }

  ghost predicate Consistent(hash: Hash, s: System) {
    && (forall i | 0 <= i < |s.writers| ::
          StrictlySorted(s.writers[i].keys) && s.writers[i].taken <= |s.writers[i].keys|)
    && (forall h :: h in s.locks ==> Took(hash, s, s.locks[h], h))
    && (forall i: nat, h :: Took(hash, s, i, h) ==> h in s.locks && s.locks[h] == i)
  }

  lemma ReleaseKeepsConsistent(hash: Hash, s: System, i: nat)
    requires Consistent(hash, s) && Unfinished(s, i)
    ensures Consistent(hash, Release(s, i))
  {
    var t := Release(s, i);
    forall h | h in t.locks ensures Took(hash, t, t.locks[h], h) {
      assert Took(hash, s, s.locks[h], h);
      assert s.writers[s.locks[h]] == t.writers[s.locks[h]];
    }
    forall k: nat, h | Took(hash, t, k, h) ensures h in t.locks && t.locks[h] == k {
      assert Took(hash, s, k, h);
    }
  }

  lemma AcquireTakes(hash: Hash, s: System, i: nat, k: nat, h: int)
    requires Consistent(hash, s) && CanAcquire(hash, s, i)
    ensures Took(hash, Acquire(hash, s, i), k, h) <==> Took(hash, s, k, h) || (k == i && h == hash(Wanted(s, i)))
  {
    var t := Acquire(hash, s, i);
    if k == i {
      var n := s.writers[i].taken;
      if Took(hash, s, k, h) {
        var j :| 0 <= j < n && hash(s.writers[i].keys[j]) == h;
        assert 0 <= j < t.writers[i].taken && hash(t.writers[i].keys[j]) == h;
      }
      assert hash(t.writers[i].keys[n]) == hash(Wanted(s, i));
    }
  }

  lemma AcquireKeepsConsistent(hash: Hash, s: System, i: nat)
    requires Consistent(hash, s) && CanAcquire(hash, s, i)
    ensures Consistent(hash, Acquire(hash, s, i))
  {
    var t := Acquire(hash, s, i);
    forall h | h in t.locks ensures Took(hash, t, t.locks[h], h) {
      AcquireTakes(hash, s, i, t.locks[h], h);
    }
    forall k: nat, h | Took(hash, t, k, h) ensures h in t.locks && t.locks[h] == k {
      AcquireTakes(hash, s, i, k, h);
    }
  }

  lemma {:induction false} RunsAreConsistent(hash: Hash, run: seq<System>, k: nat)
    requires IsRun(hash, run) && k < |run|
    ensures Consistent(hash, run[k])
  {
    if k > 0 {
      RunsAreConsistent(hash, run, k - 1);
      var s, t := run[k - 1], run[k];
      assert Step(hash, run[k - 1], run[k - 1 + 1]);
      var i: nat :| StepBy(hash, s, t, i);
      if t == Release(s, i) {
        ReleaseKeepsConsistent(hash, s, i);
      } else {
        AcquireKeepsConsistent(hash, s, i);
      }
    }
  }

  /** In every reachable state no two transactions have the same key locked. */
  lemma LocksAreExclusive(hash: Hash, run: seq<System>, i: nat, j: nat, a: nat, b: nat)
    requires IsRun(hash, run)
    requires var s := run[|run| - 1];
      && Unfinished(s, i) && Unfinished(s, j) && i != j
      && a < s.writers[i].taken <= |s.writers[i].keys| && b < s.writers[j].taken <= |s.writers[j].keys|
    ensures run[|run| - 1].writers[i].keys[a] != run[|run| - 1].writers[j].keys[b]
  {
    var s := run[|run| - 1];
    RunsAreConsistent(hash, run, |run| - 1);
    assert Took(hash, s, i, hash(s.writers[i].keys[a]));
    assert Took(hash, s, j, hash(s.writers[j].keys[b]));
  }

  // ----- progress

  /** Two hash values that ascending keys take in both orders. */
  ghost predicate Crossed(hash: Hash, a: Key, b: Key, c: Key, d: Key) {
    KeyBefore(a, b) && KeyBefore(c, d) && hash(a) == hash(d) && hash(b) == hash(c) && hash(a) != hash(b)
  }

  ghost predicate Untangled(hash: Hash, keys: iset<Key>) {
    forall a, b, c, d :: a in keys && b in keys && c in keys && d in keys ==> !Crossed(hash, a, b, c, d)
  }

  ghost predicate KeysFrom(s: System, keys: iset<Key>) {
    forall i, k :: 0 <= i < |s.writers| && k in s.writers[i].keys ==> k in keys
  }

  /** The writer wanting the last key, among the first n. */
  lemma {:induction false} LastWanted(s: System, n: nat) returns (last: nat)
    requires exists i: nat :: i < n && Wanting(s, i)
    ensures last < n && Wanting(s, last)
    ensures forall i: nat :: i < n && Wanting(s, i) && i != last ==> !KeyBefore(Wanted(s, last), Wanted(s, i))
  {
    if exists i: nat :: i < n - 1 && Wanting(s, i) {
      last := LastWanted(s, n - 1);
      if Wanting(s, n - 1) {
        KeyOrder(Wanted(s, last), Wanted(s, n - 1));
        if KeyBefore(Wanted(s, last), Wanted(s, n - 1)) {
          var earlier := last;
          last := n - 1;
          KeyOrder(Wanted(s, earlier), Wanted(s, last));
          forall i: nat | i < n && Wanting(s, i) && i != last ensures !KeyBefore(Wanted(s, last), Wanted(s, i)) {
            if KeyBefore(Wanted(s, last), Wanted(s, i)) {
              KeyTransitive(Wanted(s, earlier), Wanted(s, last), Wanted(s, i));
            }
          }
        }
      }
    } else {
      last := n - 1;
    }
  }

  /** A blocked writer wants an earlier key than the writer it waits for. */
  lemma BlockedWantsEarlier(hash: Hash, s: System, i: nat, keys: iset<Key>) returns (j: nat)
    requires Consistent(hash, s) && KeysFrom(s, keys) && Untangled(hash, keys)
    requires Wanting(s, i) && !CanAcquire(hash, s, i)
    requires !CanGoOn(hash, s)
    ensures Wanting(s, j) && KeyBefore(Wanted(s, i), Wanted(s, j))
  {
    var want := Wanted(s, i);
    j := s.locks[hash(want)];
    assert Took(hash, s, j, hash(want));
    var t :| 0 <= t < s.writers[j].taken && hash(s.writers[j].keys[t]) == hash(want);
    assert !CanCommit(s, j) && !CanAcquire(hash, s, j);
    var held, next := s.writers[j].keys[t], Wanted(s, j);
    assert hash(next) != hash(want);
    assert KeyBefore(held, next);
    KeyOrder(want, next);
    assert held in s.writers[j].keys && next in s.writers[j].keys && want in s.writers[i].keys;
    assert !Crossed(hash, held, next, next, want);
  }

  lemma ConsistentGoesOn(hash: Hash, s: System, keys: iset<Key>)
    requires Consistent(hash, s) && KeysFrom(s, keys) && Untangled(hash, keys)
    requires !AllDone(s)
    ensures CanGoOn(hash, s)
  {
    if !CanGoOn(hash, s) {
      var i: nat :| Unfinished(s, i);
      assert !CanCommit(s, i) && s.writers[i] in s.writers;
      assert Wanting(s, i);
      var last := LastWanted(s, |s.writers|);
      var j := BlockedWantsEarlier(hash, s, last, keys);
      KeyOrder(Wanted(s, last), Wanted(s, j));
      assert false;
    }
  }

  lemma {:induction false} RunsKeepKeys(hash: Hash, run: seq<System>, k: nat, keys: iset<Key>)
    requires IsRun(hash, run) && k < |run| && KeysFrom(run[0], keys)
    ensures KeysFrom(run[k], keys)
  {
    if k > 0 {
      RunsKeepKeys(hash, run, k - 1, keys);
      assert Step(hash, run[k - 1], run[k - 1 + 1]);
      var i: nat :| StepBy(hash, run[k - 1], run[k], i);
      assert forall w :: 0 <= w < |run[k].writers| ==> run[k].writers[w].keys == run[k - 1].writers[w].keys;
    }
  }

  /** No number of writers with keys from the set, in any order of steps, ever gets stuck. */
  ghost predicate DeadlockFree(hash: Hash, keys: iset<Key>) {
    forall run :: IsRun(hash, run) && KeysFrom(run[0], keys) && !AllDone(run[|run| - 1]) ==>
      CanGoOn(hash, run[|run| - 1])
  }

  /** Two writers whose keys hash alike in opposite orders do get stuck. */
  lemma TangledDeadlocks(hash: Hash, keys: iset<Key>, a: Key, b: Key, c: Key, d: Key)
    requires a in keys && b in keys && c in keys && d in keys && Crossed(hash, a, b, c, d)
    ensures !DeadlockFree(hash, keys)
  {
    var s0 := System([Writer([a, b], 0, false), Writer([c, d], 0, false)], map[]);
    var s1 := System([Writer([a, b], 1, false), Writer([c, d], 0, false)], map[hash(a) := 0]);
    var s2 := Embraced(hash, a, b, c, d);
    assert StepBy(hash, s0, s1, 0) by { assert s1 == Acquire(hash, s0, 0); }
    assert StepBy(hash, s1, s2, 1) by { assert s2 == Acquire(hash, s1, 1); }
    var run := [s0, s1, s2];
    assert IsRun(hash, run) && KeysFrom(run[0], keys);
    EmbracedIsStuck(hash, a, b, c, d);
    assert run[|run| - 1] == s2;
  }

  /** Each writer holds its first key and wants the other's hash. */
  ghost function Embraced(hash: Hash, a: Key, b: Key, c: Key, d: Key): System {
    System([Writer([a, b], 1, false), Writer([c, d], 1, false)], map[hash(a) := 0, hash(c) := 1])
  }

  lemma EmbracedIsStuck(hash: Hash, a: Key, b: Key, c: Key, d: Key)
    requires Crossed(hash, a, b, c, d)
    ensures !CanGoOn(hash, Embraced(hash, a, b, c, d)) && !AllDone(Embraced(hash, a, b, c, d))
  {
    assert Unfinished(Embraced(hash, a, b, c, d), 0);
  }

  /** Writers never deadlock if and only if the hash does not tangle the keys they lock. */
  lemma DeadlockFreeIffUntangled(hash: Hash, keys: iset<Key>)
    ensures DeadlockFree(hash, keys) <==> Untangled(hash, keys)
  {
    if Untangled(hash, keys) {
      forall run | IsRun(hash, run) && KeysFrom(run[0], keys) && !AllDone(run[|run| - 1])
        ensures CanGoOn(hash, run[|run| - 1])
      {
        RunsAreConsistent(hash, run, |run| - 1);
        RunsKeepKeys(hash, run, |run| - 1, keys);
        ConsistentGoesOn(hash, run[|run| - 1], keys);
      }
    } else {
      var a, b, c, d :| a in keys && b in keys && c in keys && d in keys && Crossed(hash, a, b, c, d);
      TangledDeadlocks(hash, keys, a, b, c, d);
    }
  }

  /** In particular, a hash without collisions on the keys involved. */
  lemma InjectiveIsUntangled(hash: Hash, keys: iset<Key>)
    requires forall a, b :: a in keys && b in keys && hash(a) == hash(b) ==> a == b
    ensures Untangled(hash, keys)
  {
    forall a, b, c, d | a in keys && b in keys && c in keys && d in keys ensures !Crossed(hash, a, b, c, d) {
      KeyOrder(a, b);
    }
  }

  // ----- every run ends

  function Work(writers: seq<Writer>): nat {
    if writers == [] then 0 else
    var last := writers[|writers| - 1];
    Work(writers[..|writers| - 1])
    + (if last.done then 0 else 1 + (if last.taken < |last.keys| then |last.keys| - last.taken else 0))
  }

  lemma {:induction false} WorkShrinks(writers: seq<Writer>, i: nat, w: Writer)
    requires i < |writers| && !writers[i].done
    requires w == writers[i].(done := true)
      || (writers[i].taken < |writers[i].keys| && w == writers[i].(taken := writers[i].taken + 1))
    ensures Work(writers[i := w]) < Work(writers)
    decreases |writers|
  {
    var n := |writers| - 1;
    if i == n {
      assert writers[i := w][..n] == writers[..n];
    } else {
      WorkShrinks(writers[..n], i, w);
      assert writers[i := w][..n] == writers[..n][i := w];
    }
  }

  /** A run has no more steps than there are keys and writers. */
  lemma {:induction false} RunsEnd(hash: Hash, run: seq<System>)
    requires IsRun(hash, run)
    ensures |run| - 1 + Work(run[|run| - 1].writers) <= Work(run[0].writers)
    decreases |run|
  {
    var n := |run| - 1;
    if n > 0 {
      var front := run[..n];
      assert IsRun(hash, front) by {
        forall k | 0 <= k < |front| - 1 ensures Step(hash, front[k], front[k + 1]) {
          assert Step(hash, run[k], run[k + 1]);
        }
      }
      RunsEnd(hash, front);
      assert Step(hash, run[n - 1], run[n - 1 + 1]);
      var i: nat :| StepBy(hash, run[n - 1], run[n], i);
      WorkShrinks(run[n - 1].writers, i, run[n].writers[i]);
    }
  }
}
