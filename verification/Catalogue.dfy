/**
 * The index of a loaded message catalogue: the hash table probed by _nl_find_msg, the binary search it uses
 * when there is no table, and the table the loader rebuilds to add system-dependent strings.
 */
module Catalogue {
  import opened Options
  import opened HashPjw
  import opened Probing

  /** A stored string as C sees it: the characters up to the first NUL. */
  function Key(raw: string): (k: string)
    ensures |k| <= |raw| && k == raw[..|k|] && '\0' !in k
    ensures |k| < |raw| ==> raw[|k|] == '\0'
  {
    if raw == "" || raw[0] == '\0' then "" else [raw[0]] + Key(raw[1..])
  }

  /**
   * The strings of a catalogue: orig holds the sorted messages of the file, sysdep the system-dependent ones the
   * loader added, whose stored length counts the NUL at their end.
   */
  datatype Domain = Domain(orig: seq<string>, sysdep: seq<string>)

  function Entries(d: Domain): nat {
    |d.orig| + |d.sysdep|
  }

  function KeyOf(d: Domain, e: nat): string
    requires e < Entries(d)
  {
    if e < |d.orig| then Key(d.orig[e]) else Key(d.sysdep[e - |d.orig|])
  }

  /** The test of the probe loop: a length that could match, and equal C strings. */
  predicate Hit(d: Domain, e: nat, msgid: string)
    requires e < Entries(d)
  {
    if e < |d.orig| then |d.orig[e]| >= |msgid| && Key(d.orig[e]) == msgid
    else |d.sysdep[e - |d.orig|]| > |msgid| && Key(d.sysdep[e - |d.orig|]) == msgid
  }

  predicate Stored(d: Domain) {
    forall i :: 0 <= i < |d.sysdep| ==> d.sysdep[i] != "" && d.sysdep[i][|d.sysdep[i]| - 1] == '\0'
  }

  /** The length test never rejects an entry whose string is the wanted one. */
  lemma HitIsKey(d: Domain, e: nat, msgid: string)
    requires Stored(d) && e < Entries(d)
    ensures Hit(d, e, msgid) <==> KeyOf(d, e) == msgid
  {
  }

  /** The table refers to entries by number, counting from 1; 0 marks an empty slot. */
  predicate ValidTable(d: Domain, table: seq<nat>) {
    |table| > 2 && forall s :: 0 <= s < |table| ==> table[s] <= Entries(d)
  }

  /** After k steps of the walk the slot holds entry e, and no slot before it is empty. */
  predicate ReachedAt(table: seq<nat>, w: Walk, e: nat, k: nat)
    requires Proper(w) && w.size == |table|
  {
    && k < w.size && table[Slot(w, k)] == e + 1
    && forall j :: 0 <= j < k ==> table[Slot(w, j)] != 0
  }

  ghost predicate Reachable(table: seq<nat>, w: Walk, e: nat)
    requires Proper(w) && w.size == |table|
  {
    exists k: nat :: ReachedAt(table, w, e, k)
  }

  /** Every entry is found from its own hash value. */
  ghost predicate Complete(d: Domain, table: seq<nat>)
    requires |table| > 2
  {
    forall e :: 0 <= e < Entries(d) ==> Reachable(table, WalkOf(Hash(KeyOf(d, e)), |table|), e)
  }

  predicate Distinct(d: Domain) {
    forall e, f :: 0 <= e < f < Entries(d) ==> KeyOf(d, e) != KeyOf(d, f)
  }

  /** The probe loop stops at step k: at an empty slot or at the wanted message. */
  predicate StopsAt(d: Domain, table: seq<nat>, w: Walk, msgid: string, k: nat)
    requires ValidTable(d, table) && Proper(w) && w.size == |table|
  {
    table[Slot(w, k)] == 0 || Hit(d, table[Slot(w, k)] - 1, msgid)
  }

  /** An empty slot anywhere stops every probe, within as many steps as there are slots. */
  lemma EmptySlotStops(d: Domain, table: seq<nat>, w: Walk, msgid: string, s: nat) returns (k: nat)
    requires ValidTable(d, table) && Proper(w) && w.size == |table| && Prime(|table|)
    requires s < |table| && table[s] == 0
    ensures k < |table| && StopsAt(d, table, w, msgid, k)
  {
    k := ProbeVisitsEverySlot(w, s);
  }

  /** A probe that has not stopped after as many steps as there are slots never stops. */
  lemma ProbeThatNeverStops(d: Domain, table: seq<nat>, w: Walk, msgid: string, k: nat)
    requires ValidTable(d, table) && Proper(w) && w.size == |table| && Prime(|table|)
    requires forall j :: 0 <= j < |table| ==> !StopsAt(d, table, w, msgid, j)
    ensures !StopsAt(d, table, w, msgid, k)
  {
    var j := ProbeVisitsEverySlot(w, Slot(w, k));
    assert !StopsAt(d, table, w, msgid, j);
  }

  /** The hash value of a message in 32 bits. */
  method HashValue(msgid: string) returns (hashVal: nat)
    ensures hashVal == Hash(msgid)
  {
    var hash := HashString(msgid);
    hashVal := Truncate(hash);
  }

  /**
   * The probe loop of _nl_find_msg.  It ends if it comes to an empty slot or to the message within the first
   * round; it finds an entry with the wanted string that is reachable, or there is none.
   */
  method FindByHash(d: Domain, table: seq<nat>, msgid: string, hashVal: nat, ghost stop: nat)
      returns (act: Option<nat>)
    requires Stored(d) && ValidTable(d, table) && stop < |table|
    requires StopsAt(d, table, WalkOf(hashVal, |table|), msgid, stop)
    ensures act.Some? ==>
      && act.value < Entries(d) && KeyOf(d, act.value) == msgid
      && Reachable(table, WalkOf(hashVal, |table|), act.value)
    ensures act == None ==> forall e :: 0 <= e < Entries(d) && KeyOf(d, e) == msgid ==>
      !Reachable(table, WalkOf(hashVal, |table|), e)
  {
    ghost var w := WalkOf(hashVal, |table|);
    var idx := hashVal % |table|;
    var incr := 1 + hashVal % (|table| - 2);
    ghost var k: nat := 0;
    while true
      invariant k <= stop && idx == Slot(w, k)
      invariant forall j :: 0 <= j < k ==> !StopsAt(d, table, w, msgid, j)
      invariant forall j :: 0 <= j < k ==> table[Slot(w, j)] != 0
      decreases stop - k
    {
      var nstr := table[idx];
      if nstr == 0 {
        NotBeyondEmpty(d, table, w, msgid, k);
        return None;
      }
      nstr := nstr - 1;
      HitIsKey(d, nstr, msgid);
      if Hit(d, nstr, msgid) {
        assert ReachedAt(table, w, nstr, k);
        return Some(nstr);
      }
      assert !StopsAt(d, table, w, msgid, k);
      if idx >= |table| - incr {
        idx := idx - (|table| - incr);
      } else {
        idx := idx + incr;
      }
      k := k + 1;
    }
  }

  /** Where the probe met an empty slot first, no entry with the wanted string is reachable. */
  lemma NotBeyondEmpty(d: Domain, table: seq<nat>, w: Walk, msgid: string, k: nat)
    requires Stored(d) && ValidTable(d, table) && Proper(w) && w.size == |table| && table[Slot(w, k)] == 0
    requires forall j :: 0 <= j < k ==> !StopsAt(d, table, w, msgid, j)
    ensures forall e :: 0 <= e < Entries(d) && KeyOf(d, e) == msgid ==> !Reachable(table, w, e)
  {
    forall e | 0 <= e < Entries(d) && KeyOf(d, e) == msgid
      ensures !Reachable(table, w, e)
    {
      HitIsKey(d, e, msgid);
      forall i: nat
        ensures !ReachedAt(table, w, e, i)
      {
        if i < k {
          assert !StopsAt(d, table, w, msgid, i);
        }
      }
    }
  }

  /** The entry with a wanted string, if there is one. */
  ghost predicate Locates(d: Domain, msgid: string, act: Option<nat>) {
    match act
    case Some(e) => e < Entries(d) && KeyOf(d, e) == msgid
    case None => forall e :: 0 <= e < Entries(d) ==> KeyOf(d, e) != msgid
  }

  /** Among distinct strings a lookup has one answer. */
  lemma LocatesOnce(d: Domain, msgid: string, a: Option<nat>, b: Option<nat>)
    requires Distinct(d) && Locates(d, msgid, a) && Locates(d, msgid, b)
    ensures a == b
  {
  }

  /** strcmp, on the characters as unsigned bytes. */
  function Strcmp(a: string, b: string): int {
    if a == "" then if b == "" then 0 else -1
    else if b == "" then 1
    else if a[0] != b[0] then a[0] as int - b[0] as int
    else Strcmp(a[1..], b[1..])
  }

  lemma {:induction false} StrcmpOrders(a: string, b: string)
    ensures Strcmp(a, b) == 0 <==> a == b
    ensures Strcmp(a, b) < 0 <==> Strcmp(b, a) > 0
    decreases |a|
  {
    if a != "" && b != "" && a[0] == b[0] {
      StrcmpOrders(a[1..], b[1..]);
      assert a == [a[0]] + a[1..] && b == [b[0]] + b[1..];
    }
  }

  /** The first character that differs decides, and the end of a string comes before any character. */
  lemma {:induction false} StrcmpDecides(p: string, x: char, y: char, a: string, b: string)
    requires x != y
    ensures Strcmp(p + [x] + a, p + [y] + b) < 0 <==> x < y
    ensures Strcmp(p, p + [x] + a) < 0
  {
    var s, t := p + [x] + a, p + [y] + b;
    if p == "" {
      assert s[0] == x && t[0] == y;
    } else {
      assert s[1..] == p[1..] + [x] + a && t[1..] == p[1..] + [y] + b && s[0] == t[0] == p[0];
      StrcmpDecides(p[1..], x, y, a, b);
    }
  }

  lemma {:induction false} StrcmpTransitive(a: string, b: string, c: string)
    requires Strcmp(a, b) < 0 && Strcmp(b, c) < 0
    ensures Strcmp(a, c) < 0
    decreases |a|
  {
    if a != "" && b != "" && c != "" && a[0] == b[0] == c[0] {
      StrcmpTransitive(a[1..], b[1..], c[1..]);
    }
  }

  /** The messages of the file come in the order of strcmp, without repetition. */
  predicate Sorted(d: Domain) {
    forall e, f :: 0 <= e < f < |d.orig| ==> Strcmp(Key(d.orig[e]), Key(d.orig[f])) < 0
  }

  lemma Below(d: Domain, msgid: string, act: nat)
    requires Sorted(d) && act < |d.orig|
    ensures Strcmp(msgid, Key(d.orig[act])) < 0 ==>
      forall e :: act <= e < |d.orig| ==> msgid != Key(d.orig[e])
    ensures Strcmp(msgid, Key(d.orig[act])) > 0 ==>
      forall e :: 0 <= e <= act ==> msgid != Key(d.orig[e])
  {
    var m := Key(d.orig[act]);
    StrcmpOrders(msgid, m);
    forall e | 0 <= e < |d.orig|
      ensures act <= e && Strcmp(msgid, m) < 0 ==> msgid != Key(d.orig[e])
      ensures e <= act && Strcmp(msgid, m) > 0 ==> msgid != Key(d.orig[e])
    {
      var x := Key(d.orig[e]);
      StrcmpOrders(msgid, x);
      StrcmpOrders(m, x);
      if act < e && Strcmp(msgid, m) < 0 {
        StrcmpTransitive(msgid, m, x);
      } else if e < act && Strcmp(msgid, m) > 0 {
        StrcmpOrders(m, msgid);
        StrcmpTransitive(x, m, msgid);
        StrcmpOrders(x, msgid);
      }
    }
  }

  /** The binary search of _nl_find_msg, used for files without a hash table. */
  method FindBySearch(d: Domain, msgid: string) returns (act: Option<nat>)
    requires Sorted(d) && d.sysdep == []
    ensures Locates(d, msgid, act)
  {
    var bottom, top := 0, |d.orig|;
    while bottom < top
      invariant bottom <= top <= |d.orig|
      invariant forall e :: 0 <= e < bottom || top <= e < |d.orig| ==> msgid != Key(d.orig[e])
    {
      var mid := (bottom + top) / 2;
      var cmpVal := Strcmp(msgid, Key(d.orig[mid]));
      Below(d, msgid, mid);
      StrcmpOrders(msgid, Key(d.orig[mid]));
      if cmpVal < 0 {
        top := mid;
      } else if cmpVal > 0 {
        bottom := mid + 1;
      } else {
        return Some(mid);
      }
    }
    return None;
  }

  lemma SortedIsDistinct(d: Domain)
    requires Sorted(d) && d.sysdep == []
    ensures Distinct(d)
  {
    forall e, f | 0 <= e < f < Entries(d)
      ensures KeyOf(d, e) != KeyOf(d, f)
    {
      StrcmpOrders(Key(d.orig[e]), Key(d.orig[f]));
    }
  }

  /** On a complete table a hash lookup says where the message is, or that there is none. */
  lemma HashLocates(d: Domain, table: seq<nat>, msgid: string, hashVal: nat, act: Option<nat>)
    requires Stored(d) && ValidTable(d, table) && Complete(d, table) && hashVal == Hash(msgid)
    requires act.Some? ==> act.value < Entries(d) && KeyOf(d, act.value) == msgid
    requires act == None ==> forall e :: 0 <= e < Entries(d) && KeyOf(d, e) == msgid ==>
      !Reachable(table, WalkOf(hashVal, |table|), e)
    ensures Locates(d, msgid, act)
  {
  }

  /** A table the lookups can rely on: of prime size, complete, and not full. */
  ghost predicate Sound(d: Domain, table: seq<nat>) {
    && Stored(d) && ValidTable(d, table) && Prime(|table|) && Complete(d, table)
    && exists s :: 0 <= s < |table| && table[s] == 0
  }

  /**
   * The search of _nl_find_msg: by the hash table if there is one, else by binary search.  Either way it says
   * where the message is, or that there is none.
   */
  method FindMsg(d: Domain, hashTab: Option<seq<nat>>, msgid: string) returns (act: Option<nat>)
    requires hashTab.Some? ==> Sound(d, hashTab.value)
    requires hashTab == None ==> Sorted(d) && d.sysdep == []
    ensures Locates(d, msgid, act)
  {
    if hashTab.Some? {
      var table := hashTab.value;
      var hashVal := HashValue(msgid);
      ghost var s: nat :| s < |table| && table[s] == 0;
      ghost var stop := EmptySlotStops(d, table, WalkOf(hashVal, |table|), msgid, s);
      act := FindByHash(d, table, msgid, hashVal, stop);
      HashLocates(d, table, msgid, hashVal, act);
    } else {
      act := FindBySearch(d, msgid);
    }
  }

  /** So for a sorted catalogue a sound table and no table give the same answer to every request. */
  lemma TableMakesNoDifference(d: Domain, msgid: string, byHash: Option<nat>, bySearch: Option<nat>)
    requires Sorted(d) && d.sysdep == [] && Locates(d, msgid, byHash) && Locates(d, msgid, bySearch)
    ensures byHash == bySearch
  {
    SortedIsDistinct(d);
    LocatesOnce(d, msgid, byHash, bySearch);
  }

  function CountEmpty(t: seq<nat>): (n: nat)
    ensures n > 0 ==> exists s :: 0 <= s < |t| && t[s] == 0
  {
    if t == [] then 0
    else CountEmpty(t[..|t| - 1]) + if t[|t| - 1] == 0 then 1 else 0
  }

  /** Using an empty slot leaves one empty slot less. */
  lemma {:induction false} FillingCounts(t: seq<nat>, s: nat, v: nat)
    requires s < |t| && t[s] == 0 && v != 0
    ensures CountEmpty(t[s := v]) == CountEmpty(t) - 1
  {
    var n := |t| - 1;
    if s == n {
      assert t[s := v][..n] == t[..n];
    } else {
      FillingCounts(t[..n], s, v);
      assert t[s := v][..n] == t[..n][s := v];
    }
  }

  /** Filling an empty slot does not cut any entry off. */
  lemma FillingKeepsReachable(t: seq<nat>, w: Walk, e: nat, s: nat, v: nat)
    requires Proper(w) && w.size == |t| && s < |t| && t[s] == 0 && v != 0 && Reachable(t, w, e)
    ensures Reachable(t[s := v], w, e)
  {
    var k: nat :| ReachedAt(t, w, e, k);
    assert ReachedAt(t[s := v], w, e, k);
  }

  /** Probes for an empty slot for an entry, and puts it there. */
  method Insert(inmem: array<nat>, hashVal: nat, e: nat) returns (ghost s: nat)
    requires inmem.Length > 2 && Prime(inmem.Length) && CountEmpty(inmem[..]) > 0
    modifies inmem
    ensures s < inmem.Length && old(inmem[s]) == 0 && inmem[..] == old(inmem[..])[s := e + 1]
    ensures Reachable(inmem[..], WalkOf(hashVal, inmem.Length), e)
  {
    var size := inmem.Length;
    ghost var w := WalkOf(hashVal, size);
    ghost var table := inmem[..];
    ghost var empty: nat :| empty < size && table[empty] == 0;
    ghost var stop := ProbeVisitsEverySlot(w, empty);
    var idx := hashVal % size;
    var incr := 1 + hashVal % (size - 2);
    ghost var k: nat := 0;
    while true
      invariant k <= stop && idx == Slot(w, k) && inmem[..] == table
      invariant forall j :: 0 <= j < k ==> table[Slot(w, j)] != 0
      decreases stop - k
    {
      if inmem[idx] == 0 {
        inmem[idx] := e + 1;
        s := idx;
        assert ReachedAt(inmem[..], w, e, k);
        return;
      }
      assert table[Slot(w, k)] != 0;
      if idx >= size - incr {
        idx := idx - (size - incr);
      } else {
        idx := idx + incr;
      }
      k := k + 1;
    }
  }

  /** The first n entries are found from their hash values h. */
  ghost predicate CompleteUpTo(h: seq<nat>, table: seq<nat>, n: nat)
    requires |table| > 2 && n <= |h|
  {
    forall e :: 0 <= e < n ==> Reachable(table, WalkOf(h[e], |table|), e)
  }

  function Hashes(d: Domain): seq<nat> {
    seq(Entries(d), e requires 0 <= e < Entries(d) => Hash(KeyOf(d, e)))
  }

  lemma FillingKeepsComplete(h: seq<nat>, t: seq<nat>, n: nat, s: nat, v: nat)
    requires |t| > 2 && n <= |h| && CompleteUpTo(h, t, n) && s < |t| && t[s] == 0 && v != 0
    ensures CompleteUpTo(h, t[s := v], n)
  {
    forall e | 0 <= e < n
      ensures Reachable(t[s := v], WalkOf(h[e], |t|), e)
    {
      FillingKeepsReachable(t, WalkOf(h[e], |t|), e, s, v);
    }
  }

  /** A table made from hashTab, which refers to o entries, by inserting the i next ones. */
  ghost predicate Augmented(h: seq<nat>, hashTab: seq<nat>, t: seq<nat>, o: nat, i: nat) {
    && |t| == |hashTab| > 2 && o + i <= |h| && CompleteUpTo(h, t, o + i)
    && CountEmpty(t) + i == CountEmpty(hashTab)
    && (forall s :: 0 <= s < |t| ==> t[s] <= o + i)
    && (forall s :: 0 <= s < |t| && hashTab[s] != 0 ==> t[s] == hashTab[s])
  }

  lemma AugmentStep(h: seq<nat>, hashTab: seq<nat>, t: seq<nat>, o: nat, i: nat, s: nat)
    requires Augmented(h, hashTab, t, o, i) && o + i < |h| && s < |t| && t[s] == 0
    requires Reachable(t[s := o + i + 1], WalkOf(h[o + i], |t|), o + i)
    ensures Augmented(h, hashTab, t[s := o + i + 1], o, i + 1)
  {
    FillingCounts(t, s, o + i + 1);
    FillingKeepsComplete(h, t, o + i, s, o + i + 1);
  }

  /** Probes for an empty slot for the next system-dependent string. */
  method InsertSysdep(d: Domain, inmem: array<nat>, i: nat, ghost hashTab: seq<nat>)
    requires Prime(inmem.Length) && CountEmpty(hashTab) > |d.sysdep|
    requires i < |d.sysdep| && Augmented(Hashes(d), hashTab, inmem[..], |d.orig|, i)
    modifies inmem
    ensures Augmented(Hashes(d), hashTab, inmem[..], |d.orig|, i + 1)
  {
    ghost var before, h := inmem[..], Hashes(d);
    var hashVal := HashValue(Key(d.sysdep[i]));
    assert KeyOf(d, |d.orig| + i) == Key(d.sysdep[i]) && h[|d.orig| + i] == hashVal;
    ghost var s := Insert(inmem, hashVal, |d.orig| + i);
    assert before[s] == 0;
    AugmentStep(h, hashTab, before, |d.orig|, i, s);
  }

  lemma AugmentedAtFirst(h: seq<nat>, hashTab: seq<nat>, o: nat)
    requires |hashTab| > 2 && (forall s :: 0 <= s < |hashTab| ==> hashTab[s] <= o)
    requires o <= |h| && CompleteUpTo(h, hashTab, o)
    ensures Augmented(h, hashTab, hashTab, o, 0)
  {
  }

  lemma AugmentedIsSound(d: Domain, hashTab: seq<nat>, t: seq<nat>)
    requires Stored(d) && Prime(|hashTab|) && CountEmpty(hashTab) > |d.sysdep|
    requires Augmented(Hashes(d), hashTab, t, |d.orig|, |d.sysdep|)
    ensures Sound(d, t)
  {
    assert CountEmpty(t) > 0;
    forall e | 0 <= e < Entries(d)
      ensures Reachable(t, WalkOf(Hash(KeyOf(d, e)), |t|), e)
    {
      assert Hashes(d)[e] == Hash(KeyOf(d, e));
    }
  }

  method CopyTable(hashTab: seq<nat>) returns (inmem: array<nat>)
    ensures fresh(inmem) && inmem[..] == hashTab
  {
    inmem := new nat[|hashTab|](_ => 0);
    var i := 0;
    while i < |hashTab|
      invariant i <= |hashTab| && inmem[..i] == hashTab[..i]
    {
      inmem[i] := hashTab[i];
      i := i + 1;
    }
  }

  /**
   * The augmented hash table of _nl_load_domain: the file's table with the system-dependent strings inserted.
   * If there is room for them and one empty slot to spare, lookups can rely on the result, and entries the file's
   * table led to keep their places.
   */
  method AugmentHashTable(d: Domain, hashTab: seq<nat>) returns (inmem: array<nat>)
    requires Stored(d) && |hashTab| > 2 && Prime(|hashTab|)
    requires forall s :: 0 <= s < |hashTab| ==> hashTab[s] <= |d.orig|
    requires CompleteUpTo(Hashes(d), hashTab, |d.orig|) && CountEmpty(hashTab) > |d.sysdep|
    ensures Sound(d, inmem[..]) && inmem.Length == |hashTab|
    ensures forall s :: 0 <= s < |hashTab| && hashTab[s] != 0 ==> inmem[s] == hashTab[s]
  {
    inmem := CopyTable(hashTab);
    AugmentedAtFirst(Hashes(d), hashTab, |d.orig|);
    var i := 0;
    while i < |d.sysdep|
      invariant i <= |d.sysdep| && inmem.Length == |hashTab|
      invariant Augmented(Hashes(d), hashTab, inmem[..], |d.orig|, i)
    {
      InsertSysdep(d, inmem, i, hashTab);
      i := i + 1;
    }
    AugmentedIsSound(d, hashTab, inmem[..]);
  }
}
