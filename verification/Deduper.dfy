/** The correlation deduper (core/deduper.go): a map of admission times plus an admission-order list. */
module Deduper {
  import opened Basics

  datatype Key = Key(text: string)

  const NO_KEY := Key("")

  datatype Entry = Entry(key: Key, at: int)

  ghost function Without(s: seq<Key>, k: Key): seq<Key> {
    if s == [] then [] else if s[0] == k then Without(s[1..], k) else [s[0]] + Without(s[1..], k)
  }

  /** The distinct keys of an admission log, ordered by their last admission, oldest first. */
  ghost function ByLastAdmission(log: seq<Entry>): seq<Key> {
    if log == [] then []
    else
      var k := log[|log| - 1].key;
      Without(ByLastAdmission(log[..|log| - 1]), k) + [k]
  }

  ghost function Suffix(s: seq<Key>, n: nat): seq<Key> { if |s| <= n then s else s[|s| - n..] }

  /** When a key was last admitted. */
  ghost function LastAt(log: seq<Entry>, k: Key): Option<int> {
    if log == [] then None
    else if log[|log| - 1].key == k then Some(log[|log| - 1].at)
    else LastAt(log[..|log| - 1], k)
  }

  ghost predicate Distinct(s: seq<Key>) { forall i, j :: 0 <= i < j < |s| ==> s[i] != s[j] }

  /** The keys held: the `cap` most recently admitted distinct ones. */
  ghost function Held(log: seq<Entry>, cap: nat): seq<Key> { Suffix(ByLastAdmission(log), cap) }

  /** Rejected exactly when held and still within its time to live. */
  ghost predicate Fresh(log: seq<Entry>, cap: nat, ttl: int, key: Key, now: int) {
    key in Held(log, cap) && LastAt(log, key).Some? && (ttl <= 0 || now - LastAt(log, key).value < ttl)
  }

  // ---------------------------------------------------------------- the order list

  lemma {:induction false} WithoutAbsent(s: seq<Key>, k: Key)
    requires k !in s
    ensures Without(s, k) == s
  {
    if s != [] {
      WithoutAbsent(s[1..], k);
    }
  }

  lemma {:induction false} WithoutAt(s: seq<Key>, k: Key, i: nat)
    requires Distinct(s) && i < |s| && s[i] == k
    ensures Without(s, k) == s[..i] + s[i + 1..]
  {
    if i == 0 {
      WithoutAbsent(s[1..], k);
    } else {
      WithoutAt(s[1..], k, i - 1);
      assert s[..i] == [s[0]] + s[1..][..i - 1] && s[i + 1..] == s[1..][i..];
    }
  }

  lemma {:induction false} WithoutKeys(s: seq<Key>, k: Key)
    requires Distinct(s)
    ensures Distinct(Without(s, k)) && forall x :: x in Without(s, k) <==> x in s && x != k
  {
    if s != [] {
      WithoutKeys(s[1..], k);
      assert s == [s[0]] + s[1..];
      assert s[0] !in s[1..];
    }
  }

  lemma DistinctPush(s: seq<Key>, k: Key)
    requires Distinct(s) && k !in s
    ensures Distinct(s + [k])
  {
    assert forall i :: 0 <= i < |s| ==> (s + [k])[i] in s;
  }

  lemma {:induction false} KeysDistinct(log: seq<Entry>)
    ensures Distinct(ByLastAdmission(log))
    ensures forall k :: k in ByLastAdmission(log) <==> LastAt(log, k).Some?
  {
    if log != [] {
      var k, s := log[|log| - 1].key, ByLastAdmission(log[..|log| - 1]);
      KeysDistinct(log[..|log| - 1]);
      WithoutKeys(s, k);
      DistinctPush(Without(s, k), k);
    }
  }

  lemma HeldDistinct(log: seq<Entry>, cap: nat)
    ensures Distinct(Held(log, cap)) && |Held(log, cap)| <= cap
  {
    KeysDistinct(log);
  }

  lemma DropFrom(a: seq<Key>, b: seq<Key>, off: nat)
    requires off <= |a|
    ensures (a + b)[off..] == a[off..] + b
  {
  }

  lemma StepInside(s: seq<Key>, cap: nat, i: nat, k: Key)
    requires cap >= 1 && Distinct(s) && |s| > cap && |s| - cap <= i < |s| && s[i] == k
    ensures Suffix(Without(s, k) + [k], cap) == Without(s[|s| - cap..], k) + [k]
    ensures |Without(s[|s| - cap..], k) + [k]| == cap
  {
    var off := |s| - cap;
    var h := s[off..];
    WithoutAt(s, k, i);
    WithoutAt(h, k, i - off);
    DropFrom(s[..i], s[i + 1..] + [k], off);
    assert s[..i] + s[i + 1..] + [k] == s[..i] + (s[i + 1..] + [k]);
    assert s[..i][off..] == h[..i - off] && s[i + 1..] == h[i - off + 1..];
    assert h[..i - off] + (s[i + 1..] + [k]) == h[..i - off] + h[i - off + 1..] + [k];
  }

  lemma DropPast(a: seq<Key>, b: seq<Key>, off: nat)
    requires |a| <= off <= |a| + |b|
    ensures (a + b)[off..] == b[off - |a|..]
  {
  }

  /** Taking one of the older keys to the end, on slices alone. */
  lemma SkipOutside(s: seq<Key>, cap: nat, i: nat, k: Key)
    requires cap >= 1 && |s| > cap && 0 <= i < |s| - cap
    ensures Suffix(s[..i] + s[i + 1..] + [k], cap) == s[|s| - cap + 1..] + [k]
  {
    var off, tail := |s| - cap, s[i + 1..];
    assert s[..i] + tail + [k] == s[..i] + (tail + [k]);
    DropPast(s[..i], tail + [k], off);
    DropFrom(tail, [k], off - i);
    assert tail[off - i..] == s[off + 1..];
  }

  lemma SkipAbsent(s: seq<Key>, cap: nat, k: Key)
    requires cap >= 1 && |s| > cap
    ensures Suffix(s + [k], cap) == s[|s| - cap + 1..] + [k]
  {
    DropFrom(s, [k], |s| - cap + 1);
  }

  lemma StepOutside(s: seq<Key>, cap: nat, i: nat, k: Key)
    requires cap >= 1 && Distinct(s) && |s| > cap && 0 <= i < |s| - cap && s[i] == k
    ensures Suffix(Without(s, k) + [k], cap) == s[|s| - cap + 1..] + [k]
  {
    WithoutAt(s, k, i);
    SkipOutside(s, cap, i, k);
  }

  lemma StepAbsent(s: seq<Key>, cap: nat, k: Key)
    requires cap >= 1 && |s| > cap && k !in s
    ensures Suffix(Without(s, k) + [k], cap) == s[|s| - cap + 1..] + [k]
  {
    WithoutAbsent(s, k);
    SkipAbsent(s, cap, k);
  }

  lemma StepBeyond(s: seq<Key>, cap: nat, k: Key)
    requires cap >= 1 && Distinct(s) && |s| > cap && k !in s[|s| - cap..]
    ensures Suffix(Without(s, k) + [k], cap) == s[|s| - cap + 1..] + [k]
  {
    if k in s {
      var i :| 0 <= i < |s| && s[i] == k;
      assert forall j :: |s| - cap <= j < |s| ==> s[j] in s[|s| - cap..];
      StepOutside(s, cap, i, k);
    } else {
      StepAbsent(s, cap, k);
    }
  }

  /** Holding the newest `cap` keys commutes with re-admitting one of them, an evicted one, or a new one. */
  lemma SuffixStep(s: seq<Key>, cap: nat, k: Key)
    requires cap >= 1 && Distinct(s)
    ensures Suffix(Without(s, k) + [k], cap) == Suffix(Without(Suffix(s, cap), k) + [k], cap)
  {
    if |s| > cap {
      var h := s[|s| - cap..];
      if k in h {
        var i :| 0 <= i < |h| && h[i] == k;
        StepInside(s, cap, |s| - cap + i, k);
      } else {
        StepBeyond(s, cap, k);
        WithoutAbsent(h, k);
        assert (h + [k])[1..] == s[|s| - cap + 1..] + [k];
      }
    }
  }

  /**
    Removing a held key if present, appending it, and dropping the oldest beyond the capacity is
    exactly holding the most recent distinct keys of the extended log.
  */
  lemma HeldStep(log: seq<Entry>, cap: nat, e: Entry)
    requires cap >= 1
    ensures Held(log + [e], cap) == Suffix(Without(Held(log, cap), e.key) + [e.key], cap)
  {
    assert (log + [e])[..|log|] == log;
    KeysDistinct(log);
    SuffixStep(ByLastAdmission(log), cap, e.key);
  }

  // ---------------------------------------------------------------- what is held, told by the log alone

  ghost function KeysOf(es: seq<Entry>): set<Key> { set i | 0 <= i < |es| :: es[i].key }

  /** Entry `i` is the last admission of `key`. */
  ghost predicate NewestAt(log: seq<Entry>, i: nat, key: Key) {
    i < |log| && log[i].key == key && key !in KeysOf(log[i + 1..])
  }

  lemma {:induction false} WithoutConcat(a: seq<Key>, b: seq<Key>, k: Key)
    ensures Without(a + b, k) == Without(a, k) + Without(b, k)
  {
    if a == [] {
      assert a + b == b;
    } else {
      assert (a + b)[1..] == a[1..] + b;
      WithoutConcat(a[1..], b, k);
    }
  }

  lemma DistinctTail(a: seq<Key>, b: seq<Key>)
    requires Distinct(a + b)
    ensures Distinct(b)
  {
    assert forall i :: 0 <= i < |b| ==> (a + b)[|a| + i] == b[i];
  }

  lemma KeysAppend(es: seq<Entry>, e: Entry)
    ensures KeysOf(es + [e]) == KeysOf(es) + {e.key}
  {
    assert forall i :: 0 <= i < |es| ==> (es + [e])[i] == es[i];
    assert (es + [e])[|es|] == e;
  }

  /** After re-admitting `k`, a key before which and after which the others stood keeps its place. */
  lemma SplitStep(s: seq<Key>, a: seq<Key>, key: Key, b: seq<Key>, k: Key)
    requires Distinct(s) && s == a + ([key] + b) && k != key
    ensures Without(s, k) + [k] == Without(a, k) + ([key] + (Without(b, k) + [k]))
    ensures forall x :: x in Without(b, k) + [k] <==> x in b || x == k
  {
    WithoutConcat(a, [key] + b, k);
    assert ([key] + b)[1..] == b;
    DistinctTail(a, [key] + b);
    DistinctTail([key], b);
    WithoutKeys(b, k);
  }

  /** The keys behind a key in the order list are those admitted after its last admission. */
  lemma {:induction false} SplitAt(log: seq<Entry>, i: nat, key: Key) returns (a: seq<Key>, b: seq<Key>)
    requires NewestAt(log, i, key)
    ensures ByLastAdmission(log) == a + ([key] + b)
    ensures forall x :: x in b <==> x in KeysOf(log[i + 1..])
    decreases |log|
  {
    var p, e := log[..|log| - 1], log[|log| - 1];
    var s := ByLastAdmission(p);
    if i == |log| - 1 {
      a, b := Without(s, key), [];
    } else {
      assert log[i + 1..] == p[i + 1..] + [e];
      KeysAppend(p[i + 1..], e);
      a, b := SplitAt(p, i, key);
      KeysDistinct(p);
      SplitStep(s, a, key, b, e.key);
      a, b := Without(a, e.key), Without(b, e.key) + [e.key];
    }
  }

  lemma {:induction false} DistinctSize(s: seq<Key>, keys: set<Key>)
    requires Distinct(s) && forall x :: x in s <==> x in keys
    ensures |s| == |keys|
    decreases |s|
  {
    if s == [] {
      assert keys == {};
    } else {
      assert s == [s[0]] + s[1..] && s[0] !in s[1..];
      DistinctTail([s[0]], s[1..]);
      DistinctSize(s[1..], keys - {s[0]});
    }
  }

  lemma {:induction false} NewestExists(log: seq<Entry>, key: Key) returns (i: nat)
    requires LastAt(log, key).Some?
    ensures NewestAt(log, i, key)
  {
    var p, e := log[..|log| - 1], log[|log| - 1];
    if e.key == key {
      i := |log| - 1;
    } else {
      i := NewestExists(p, key);
      assert log[i + 1..] == p[i + 1..] + [e];
      KeysAppend(p[i + 1..], e);
    }
  }

  lemma {:induction false} NewestIsLast(log: seq<Entry>, i: nat, key: Key)
    requires NewestAt(log, i, key)
    ensures LastAt(log, key) == Some(log[i].at)
  {
    if i < |log| - 1 {
      var p, e := log[..|log| - 1], log[|log| - 1];
      assert log[i + 1..] == p[i + 1..] + [e];
      KeysAppend(p[i + 1..], e);
      NewestIsLast(p, i, key);
    }
  }

  lemma SuffixSplit(a: seq<Key>, key: Key, b: seq<Key>, cap: nat)
    requires Distinct(a + ([key] + b))
    ensures key in Suffix(a + ([key] + b), cap) <==> |b| < cap
  {
    var s := a + ([key] + b);
    var h := Suffix(s, cap);
    assert s[|a|] == key;
    if |b| < cap {
      assert h[|a| - (|s| - |h|)] == key;
    }
  }

  /** A key is held exactly while fewer than `cap` other keys were admitted since its last admission. */
  lemma HeldIff(log: seq<Entry>, cap: nat, i: nat, key: Key)
    requires NewestAt(log, i, key)
    ensures key in Held(log, cap) <==> |KeysOf(log[i + 1..])| < cap
  {
    var a, b := SplitAt(log, i, key);
    KeysDistinct(log);
    DistinctTail(a, [key] + b);
    DistinctTail([key], b);
    DistinctSize(b, KeysOf(log[i + 1..]));
    SuffixSplit(a, key, b, cap);
  }

  /**
    Rejection, told by the log alone: a key is rejected if and only if it was admitted before, fewer
    than `cap` other keys were admitted since its last admission, and that admission is younger than
    the time to live, if there is one.
  */
  lemma RejectedIff(log: seq<Entry>, cap: nat, ttl: int, key: Key, now: int)
    ensures Fresh(log, cap, ttl, key, now) <==>
            exists i: nat :: NewestAt(log, i, key) && |KeysOf(log[i + 1..])| < cap
                             && (ttl > 0 ==> now - log[i].at < ttl)
  {
    KeysDistinct(log);
    if LastAt(log, key).Some? {
      var i := NewestExists(log, key);
      HeldIff(log, cap, i, key);
      NewestIsLast(log, i, key);
    }
    forall i: nat | NewestAt(log, i, key)
      ensures LastAt(log, key) == Some(log[i].at) && (key in Held(log, cap) <==> |KeysOf(log[i + 1..])| < cap)
    {
      NewestIsLast(log, i, key);
      HeldIff(log, cap, i, key);
    }
  }

  // ---------------------------------------------------------------- map and list in step

  /** The list names the map's keys without repetition. */
  ghost predicate Paired(m: map<Key, int>, s: seq<Key>) {
    Distinct(s) && forall k :: k in m <==> k in s
  }

  ghost predicate Timed(m: map<Key, int>, log: seq<Entry>) {
    forall k :: k in m ==> LastAt(log, k) == Some(m[k])
  }

  lemma PairedWithout(m: map<Key, int>, s: seq<Key>, k: Key)
    requires Paired(m, s)
    ensures Paired(m - {k}, Without(s, k))
  {
    WithoutKeys(s, k);
  }

  lemma PairedPush(m: map<Key, int>, s: seq<Key>, k: Key, now: int)
    requires Paired(m, s) && k !in s
    ensures Paired(m[k := now], s + [k])
  {
  }

  lemma PairedTail(m: map<Key, int>, s: seq<Key>)
    requires Paired(m, s) && s != []
    ensures Paired(m - {s[0]}, s[1..])
  {
    WithoutAt(s, s[0], 0);
    assert s[..0] + s[1..] == s[1..];
    PairedWithout(m, s, s[0]);
  }

  lemma {:induction false} PairedSize(m: map<Key, int>, s: seq<Key>)
    requires Paired(m, s)
    ensures |m| == |s|
    decreases |s|
  {
    if s == [] {
      assert m == map[];
    } else {
      assert s[0] in s;
      PairedTail(m, s);
      PairedSize(m - {s[0]}, s[1..]);
      assert (m - {s[0]}).Keys == m.Keys - {s[0]};
    }
  }

  /** The map after the `d` oldest listed keys are gone. */
  ghost function AfterEvictions(m: map<Key, int>, s: seq<Key>, d: nat): map<Key, int>
    requires d <= |s|
  {
    if d == 0 then m else AfterEvictions(m, s, d - 1) - {s[d - 1]}
  }

  lemma {:induction false} Evicted(m: map<Key, int>, s: seq<Key>, d: nat)
    requires Paired(m, s) && d <= |s|
    ensures Paired(AfterEvictions(m, s, d), s[d..]) && |AfterEvictions(m, s, d)| == |s| - d
    ensures forall k :: k in AfterEvictions(m, s, d) ==> k in m && AfterEvictions(m, s, d)[k] == m[k]
  {
    if d == 0 {
      assert s[0..] == s;
    } else {
      Evicted(m, s, d - 1);
      PairedTail(AfterEvictions(m, s, d - 1), s[d - 1..]);
      assert s[d - 1..][0] == s[d - 1] && s[d - 1..][1..] == s[d..];
    }
    PairedSize(AfterEvictions(m, s, d), s[d..]);
  }

  lemma SuffixFrom(s: seq<Key>, d: nat, n: nat)
    requires d <= |s| && |s| - d <= n && (d > 0 ==> |s| - d == n)
    ensures Suffix(s, n) == s[d..]
  {
    if d == 0 {
      assert s[0..] == s;
    }
  }

  class CorrelationDeduper {
    const cap: nat
    const ttl: int
    var seen: map<Key, int>
    var order: seq<Key>
    ghost var log: seq<Entry>

    /** The map and the list hold the same distinct keys: the `cap` most recently admitted ones. */
    ghost predicate Valid()
      reads this
    {
      cap >= 1 && order == Held(log, cap) && Paired(seen, order) && Timed(seen, log)
    }

    constructor (capacity: int, ttl: int)
      ensures Valid() && log == [] && cap == (if capacity <= 0 then 65536 else capacity) && this.ttl == ttl
    {
      cap := if capacity <= 0 then 65536 else capacity;
      this.ttl := ttl;
      seen, order, log := map[], [], [];
    }

    /** Drops an expired key from the map and, after a search, from the list. */
    method Forget(key: Key)
      requires Paired(seen, order) && key in seen
      modifies this`seen, this`order
      ensures order == Without(old(order), key) && seen == old(seen) - {key} && Paired(seen, order) && key !in order
    {
      PairedWithout(seen, order, key);
      WithoutKeys(order, key);
      seen := seen - {key};
      var i := 0;
      while order[i] != key
        invariant 0 <= i < |order| && key in order[i..]
        decreases |order| - i
      {
        i := i + 1;
      }
      WithoutAt(order, key, i);
      order := order[..i] + order[i + 1..];
    }

    /** The loop: drops the front of the list from both while the map is too large. */
    method EvictOldest() returns (ghost d: nat)
      requires cap >= 1
      requires forall k: nat :: k <= |order| ==> |AfterEvictions(seen, order, k)| == |order| - k
      modifies this`seen, this`order
      ensures d <= |old(order)| && order == old(order)[d..] && seen == AfterEvictions(old(seen), old(order), d)
      ensures |old(order)| - d <= cap && (d > 0 ==> |old(order)| - d == cap)
    {
      ghost var all, full := seen, order;
      d := 0;
      while |seen| > cap
        invariant d <= |full| && order == full[d..] && seen == AfterEvictions(all, full, d)
        invariant |full| - d >= cap || d == 0
        decreases |full| - d
      {
        seen := seen - {order[0]};
        order := order[1..];
        d := d + 1;
      }
    }

    method Evict()
      requires cap >= 1 && Paired(seen, order)
      modifies this`seen, this`order
      ensures order == Suffix(old(order), cap) && Paired(seen, order)
      ensures forall k :: k in seen ==> k in old(seen) && seen[k] == old(seen)[k]
    {
      ghost var all, full := seen, order;
      forall d: nat | d <= |full|
        ensures |AfterEvictions(all, full, d)| == |full| - d
      {
        Evicted(all, full, d);
      }
      ghost var d := EvictOldest();
      SuffixFrom(full, d, cap);
      Evicted(all, full, d);
    }

    /** Appends a key that is not held and evicts the oldest beyond the capacity. */
    method Register(key: Key, now: int)
      requires cap >= 1 && Paired(seen, order) && Timed(seen, log) && key !in order
      requires order == Without(Held(log, cap), key)
      modifies this
      ensures Valid() && log == old(log) + [Entry(key, now)]
    {
      HeldStep(log, cap, Entry(key, now));
      PairedPush(seen, order, key, now);
      assert Timed(seen[key := now], log + [Entry(key, now)]) by {
        assert (log + [Entry(key, now)])[..|log|] == log;
      }
      seen := seen[key := now];
      order := order + [key];
      log := log + [Entry(key, now)];
      Evict();
    }

    /** Rejects a non-empty key exactly when it is held and within its time to live. */
    method Dedup(key: Key, now: int) returns (first: bool)
      requires Valid()
      modifies this
      ensures Valid()
      ensures first == (key == NO_KEY || !Fresh(old(log), cap, ttl, key, now))
      ensures key != NO_KEY && key in old(seen) ==> (first <==> ttl > 0 && now - old(seen)[key] >= ttl)
      ensures key !in old(seen) ==> first
      ensures key.text == "" ==> first && log == old(log)
      ensures log == old(log) + if first && key != NO_KEY then [Entry(key, now)] else []
    {
      if key == NO_KEY { return true; }
      if key in seen {
        assert LastAt(log, key) == Some(seen[key]);
        if ttl <= 0 || now - seen[key] < ttl { return false; }
        Forget(key);
      } else {
        WithoutAbsent(order, key);
      }
      Register(key, now);
      return true;
    }

    method Seen(key: Key, now: int) returns (held: bool)
      requires Valid()
      ensures held == (key != NO_KEY && Fresh(log, cap, ttl, key, now))
      ensures held <==> key.text != "" && key in seen && (ttl > 0 ==> now - seen[key] < ttl)
    {
      if key == NO_KEY { return false; }
      if key !in seen { return false; }
      assert LastAt(log, key) == Some(seen[key]);
      return ttl <= 0 || now - seen[key] < ttl;
    }

    /** At most `cap` keys are held, whatever was admitted. */
    lemma Bounded()
      requires Valid()
      ensures |seen| == |order| <= cap
    {
      PairedSize(seen, order);
      HeldDistinct(log, cap);
    }
  }
}
