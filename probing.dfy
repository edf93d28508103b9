/** The closed hash table of hashtable.go viewed as a sequence of slots:
    each slot is empty or holds 12 bytes (a 7-byte key and a 5-byte value),
    pairs are placed by linear probing with wrap-around from the slot
    `key & (slotCount - 1)`, and lookups walk the same probe sequence. */
module Probing {
  import opened Bits
  import opened Io
  import opened Encoding

  /** The 12 stored bytes of an occupied slot: key(7) then value(5). */
  type Slot = s: seq<byte> | |s| == 12 witness [0, 0, 0, 0, 0, 0, 0, 0, 0, 0, 0, 0]

  /** slotCount slots; None is a slot no pair has been placed in. */
  type Table = seq<Option<Slot>>

  function Empty(n: nat): (t: Table)
    ensures |t| == n && forall p :: 0 <= p < n ==> t[p] == None
  {
    seq(n, _ => None)
  }

  /** The first slot probed for a key: `littleEndianKey(k) & (slotCount - 1)`. */
  function Home(k: seq<byte>, n: nat): (h: nat)
    requires |k| >= KLen && n >= 1
    ensures h < n
  {
    And(LittleEndianKey(k), n - 1)
  }

  /** For a power-of-two slot count the mask picks the key modulo the
      slot count, the home slot of ordinary hashing. */
  lemma HomeIsMod(k: seq<byte>, m: nat)
    requires |k| >= KLen
    ensures Pow2(m) >= 1 && Home(k, Pow2(m)) == LittleEndianKey(k) % Pow2(m)
  {
    AndLowMask(LittleEndianKey(k), m);
  }

  /** The slot visited after j steps of the probe that starts at h. */
  function Pos(h: nat, j: nat, n: nat): (p: nat)
    requires h < n && j < n
    ensures p < n
  {
    if h + j < n then h + j else h + j - n
  }

  /** How many steps the probe from h takes to reach p. */
  function Dist(h: nat, p: nat, n: nat): (j: nat)
    requires h < n && p < n
    ensures j < n && Pos(h, j, n) == p
  {
    if p >= h then p - h else p + n - h
  }

  /** The probe from h visits every slot exactly once in its first n steps. */
  lemma PosDist(h: nat, j: nat, n: nat)
    requires h < n && j < n
    ensures Dist(h, Pos(h, j, n), n) == j
  {
  }

  /** The first step, from step j on, of the probe from h that finds an empty slot (n if none). */
  function FreeFrom(t: Table, h: nat, j: nat): (f: nat)
    requires h < |t| && j <= |t|
    ensures j <= f <= |t|
    ensures forall i :: j <= i < f ==> t[Pos(h, i, |t|)].Some?
    ensures f < |t| ==> t[Pos(h, f, |t|)].None?
    decreases |t| - j
  {
    if j == |t| then j
    else if t[Pos(h, j, |t|)].None? then j
    else FreeFrom(t, h, j + 1)
  }

  /** A probe that has seen only occupied slots up to step j and finds step j
      empty has found the first free step. */
  lemma {:induction false} FreeFromAt(t: Table, h: nat, i: nat, j: nat)
    requires h < |t| && i <= j <= |t|
    requires forall m :: i <= m < j ==> t[Pos(h, m, |t|)].Some?
    requires j < |t| ==> t[Pos(h, j, |t|)].None?
    ensures FreeFrom(t, h, i) == j
    decreases j - i
  {
    if i < j {
      FreeFromAt(t, h, i + 1, j);
    }
  }

  /** One iteration of the placement loop of Generate: the pair goes into
      the first empty slot of its probe sequence; when every slot is taken
      it is dropped. */
  function Insert(t: Table, s: Slot): (r: Table)
    requires |t| >= 1
    ensures |r| == |t|
  {
    var h := Home(s, |t|);
    var f := FreeFrom(t, h, 0);
    if f < |t| then t[Pos(h, f, |t|) := Some(s)] else t
  }

  /** Placement never moves a pair already in the table, puts the new pair
      at the first free slot of its probe sequence, and changes no other slot. */
  lemma InsertPlaces(t: Table, s: Slot)
    requires |t| >= 1
    ensures forall p :: 0 <= p < |t| && t[p].Some? ==> Insert(t, s)[p] == t[p]
    ensures FreeFrom(t, Home(s, |t|), 0) < |t| ==>
              Insert(t, s)[Pos(Home(s, |t|), FreeFrom(t, Home(s, |t|), 0), |t|)] == Some(s)
    ensures forall p :: 0 <= p < |t| && Insert(t, s)[p] != t[p] ==>
              FreeFrom(t, Home(s, |t|), 0) < |t| && p == Pos(Home(s, |t|), FreeFrom(t, Home(s, |t|), 0), |t|)
  {
  }

  /** The table after placing `pairs` in order into n empty slots. */
  function Build(pairs: seq<Slot>, n: nat): (t: Table)
    requires n >= 1
    ensures |t| == n
  {
    if pairs == [] then Empty(n)
    else Insert(Build(pairs[..|pairs| - 1], n), pairs[|pairs| - 1])
  }

  /** Building one more pair is inserting it into the table built so far. */
  lemma BuildSnoc(pairs: seq<Slot>, s: Slot, n: nat)
    requires n >= 1
    ensures Build(pairs + [s], n) == Insert(Build(pairs, n), s)
  {
    assert (pairs + [s])[..|pairs|] == pairs;
  }

  /** The lookup loop of HashTable.Get from step i: stop with nothing at an
      empty slot or after n steps, stop with the value at a slot holding k. */
  function Probe(t: Table, k: seq<byte>, h: nat, i: nat): (r: Option<seq<byte>>)
    requires h < |t| && i <= |t|
    ensures r.Some? ==> |r.value| == VLen
    decreases |t| - i
  {
    if i == |t| then None
    else match t[Pos(h, i, |t|)]
      case None => None
      case Some(s) => if s[..KLen] == k then Some(s[KLen..]) else Probe(t, k, h, i + 1)
  }

  function Lookup(t: Table, k: seq<byte>): (r: Option<seq<byte>>)
    requires |t| >= 1 && |k| >= KLen
    ensures r.Some? ==> |r.value| == VLen
  {
    Probe(t, k, Home(k, |t|), 0)
  }

  /** The value of the first pair in `pairs` whose key is k. */
  function FirstValue(pairs: seq<Slot>, k: seq<byte>): (r: Option<seq<byte>>)
    ensures r.Some? <==> exists i :: 0 <= i < |pairs| && pairs[i][..KLen] == k
  {
    if pairs == [] then None
    else if pairs[0][..KLen] == k then Some(pairs[0][KLen..])
    else
      assert forall i :: 1 <= i < |pairs| ==> pairs[i] == pairs[1..][i - 1];
      FirstValue(pairs[1..], k)
  }

  lemma {:induction false} FirstValueSnoc(pairs: seq<Slot>, s: Slot, k: seq<byte>)
    ensures FirstValue(pairs + [s], k) ==
      if FirstValue(pairs, k).Some? then FirstValue(pairs, k)
      else if s[..KLen] == k then Some(s[KLen..]) else None
  {
    if pairs != [] {
      assert (pairs + [s])[1..] == pairs[1..] + [s];
      FirstValueSnoc(pairs[1..], s, k);
    }
  }

  /** The number of occupied slots. */
  function Count(t: Table): (c: nat)
    ensures c <= |t|
  {
    if t == [] then 0 else Count(t[..|t| - 1]) + (if t[|t| - 1].Some? then 1 else 0)
  }

  lemma {:induction false} CountEmpty(n: nat)
    ensures Count(Empty(n)) == 0
  {
    if n > 0 {
      assert Empty(n)[..n - 1] == Empty(n - 1);
      CountEmpty(n - 1);
    }
  }

  /** Filling one empty slot adds one to the count. */
  lemma {:induction false} CountFill(t: Table, q: nat, s: Slot)
    requires q < |t| && t[q].None?
    ensures Count(t[q := Some(s)]) == Count(t) + 1
  {
    var m := |t| - 1;
    var t' := t[q := Some(s)];
    if q == m {
      assert t'[..m] == t[..m];
    } else {
      assert t'[..m] == t[..m][q := Some(s)];
      CountFill(t[..m], q, s);
    }
  }

  /** A table with fewer pairs than slots has an empty slot. */
  lemma {:induction false} FreeSlot(t: Table) returns (p: nat)
    requires Count(t) < |t|
    ensures p < |t| && t[p].None?
  {
    var m := |t| - 1;
    if t[m].None? {
      p := m;
    } else {
      p := FreeSlot(t[..m]);
    }
  }

  /** A table with fewer pairs than slots has a free step on every probe sequence. */
  lemma FreeExists(t: Table, h: nat)
    requires h < |t| && Count(t) < |t|
    ensures FreeFrom(t, h, 0) < |t|
  {
    var p := FreeSlot(t);
    var j := Dist(h, p, |t|);
  }

  /** Occupancy: a pair placed into a table with room occupies exactly one more slot. */
  lemma CountInsert(t: Table, s: Slot)
    requires |t| >= 1 && Count(t) < |t|
    ensures Count(Insert(t, s)) == Count(t) + 1
  {
    var h := Home(s, |t|);
    FreeExists(t, h);
    CountFill(t, Pos(h, FreeFrom(t, h, 0), |t|), s);
  }

  /** The probe-chain invariant of linear probing: every step of the probe
      from a stored pair's home slot up to the slot that holds it is occupied. */
  ghost predicate Reachable(t: Table)
    requires |t| >= 1
  {
    forall p :: 0 <= p < |t| && t[p].Some? ==>
      forall j :: 0 <= j < Dist(Home(t[p].value, |t|), p, |t|) ==>
        t[Pos(Home(t[p].value, |t|), j, |t|)].Some?
  }

  lemma InsertReachable(t: Table, s: Slot)
    requires |t| >= 1 && Reachable(t)
    ensures Reachable(Insert(t, s))
  {
    var h := Home(s, |t|);
    var f := FreeFrom(t, h, 0);
    if f < |t| {
      PosDist(h, f, |t|);
    }
  }

  /** The step at which the probe for k from step i stops: an empty slot, a
      slot holding k, or n. */
  ghost function Stop(t: Table, k: seq<byte>, h: nat, i: nat): (e: nat)
    requires h < |t| && i <= |t|
    ensures i <= e <= |t|
    ensures forall j :: i <= j < e ==> t[Pos(h, j, |t|)].Some? && t[Pos(h, j, |t|)].value[..KLen] != k
    ensures e < |t| ==> t[Pos(h, e, |t|)].None? || t[Pos(h, e, |t|)].value[..KLen] == k
    decreases |t| - i
  {
    if i == |t| || t[Pos(h, i, |t|)].None? || t[Pos(h, i, |t|)].value[..KLen] == k then i
    else Stop(t, k, h, i + 1)
  }

  /** Steps over occupied slots holding other keys do not change the outcome of a probe. */
  lemma {:induction false} ProbeSkip(t: Table, k: seq<byte>, h: nat, i: nat, e: nat)
    requires h < |t| && i <= e <= |t|
    requires forall j :: i <= j < e ==> t[Pos(h, j, |t|)].Some? && t[Pos(h, j, |t|)].value[..KLen] != k
    ensures Probe(t, k, h, i) == Probe(t, k, h, e)
    decreases e - i
  {
    if i < e {
      ProbeSkip(t, k, h, i + 1, e);
    }
  }

  /** A probe over slots none of which holds k finds nothing. */
  lemma {:induction false} AbsentNone(t: Table, k: seq<byte>, h: nat, i: nat)
    requires h < |t| && i <= |t|
    requires forall j :: i <= j < |t| ==> t[Pos(h, j, |t|)].None? || t[Pos(h, j, |t|)].value[..KLen] != k
    ensures Probe(t, k, h, i) == None
    decreases |t| - i
  {
    if i < |t| && t[Pos(h, i, |t|)].Some? {
      AbsentNone(t, k, h, i + 1);
    }
  }

  /** A stored pair whose key is k has k's home slot. */
  lemma HomeOfKey(s: Slot, k: seq<byte>, n: nat)
    requires n >= 1 && s[..KLen] == k
    ensures |k| == KLen && Home(s, n) == Home(k, n)
  {
    assert k[..KLen] == s[..KLen];
  }

  /** In a reachable table, no slot holding k lies beyond an empty step of
      the probe from k's home. */
  lemma BeyondEmpty(t: Table, k: seq<byte>, e: nat, j: nat)
    requires |t| >= 1 && |k| >= KLen && Reachable(t)
    requires e < j < |t| && t[Pos(Home(k, |t|), e, |t|)].None?
    ensures t[Pos(Home(k, |t|), j, |t|)].None? || t[Pos(Home(k, |t|), j, |t|)].value[..KLen] != k
  {
    var h := Home(k, |t|);
    var p := Pos(h, j, |t|);
    PosDist(h, j, |t|);
    if t[p].Some? && t[p].value[..KLen] == k {
      HomeOfKey(t[p].value, k, |t|);
    }
  }

  /** Filling the first free step f of k's probe with a pair holding k:
      the probe of k finds an earlier pair holding k if there is one, and
      otherwise the new pair. */
  lemma ProbeFillSame(t: Table, s: Slot, k: seq<byte>, h: nat, f: nat)
    requires h < |t| && f < |t| && s[..KLen] == k
    requires forall i :: 0 <= i < f ==> t[Pos(h, i, |t|)].Some?
    requires t[Pos(h, f, |t|)].None?
    ensures Probe(t[Pos(h, f, |t|) := Some(s)], k, h, 0) ==
      if Probe(t, k, h, 0).Some? then Probe(t, k, h, 0) else Some(s[KLen..])
  {
    var n := |t|;
    var q := Pos(h, f, n);
    var t' := t[q := Some(s)];
    var e := Stop(t, k, h, 0);
    ProbeSkip(t, k, h, 0, e);
    forall j | 0 <= j < e
      ensures t'[Pos(h, j, n)] == t[Pos(h, j, n)]
    {
      PosDist(h, j, n);
    }
    ProbeSkip(t', k, h, 0, e);
    if e < f {
      PosDist(h, e, n);
      assert t'[Pos(h, e, n)] == t[Pos(h, e, n)];
    }
  }

  /** In a reachable table, once the probe for k has passed the empty step e
      it finds nothing more, even with that slot filled by another key. */
  lemma ProbePastFilled(t: Table, s: Slot, k: seq<byte>, e: nat)
    requires |t| >= 1 && |k| >= KLen && Reachable(t)
    requires e < |t| && t[Pos(Home(k, |t|), e, |t|)].None?
    ensures Probe(t[Pos(Home(k, |t|), e, |t|) := Some(s)], k, Home(k, |t|), e + 1) == None
  {
    var n := |t|;
    var h := Home(k, n);
    var q := Pos(h, e, n);
    var t' := t[q := Some(s)];
    forall j | e + 1 <= j < n
      ensures t'[Pos(h, j, n)].None? || t'[Pos(h, j, n)].value[..KLen] != k
    {
      BeyondEmpty(t, k, e, j);
      PosDist(h, j, n);
      PosDist(h, e, n);
    }
    AbsentNone(t', k, h, e + 1);
  }

  /** Filling the empty slot at step f of h's probe with a pair holding
      another key: when the probe for k from h stopped at that slot it now
      moves past it and, in a reachable table, still finds nothing. */
  lemma ProbeFillOther(t: Table, s: Slot, k: seq<byte>, q: nat)
    requires |t| >= 1 && |k| >= KLen && Reachable(t)
    requires q < |t| && t[q].None? && s[..KLen] != k
    ensures Probe(t[q := Some(s)], k, Home(k, |t|), 0) == Probe(t, k, Home(k, |t|), 0)
  {
    var n := |t|;
    var h := Home(k, n);
    var t' := t[q := Some(s)];
    var e := Stop(t, k, h, 0);
    ProbeSkip(t, k, h, 0, e);
    forall j | 0 <= j < e
      ensures t'[Pos(h, j, n)] == t[Pos(h, j, n)]
    {
    }
    ProbeSkip(t', k, h, 0, e);
    if e < n && Pos(h, e, n) == q {
      ProbePastFilled(t, s, k, e);
    }
  }

  /** Placing one pair: keys already present keep their value, and the new
      key becomes visible exactly when it was absent. */
  lemma LookupInsert(t: Table, s: Slot, k: seq<byte>)
    requires |t| >= 1 && |k| >= KLen && Reachable(t) && Count(t) < |t|
    ensures Lookup(Insert(t, s), k) ==
      if Lookup(t, k).Some? then Lookup(t, k)
      else if s[..KLen] == k then Some(s[KLen..]) else None
  {
    var n := |t|;
    var hs := Home(s, n);
    FreeExists(t, hs);
    var f := FreeFrom(t, hs, 0);
    assert Insert(t, s) == t[Pos(hs, f, n) := Some(s)];
    if s[..KLen] == k {
      HomeOfKey(s, k, n);
      ProbeFillSame(t, s, k, hs, f);
    } else {
      ProbeFillOther(t, s, k, Pos(hs, f, n));
    }
  }

  /** Round trip and negative lookup of Generate/Get on the table itself:
      after placing `pairs` in order into n >= |pairs| empty slots, every
      pair occupies one slot, the probe-chain invariant holds, and a lookup
      of k returns the value of the first pair with key k, or nothing when
      no pair has key k. */
  lemma {:induction false} BuildLookup(pairs: seq<Slot>, n: nat)
    requires 1 <= n && |pairs| <= n
    ensures Reachable(Build(pairs, n)) && Count(Build(pairs, n)) == |pairs|
    ensures forall k :: |k| >= KLen ==> Lookup(Build(pairs, n), k) == FirstValue(pairs, k)
  {
    if pairs == [] {
      CountEmpty(n);
    } else {
      var m := |pairs| - 1;
      var ps, s := pairs[..m], pairs[m];
      assert pairs == ps + [s];
      BuildLookup(ps, n);
      var t := Build(ps, n);
      InsertReachable(t, s);
      CountInsert(t, s);
      forall k | |k| >= KLen
        ensures Lookup(Build(pairs, n), k) == FirstValue(pairs, k)
      {
        LookupInsert(t, s, k);
        FirstValueSnoc(ps, s, k);
      }
    }
  }
}
