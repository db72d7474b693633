/**
 The open-addressing table with tombstones, as a sequence of slots: what makes a
 slot sequence a faithful picture of a finite map.
 */
module ProvenanceTable {
  import opened Basics
  import opened Accounting

  datatype Slot = Empty | Tombstone | Occupied(ptr: nat, entry: Entry)

  function HashOf(ptr: nat): nat {
    ((ptr / 8) * 0x9E37_79B9_7F4A_7C15) % TWO_64
  }

  /** The slot at which probing for `ptr` starts. */
  function Home(ptr: nat, capacity: nat): (h: nat)
    requires capacity > 0
    ensures h < capacity
  {
    HashOf(ptr) % capacity
  }

  function Advance(index: nat, capacity: nat): nat {
    if index + 1 == capacity then 0 else index + 1
  }

  /** The slot reached from `home` after `k` single advances. */
  function Probe(home: nat, k: nat, capacity: nat): (i: nat)
    requires home < capacity && k <= capacity
    ensures i < capacity
  {
    if home + k < capacity then home + k else home + k - capacity
  }

  /** How many advances lead from `home` to slot `i`. */
  function Distance(home: nat, i: nat, capacity: nat): (k: nat)
    requires home < capacity && i < capacity
    ensures k < capacity && Probe(home, k, capacity) == i
  {
    if home <= i then i - home else i + capacity - home
  }

  /** The first `k` probes for `ptr` meet no empty slot. */
  ghost predicate Unbroken(s: seq<Slot>, ptr: nat, k: nat)
    requires 0 < |s| && k <= |s|
  {
    forall j: nat :: j < k ==> s[Probe(Home(ptr, |s|), j, |s|)] != Empty
  }

  ghost predicate Holds(s: seq<Slot>, i: nat, ptr: nat) {
    i < |s| && s[i].Occupied? && s[i].ptr == ptr
  }

  /**
   The slots are a picture of the map `m`: each key is stored exactly once, with
   its entry, nothing else is stored, and no empty slot lies on the probe path
   of a stored pointer.
   */
  ghost predicate Represents(s: seq<Slot>, m: map<nat, Entry>) {
    && 0 < |s|
    && (forall i: nat :: i < |s| && s[i].Occupied? ==> s[i].ptr in m && m[s[i].ptr] == s[i].entry)
    && (forall p :: p in m ==> exists i :: Holds(s, i, p))
    && (forall i: nat, j: nat :: i < |s| && j < |s| && s[i].Occupied? && s[j].Occupied? && s[i].ptr == s[j].ptr ==> i == j)
    && (forall i: nat :: i < |s| && s[i].Occupied? ==>
          Unbroken(s, s[i].ptr, Distance(Home(s[i].ptr, |s|), i, |s|)))
  }

  lemma RepresentsAt(s: seq<Slot>, m: map<nat, Entry>, i: nat)
    requires Represents(s, m) && i < |s| && s[i].Occupied?
    ensures s[i].ptr in m && m[s[i].ptr] == s[i].entry
  {
  }

  lemma EmptyRepresents(capacity: nat)
    requires capacity > 0
    ensures Represents(seq(capacity, _ => Empty), map[])
  {
  }

  /** Finding an empty slot at probe `k` proves that the pointer is not stored. */
  lemma EmptyMeansAbsent(s: seq<Slot>, m: map<nat, Entry>, ptr: nat, k: nat)
    requires Represents(s, m)
    requires k < |s|
    requires s[Probe(Home(ptr, |s|), k, |s|)] == Empty
    requires forall j: nat :: j < k ==> !Holds(s, Probe(Home(ptr, |s|), j, |s|), ptr)
    ensures ptr !in m
  {
    forall i: nat | i < |s| ensures !Holds(s, i, ptr) {
      var d := Distance(Home(ptr, |s|), i, |s|);
      assert Holds(s, i, ptr) ==> Unbroken(s, ptr, d);
    }
  }

  /** Probing every slot without meeting the pointer proves that it is not stored. */
  lemma ExhaustedMeansAbsent(s: seq<Slot>, m: map<nat, Entry>, ptr: nat)
    requires Represents(s, m)
    requires forall j: nat :: j < |s| ==> !Holds(s, Probe(Home(ptr, |s|), j, |s|), ptr)
    ensures ptr !in m
  {
    forall i: nat | i < |s| ensures !Holds(s, i, ptr) {
      assert Probe(Home(ptr, |s|), Distance(Home(ptr, |s|), i, |s|), |s|) == i;
    }
  }

  /** Storing an absent pointer in a free slot at the end of an unbroken path. */
  lemma StoreRepresents(s: seq<Slot>, m: map<nat, Entry>, ptr: nat, e: Entry, k: nat)
    requires Represents(s, m)
    requires ptr !in m
    requires k < |s| && Unbroken(s, ptr, k)
    requires !s[Probe(Home(ptr, |s|), k, |s|)].Occupied?
    ensures Represents(s[Probe(Home(ptr, |s|), k, |s|) := Occupied(ptr, e)], m[ptr := e])
  {
    var target := Probe(Home(ptr, |s|), k, |s|);
    var t, n := s[target := Occupied(ptr, e)], m[ptr := e];
    forall p | p in n ensures exists i :: Holds(t, i, p) {
      if p == ptr {
        assert Holds(t, target, ptr);
      } else {
        var i :| Holds(s, i, p);
        assert Holds(t, i, p);
      }
    }
    assert Distance(Home(ptr, |s|), target, |s|) == k;
    forall i: nat | i < |t| && t[i].Occupied?
      ensures Unbroken(t, t[i].ptr, Distance(Home(t[i].ptr, |t|), i, |t|))
    {
      assert i != target ==> Unbroken(s, s[i].ptr, Distance(Home(s[i].ptr, |s|), i, |s|));
    }
  }

  /** Turning a stored slot into a tombstone removes exactly its pointer. */
  lemma EraseRepresents(s: seq<Slot>, m: map<nat, Entry>, i: nat)
    requires Represents(s, m)
    requires i < |s| && s[i].Occupied?
    ensures Represents(s[i := Tombstone], m - {s[i].ptr})
  {
    var t, n := s[i := Tombstone], m - {s[i].ptr};
    forall p | p in n ensures exists j :: Holds(t, j, p) {
      var j :| Holds(s, j, p);
      assert Holds(t, j, p);
    }
    forall j: nat | j < |t| && t[j].Occupied?
      ensures Unbroken(t, t[j].ptr, Distance(Home(t[j].ptr, |t|), j, |t|))
    {
      assert Unbroken(s, s[j].ptr, Distance(Home(s[j].ptr, |s|), j, |s|));
    }
  }

  /** The pointers stored in a slot sequence. */
  ghost function Stored(s: seq<Slot>): set<nat> {
    set i: nat | i < |s| && s[i].Occupied? :: s[i].ptr
  }

  ghost predicate Injective(s: seq<Slot>) {
    forall i: nat, j: nat :: i < j < |s| && s[i].Occupied? && s[j].Occupied? ==> s[i].ptr != s[j].ptr
  }

  /** Distinctly stored pointers never outnumber slots, and match them only when no slot is free. */
  lemma {:induction false} StoredCount(s: seq<Slot>)
    requires Injective(s)
    ensures |Stored(s)| <= |s|
    ensures |Stored(s)| == |s| <==> forall i :: 0 <= i < |s| ==> s[i].Occupied?
  {
    if s != [] {
      var init, last := s[..|s| - 1], s[|s| - 1];
      StoredCount(init);
      if last.Occupied? {
        assert Stored(s) == Stored(init) + {last.ptr};
      } else {
        assert Stored(s) == Stored(init);
      }
    }
  }

  /** The map never outgrows the table, and fills it exactly when every slot is occupied. */
  lemma FullIffAllOccupied(s: seq<Slot>, m: map<nat, Entry>)
    requires Represents(s, m)
    ensures |m| <= |s|
    ensures |m| == |s| <==> forall i :: 0 <= i < |s| ==> s[i].Occupied?
  {
    forall p | p in m ensures p in Stored(s) {
      var i :| Holds(s, i, p);
    }
    assert m.Keys == Stored(s);
    StoredCount(s);
  }
}
