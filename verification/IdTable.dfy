/**
 The table of packet identifiers of incoming QoS 2 messages that have been delivered and not yet
 released: an array in which 0 marks a free slot, standing for a set of at most ten identifiers.
 */
module IdTable {
  const CAPACITY: nat := 10

  ghost function IdsOf(s: seq<nat>): set<nat> {
    set i | 0 <= i < |s| && s[i] != 0 :: s[i]
  }

  ghost predicate Distinct(s: seq<nat>) {
    forall i, j :: 0 <= i < j < |s| && s[i] != 0 ==> s[i] != s[j]
  }

  /** The set is as large as the table exactly when no slot is free. */
  lemma {:induction false} IdsSize(s: seq<nat>)
    requires Distinct(s)
    ensures |IdsOf(s)| <= |s|
    ensures |IdsOf(s)| == |s| <==> 0 !in s
  {
    if s != [] {
      var n := |s| - 1;
      var t := s[..n];
      IdsSize(t);
      assert s == t + [s[n]];
      if s[n] != 0 {
        assert IdsOf(s) == IdsOf(t) + {s[n]} by {
          assert forall i :: 0 <= i < |t| ==> s[i] == t[i];
          assert forall x :: x in IdsOf(t) ==> x in IdsOf(s);
        }
        assert s[n] !in IdsOf(t);
      } else {
        assert IdsOf(s) == IdsOf(t) by {
          assert forall i :: 0 <= i < |t| ==> s[i] == t[i];
        }
      }
    }
  }

  lemma IdsStore(s: seq<nat>, i: nat, id: nat)
    requires Distinct(s) && i < |s| && s[i] == 0 && id != 0 && id !in s
    ensures Distinct(s[i := id]) && IdsOf(s[i := id]) == IdsOf(s) + {id}
  {
    var t := s[i := id];
    assert forall j :: 0 <= j < |s| && j != i ==> t[j] == s[j];
    assert t[i] == id;
    forall x ensures x in IdsOf(t) <==> x in IdsOf(s) + {id} {
      if x in IdsOf(s) {
        var j :| 0 <= j < |s| && s[j] != 0 && s[j] == x;
        assert t[j] == x;
      }
    }
  }

  lemma IdsFree(s: seq<nat>, i: nat)
    requires Distinct(s) && i < |s| && s[i] != 0
    ensures Distinct(s[i := 0]) && IdsOf(s[i := 0]) == IdsOf(s) - {s[i]}
  {
    var t := s[i := 0];
    assert forall j :: 0 <= j < |s| && j != i ==> t[j] == s[j];
    forall x ensures x in IdsOf(t) <==> x in IdsOf(s) - {s[i]} {
      if x in IdsOf(s) && x != s[i] {
        var j :| 0 <= j < |s| && s[j] != 0 && s[j] == x;
        assert t[j] == x;
      }
    }
  }

  class Table {
    const slots: array<nat>

    constructor ()
      ensures fresh(slots) && Valid() && Ids() == {}
    {
      slots := new nat[CAPACITY](_ => 0);
    }

    ghost predicate Valid()
      reads slots
    {
      slots.Length == CAPACITY && Distinct(slots[..])
    }

    ghost function Ids(): set<nat>
      reads slots
    {
      IdsOf(slots[..])
    }

    /** The number of identifiers held tells whether a slot is free. */
    lemma Room()
      requires Valid()
      ensures |Ids()| < CAPACITY <==> 0 in slots[..]
    {
      IdsSize(slots[..]);
    }

    /** isQoS2msgidFree. For 0 it looks for a free slot, and finds the table free when there is none. */
    method IsFree(id: nat) returns (free: bool)
      requires Valid()
      ensures free <==> id !in slots[..]
      ensures id != 0 ==> (free <==> id !in Ids())
      ensures id == 0 ==> (free <==> |Ids()| == CAPACITY)
    {
      Room();
      IdsSize(slots[..]);
      for i := 0 to CAPACITY
        invariant forall j :: 0 <= j < i ==> slots[j] != id
      {
        if slots[i] == id {
          assert slots[..][i] == id;
          return false;
        }
      }
      return true;
    }

    /** useQoS2msgid: the identifier is taken in, unless the table is full. */
    method Use(id: nat) returns (ok: bool)
      requires Valid() && id !in slots[..]
      modifies slots
      ensures Valid()
      ensures ok <==> |old(Ids())| < CAPACITY
      ensures Ids() == if ok then old(Ids()) + {id} else old(Ids())
      ensures ok ==> id != 0
    {
      Room();
      for i := 0 to CAPACITY
        invariant slots[..] == old(slots[..])
        invariant forall j :: 0 <= j < i ==> slots[j] != 0
      {
        if slots[i] == 0 {
          assert slots[..][i] == 0;
          IdsStore(slots[..], i, id);
          ghost var s := slots[..];
          slots[i] := id;
          assert slots[..] == s[i := id];
          return true;
        }
      }
      return false;
    }

    /** freeQoS2msgid. */
    method Free(id: nat)
      requires Valid()
      modifies slots
      ensures Valid() && Ids() == old(Ids()) - {id}
    {
      for i := 0 to CAPACITY
        invariant slots[..] == old(slots[..])
        invariant forall j :: 0 <= j < i ==> slots[j] != id
      {
        if slots[i] == id {
          ghost var s := slots[..];
          if id != 0 {
            IdsFree(s, i);
          }
          slots[i] := 0;
          assert slots[..] == s[i := 0];
          if id == 0 {
            assert s[i := 0] == s;
          }
          return;
        }
      }
      assert id !in Ids();
    }

    /** The loop of cleanSession. */
    method Clear()
      requires Valid()
      modifies slots
      ensures Valid() && Ids() == {}
    {
      for i := 0 to CAPACITY
        invariant forall j :: 0 <= j < i ==> slots[j] == 0
      {
        slots[i] := 0;
      }
    }
  }
}
