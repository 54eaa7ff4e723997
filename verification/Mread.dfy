/** The table of active multi-reads of a client. A multi-read with id n lives in slot n modulo the
    capacity of the table; the size of the table is one more than its last occupied slot. */
module Mread {
  import opened Common

  const IDS: nat := 0x1_0000_0000
  const CAPACITY: nat := 1000

  /** The slots up to size, without the last ones that are free. */
  ghost predicate Trimmed(slots: seq<Option<nat>>, size: nat) {
    && size <= |slots| && (size > 0 ==> slots[size - 1].Some?)
    && forall i :: size <= i < |slots| ==> slots[i].None?
  }

  ghost predicate InPlace(slots: seq<Option<nat>>) {
    forall i :: 0 <= i < |slots| && slots[i].Some? ==> slots[i].value < IDS && slots[i].value % CAPACITY == i
  }

  ghost predicate Active(slots: seq<Option<nat>>, id: nat) { Some(id) in slots }

  /** An active id is where it belongs, and nowhere else. */
  lemma ActiveAt(slots: seq<Option<nat>>, id: nat)
    requires |slots| == CAPACITY && InPlace(slots)
    ensures Active(slots, id) <==> slots[id % CAPACITY] == Some(id)
    ensures forall i :: 0 <= i < |slots| && slots[i] == Some(id) ==> i == id % CAPACITY
  {
  }

  function NextId(g: nat): nat { if g + 1 < IDS then g + 1 else 0 }

  /** How far it is from generator value g to an id of the last slot, counting over the wrap. */
  function Distance(g: nat): nat
    requires g < IDS
  {
    var last := g - g % CAPACITY + CAPACITY - 1;
    if last < IDS then last - g else IDS - g + CAPACITY - 1
  }

  lemma DistanceNext(g: nat)
    requires g < IDS && g % CAPACITY != CAPACITY - 1
    ensures Distance(NextId(g)) + 1 == Distance(g)
  {
  }

  class Table {
    var elems: array<Option<nat>>
    var size: nat
    var generator: nat

    ghost predicate Valid()
      reads this, elems
    {
      && elems.Length == CAPACITY && generator < IDS
      && Trimmed(elems[..], size) && InPlace(elems[..])
    }

    constructor ()
      ensures Valid() && fresh(elems) && generator == 0 && forall i :: 0 <= i < CAPACITY ==> elems[i].None?
    {
      size, generator := 0, 0;
      elems := new Option<nat>[CAPACITY](i => None);
    }

    method At(i: nat) returns (e: Option<nat>)
      requires Valid() && i < CAPACITY
      ensures e == elems[i]
    {
      if i >= size { return None; }
      return elems[i];
    }

    /** client_create_mread_request: fails exactly if the last slot is taken, and otherwise finds
        a free slot for a new id. */
    method Create() returns (r: Option<nat>, ghost steps: nat)
      requires Valid()
      modifies this`size, this`generator, elems
      ensures Valid()
      ensures r.None? <==> old(elems[..])[CAPACITY - 1].Some?
      ensures r.None? ==> elems[..] == old(elems[..]) && generator == old(generator)
      ensures r.Some? ==> !old(Active(elems[..], r.value)) && elems[..] == old(elems[..])[r.value % CAPACITY := r]
      ensures r.Some? ==> r.value < IDS && old(elems[..])[r.value % CAPACITY].None? && generator == NextId(r.value)
      ensures r.Some? && old(elems[..])[old(generator) % CAPACITY].None? ==> r.value == old(generator)
      ensures r.Some? ==> steps <= 2 * CAPACITY && (old(generator) + CAPACITY <= IDS ==> steps <= CAPACITY)
    {
      steps := 0;
      if size == CAPACITY { return None, 0; }
      var id: nat, ndx: nat, existing := Pick();
      steps := 1;
      ghost var g := old(generator);
      while existing.Some?
        invariant id < IDS && generator == NextId(id) && ndx == id % CAPACITY && existing == elems[ndx]
        invariant steps + Distance(id) <= 1 + Distance(g) && (old(elems[..])[g % CAPACITY].None? ==> id == g)
        invariant Valid() && elems[..] == old(elems[..]) && size < CAPACITY
        decreases Distance(id)
      {
        DistanceNext(id);
        id, ndx, existing := Pick();
        steps := steps + 1;
      }
      elems[ndx] := Some(id);
      if ndx + 1 > size { size := ndx + 1; }
      r := Some(id);
    }

    method Pick() returns (id: nat, ndx: nat, existing: Option<nat>)
      requires Valid()
      modifies this`generator
      ensures Valid() && id == old(generator) && generator == NextId(id) && ndx == id % CAPACITY &&
        existing == elems[ndx]
    {
      id := generator;
      generator := NextId(generator);
      ndx := id % CAPACITY;
      existing := At(ndx);
    }

    /** client_get_mread_status: an mread is found exactly if its id is active. */
    method Get(id: nat) returns (found: bool)
      requires Valid() && id < IDS
      ensures found <==> Active(elems[..], id)
    {
      ActiveAt(elems[..], id);
      var e := At(id % CAPACITY);
      found := e == Some(id);
    }

    /** client_remove_mread_request: the slot of the id is free afterwards, also when it was another
        multi-read that had it; only then, or if there was none, is a failure reported. */
    method Remove(id: nat) returns (ok: bool)
      requires Valid() && id < IDS
      modifies this`size, elems
      ensures Valid() && (ok <==> old(Active(elems[..], id)))
      ensures elems[..] == old(elems[..])[id % CAPACITY := None] && !Active(elems[..], id)
      ensures generator == old(generator)
    {
      ActiveAt(elems[..], id);
      var pos := id % CAPACITY;
      var item := At(pos);
      if item.Some? { Clear(pos); }
      ok := item == Some(id);
      ActiveAt(elems[..], id);
    }

    /** arraylist_remove of an element that is there. */
    method Clear(pos: nat)
      requires Valid() && pos < CAPACITY && elems[pos].Some?
      modifies this`size, elems
      ensures Valid() && elems[..] == old(elems[..])[pos := None]
    {
      elems[pos] := None;
      assert elems[..] == old(elems[..])[pos := None];
      if pos + 1 == size {
        size := size - 1;
        var i := pos - 1;
        while i >= 0 && elems[i].None?
          modifies this`size
          invariant -1 <= i < CAPACITY && size == i + 1 && elems[..] == old(elems[..])[pos := None]
          invariant forall j :: size <= j < CAPACITY ==> elems[..][j].None?
        {
          size := size - 1;
          i := i - 1;
        }
      }
    }
  }

  /** A new table takes as many multi-reads as it has slots. */
  method Fill() returns (t: Table)
    ensures fresh(t) && fresh(t.elems) && t.Valid() && forall i :: 0 <= i < CAPACITY ==> t.elems[i] == Some(i)
  {
    t := new Table();
    for k := 0 to CAPACITY
      invariant fresh(t) && fresh(t.elems) && t.Valid() && t.generator == k
      invariant forall i :: 0 <= i < CAPACITY ==> t.elems[i] == if i < k then Some(i) else None
    {
      var r; ghost var steps;
      assert t.elems[..][k % CAPACITY].None? && t.elems[..][CAPACITY - 1].None?;
      r, steps := t.Create();
    }
  }

  /** All but the last multi-read are done: the table has one active multi-read and refuses more. */
  method RefusesWithRoom() returns (t: Table, r: Option<nat>)
    ensures t.Valid() && r.None? && forall i :: 0 <= i < CAPACITY - 1 ==> t.elems[i].None?
  {
    t := Fill();
    for k := 0 to CAPACITY - 1
      invariant fresh(t) && fresh(t.elems) && t.Valid()
      invariant forall i :: 0 <= i < CAPACITY ==> t.elems[i] == if i < k then None else Some(i)
    {
      var ok := t.Remove(k);
    }
    ghost var steps;
    r, steps := t.Create();
  }
}
